/** The tree of zone locations that the menus descend, and the zone they end at. */
module TimezoneTree {
  import opened Text
  import opened TimezoneNames
  import opened Wrappers

  /** A place in the tree: the top, or a name under another place. */
  datatype Path = Top | Under(parent: Path, name: string)

  function PathOf(names: seq<string>): Path {
    if names == [] then Top else Under(PathOf(names[..|names| - 1]), names[|names| - 1])
  }

  function NamesOf(p: Path): seq<string> {
    match p
    case Top => []
    case Under(parent, name) => NamesOf(parent) + [name]
  }

  lemma {:induction false} NamesOfPath(names: seq<string>)
    ensures NamesOf(PathOf(names)) == names
  {
    if names != [] {
      NamesOfPath(names[..|names| - 1]);
    }
  }

  lemma {:induction false} PathOfNames(p: Path)
    ensures PathOf(NamesOf(p)) == p
  {
    match p
    case Top =>
    case Under(parent, name) =>
      PathOfNames(parent);
      assert NamesOf(p)[..|NamesOf(p)| - 1] == NamesOf(parent);
  }

  /** The places on the way to the k-th name. */
  function PathsAlong(names: seq<string>, k: nat): set<Path>
    requires k <= |names|
  {
    if k == 0 then {Top} else PathsAlong(names, k - 1) + {PathOf(names[..k])}
  }

  lemma {:induction false} PathsAlongArePrefixes(names: seq<string>, k: nat, p: Path)
    requires k <= |names|
    ensures p in PathsAlong(names, k) <==> NamesOf(p) <= names[..k]
  {
    PathOfNames(p);
    if k > 0 {
      PathsAlongArePrefixes(names, k - 1, p);
      NamesOfPath(names[..k]);
      assert NamesOf(p) <= names[..k] <==> NamesOf(p) <= names[..k - 1] || NamesOf(p) == names[..k];
    }
  }

  lemma OneNameFurther(names: seq<string>, k: nat)
    requires k < |names|
    ensures PathOf(names[..k + 1]) == Under(PathOf(names[..k]), names[k])
    ensures forall p :: p in PathsAlong(names, k + 1) <==> p in PathsAlong(names, k) || p == PathOf(names[..k + 1])
  {
    var longer := names[..k + 1];
    assert longer != [] && longer[..|longer| - 1] == names[..k] && longer[|longer| - 1] == names[k];
    assert PathsAlong(names, k + 1) == PathsAlong(names, k) + {PathOf(longer)};
  }

  // ----- what a tree with these places and terminal places says

  ghost predicate Closed(keys: set<Path>) {
    Top in keys && forall p, name :: Under(p, name) in keys ==> p in keys
  }

  ghost predicate IsLeaf(keys: set<Path>, p: Path) {
    p in keys && forall name :: Under(p, name) !in keys
  }

  /** The tree holds exactly these locations: they are its terminal places, and all places lie on the way to one. */
  ghost predicate Holds(keys: set<Path>, terminals: set<Path>, locations: seq<string>) {
    && (forall p :: p in terminals <==> exists l :: l in locations && NamesOf(p) == Parts(l))
    && (forall p :: p in keys <==> p == Top || exists l :: l in locations && NamesOf(p) <= Parts(l))
  }

  lemma NothingHeld()
    ensures Holds({Top}, {}, [])
  {
  }

  lemma OneMoreHeld(keys: set<Path>, terminals: set<Path>, keys': set<Path>, terminals': set<Path>,
                    locations: seq<string>, path: string)
    requires Holds(keys, terminals, locations)
    requires terminals' == terminals + {PathOf(Parts(path))}
    requires forall p :: p in keys' <==> p in keys || p in PathsAlong(Parts(path), |Parts(path)|)
    ensures Holds(keys', terminals', locations + [path])
  {
    hide Parts, PathOf, PathsAlong, NamesOf;
    var parts := Parts(path);
    forall p ensures p in PathsAlong(parts, |parts|) <==> NamesOf(p) <= parts {
      PathsAlongArePrefixes(parts, |parts|, p);
      assert parts[..|parts|] == parts;
    }
    forall p ensures p == PathOf(parts) <==> NamesOf(p) == parts {
      NamesOfPath(parts);
      PathOfNames(p);
    }
    forall l ensures l in locations + [path] <==> l in locations || l == path {
    }
  }

  lemma {:induction false} PlacesOnTheWay(keys: set<Path>, p: Path, q: Path)
    requires Closed(keys) && q in keys && NamesOf(p) <= NamesOf(q)
    ensures p in keys
    ensures NamesOf(p) < NamesOf(q) ==> Under(p, NamesOf(q)[|NamesOf(p)|]) in keys
    decreases q
  {
    if NamesOf(p) == NamesOf(q) {
      PathOfNames(p);
      PathOfNames(q);
    } else {
      assert q == Under(q.parent, q.name) && NamesOf(p) <= NamesOf(q.parent);
      PlacesOnTheWay(keys, p, q.parent);
      if NamesOf(p) == NamesOf(q.parent) {
        PathOfNames(p);
        PathOfNames(q.parent);
      }
    }
  }

  /** The menus end exactly at the locations that no other location continues, and each of these is terminal. */
  lemma LeavesAreUnextended(keys: set<Path>, terminals: set<Path>, locations: seq<string>, p: Path)
    requires Closed(keys) && Holds(keys, terminals, locations) && locations != []
    ensures IsLeaf(keys, p) <==> p in terminals && forall l :: l in locations ==> !(NamesOf(p) < Parts(l))
  {
    hide Parts;
    if IsLeaf(keys, p) {
      forall l | l in locations ensures !(NamesOf(p) < Parts(l)) {
        NamesOfPath(Parts(l));
        if NamesOf(p) < Parts(l) {
          PlacesOnTheWay(keys, p, PathOf(Parts(l)));
        }
      }
      assert locations[0] in locations;
      assert p == Top ==> NamesOf(p) <= Parts(locations[0]);
    } else if p in terminals {
      assert p in keys;
      var name :| Under(p, name) in keys;
      assert NamesOf(p) < NamesOf(Under(p, name));
    }
  }

  // ----- menus

  /** The operator: given the names chosen so far and a menu, one of its entries. */
  type Operator = (seq<string>, set<string>) -> string

  ghost predicate PicksFromMenu(choose: Operator) {
    forall chosen, menu :: menu != {} ==> choose(chosen, menu) in menu
  }

  /** The operator goes for these names as long as the menus offer them. */
  ghost predicate GoesFor(choose: Operator, names: seq<string>) {
    forall k, menu :: 0 <= k < |names| && names[k] in menu ==> choose(names[..k], menu) == names[k]
  }

  /** The places at or below one. */
  ghost function Below(keys: set<Path>, p: Path): set<Path> {
    set q | q in keys && NamesOf(p) <= NamesOf(q)
  }

  lemma BelowShrinks(keys: set<Path>, p: Path, name: string)
    requires p in keys
    ensures Below(keys, Under(p, name)) < Below(keys, p)
  {
    assert p in Below(keys, p) && p !in Below(keys, Under(p, name));
    forall q | q in Below(keys, Under(p, name)) ensures q in Below(keys, p) {
      assert NamesOf(Under(p, name))[..|NamesOf(p)|] == NamesOf(p);
    }
  }

  lemma NoNamesAtTop(area: string)
    ensures NamesOf(Top) == [] && Join([area], "/") == area
  {
  }

  lemma NamesUnder(p: Path, name: string)
    ensures NamesOf(Under(p, name)) == NamesOf(p) + [name]
  {
  }

  lemma NoMenuIsLeaf(keys: set<Path>, p: Path)
    requires p in keys && forall name :: Under(p, name) !in keys
    ensures IsLeaf(keys, p)
  {
  }

  /** One step of an operator who goes for a place in the tree. */
  lemma NextName(keys: set<Path>, p: Path, want: Path, menu: set<string>, area: string, choose: Operator)
    requires Closed(keys) && p in keys && IsLeaf(keys, want) && NamesOf(p) <= NamesOf(want)
    requires forall name :: name in menu <==> Under(p, name) in keys
    requires GoesFor(choose, [area] + NamesOf(want))
    ensures menu == {} ==> p == want
    ensures menu != {} ==> NamesOf(Under(p, choose([area] + NamesOf(p), menu))) <= NamesOf(want)
  {
    var goal, k := [area] + NamesOf(want), |NamesOf(p)|;
    PathOfNames(p);
    PathOfNames(want);
    PlacesOnTheWay(keys, p, want);
    if NamesOf(p) == NamesOf(want) {
      assert p == want;
    } else {
      assert goal[k + 1] == NamesOf(want)[k] && goal[k + 1] in menu;
      assert goal[..k + 1] == [area] + NamesOf(p);
    }
  }

  class TimezoneNode {
    var terminal: bool
    var children: map<string, TimezoneNode>
    ghost const path: Path

    constructor (ghost path: Path)
      ensures !terminal && children == map[] && this.path == path
    {
      this.path := path;
      terminal := false;
      children := map[];
    }
  }

  type Children = map<TimezoneNode, map<string, TimezoneNode>>

  /** The children of a node are the nodes right under it. */
  ghost predicate Linked(kids: Children, places: set<Path>) {
    && (forall n, name :: n in kids ==> (name in kids[n] <==> Under(n.path, name) in places))
    && (forall n, name :: n in kids && name in kids[n] ==> kids[n][name] in kids && kids[n][name].path == Under(n.path, name))
  }

  ghost function Insert(kids: Children, current: TimezoneNode, name: string, node: TimezoneNode): Children
    requires current in kids
  {
    kids[current := kids[current][name := node]]
  }

  ghost function WithChild(kids: Children, current: TimezoneNode, name: string, node: TimezoneNode): Children
    requires current in kids
  {
    Insert(kids[node := map[]], current, name, node)
  }

  /** They still are when one more is entered under its parent. */
  lemma LinkOneMore(kids: Children, places: set<Path>, current: TimezoneNode, name: string, node: TimezoneNode)
    requires Linked(kids, places) && Closed(places)
    requires forall n :: n in kids ==> n.path in places
    requires forall n :: n in kids && n.path == current.path ==> n == current
    requires current in kids && name !in kids[current] && node !in kids && node.path == Under(current.path, name)
    ensures Linked(WithChild(kids, current, name, node), places + {node.path})
    ensures Closed(places + {node.path}) && node.path !in places
  {
    forall other ensures Under(node.path, other) !in places + {node.path} {
    }
  }

  /** A tree of nodes, with the ghost set of the places that have a node. */
  class Tree {
    const root: TimezoneNode
    ghost var repr: set<TimezoneNode>
    ghost var places: set<Path>
    ghost var terminals: set<Path>

    /** One node for every place, no two for the same. */
    ghost predicate Registered()
      reads this, repr`terminal
    {
      && root in repr && root.path == Top
      && Closed(places) && terminals <= places
      && (forall n :: n in repr ==> n.path in places && (n.terminal <==> n.path in terminals))
      && (forall n, m :: n in repr && m in repr && n.path == m.path ==> n == m)
    }

    ghost function Kids(): Children
      reads this`repr, repr`children
    {
      map n | n in repr :: n.children
    }

    ghost predicate Valid()
      reads this, repr
    {
      Registered() && Linked(Kids(), places)
    }

    constructor ()
      ensures Valid() && fresh(repr)
      ensures places == {Top} && terminals == {}
    {
      root := new TimezoneNode(Top);
      new;
      repr, places, terminals := {root}, {Top}, {};
    }

    /** Enter a new node that no node lists yet. */
    ghost method Register(node: TimezoneNode)
      requires Registered() && Closed(places + {node.path}) && node.path !in places && node !in repr
      requires !node.terminal && node.children == map[]
      modifies this`places, this`repr
      ensures Registered() && places == old(places) + {node.path} && repr == old(repr) + {node}
      ensures Kids() == old(Kids())[node := map[]]
    {
      places, repr := places + {node.path}, repr + {node};
    }

    method List(current: TimezoneNode, name: string, node: TimezoneNode)
      requires Registered() && current in repr
      modifies current`children
      ensures Registered() && Kids() == Insert(old(Kids()), current, name, node)
    {
      current.children := current.children[name := node];
    }

    method AddChild(current: TimezoneNode, name: string) returns (node: TimezoneNode)
      requires Valid() && current in repr && name !in current.children
      modifies this`places, this`repr, current`children
      ensures Valid() && fresh(repr - old(repr))
      ensures node.path == Under(current.path, name) && node in repr
      ensures forall p :: p in places <==> p in old(places) || p == node.path
    {
      node := new TimezoneNode(Under(current.path, name));
      LinkOneMore(Kids(), places, current, name, node);
      hide Linked, Closed, Registered, Kids, Insert;
      Register(node);
      List(current, name, node);
    }

    /** The child of that name, which is created if there is none. */
    method Child(current: TimezoneNode, name: string) returns (child: TimezoneNode)
      requires Valid() && current in repr
      modifies this`places, this`repr, current`children
      ensures Valid() && fresh(repr - old(repr))
      ensures child.path == Under(current.path, name) && child in repr
      ensures forall p :: p in places <==> p in old(places) || p == child.path
    {
      if name !in current.children {
        child := AddChild(current, name);
      } else {
        child := current.children[name];
      }
    }

    method InsertTimezone(path: string)
      requires Valid()
      modifies this, repr
      ensures Valid() && fresh(repr - old(repr))
      ensures terminals == old(terminals) + {PathOf(Parts(path))}
      ensures forall p :: p in places <==> p in old(places) || p in PathsAlong(Parts(path), |Parts(path)|)
    {
      assert Parts("") == [];
      hide Parts, PathOf;
      if path == "" {
        MarkTerminal(root);
        return;
      }
      var parts := SplitTimezonePath(path);
      var current := Walk(parts);
      MarkTerminal(current);
    }

    /** The walk along the parts, through the nodes it creates on the way. */
    method Walk(parts: seq<string>) returns (current: TimezoneNode)
      requires Valid()
      modifies this`places, this`repr, repr
      ensures Valid() && fresh(repr - old(repr))
      ensures current.path == PathOf(parts) && current in repr
      ensures forall p :: p in places <==> p in old(places) || p in PathsAlong(parts, |parts|)
    {
      current := root;
      assert root in repr && root.path == Top && parts[..0] == [] && PathOf([]) == Top && PathsAlong(parts, 0) == {Top};
      ghost var before := places;
      hide Valid, PathOf, PathsAlong;
      for i := 0 to |parts|
        invariant Valid() && fresh(repr - old(repr))
        invariant current.path == PathOf(parts[..i])
        invariant current in repr
        invariant forall p :: p in places <==> p in before || p in PathsAlong(parts, i)
      {
        OneNameFurther(parts, i);
        current := Child(current, parts[i]);
      }
      assert parts[..|parts|] == parts;
    }

    method MarkTerminal(current: TimezoneNode)
      requires Valid() && current in repr
      modifies this`terminals, current`terminal
      ensures Valid()
      ensures terminals == old(terminals) + {current.path}
    {
      current.terminal := true;
      terminals := terminals + {current.path};
    }

    /** From the empty tree to one of exactly these locations. */
    method InsertAll(locations: seq<string>)
      requires Valid() && places == {Top} && terminals == {}
      modifies this, repr
      ensures Valid() && fresh(repr - old(repr))
      ensures Holds(places, terminals, locations)
    {
      hide *;
      NothingHeld();
      for i := 0 to |locations|
        invariant Valid() && fresh(repr - old(repr))
        invariant Holds(places, terminals, locations[..i])
      {
        ghost var keys, marked := places, terminals;
        InsertTimezone(locations[i]);
        OneMoreHeld(keys, marked, places, terminals, locations[..i], locations[i]);
        assert locations[..i + 1] == locations[..i] + [locations[i]];
      }
      assert locations[..|locations|] == locations;
    }

    /** The names of a node's children are the names of the places right under it. */
    lemma MenuOf(node: TimezoneNode)
      requires Valid() && node in repr
      ensures node.path in places && Closed(places)
      ensures forall name :: name in node.children <==> Under(node.path, name) in places
    {
    }

    lemma KeysAreClosed()
      requires Valid()
      ensures Closed(places)
    {
    }

    /** The program's own check for a tree without any location never fires. */
    lemma NeverEmpty(locations: seq<string>)
      requires Valid() && Holds(places, terminals, locations) && locations != []
      ensures root.terminal || root.children != map[]
    {
      hide Parts;
      if root.children == map[] {
        MenuOf(root);
        LeavesAreUnextended(places, terminals, locations, Top);
      }
    }

    /** Menu after menu down to a node without children. */
    method Descend(area: string, choose: Operator, ghost want: Path) returns (zone: string, ghost end: Path)
      requires Valid() && PicksFromMenu(choose)
      ensures IsLeaf(places, end) && zone == Join([area] + NamesOf(end), "/")
      ensures IsLeaf(places, want) && GoesFor(choose, [area] + NamesOf(want)) ==> end == want
    {
      hide Join, IsLeaf, Below, GoesFor, NamesOf;
      zone := area;
      var chosen := [area];
      var current := root;
      NoNamesAtTop(area);
      ghost var meant := IsLeaf(places, want) && GoesFor(choose, [area] + NamesOf(want));
      while current.children != map[]
        invariant current in repr && chosen == [area] + NamesOf(current.path) && zone == Join(chosen, "/")
        invariant meant ==> NamesOf(current.path) <= NamesOf(want)
        decreases Below(places, current.path)
      {
        MenuOf(current);
        if meant {
          NextName(places, current.path, want, current.children.Keys, area, choose);
        }
        var name := choose(chosen, current.children.Keys);
        BelowShrinks(places, current.path, name);
        JoinLast(chosen, name, "/");
        NamesUnder(current.path, name);
        zone := zone + "/" + name;
        chosen := chosen + [name];
        current := current.children[name];
      }
      end := current.path;
      MenuOf(current);
      NoMenuIsLeaf(places, end);
      if meant {
        NextName(places, end, want, {}, area, choose);
      }
    }
  }

  // ----- the two selection steps

  /** A zone that no other zone continues. */
  ghost predicate Selectable(output: seq<string>, tz: string) {
    tz in output && tz != "" && forall other :: other in output && other != "" ==> !(Parts(tz) < Parts(other))
  }

  /** A zone that another one continues cannot be the outcome, under its own name or the same with a slash. */
  lemma ContinuedZoneIsNeverSelected(output: seq<string>, tz: string, other: string, selected: string)
    requires tz in output && tz != "" && other in output && other != "" && Parts(tz) < Parts(other)
    requires Selectable(output, selected)
    ensures WithoutTrailingSlash(selected) != WithoutTrailingSlash(tz)
  {
    PartsAreFields(tz);
    PartsAreFields(selected);
  }

  /** One zone continues another exactly when they share the area and the one location continues the other. */
  lemma ContinuesWithinArea(tz: string, other: string)
    requires tz != "" && other != ""
    ensures Parts(tz) < Parts(other) <==>
            AreaOf(tz) == AreaOf(other) && Parts(LocationOf(tz)) < Parts(LocationOf(other))
  {
    hide *;
    AreaThenLocation(tz);
    AreaThenLocation(other);
    var x, y, xs, ys := AreaOf(tz), AreaOf(other), Parts(LocationOf(tz)), Parts(LocationOf(other));
    assert ([x] + xs)[1..] == xs && ([y] + ys)[1..] == ys && ([x] + xs)[0] == x && ([y] + ys)[0] == y;
  }

  lemma LeafIsZone(output: seq<string>, area: string, keys: set<Path>, terminals: set<Path>, end: Path) returns (tz: string)
    requires LocationsIn(output, area) != []
    requires Closed(keys) && Holds(keys, terminals, LocationsIn(output, area)) && IsLeaf(keys, end)
    ensures Selectable(output, tz) && Parts(tz) == [area] + NamesOf(end)
  {
    hide Parts, AreaOf, LocationOf, LocationsIn, NamesOf, IsLeaf;
    var locations := LocationsIn(output, area);
    LeavesAreUnextended(keys, terminals, locations, end);
    var l :| l in locations && NamesOf(end) == Parts(l);
    LocationsAreZones(output, area, l);
    tz :| tz in output && tz != "" && AreaOf(tz) == area && LocationOf(tz) == l;
    AreaThenLocation(tz);
    forall other | other in output && other != "" ensures !(Parts(tz) < Parts(other)) {
      ContinuesWithinArea(tz, other);
      LocationsAreZones(output, area, LocationOf(other));
    }
  }

  lemma ZoneIsLeaf(output: seq<string>, tz: string, keys: set<Path>, terminals: set<Path>) returns (end: Path)
    requires Selectable(output, tz)
    requires Closed(keys) && Holds(keys, terminals, LocationsIn(output, AreaOf(tz)))
    ensures LocationsIn(output, AreaOf(tz)) != []
    ensures IsLeaf(keys, end) && Parts(tz) == [AreaOf(tz)] + NamesOf(end)
  {
    hide Parts, AreaOf, LocationOf, LocationsIn, NamesOf, PathOf, IsLeaf;
    var locations := LocationsIn(output, AreaOf(tz));
    LocationsAreZones(output, AreaOf(tz), LocationOf(tz));
    AreaThenLocation(tz);
    end := PathOf(Parts(LocationOf(tz)));
    NamesOfPath(Parts(LocationOf(tz)));
    forall l | l in locations ensures !(NamesOf(end) < Parts(l)) {
      LocationsAreZones(output, AreaOf(tz), l);
      var other :| other in output && other != "" && AreaOf(other) == AreaOf(tz) && LocationOf(other) == l;
      ContinuesWithinArea(tz, other);
    }
    LeavesAreUnextended(keys, terminals, locations, end);
  }

  /** There is an area exactly when there is a zone. */
  lemma NoAreas(timezones: Timezones, output: seq<string>)
    requires GroupsByArea(timezones, output)
    ensures timezones == map[] <==> forall tz :: tz in output ==> tz == ""
  {
    hide LocationsIn, AreaOf, LocationOf;
    forall tz | tz in output && tz != "" ensures AreaOf(tz) in timezones {
      LocationsAreZones(output, AreaOf(tz), LocationOf(tz));
    }
    if area :| area in timezones {
      var l := LocationsIn(output, area)[0];
      LocationsAreZones(output, area, l);
    } else {
      assert timezones == map[];
    }
  }

  /** The operator who goes for a zone picks its area. */
  lemma AreaPicked(timezones: Timezones, output: seq<string>, want: string, choose: Operator)
    requires GroupsByArea(timezones, output) && want in output && want != "" && GoesFor(choose, Parts(want))
    ensures choose([], timezones.Keys) == AreaOf(want)
  {
    hide LocationsIn, AreaOf, LocationOf, Parts;
    LocationsAreZones(output, AreaOf(want), LocationOf(want));
    AreaThenLocation(want);
    assert Parts(want)[..0] == [] && Parts(want)[0] == AreaOf(want);
  }

  /** The location menus of one area. */
  method SelectLocation(ghost output: seq<string>, area: string, locations: seq<string>, choose: Operator, ghost want: string)
    returns (zone: string)
    requires PicksFromMenu(choose) && locations == LocationsIn(output, area) && locations != []
    ensures exists tz :: Selectable(output, tz) && zone == WithoutTrailingSlash(tz)
    ensures Selectable(output, want) && AreaOf(want) == area && GoesFor(choose, Parts(want)) ==>
              zone == WithoutTrailingSlash(want)
  {
    hide Join, WithoutTrailingSlash, IsLeaf, Holds, Parts, AreaOf, LocationOf, LocationsIn, GoesFor, Selectable;
    var tree := new Tree();
    tree.InsertAll(locations);
    tree.NeverEmpty(locations);
    ghost var keys := tree.places;
    tree.KeysAreClosed();
    ghost var goal := Top;
    if Selectable(output, want) && AreaOf(want) == area {
      goal := ZoneIsLeaf(output, want, keys, tree.terminals);
    }
    ghost var end;
    zone, end := tree.Descend(area, choose, goal);
    ghost var tz := LeafIsZone(output, area, keys, tree.terminals, end);
    SelectableIsNotEmpty(output, tz);
    PartsRejoin(tz);
    if Selectable(output, want) && AreaOf(want) == area && GoesFor(choose, Parts(want)) {
      SelectableIsNotEmpty(output, want);
      PartsRejoin(want);
    }
  }

  lemma SelectableIsNotEmpty(output: seq<string>, tz: string)
    requires Selectable(output, tz)
    ensures tz in output && tz != ""
  {
  }

  /** The zone menus: first the area, then the names below it. There is no zone to select when none was found. */
  method SelectTimezone(output: seq<string>, choose: Operator, ghost want: string) returns (selected: Option<string>)
    requires PicksFromMenu(choose)
    ensures selected.None? <==> forall tz :: tz in output ==> tz == ""
    ensures selected.Some? ==> exists tz :: Selectable(output, tz) && selected.value == WithoutTrailingSlash(tz)
    ensures Selectable(output, want) && GoesFor(choose, Parts(want)) ==> selected == Some(WithoutTrailingSlash(want))
  {
    hide Parts, AreaOf, LocationOf, LocationsIn, GoesFor, Selectable, WithoutTrailingSlash;
    var available := FetchAvailableTimezones(output);
    NoAreas(available, output);
    if Selectable(output, want) {
      SelectableIsNotEmpty(output, want);
    }
    if available == map[] {
      return None;
    }
    var area := choose([], available.Keys);
    if Selectable(output, want) && GoesFor(choose, Parts(want)) {
      AreaPicked(available, output, want, choose);
    }
    var zone := SelectLocation(output, area, available[area], choose, want);
    return Some(zone);
  }
}
