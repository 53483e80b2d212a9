/** Expanding the selected repositories with the repositories they depend on. */
module RepoClosure {

  type Graph = map<string, seq<string>>

  predicate NoDuplicates<T(==)>(s: seq<T>) {
    forall i, j :: 0 <= i < j < |s| ==> s[i] != s[j]
  }

  ghost function Unvisited(deps: Graph, seen: seq<string>): set<string> {
    set id | id in deps && id !in seen
  }

  /** The list after a depth-first visit of one repository, given what is listed already. */
  function Visit(deps: Graph, id: string, seen: seq<string>): (r: seq<string>)
    ensures seen <= r
    decreases Unvisited(deps, seen), 0
  {
    if id in seen then seen
    else if id !in deps then seen + [id]
    else
      assert id in Unvisited(deps, seen) && id !in Unvisited(deps, seen + [id]);
      VisitAll(deps, deps[id], seen + [id])
  }

  function VisitAll(deps: Graph, ids: seq<string>, seen: seq<string>): (r: seq<string>)
    ensures seen <= r
    decreases Unvisited(deps, seen), 1, |ids|
  {
    if ids == [] then seen
    else
      var next := Visit(deps, ids[0], seen);
      assert Unvisited(deps, next) <= Unvisited(deps, seen);
      VisitAll(deps, ids[1..], next)
  }

  function Expand(deps: Graph, ids: seq<string>): seq<string> {
    VisitAll(deps, ids, [])
  }

  /** The growing list of one expansion, and the set that guards it. */
  class Expansion {
    const deps: Graph
    var expanded: seq<string>
    var seen: set<string>

    ghost predicate Valid()
      reads this
    {
      forall id :: id in seen <==> id in expanded
    }

    constructor (deps: Graph)
      ensures Valid() && this.deps == deps && expanded == []
    {
      this.deps := deps;
      expanded, seen := [], {};
    }

    method Append(id: string)
      requires Valid()
      modifies this
      ensures Valid() && expanded == Visit(deps, id, old(expanded))
      decreases Unvisited(deps, expanded)
    {
      if id in seen {
        return;
      }
      seen := seen + {id};
      expanded := expanded + [id];
      if id in deps {
        assert id in Unvisited(deps, old(expanded)) && id !in Unvisited(deps, expanded);
        var i := 0;
        ghost var start := expanded;
        while i < |deps[id]|
          invariant 0 <= i <= |deps[id]|
          invariant Valid() && start <= expanded
          invariant VisitAll(deps, deps[id][i..], expanded) == VisitAll(deps, deps[id], start)
        {
          assert Unvisited(deps, expanded) <= Unvisited(deps, start);
          Append(deps[id][i]);
          i := i + 1;
        }
      }
    }
  }

  method ExpandSelectedRepositoryIds(deps: Graph, repositoryIds: seq<string>) returns (expanded: seq<string>)
    ensures expanded == Expand(deps, repositoryIds)
  {
    var expansion := new Expansion(deps);
    var i := 0;
    while i < |repositoryIds|
      invariant 0 <= i <= |repositoryIds|
      invariant expansion.Valid() && expansion.deps == deps
      invariant VisitAll(deps, repositoryIds[i..], expansion.expanded) == Expand(deps, repositoryIds)
    {
      expansion.Append(repositoryIds[i]);
      i := i + 1;
    }
    expanded := expansion.expanded;
  }

  // ----- what the expansion is

  predicate Closed(deps: Graph, s: set<string>) {
    forall id :: id in s && id in deps ==> forall d :: d in deps[id] ==> d in s
  }

  ghost function SetOf<T(!new)>(s: seq<T>): set<T> {
    set x | x in s
  }

  lemma {:induction false} VisitSound(deps: Graph, id: string, seen: seq<string>, s: set<string>)
    requires NoDuplicates(seen)
    ensures
      var r := Visit(deps, id, seen);
      && NoDuplicates(r) && id in r
      && (forall x :: x in r && x !in seen && x in deps ==> forall d :: d in deps[x] ==> d in r)
      && (Closed(deps, s) && id in s && SetOf(seen) <= s ==> SetOf(r) <= s)
    decreases Unvisited(deps, seen), 0
  {
    if id !in seen && id in deps {
      assert id in Unvisited(deps, seen) && id !in Unvisited(deps, seen + [id]);
      VisitAllSound(deps, deps[id], seen + [id], s);
    }
  }

  lemma {:induction false} VisitAllSound(deps: Graph, ids: seq<string>, seen: seq<string>, s: set<string>)
    requires NoDuplicates(seen)
    ensures
      var r := VisitAll(deps, ids, seen);
      && NoDuplicates(r) && (forall id :: id in ids ==> id in r)
      && (forall x :: x in r && x !in seen && x in deps ==> forall d :: d in deps[x] ==> d in r)
      && (Closed(deps, s) && SetOf(ids) <= s && SetOf(seen) <= s ==> SetOf(r) <= s)
    decreases Unvisited(deps, seen), 1, |ids|
  {
    if ids != [] {
      var next := Visit(deps, ids[0], seen);
      assert Unvisited(deps, next) <= Unvisited(deps, seen);
      VisitSound(deps, ids[0], seen, s);
      VisitAllSound(deps, ids[1..], next, s);
      var r := VisitAll(deps, ids, seen);
      assert next <= r;
      assert ids == [ids[0]] + ids[1..];
      forall x | x in r && x !in seen && x in deps ensures forall d :: d in deps[x] ==> d in r {
        if x in next {
          assert forall d :: d in deps[x] ==> d in next;
        }
      }
    }
  }

  /** The expansion lists, once each, the least set that holds the selection and its dependencies. */
  lemma ExpandIsLeastClosure(deps: Graph, ids: seq<string>, s: set<string>)
    ensures NoDuplicates(Expand(deps, ids))
    ensures SetOf(ids) <= SetOf(Expand(deps, ids)) && Closed(deps, SetOf(Expand(deps, ids)))
    ensures SetOf(ids) <= s && Closed(deps, s) ==> SetOf(Expand(deps, ids)) <= s
  {
    VisitAllSound(deps, ids, [], s);
  }

  // ----- idempotence, in order

  /** Revisiting a listed repository from the moment it was listed gives a prefix of the same list. */
  lemma {:induction false} ReplayOne(deps: Graph, id: string, seen: seq<string>, i: nat)
    requires |seen| <= i < |Visit(deps, id, seen)|
    ensures
      var r := Visit(deps, id, seen);
      Visit(deps, r[i], r[..i]) <= r
    decreases Unvisited(deps, seen), 0
  {
    var r := Visit(deps, id, seen);
    if i == |seen| {
      assert r[..i] == seen;
      if id in deps {
        assert seen + [id] <= r && r[i] == (seen + [id])[i];
      }
    } else {
      assert id in Unvisited(deps, seen) && id !in Unvisited(deps, seen + [id]);
      ReplayAll(deps, deps[id], seen + [id], i);
    }
  }

  lemma {:induction false} ReplayAll(deps: Graph, ids: seq<string>, seen: seq<string>, i: nat)
    requires |seen| <= i < |VisitAll(deps, ids, seen)|
    ensures
      var r := VisitAll(deps, ids, seen);
      Visit(deps, r[i], r[..i]) <= r
    decreases Unvisited(deps, seen), 1, |ids|
  {
    var r := VisitAll(deps, ids, seen);
    var next := Visit(deps, ids[0], seen);
    assert Unvisited(deps, next) <= Unvisited(deps, seen);
    assert next <= r;
    if i < |next| {
      ReplayOne(deps, ids[0], seen, i);
      assert r[..i] == next[..i] && r[i] == next[i];
      assert Visit(deps, r[i], r[..i]) <= next;
    } else {
      ReplayAll(deps, ids[1..], next, i);
    }
  }

  ghost predicate Replays(deps: Graph, r: seq<string>, k: nat)
    requires k < |r|
  {
    Visit(deps, r[k], r[..k]) <= r
  }

  lemma {:induction false} ReplayRest(deps: Graph, r: seq<string>, i: nat, j: nat)
    requires i <= j <= |r| && NoDuplicates(r)
    requires forall k :: 0 <= k < |r| ==> Replays(deps, r, k)
    ensures VisitAll(deps, r[i..], r[..j]) == r
    decreases |r| - i
  {
    if i == |r| {
      assert r[..j] == r;
    } else {
      assert r[i..][1..] == r[i + 1..];
      if i < j {
        assert r[i] == r[..j][i];
        assert Visit(deps, r[i], r[..j]) == r[..j];
        ReplayRest(deps, r, i + 1, j);
      } else {
        assert Replays(deps, r, i);
        var next := Visit(deps, r[i], r[..i]);
        assert next <= r && next == r[..|next|];
        assert r[i] !in r[..i];
        assert |next| > i;
        ReplayRest(deps, r, i + 1, |next|);
      }
    }
  }

  /** Expanding an expanded selection changes nothing, not even the order. */
  lemma ExpandIsIdempotent(deps: Graph, ids: seq<string>)
    ensures Expand(deps, Expand(deps, ids)) == Expand(deps, ids)
  {
    var r := Expand(deps, ids);
    VisitAllSound(deps, ids, [], {});
    forall k | 0 <= k < |r| ensures Replays(deps, r, k) {
      ReplayAll(deps, ids, [], k);
    }
    ReplayRest(deps, r, 0, 0);
    assert r[0..] == r && r[..0] == [];
  }

  /** The dependencies the program ships. */
  const DEPENDENCIES: Graph := map["beegfs" := ["grafana", "influxdata"]]

  /** Under the shipped table the expansion appends at most BeeGFS's two monitoring repositories. */
  lemma ShippedDependencies(ids: seq<string>)
    ensures
      var r := SetOf(Expand(DEPENDENCIES, ids));
      r == SetOf(ids) + if "beegfs" in ids then {"grafana", "influxdata"} else {}
  {
    var s := SetOf(ids) + if "beegfs" in ids then {"grafana", "influxdata"} else {};
    assert Closed(DEPENDENCIES, s);
    ExpandIsLeastClosure(DEPENDENCIES, ids, s);
    if "beegfs" in ids {
      assert DEPENDENCIES["beegfs"][0] == "grafana" && DEPENDENCIES["beegfs"][1] == "influxdata";
    }
  }

  lemma TwoMore(deps: Graph, a: string, b: string, seen: seq<string>)
    requires a !in deps && b !in deps && a !in seen && b !in seen && a != b
    ensures VisitAll(deps, [a, b], seen) == seen + [a, b]
  {
    assert [a, b][1..] == [b] && [b][1..] == [];
    assert b !in seen + [a];
    assert VisitAll(deps, [b], seen + [a]) == seen + [a] + [b];
    assert VisitAll(deps, [a, b], seen) == VisitAll(deps, [b], seen + [a]);
    assert seen + [a] + [b] == seen + [a, b];
  }

  /** The dependencies of BeeGFS are listed right after it, in their order, before the rest of the selection. */
  lemma DependenciesFollow(first: string, last: string)
    requires first !in {"beegfs", "grafana", "influxdata"} && last !in {"beegfs", "grafana", "influxdata"} && first != last
    ensures Expand(DEPENDENCIES, [first, "beegfs", last]) == [first, "beegfs", "grafana", "influxdata", last]
  {
    var deps := DEPENDENCIES;
    var ids := [first, "beegfs", last];
    assert "beegfs"[0] == 'b' && "grafana"[0] == 'g' && "influxdata"[0] == 'i';
    assert deps["beegfs"] == ["grafana", "influxdata"] && first !in deps && last !in deps;
    TwoMore(deps, "grafana", "influxdata", [first, "beegfs"]);
    assert ids[1..] == ["beegfs", last] && ["beegfs", last][1..] == [last] && [last][1..] == [];
    assert Visit(deps, first, []) == [first];
    assert [first] + ["beegfs"] == [first, "beegfs"];
    var four := [first, "beegfs"] + ["grafana", "influxdata"];
    assert Visit(deps, "beegfs", [first]) == four;
    assert VisitAll(deps, [last], four) == four + [last];
    assert VisitAll(deps, ["beegfs", last], [first]) == four + [last];
    assert ids[0] == first && VisitAll(deps, ids, []) == VisitAll(deps, ids[1..], Visit(deps, ids[0], []));
    assert four + [last] == [first, "beegfs", "grafana", "influxdata", last];
  }
}
