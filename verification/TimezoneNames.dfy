/** Time zone names as paths: areas, locations and the parts between slashes. */
module TimezoneNames {
  import opened Text
  import opened Wrappers

  /** The fields between slashes; a slash at the end does not open another field. */
  function Parts(path: string): seq<string> {
    var fields := SplitOn(path, '/');
    if fields[|fields| - 1] == "" then fields[..|fields| - 1] else fields
  }

  lemma SlashAt(text: string, i: nat)
    ensures OccursAt(text, "/", i) <==> i < |text| && text[i] == '/'
  {
    if i < |text| {
      assert text[i..i + 1] == [text[i]];
    }
  }

  lemma FirstSlash(text: string, k: Option<nat>)
    requires k == FindFrom(text, "/", 0)
    ensures k.None? ==> '/' !in text
    ensures k.Some? ==> k.value < |text| && text[k.value] == '/' && '/' !in text[..k.value]
  {
    hide FindFrom, OccursAt;
    forall i: nat ensures OccursAt(text, "/", i) <==> i < |text| && text[i] == '/' {
      SlashAt(text, i);
    }
    if k.Some? {
      assert forall i :: 0 <= i < k.value ==> text[..k.value][i] == text[i] && !OccursAt(text, "/", i);
    } else {
      assert forall i :: 0 <= i < |text| ==> !OccursAt(text, "/", i);
    }
  }

  lemma PartsOfFields(field: string, fields: seq<string>, text: string)
    requires fields != [] && SplitOn(text, '/') == [field] + fields
    ensures Parts(text) == [field] + if fields[|fields| - 1] == "" then fields[..|fields| - 1] else fields
  {
    assert ([field] + fields)[..|fields|] == [field] + fields[..|fields| - 1];
  }

  lemma CutAtSlash(text: string, k: nat)
    requires k < |text| && text[k] == '/' && '/' !in text[..k]
    ensures Parts(text) == [text[..k]] + Parts(text[k + 1..])
  {
    hide SplitOn;
    var field, rest := text[..k], text[k + 1..];
    SplitField(field, '/', rest);
    assert field + ['/'] + rest == text;
    PartsOfFields(field, SplitOn(rest, '/'), text);
  }

  lemma NoSlash(text: string)
    requires text != "" && '/' !in text
    ensures Parts(text) == [text]
  {
    SplitField(text, '/', "");
  }

  /** One turn of the splitting loop. */
  lemma PartsStep(text: string)
    requires text != ""
    ensures
      match FindFrom(text, "/", 0)
      case None => Parts(text) == [text]
      case Some(k) => k < |text| && Parts(text) == [text[..k]] + Parts(text[k + 1..])
  {
    hide *;
    FirstSlash(text, FindFrom(text, "/", 0));
    match FindFrom(text, "/", 0)
    case None => NoSlash(text);
    case Some(k) => CutAtSlash(text, k);
  }

  lemma SliceOfRest(path: string, start: nat, n: nat)
    requires start + n < |path|
    ensures path[start..][..n] == path[start..start + n] && path[start..][n + 1..] == path[start + n + 1..]
  {
  }

  lemma PartsCut(rest: string, n: nat, head: string, tail: string)
    requires rest != "" && FindFrom(rest, "/", 0) == Some(n) && n < |rest|
    requires head == rest[..n] && tail == rest[n + 1..]
    ensures Parts(rest) == [head] + Parts(tail)
  {
    hide *;
    PartsStep(rest);
  }

  lemma PartsWhole(rest: string)
    requires rest != "" && FindFrom(rest, "/", 0) == None
    ensures Parts(rest) == [rest]
  {
    hide *;
    PartsStep(rest);
  }

  lemma SlashInRest(path: string, start: nat)
    requires start < |path|
    ensures
      match FindFrom(path, "/", start)
      case None => FindFrom(path[start..], "/", 0) == None
      case Some(k) => start <= k < |path| && FindFrom(path[start..], "/", 0) == Some(k - start)
  {
    hide FindFrom;
    FindInSuffix(path, "/", start, 0);
  }

  /** The same step seen from a position inside the path. */
  lemma PartsFrom(path: string, start: nat)
    requires start < |path|
    ensures
      match FindFrom(path, "/", start)
      case None => Parts(path[start..]) == [path[start..]]
      case Some(k) => start <= k < |path| && Parts(path[start..]) == [path[start..k]] + Parts(path[k + 1..])
  {
    hide *;
    SlashInRest(path, start);
    match FindFrom(path, "/", start)
    case None => PartsWhole(path[start..]);
    case Some(k) =>
      SliceOfRest(path, start, k - start);
      PartsCut(path[start..], k - start, path[start..k], path[k + 1..]);
  }

  lemma Extended(parts: seq<string>, part: string, rest: seq<string>)
    ensures (parts + [part]) + rest == parts + ([part] + rest)
  {
  }

  method SplitTimezonePath(path: string) returns (parts: seq<string>)
    ensures parts == Parts(path)
  {
    assert path[0..] == path;
    assert Parts("") == [];
    hide *;
    parts := [];
    var start: nat := 0;
    while start < |path|
      invariant start <= |path| && parts + Parts(path[start..]) == Parts(path)
      decreases |path| - start
    {
      var slash := FindFrom(path, "/", start);
      PartsFrom(path, start);
      if slash.None? {
        parts := parts + [path[start..]];
        return;
      }
      Extended(parts, path[start..slash.value], Parts(path[slash.value + 1..]));
      parts := parts + [path[start..slash.value]];
      start := slash.value + 1;
    }
    assert path[start..] == "";
  }

  // ----- areas and locations

  function AreaOf(tz: string): string {
    match FindFrom(tz, "/", 0)
    case None => tz
    case Some(k) => tz[..k]
  }

  function LocationOf(tz: string): string {
    match FindFrom(tz, "/", 0)
    case None => ""
    case Some(k) => if k < |tz| then tz[k + 1..] else ""
  }

  function WithoutTrailingSlash(tz: string): string {
    if tz != "" && tz[|tz| - 1] == '/' then tz[..|tz| - 1] else tz
  }

  /** Splitting a name into area and location first, as the program does, splits it into the same parts. */
  lemma AreaThenLocation(tz: string)
    requires tz != ""
    ensures Parts(tz) == [AreaOf(tz)] + Parts(LocationOf(tz))
  {
    PartsStep(tz);
    assert Parts("") == [];
  }

  /** The parts joined again: a slash at the end is lost, and nothing else. */
  lemma PartsRejoin(tz: string)
    requires tz != ""
    ensures Parts(tz) != [] && Join(Parts(tz), "/") == WithoutTrailingSlash(tz)
    ensures Join(Parts(tz), "/") == tz <==> tz[|tz| - 1] != '/'
  {
    hide SplitOn;
    var fields := SplitOn(tz, '/');
    JoinSplit(tz, '/');
    var init, last := fields[..|fields| - 1], fields[|fields| - 1];
    assert fields == init + [last];
    if init == [] {
      assert tz == last;
    } else {
      JoinLast(init, last, "/");
      assert tz == Join(init, "/") + "/" + last;
    }
  }

  lemma {:induction false} SlashAtEnd(text: string)
    ensures SplitOn(text + "/", '/') == SplitOn(text, '/') + [""]
  {
    if text == "" {
      assert "" + "/" == "/" && "/"[1..] == "";
    } else {
      assert (text + "/")[1..] == text[1..] + "/";
      SlashAtEnd(text[1..]);
    }
  }

  /** The parts are the fields of the name without a slash at the end, so they tell names apart but for that slash. */
  lemma PartsAreFields(tz: string)
    requires tz != ""
    ensures Parts(tz) == SplitOn(WithoutTrailingSlash(tz), '/')
  {
    hide SplitOn;
    var w := WithoutTrailingSlash(tz);
    if w == tz {
      PartsRejoin(tz);
      JoinSplit(tz, '/');
      var fields := SplitOn(tz, '/');
      if fields[|fields| - 1] == "" {
        JoinLastEmpty(fields);
      }
    } else {
      assert tz == w + "/";
      SlashAtEnd(w);
    }
  }

  lemma JoinLastEmpty(fields: seq<string>)
    requires fields != [] && fields[|fields| - 1] == ""
    ensures Join(fields, "/") == "" || Join(fields, "/")[|Join(fields, "/")| - 1] == '/'
  {
    if |fields| > 1 {
      JoinLast(fields[..|fields| - 1], "", "/");
      assert fields == fields[..|fields| - 1] + [""];
    }
  }

  /** The available zones by area; locations of one area keep their order. */
  type Timezones = map<string, seq<string>>

  function LocationsIn(output: seq<string>, area: string): seq<string> {
    if output == [] then []
    else
      var init, tz := output[..|output| - 1], output[|output| - 1];
      LocationsIn(init, area) + if tz != "" && AreaOf(tz) == area then [LocationOf(tz)] else []
  }

  ghost predicate GroupsByArea(timezones: Timezones, output: seq<string>) {
    && (forall area :: area in timezones <==> LocationsIn(output, area) != [])
    && (forall area :: area in timezones ==> timezones[area] == LocationsIn(output, area))
  }

  /** An area lists exactly the locations of its zones. */
  lemma {:induction false} LocationsAreZones(output: seq<string>, area: string, location: string)
    ensures location in LocationsIn(output, area) <==>
            exists tz :: tz in output && tz != "" && AreaOf(tz) == area && LocationOf(tz) == location
  {
    if output != [] {
      var init, tz := output[..|output| - 1], output[|output| - 1];
      LocationsAreZones(init, area, location);
      assert output == init + [tz];
    }
  }

  method InsertTimezone(timezones: Timezones, tz: string) returns (updated: Timezones)
    ensures tz == "" ==> updated == timezones
    ensures tz != "" ==>
              updated == timezones[AreaOf(tz) := (if AreaOf(tz) in timezones then timezones[AreaOf(tz)] else []) + [LocationOf(tz)]]
  {
    if tz == "" {
      return timezones;
    }
    var slash := FindFrom(tz, "/", 0);
    FirstSlash(tz, slash);
    var area, location := tz, "";
    if slash.Some? {
      area, location := tz[..slash.value], tz[slash.value + 1..];
    }
    var others := if area in timezones then timezones[area] else [];
    return timezones[area := others + [location]];
  }

  method FetchAvailableTimezones(output: seq<string>) returns (timezones: Timezones)
    ensures GroupsByArea(timezones, output)
  {
    timezones := map[];
    for i := 0 to |output|
      invariant GroupsByArea(timezones, output[..i])
    {
      assert output[..i + 1][..i] == output[..i];
      timezones := InsertTimezone(timezones, output[i]);
    }
    assert output[..|output|] == output;
  }
}
