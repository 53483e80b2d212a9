/** Reading and writing the repository files of the package manager. */
module RepoFiles {
  import opened KeyFiles
  import opened Text
  import opened Wrappers

  datatype Repo = Repo(
    id: string,
    group: string,
    name: string,
    enabled: bool,
    gpgcheck: bool,
    baseurl: Option<string>,
    metalink: Option<string>,
    gpgkey: Option<string>,
    source: string)

  type Repos = map<string, Repo>

  datatype RepoError =
    | MissingName(group: string)
    | EmptyName(group: string)
    | BadBoolean(group: string, key: string)

  function ParseRepoBoolean(file: KeyFile, group: string, key: string, default: bool): Result<bool, RepoError> {
    match file.GetStringOpt(group, key)
    case None => Success(default)
    case Some(value) =>
      var normalized := Lower(Trim(value));
      if normalized == "1" || normalized == "true" || normalized == "yes" then Success(true)
      else if normalized == "0" || normalized == "false" || normalized == "no" then Success(false)
      else Failure(BadBoolean(group, key))
  }

  /** What one group of a file says. */
  function RepoOf(file: KeyFile, group: string, path: string): (r: Result<Repo, RepoError>)
    ensures r.Success? ==>
      r.value.id == group && r.value.group == group && r.value.source == path && r.value.name != ""
  {
    match file.GetStringOpt(group, "name")
    case None => Failure(MissingName(group))
    case Some(name) =>
      if name == "" then Failure(EmptyName(group)) else
      var gpgkey := file.GetStringOpt(group, "gpgkey");
      var enabled :- ParseRepoBoolean(file, group, "enabled", true);
      var gpgcheck :- ParseRepoBoolean(file, group, "gpgcheck", gpgkey.Some?);
      Success(Repo(group, group, name, enabled, gpgcheck, file.GetStringOpt(group, "baseurl"),
                   file.GetStringOpt(group, "metalink"), gpgkey, path))
  }

  function Emplace<K, V>(m: map<K, V>, k: K, v: V): map<K, V> {
    if k in m then m else m[k := v]
  }

  /** The first n groups of a file, up to the first one that cannot be read. */
  function ParsePrefix(file: KeyFile, n: nat, path: string): Result<Repos, RepoError>
    requires n <= |file.groups|
  {
    if n == 0 then Success(map[])
    else
      var repos :- ParsePrefix(file, n - 1, path);
      var repo :- RepoOf(file, file.groups[n - 1], path);
      Success(Emplace(repos, repo.id, repo))
  }

  function Parsed(file: KeyFile, path: string): Result<Repos, RepoError> {
    ParsePrefix(file, |file.groups|, path)
  }

  method Parse(file: KeyFile, path: string) returns (r: Result<Repos, RepoError>)
    ensures r == Parsed(file, path)
  {
    hide RepoOf;
    var output: Repos := map[];
    var i := 0;
    while i < |file.groups|
      invariant 0 <= i <= |file.groups|
      invariant ParsePrefix(file, i, path) == Success(output)
    {
      var repo := RepoOf(file, file.groups[i], path);
      if repo.Failure? {
        FailurePersists(file, i + 1, path);
        return Failure(repo.error);
      }
      output := Emplace(output, repo.value.id, repo.value);
      i := i + 1;
    }
    return Success(output);
  }

  lemma {:induction false} FailurePersists(file: KeyFile, n: nat, path: string)
    requires n <= |file.groups| && ParsePrefix(file, n, path).Failure?
    ensures Parsed(file, path) == ParsePrefix(file, n, path)
    decreases |file.groups| - n
  {
    hide RepoOf;
    if n < |file.groups| {
      FailurePersists(file, n + 1, path);
    }
  }

  lemma {:induction false} ParseSucceeds(file: KeyFile, n: nat, path: string)
    requires n <= |file.groups|
    ensures ParsePrefix(file, n, path).Success? <==>
      forall i :: 0 <= i < n ==> RepoOf(file, file.groups[i], path).Success?
  {
    hide RepoOf;
    if n > 0 {
      ParseSucceeds(file, n - 1, path);
    }
  }

  lemma {:induction false} ParsedPrefix(file: KeyFile, n: nat, path: string)
    requires n <= |file.groups| && ParsePrefix(file, n, path).Success?
    ensures
      var repos := ParsePrefix(file, n, path).value;
      && (forall i :: 0 <= i < n ==> file.groups[i] in repos)
      && (forall g :: g in repos ==> g in file.groups && RepoOf(file, g, path) == Success(repos[g]))
  {
    hide RepoOf;
    if n > 0 {
      ParsedPrefix(file, n - 1, path);
    }
  }

  /** A file reads as these repositories exactly when each of its groups reads as one of them. */
  lemma ParsedExactly(file: KeyFile, path: string, repos: Repos)
    requires file.Valid()
    ensures Parsed(file, path) == Success(repos) <==>
      && repos.Keys == file.entries.Keys
      && forall g :: g in repos ==> RepoOf(file, g, path) == Success(repos[g])
  {
    hide RepoOf;
    ParseSucceeds(file, |file.groups|, path);
    if Parsed(file, path).Success? {
      ParsedPrefix(file, |file.groups|, path);
    }
    var r := Parsed(file, path);
    if repos.Keys == file.entries.Keys && (forall g :: g in repos ==> RepoOf(file, g, path) == Success(repos[g])) {
      forall i | 0 <= i < |file.groups| ensures RepoOf(file, file.groups[i], path).Success? {
        assert file.groups[i] in repos;
      }
      assert r.value == repos;
    }
    if r == Success(repos) {
      assert repos.Keys == file.entries.Keys;
    }
  }

  // ----- what a file says, in terms of its entries

  /** A switch, in any case and between white space; no entry leaves it at the default. */
  predicate IsSwitch(entry: map<string, string>, key: string) {
    key in entry ==> Lower(Trim(entry[key])) in {"1", "true", "yes", "0", "false", "no"}
  }

  predicate SwitchedOn(entry: map<string, string>, key: string, default: bool) {
    if key in entry then Lower(Trim(entry[key])) in {"1", "true", "yes"} else default
  }

  function Entry(entry: map<string, string>, key: string): Option<string> {
    if key in entry then Some(entry[key]) else None
  }

  /** One group that reads as a repository. */
  predicate Says(entry: map<string, string>, id: string, path: string, repo: Repo) {
    && "name" in entry && entry["name"] != "" && IsSwitch(entry, "enabled") && IsSwitch(entry, "gpgcheck")
    && repo.id == id && repo.group == id && repo.name == entry["name"] && repo.source == path
    && repo.enabled == SwitchedOn(entry, "enabled", true)
    && repo.gpgcheck == SwitchedOn(entry, "gpgcheck", "gpgkey" in entry)
    && repo.baseurl == Entry(entry, "baseurl")
    && repo.metalink == Entry(entry, "metalink")
    && repo.gpgkey == Entry(entry, "gpgkey")
  }

  lemma SwitchWords()
    ensures {"1", "true", "yes"} !! {"0", "false", "no"}
  {
    var on, off := {"1", "true", "yes"}, {"0", "false", "no"};
    forall w | w in on ensures w !in off {
      assert w[0] == '1' || w[0] == 't' || w[0] == 'y';
      assert "0"[0] == '0' && "false"[0] == 'f' && "no"[0] == 'n';
    }
  }

  /** The words letter by letter: capitals read like small letters, and digits as themselves. */
  lemma WordsByLetter(text: string)
    ensures Lower(text) == "1" <==> text == "1"
    ensures Lower(text) == "0" <==> text == "0"
    ensures Lower(text) == "no" <==> |text| == 2 && text[0] in {'n', 'N'} && text[1] in {'o', 'O'}
    ensures Lower(text) == "yes" <==> |text| == 3 && text[0] in {'y', 'Y'} && text[1] in {'e', 'E'} && text[2] in {'s', 'S'}
    ensures Lower(text) == "true" <==>
      |text| == 4 && text[0] in {'t', 'T'} && text[1] in {'r', 'R'} && text[2] in {'u', 'U'} && text[3] in {'e', 'E'}
    ensures Lower(text) == "false" <==>
      && |text| == 5 && text[0] in {'f', 'F'} && text[1] in {'a', 'A'} && text[2] in {'l', 'L'}
      && text[3] in {'s', 'S'} && text[4] in {'e', 'E'}
  {
    var low := Lower(text);
    assert forall i :: 0 <= i < |text| ==> low[i] == LowerChar(text[i]);
    assert low == "1" <==> |low| == 1 && low[0] == '1';
    assert low == "0" <==> |low| == 1 && low[0] == '0';
    assert low == "no" <==> |low| == 2 && low[0] == 'n' && low[1] == 'o';
    assert low == "yes" <==> |low| == 3 && low[0] == 'y' && low[1] == 'e' && low[2] == 's';
    assert low == "true" <==> |low| == 4 && low[0] == 't' && low[1] == 'r' && low[2] == 'u' && low[3] == 'e';
    assert low == "false" <==>
      |low| == 5 && low[0] == 'f' && low[1] == 'a' && low[2] == 'l' && low[3] == 's' && low[4] == 'e';
    assert |text| == 1 ==> text == [text[0]];
  }

  lemma SwitchReads(file: KeyFile, group: string, key: string, default: bool)
    requires group in file.entries
    ensures ParseRepoBoolean(file, group, key, default).Success? <==> IsSwitch(file.entries[group], key)
    ensures IsSwitch(file.entries[group], key) ==>
      ParseRepoBoolean(file, group, key, default) == Success(SwitchedOn(file.entries[group], key, default))
  {
    SwitchWords();
    hide Lower, Trim;
  }

  lemma GroupSays(file: KeyFile, group: string, path: string, repo: Repo)
    requires group in file.entries
    ensures RepoOf(file, group, path) == Success(repo) <==> Says(file.entries[group], group, path, repo)
  {
    hide ParseRepoBoolean, IsSwitch, SwitchedOn;
    SwitchReads(file, group, "enabled", true);
    SwitchReads(file, group, "gpgcheck", "gpgkey" in file.entries[group]);
  }

  /**
   * A file reads as these repositories exactly when it has a group for each, and the group says so: a switch is
   * 1, true or yes, or 0, false or no, in any case; enabled is on by default, gpgcheck if there is a key.
   */
  lemma ParsedSays(file: KeyFile, path: string, repos: Repos)
    requires file.Valid()
    ensures Parsed(file, path) == Success(repos) <==>
      repos.Keys == file.entries.Keys && forall g :: g in repos ==> Says(file.entries[g], g, path, repos[g])
  {
    hide RepoOf, Says, Parsed;
    ParsedExactly(file, path, repos);
    forall g | g in repos && g in file.entries
      ensures RepoOf(file, g, path) == Success(repos[g]) <==> Says(file.entries[g], g, path, repos[g])
    {
      GroupSays(file, g, path, repos[g]);
    }
  }

  /** A file fails to read exactly when some group has no name, or a switch that is none of these words. */
  lemma UnreadableFiles(file: KeyFile, path: string)
    requires file.Valid()
    ensures Parsed(file, path).Failure? <==>
      exists g :: g in file.entries &&
        !("name" in file.entries[g] && file.entries[g]["name"] != ""
          && IsSwitch(file.entries[g], "enabled") && IsSwitch(file.entries[g], "gpgcheck"))
  {
    hide Parsed, IsSwitch, SwitchedOn;
    if forall g :: g in file.entries ==>
        "name" in file.entries[g] && file.entries[g]["name"] != ""
        && IsSwitch(file.entries[g], "enabled") && IsSwitch(file.entries[g], "gpgcheck")
    {
      var repos := map g | g in file.entries :: RepoSaid(file.entries[g], g, path);
      ParsedSays(file, path, repos);
    } else if Parsed(file, path).Success? {
      ParsedSays(file, path, Parsed(file, path).value);
    }
  }

  function RepoSaid(entry: map<string, string>, id: string, path: string): Repo
    requires "name" in entry
  {
    Repo(id, id, entry["name"], SwitchedOn(entry, "enabled", true), SwitchedOn(entry, "gpgcheck", "gpgkey" in entry),
         Entry(entry, "baseurl"), Entry(entry, "metalink"), Entry(entry, "gpgkey"), path)
  }

  // ----- writing

  function BooleanText(b: bool): string {
    if b then "true" else "false"
  }

  /** An absent optional field leaves what is written already. */
  function SetOpt(group: map<string, string>, key: string, value: Option<string>): map<string, string> {
    if value.Some? then group[key := value.value] else group
  }

  function WriteRepo(group: map<string, string>, repo: Repo): map<string, string> {
    var required := group["name" := repo.name]["enabled" := BooleanText(repo.enabled)]["gpgcheck" := BooleanText(repo.gpgcheck)];
    SetOpt(SetOpt(SetOpt(required, "gpgkey", repo.gpgkey), "metalink", repo.metalink), "baseurl", repo.baseurl)
  }

  /** The entries after writing repositories over a file. */
  function Merged(file: KeyFile, repos: Repos): map<string, map<string, string>> {
    map g | g in file.entries.Keys + repos.Keys ::
      if g in repos then WriteRepo(file.Group(g), repos[g]) else file.entries[g]
  }

  /** Repositories are filed under their id, in the group of that name. */
  predicate WellFiled(repos: Repos) {
    forall id :: id in repos ==> repos[id].id == id && repos[id].group == id
  }

  method SetOptional(file: KeyFile, group: string, key: string, value: Option<string>) returns (out: KeyFile)
    requires file.Valid() && group in file.entries
    ensures out.Valid() && out.entries == file.entries[group := SetOpt(file.entries[group], key, value)]
  {
    out := file;
    if value.Some? {
      out := out.SetString(group, key, value.value);
    }
  }

  method SetThree(existing: KeyFile, group: string, k: string, a: string, l: string, b: string, m: string, c: string)
    returns (file: KeyFile)
    requires existing.Valid()
    ensures file.Valid() && group in file.entries
    ensures file.entries == existing.entries[group := existing.Group(group)[k := a][l := b][m := c]]
  {
    file := existing.SetString(group, k, a);
    file := file.SetString(group, l, b);
    file := file.SetString(group, m, c);
  }

  method SetThreeOptional(existing: KeyFile, group: string,
                          k: string, a: Option<string>, l: string, b: Option<string>, m: string, c: Option<string>)
    returns (file: KeyFile)
    requires existing.Valid() && group in existing.entries
    ensures file.Valid()
    ensures file.entries == existing.entries[group := SetOpt(SetOpt(SetOpt(existing.entries[group], k, a), l, b), m, c)]
  {
    hide SetOpt;
    file := SetOptional(existing, group, k, a);
    file := SetOptional(file, group, l, b);
    file := SetOptional(file, group, m, c);
  }

  method WriteGroup(existing: KeyFile, repo: Repo) returns (file: KeyFile)
    requires existing.Valid()
    ensures file.Valid()
    ensures file.entries == existing.entries[repo.group := WriteRepo(existing.Group(repo.group), repo)]
  {
    hide SetOpt, BooleanText;
    file := SetThree(existing, repo.group,
      "name", repo.name, "enabled", BooleanText(repo.enabled), "gpgcheck", BooleanText(repo.gpgcheck));
    file := SetThreeOptional(file, repo.group, "gpgkey", repo.gpgkey, "metalink", repo.metalink, "baseurl", repo.baseurl);
  }

  lemma MergeNothing(file: KeyFile)
    ensures Merged(file, map[]) == file.entries
  {
  }

  lemma MergeOneMore(file: KeyFile, now: KeyFile, written: Repos, repo: Repo)
    requires repo.group !in written && now.entries == Merged(file, written)
    ensures now.entries[repo.group := WriteRepo(now.Group(repo.group), repo)] == Merged(file, written[repo.group := repo])
  {
    hide WriteRepo;
    assert now.Group(repo.group) == file.Group(repo.group);
  }

  method Unparse(repos: Repos, existing: KeyFile) returns (file: KeyFile)
    requires existing.Valid() && WellFiled(repos)
    ensures file.Valid() && file.entries == Merged(existing, repos)
  {
    hide WriteRepo, Merged;
    file := existing;
    MergeNothing(existing);
    var rest := repos.Keys;
    ghost var written: Repos := map[];
    while rest != {}
      invariant rest <= repos.Keys && written.Keys == repos.Keys - rest
      invariant forall id :: id in written ==> written[id] == repos[id]
      invariant file.Valid() && file.entries == Merged(existing, written)
      decreases |rest|
    {
      var id :| id in rest;
      MergeOneMore(existing, file, written, repos[id]);
      file := WriteGroup(file, repos[id]);
      written := written[id := repos[id]];
      rest := rest - {id};
    }
    assert written == repos;
  }

  /** What a group reads as after a repository was written over it. */
  function Overlaid(group: map<string, string>, repo: Repo, path: string): Repo {
    repo.(
      baseurl := Kept(group, "baseurl", repo.baseurl),
      metalink := Kept(group, "metalink", repo.metalink),
      gpgkey := Kept(group, "gpgkey", repo.gpgkey),
      source := path)
  }

  function Kept(group: map<string, string>, key: string, value: Option<string>): Option<string> {
    if value.Some? then value else if key in group then Some(group[key]) else None
  }

  lemma KeysDiffer()
    ensures
      var keys := ["name", "enabled", "gpgcheck", "gpgkey", "metalink", "baseurl"];
      forall i, j :: 0 <= i < j < 6 ==> keys[i] != keys[j]
  {
    assert "enabled"[0] != "baseurl"[0] && "gpgcheck"[0] != "metalink"[0];
  }

  lemma BooleanReadsBack(b: bool)
    ensures Lower(Trim(BooleanText(b))) == BooleanText(b)
    ensures "true" != "false" && "true" != "1" && "true" != "0" && "true" != "no" && "true" != "yes"
    ensures "false" != "1" && "false" != "0" && "false" != "no" && "false" != "yes"
  {
    var text := BooleanText(b);
    assert Trim(text) == text;
    assert Lower(text) == text;
  }

  lemma WrittenFields(group: map<string, string>, repo: Repo)
    ensures
      var written := WriteRepo(group, repo);
      && "name" in written && written["name"] == repo.name
      && "enabled" in written && written["enabled"] == BooleanText(repo.enabled)
      && "gpgcheck" in written && written["gpgcheck"] == BooleanText(repo.gpgcheck)
      && Kept(written, "gpgkey", None) == Kept(group, "gpgkey", repo.gpgkey)
      && Kept(written, "metalink", None) == Kept(group, "metalink", repo.metalink)
      && Kept(written, "baseurl", None) == Kept(group, "baseurl", repo.baseurl)
  {
    hide BooleanText;
    KeysDiffer();
    var keys := ["name", "enabled", "gpgcheck", "gpgkey", "metalink", "baseurl"];
    assert keys[0] != keys[1] && keys[0] != keys[2] && keys[0] != keys[3] && keys[0] != keys[4] && keys[0] != keys[5];
    assert keys[1] != keys[2] && keys[1] != keys[3] && keys[1] != keys[4] && keys[1] != keys[5];
    assert keys[2] != keys[3] && keys[2] != keys[4] && keys[2] != keys[5];
    assert keys[3] != keys[4] && keys[3] != keys[5] && keys[4] != keys[5];
  }

  lemma BooleanFieldReadsBack(file: KeyFile, group: string, key: string, b: bool, default: bool)
    requires file.GetStringOpt(group, key) == Some(BooleanText(b))
    ensures ParseRepoBoolean(file, group, key, default) == Success(b)
  {
    BooleanReadsBack(b);
  }

  lemma WrittenGroupReadsBack(file: KeyFile, group: map<string, string>, repo: Repo, path: string)
    requires repo.group in file.entries && file.entries[repo.group] == WriteRepo(group, repo)
    ensures repo.name == "" ==> RepoOf(file, repo.group, path) == Failure(EmptyName(repo.group))
    ensures repo.name != "" && repo.id == repo.group ==>
      RepoOf(file, repo.group, path) == Success(Overlaid(group, repo, path))
  {
    hide WriteRepo, ParseRepoBoolean, BooleanText;
    WrittenFields(group, repo);
    BooleanFieldReadsBack(file, repo.group, "enabled", repo.enabled, true);
    BooleanFieldReadsBack(file, repo.group, "gpgcheck", repo.gpgcheck, file.GetStringOpt(repo.group, "gpgkey").Some?);
  }

  /** Saving is a merge: written groups read as the overlay, all other groups as before. */
  lemma SaveIsMerge(existing: KeyFile, file: KeyFile, repos: Repos, path: string, g: string)
    requires WellFiled(repos) && file.entries == Merged(existing, repos) && g in file.entries
    ensures g !in repos ==> RepoOf(file, g, path) == RepoOf(existing, g, path)
    ensures g in repos && repos[g].name != "" ==>
      RepoOf(file, g, path) == Success(Overlaid(existing.Group(g), repos[g], path))
    ensures g in repos && repos[g].name == "" ==> RepoOf(file, g, path) == Failure(EmptyName(g))
  {
    if g in repos {
      WrittenGroupReadsBack(file, existing.Group(g), repos[g], path);
    } else {
      assert file.entries[g] == existing.entries[g];
      assert forall key :: file.GetStringOpt(g, key) == existing.GetStringOpt(g, key);
    }
  }

  function MovedTo(repos: Repos, path: string): Repos {
    map id | id in repos :: repos[id].(source := path)
  }

  /** Writing repositories to a new file and reading it back is the identity, but for the path. */
  lemma NewFileRoundTrip(repos: Repos, file: KeyFile, path: string)
    requires WellFiled(repos)
    requires file.Valid() && file.entries == Merged(EMPTY, repos)
    ensures Parsed(file, path) == Success(MovedTo(repos, path)) <==> forall id :: id in repos ==> repos[id].name != ""
  {
    hide RepoOf, WriteRepo;
    var moved := MovedTo(repos, path);
    forall id | id in repos
      ensures RepoOf(file, id, path) == Success(moved[id]) <==> repos[id].name != ""
    {
      SaveIsMerge(EMPTY, file, repos, path, id);
    }
    ParsedExactly(file, path, moved);
    assert file.entries.Keys == repos.Keys == moved.Keys;
  }

  /** Writing a repository over the group it was read from changes no optional field. */
  lemma OverlayOfRead(file: KeyFile, g: string, path: string, read: Repo, repo: Repo)
    requires g in file.entries && RepoOf(file, g, path) == Success(read)
    requires repo == read.(enabled := repo.enabled)
    ensures Overlaid(file.Group(g), repo, path) == repo
  {
    hide ParseRepoBoolean;
  }

  /** Saving what was read from a file, with other switches, reads back as exactly that. */
  lemma SwitchedFileRoundTrip(existing: KeyFile, read: Repos, repos: Repos, file: KeyFile, path: string)
    requires existing.Valid() && Parsed(existing, path) == Success(read)
    requires repos.Keys == read.Keys
    requires forall id :: id in repos ==> repos[id] == read[id].(enabled := repos[id].enabled)
    requires file.Valid() && file.entries == Merged(existing, repos)
    ensures Parsed(file, path) == Success(repos)
  {
    hide RepoOf, WriteRepo, Overlaid, Parsed, BooleanText, ParseRepoBoolean;
    ParsedExactly(existing, path, read);
    forall id | id in repos
      ensures Overlaid(existing.Group(id), repos[id], path) == repos[id]
      ensures repos[id].id == repos[id].group == id && repos[id].name != ""
    {
      assert RepoOf(existing, id, path) == Success(read[id]);
      OverlayOfRead(existing, id, path, read[id], repos[id]);
    }
    forall id | id in repos ensures RepoOf(file, id, path) == Success(repos[id]) {
      SaveIsMerge(existing, file, repos, path, id);
    }
    ParsedExactly(file, path, repos);
    assert file.entries.Keys == repos.Keys;
  }
}
