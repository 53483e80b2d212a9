/** Which repositories are managed, which of them are enabled, and writing that to the files. */
module RepoSelection {
  import opened KeyFiles
  import opened RepoClosure
  import opened RepoFiles
  import opened RepoManager
  import opened Wrappers

  datatype Selection = Selection(name: string, enabled: bool)

  /** What the operator selected: repositories and OpenHPC bundles, either possibly never asked. */
  datatype Choice = Choice(repositories: Option<seq<string>>, bundles: Option<seq<string>>)

  /** The repositories to enable: the mandatory ones, the expanded selection, and oneAPI for Intel. */
  predicate Wanted(mandatory: seq<string>, choice: Choice, id: string) {
    || id in mandatory
    || (choice.repositories.Some? && id in Expand(DEPENDENCIES, choice.repositories.value))
    || (choice.bundles.Some? && "intel-oneapi" in choice.bundles.value && id == "oneAPI")
  }

  /** In terms of the operator's own list: BeeGFS brings its two monitoring repositories, nothing else is added. */
  lemma WantedInPlainTerms(mandatory: seq<string>, choice: Choice, id: string)
    ensures Wanted(mandatory, choice, id) <==>
      || id in mandatory
      || (choice.repositories.Some? && id in choice.repositories.value)
      || (choice.repositories.Some? && "beegfs" in choice.repositories.value && id in {"grafana", "influxdata"})
      || (choice.bundles.Some? && "intel-oneapi" in choice.bundles.value && id == "oneAPI")
  {
    if choice.repositories.Some? {
      var ids := choice.repositories.value;
      ShippedDependencies(ids);
      assert id in Expand(DEPENDENCIES, ids) <==> id in SetOf(Expand(DEPENDENCIES, ids));
    }
  }

  method DefaultRepositoriesFor(mandatory: seq<string>, catalog: seq<(string, string)>, choice: Choice)
    returns (selections: map<string, Selection>)
    ensures forall id :: id in selections <==> Managed(catalog, id)
    ensures forall id :: id in selections ==> selections[id].enabled == Wanted(mandatory, choice, id)
    ensures forall id :: id in selections ==> IsLastName(catalog, id, selections[id].name)
  {
    var enabledRepoIds := mandatory;
    if choice.repositories.Some? {
      var expanded := ExpandSelectedRepositoryIds(DEPENDENCIES, choice.repositories.value);
      enabledRepoIds := enabledRepoIds + expanded;
    }
    if choice.bundles.Some? && "intel-oneapi" in choice.bundles.value {
      enabledRepoIds := enabledRepoIds + ["oneAPI"];
    }
    selections := map[];
    var i := 0;
    while i < |catalog|
      invariant 0 <= i <= |catalog|
      invariant forall id :: id in selections <==> exists k :: 0 <= k < i && catalog[k].0 == id
      invariant forall id :: id in selections ==> selections[id].enabled == (id in enabledRepoIds)
      invariant forall id :: id in selections ==> IsLastName(catalog[..i], id, selections[id].name)
    {
      LastNames(catalog, i, selections);
      selections := selections[catalog[i].0 := Selection(catalog[i].1, catalog[i].0 in enabledRepoIds)];
      i := i + 1;
    }
    assert catalog[..i] == catalog;
  }

  /** The name that the last entry of the catalogue gives to a repository. */
  ghost predicate IsLastName(catalog: seq<(string, string)>, id: string, name: string) {
    exists k :: 0 <= k < |catalog| && catalog[k] == (id, name) && forall j :: k < j < |catalog| ==> catalog[j].0 != id
  }

  lemma LastNames(catalog: seq<(string, string)>, i: nat, selections: map<string, Selection>)
    requires i < |catalog| && forall id :: id in selections ==> IsLastName(catalog[..i], id, selections[id].name)
    ensures IsLastName(catalog[..i + 1], catalog[i].0, catalog[i].1)
    ensures forall id :: id in selections && id != catalog[i].0 ==> IsLastName(catalog[..i + 1], id, selections[id].name)
  {
    var longer := catalog[..i + 1];
    assert longer[i] == (catalog[i].0, catalog[i].1);
    forall id | id in selections && id != catalog[i].0 ensures IsLastName(longer, id, selections[id].name) {
      var shorter := catalog[..i];
      var k :| 0 <= k < |shorter| && shorter[k] == (id, selections[id].name) && forall j :: k < j < |shorter| ==> shorter[j].0 != id;
      assert longer[k] == shorter[k];
      assert forall j :: k < j < i ==> longer[j] == shorter[j];
    }
  }

  /** The ids of the managed repositories, and of those to enable, each once. */
  method SplitSelections(selections: map<string, Selection>) returns (managed: seq<string>, enabled: seq<string>)
    ensures forall id :: id in managed <==> id in selections
    ensures forall id :: id in enabled <==> id in selections && selections[id].enabled
  {
    managed, enabled := [], [];
    var rest := selections.Keys;
    while rest != {}
      invariant rest <= selections.Keys
      invariant forall id :: id in managed <==> id in selections && id !in rest
      invariant forall id :: id in enabled <==> id in selections && id !in rest && selections[id].enabled
      decreases |rest|
    {
      var id :| id in rest;
      rest := rest - {id};
      managed := managed + [id];
      if selections[id].enabled {
        enabled := enabled + [id];
      }
    }
  }

  /** What a file says once the selection is written: the switches filed under its path follow it, nothing else changes. */
  function Selected(repos: Repos, selections: map<string, Selection>, home: map<string, string>, path: string): Repos {
    map id | id in repos ::
      if id in selections && id in home && home[id] == path then repos[id].(enabled := selections[id].enabled) else repos[id]
  }

  ghost predicate Holds(files: map<string, KeyFile>, path: string, id: string) {
    path in files && IsRepoFileName(path) && Parsed(files[path], path).Success? && id in Parsed(files[path], path).value
  }

  /** Some repository file holds the repository. */
  ghost predicate Available(files: map<string, KeyFile>, id: string) {
    exists p :: Holds(files, p, id)
  }

  /** The index: one of the files that hold the repository, for every repository there is. */
  ghost predicate IsIndex(home: map<string, string>, files: map<string, KeyFile>) {
    forall id :: if id in home then Holds(files, home[id], id) else !Available(files, id)
  }

  /** Every repository lives in one file. */
  ghost predicate OneHome(files: map<string, KeyFile>) {
    forall p, q, id :: Holds(files, p, id) && Holds(files, q, id) ==> p == q
  }

  lemma SwitchTwice(repos: Repos, off: set<string>, on: set<string>, selections: map<string, Selection>,
                    home: map<string, string>, path: string)
    requires forall id :: id in repos ==> (id in off <==> id in selections && id in home && home[id] == path)
    requires forall id :: id in repos ==>
      (id in on <==> id in selections && selections[id].enabled && id in home && home[id] == path)
    ensures Switched(Switched(repos, off, false), on, true) == Selected(repos, selections, home, path)
  {
  }

  /** The paths under which a manager files repositories. */
  ghost predicate Names(home: map<string, string>, manager: RPMRepoManager)
    reads manager
  {
    && (forall id :: id in home <==> id in manager.index)
    && (forall ids, p, id :: p in manager.loaded ==>
          (id in manager.Filed(ids, p) <==> id in ids && id in home && home[id] == p))
  }

  /** The index holds what the files hold, each id under a file that holds it. */
  lemma LoadedIndex(manager: RPMRepoManager, home: map<string, string>)
    requires manager.Valid() && manager.AllIndexed()
    requires forall p :: p in manager.loaded <==> p in manager.dir.files && IsRepoFileName(p)
    requires forall id :: id in home <==> id in manager.index
    requires forall id :: id in home ==> home[id] == manager.index[id].path
    ensures IsIndex(home, manager.dir.files)
    ensures forall id :: id in manager.index <==> Available(manager.dir.files, id)
  {
    hide Parsed, IsRepoFileName;
    forall p, id | Holds(manager.dir.files, p, id) ensures id in manager.index {
      assert id in manager.loaded[p].repos;
    }
    forall id | id in manager.index ensures Holds(manager.dir.files, manager.index[id].path, id) {
    }
  }

  /** Read the directory into a new index. */
  method ReadIndex(dir: YumDir) returns (ok: bool, manager: RPMRepoManager, ghost home: map<string, string>)
    requires forall p :: p in dir.files ==> dir.files[p].Valid()
    ensures fresh(manager) && manager.dir == dir
    ensures ok <==> forall p :: p in dir.files && IsRepoFileName(p) ==> Parsed(dir.files[p], p).Success?
    ensures ok ==> manager.Valid() && fresh(manager.loaded.Values)
    ensures ok ==> IsIndex(home, dir.files) && Names(home, manager)
    ensures ok ==> forall id :: id in manager.index <==> Available(dir.files, id)
    ensures ok ==> forall p :: p in manager.loaded <==> p in dir.files && IsRepoFileName(p)
    ensures ok ==> forall p :: p in manager.loaded ==> Parsed(dir.files[p], p) == Success(manager.loaded[p].repos)
  {
    hide Parsed, IsRepoFileName, Available, Holds;
    manager := new RPMRepoManager(dir);
    home := map[];
    ok := manager.LoadBaseDir();
    if ok {
      home := map id | id in manager.index :: manager.index[id].path;
      LoadedIndex(manager, home);
    }
  }

  /** The two batches, one after the other; an unknown id stops the first one before it saves anything. */
  method DisableThenEnable(manager: RPMRepoManager, managed: seq<string>, enabled: seq<string>) returns (ok: bool)
    requires manager.Valid() && forall id :: id in enabled ==> id in managed
    modifies manager.dir, manager.loaded.Values
    ensures ok <==> forall id :: id in managed ==> id in manager.index
    ensures !ok ==> manager.dir.files == old(manager.dir.files)
    ensures ok ==> manager.Valid() && manager.dir.files.Keys == old(manager.dir.files).Keys
    ensures ok ==> forall p :: p in manager.dir.files && p !in manager.loaded ==> manager.dir.files[p] == old(manager.dir.files)[p]
    ensures ok ==> forall p :: p in manager.loaded ==>
      && p in manager.dir.files
      && Parsed(manager.dir.files[p], p) == Success(
           Switched(Switched(old(manager.loaded[p].repos), manager.Filed(managed, p), false), manager.Filed(enabled, p), true))
  {
    hide Parsed, Switched;
    ghost var n;
    ok, n := manager.EnableAll(managed, false);
    if ok {
      assert managed[..n] == managed;
      forall i | 0 <= i < |enabled| ensures enabled[i] in manager.index {
        assert enabled[i] in managed;
      }
      ok, n := manager.EnableAll(enabled, true);
      assert enabled[..n] == enabled;
    }
  }

  /** Disable every managed repository, then enable the selected ones, over a freshly read directory. */
  method WriteSelection(dir: YumDir, selections: map<string, Selection>) returns (ok: bool, ghost home: map<string, string>)
    requires forall p :: p in dir.files ==> dir.files[p].Valid()
    modifies dir
    ensures ok <==>
      && (forall p :: p in old(dir.files) && IsRepoFileName(p) ==> Parsed(old(dir.files)[p], p).Success?)
      && (forall id :: id in selections ==> Available(old(dir.files), id))
    ensures !ok ==> dir.files == old(dir.files)
    ensures ok ==> IsIndex(home, old(dir.files)) && dir.files.Keys == old(dir.files).Keys
    ensures ok ==> forall p :: p in dir.files ==>
      if IsRepoFileName(p)
      then Parsed(dir.files[p], p) == Success(Selected(Parsed(old(dir.files)[p], p).value, selections, home, p))
      else dir.files[p] == old(dir.files)[p]
  {
    hide Parsed, IsRepoFileName, Switched, Selected, Available, Holds, IsIndex;
    var manager;
    ok, manager, home := ReadIndex(dir);
    if !ok {
      return;
    }
    var managed, enabled := SplitSelections(selections);
    ghost var read := map p | p in manager.loaded :: manager.loaded[p].repos;
    ok := DisableThenEnable(manager, managed, enabled);
    if ok {
      forall p | p in manager.loaded
        ensures Parsed(dir.files[p], p) == Success(Selected(read[p], selections, home, p))
      {
        SwitchTwice(read[p], manager.Filed(managed, p), manager.Filed(enabled, p), selections, home, p);
      }
    }
  }

  predicate Managed(catalog: seq<(string, string)>, id: string) {
    exists i :: 0 <= i < |catalog| && catalog[i].0 == id
  }

  /**
   * Initialization over the generated files: afterwards every managed repository reads as enabled
   * exactly when it is wanted, and everything else reads as before. Where several files hold the
   * same repository, this is so in the one that the index names, and the others keep their switch.
   */
  method InitializeDefaultRepositories(dir: YumDir, mandatory: seq<string>, catalog: seq<(string, string)>, choice: Choice)
    returns (ok: bool, ghost home: map<string, string>)
    requires forall p :: p in dir.files ==> dir.files[p].Valid()
    modifies dir
    ensures !ok ==> dir.files == old(dir.files)
    ensures ok <==>
      && (forall p :: p in old(dir.files) && IsRepoFileName(p) ==> Parsed(old(dir.files)[p], p).Success?)
      && (forall id :: Managed(catalog, id) ==> Available(old(dir.files), id))
    ensures ok ==> IsIndex(home, old(dir.files))
    ensures ok ==> forall p :: p in old(dir.files) ==> p in dir.files
    ensures ok ==> forall p :: p in old(dir.files) && !IsRepoFileName(p) ==> dir.files[p] == old(dir.files)[p]
    ensures ok ==> forall p :: p in old(dir.files) && IsRepoFileName(p) ==>
      && Parsed(dir.files[p], p).Success?
      && Parsed(dir.files[p], p).value.Keys == Parsed(old(dir.files)[p], p).value.Keys
    ensures ok ==> Initialized(old(dir.files), dir.files, home, mandatory, catalog, choice)
  {
    hide Parsed, IsRepoFileName, Wanted, Managed, Available, Holds, Initialized, IsIndex;
    var selections := DefaultRepositoriesFor(mandatory, catalog, choice);
    ok, home := WriteSelection(dir, selections);
    if ok {
      SelectionInitializes(old(dir.files), dir.files, home, selections, mandatory, catalog, choice);
    }
  }

  /** In the file that the index names for it, a managed repository has the wanted switch; the rest reads as before. */
  ghost predicate Initialized(before: map<string, KeyFile>, after: map<string, KeyFile>, home: map<string, string>,
                              mandatory: seq<string>, catalog: seq<(string, string)>, choice: Choice)
  {
    forall p, id :: Holds(before, p, id) ==>
      && Holds(after, p, id) && id in home
      && var read := Parsed(before[p], p).value[id];
      Parsed(after[p], p).value[id]
        == if Managed(catalog, id) && home[id] == p then read.(enabled := Wanted(mandatory, choice, id)) else read
  }

  lemma SelectionInitializes(before: map<string, KeyFile>, after: map<string, KeyFile>, home: map<string, string>,
                             selections: map<string, Selection>,
                             mandatory: seq<string>, catalog: seq<(string, string)>, choice: Choice)
    requires IsIndex(home, before) && after.Keys == before.Keys
    requires forall p :: p in before && IsRepoFileName(p) ==> Parsed(before[p], p).Success?
    requires forall p :: p in after && IsRepoFileName(p) ==>
      Parsed(after[p], p) == Success(Selected(Parsed(before[p], p).value, selections, home, p))
    requires forall id :: id in selections <==> Managed(catalog, id)
    requires forall id :: id in selections ==> selections[id].enabled == Wanted(mandatory, choice, id)
    ensures Initialized(before, after, home, mandatory, catalog, choice)
  {
    hide Parsed, IsRepoFileName, Wanted, Managed;
    forall p, id | Holds(before, p, id) ensures id in home {
      assert Available(before, id);
    }
  }

  /** With one home per repository, every managed one is enabled exactly when it is wanted, wherever it is. */
  lemma OneHomeIsEnough(before: map<string, KeyFile>, after: map<string, KeyFile>, home: map<string, string>,
                        mandatory: seq<string>, catalog: seq<(string, string)>, choice: Choice)
    requires Initialized(before, after, home, mandatory, catalog, choice) && IsIndex(home, before) && OneHome(before)
    ensures forall p, id :: Holds(before, p, id) ==>
      && Holds(after, p, id)
      && var read := Parsed(before[p], p).value[id];
      Parsed(after[p], p).value[id]
        == if Managed(catalog, id) then read.(enabled := Wanted(mandatory, choice, id)) else read
  {
    hide Parsed, IsRepoFileName, Wanted, Managed;
  }

  ghost predicate HasWanted(files: map<string, KeyFile>, p: string, id: string, mandatory: seq<string>, choice: Choice) {
    Holds(files, p, id) && Parsed(files[p], p).value[id].enabled == Wanted(mandatory, choice, id)
  }

  /** Every copy of every managed repository ends up as wanted exactly when the copies outside the index already were. */
  lemma EveryCopyFollows(before: map<string, KeyFile>, after: map<string, KeyFile>, home: map<string, string>,
                         mandatory: seq<string>, catalog: seq<(string, string)>, choice: Choice)
    requires Initialized(before, after, home, mandatory, catalog, choice)
    ensures
      (forall p, id :: Holds(before, p, id) && Managed(catalog, id) ==> HasWanted(after, p, id, mandatory, choice)) <==>
      (forall p, id :: Holds(before, p, id) && Managed(catalog, id) && home[id] != p ==> HasWanted(before, p, id, mandatory, choice))
  {
    hide Parsed, IsRepoFileName, Wanted, Managed;
    forall p, id | Holds(before, p, id) && Managed(catalog, id)
      ensures HasWanted(after, p, id, mandatory, choice) <==>
        home[id] == p || HasWanted(before, p, id, mandatory, choice)
    {
    }
  }

  /** What every copy outside an index must be like, in terms of the files alone. */
  ghost predicate OthersHadWanted(before: map<string, KeyFile>, home: map<string, string>,
                                  mandatory: seq<string>, catalog: seq<(string, string)>, choice: Choice)
  {
    forall p, id :: Holds(before, p, id) && Managed(catalog, id) && id in home && home[id] != p ==>
      HasWanted(before, p, id, mandatory, choice)
  }

  ghost predicate SharedHadWanted(before: map<string, KeyFile>, mandatory: seq<string>, catalog: seq<(string, string)>, choice: Choice) {
    forall p, q, id :: p != q && Holds(before, p, id) && Holds(before, q, id) && Managed(catalog, id) ==>
      HasWanted(before, p, id, mandatory, choice)
  }

  lemma HeldIds(files: map<string, KeyFile>) returns (ids: set<string>)
    ensures forall id :: id in ids <==> Available(files, id)
  {
    hide Parsed, IsRepoFileName;
    ids := set p, id | p in files && IsRepoFileName(p) && Parsed(files[p], p).Success? && id in Parsed(files[p], p).value :: id;
    forall p, id | Holds(files, p, id) ensures id in ids {
    }
    forall id | id in ids ensures Available(files, id) {
      var p :| p in files && IsRepoFileName(p) && Parsed(files[p], p).Success? && id in Parsed(files[p], p).value;
      assert Holds(files, p, id);
    }
  }

  /** Any file that holds a repository may be the one an index names for it. */
  lemma IndexWith(files: map<string, KeyFile>, p: string, id: string) returns (home: map<string, string>)
    requires Holds(files, p, id)
    ensures IsIndex(home, files) && id in home && home[id] == p
  {
    hide Parsed, IsRepoFileName, Holds;
    var ids := HeldIds(files);
    home := (map i | i in ids :: var q :| Holds(files, q, i); q)[id := p];
    assert Available(files, id);
  }

  /**
   * Which file the index names depends on the order of the directory. Whatever it names, every copy follows,
   * if and only if every managed repository that two files hold had the wanted switch in all of them.
   */
  lemma EveryIndexFollows(before: map<string, KeyFile>, mandatory: seq<string>, catalog: seq<(string, string)>, choice: Choice)
    ensures (forall home :: IsIndex(home, before) ==> OthersHadWanted(before, home, mandatory, catalog, choice)) <==>
      SharedHadWanted(before, mandatory, catalog, choice)
  {
    hide Parsed, IsRepoFileName, Wanted, Managed, HasWanted, Holds;
    if forall home :: IsIndex(home, before) ==> OthersHadWanted(before, home, mandatory, catalog, choice) {
      forall p, q, id | p != q && Holds(before, p, id) && Holds(before, q, id) && Managed(catalog, id)
        ensures HasWanted(before, p, id, mandatory, choice)
      {
        var home := IndexWith(before, q, id);
        assert OthersHadWanted(before, home, mandatory, catalog, choice);
      }
    }
  }

  const TWICE: KeyFile := KeyTable(["x"], map["x" := map["name" := "X"]])
  const TWO_FILES: map<string, KeyFile> := map["a.repo" := TWICE, "b.repo" := TWICE]
  const DISABLED: map<string, Selection> := map["x" := Selection("X", false)]

  /** Two files with the same repository: whichever the index names, disabling it leaves the other copy enabled. */
  lemma TwoHomes(home: map<string, string>)
    requires IsIndex(home, TWO_FILES)
    ensures !OneHome(TWO_FILES) && "x" in home && home["x"] in TWO_FILES
    ensures forall p :: p in TWO_FILES ==>
      && Parsed(TWO_FILES[p], p).Success? && "x" in Parsed(TWO_FILES[p], p).value
      && Selected(Parsed(TWO_FILES[p], p).value, DISABLED, home, p)["x"].enabled == (p != home["x"])
  {
    hide Parsed, IsRepoFileName, TWO_FILES, Holds;
    forall p | p in TWO_FILES ensures Holds(TWO_FILES, p, "x") {
      HeldTwice(p, "x");
    }
    TwoPaths();
    forall p | p in TWO_FILES
      ensures Parsed(TWO_FILES[p], p).Success? && "x" in Parsed(TWO_FILES[p], p).value
      ensures Parsed(TWO_FILES[p], p).value["x"].enabled
    {
      HeldTwice(p, "x");
    }
    assert Available(TWO_FILES, "x");
    HeldTwice(home["x"], "x");
  }

  /** And either file may be the one that an index names. */
  lemma EitherHome(p: string) returns (home: map<string, string>)
    requires p in TWO_FILES
    ensures IsIndex(home, TWO_FILES) && "x" in home && home["x"] == p
  {
    HeldTwice(p, "x");
    home := IndexWith(TWO_FILES, p, "x");
  }

  lemma TwoPaths()
    ensures "a.repo" in TWO_FILES && "b.repo" in TWO_FILES && "a.repo" != "b.repo"
  {
    assert "a.repo"[0] != "b.repo"[0];
  }

  lemma HeldTwice(p: string, id: string)
    ensures Holds(TWO_FILES, p, id) <==> p in TWO_FILES && id == "x"
    ensures p in TWO_FILES ==>
      Parsed(TWO_FILES[p], p).Success? && "x" in Parsed(TWO_FILES[p], p).value && Parsed(TWO_FILES[p], p).value["x"].enabled
  {
    ReadsTwice(p);
    assert IsRepoFileName("a.repo") && IsRepoFileName("b.repo");
    hide Parsed, IsRepoFileName;
  }

  lemma ReadsTwice(path: string)
    ensures Parsed(TWICE, path).Success? && Parsed(TWICE, path).value.Keys == {"x"} && Parsed(TWICE, path).value["x"].enabled
  {
    var repos := map["x" := Repo("x", "x", "X", true, false, None, None, None, path)];
    assert TWICE.Valid() && TWICE.GetStringOpt("x", "name") == Some("X");
    OtherKeys();
    assert RepoOf(TWICE, "x", path) == Success(repos["x"]);
    assert repos.Keys == TWICE.entries.Keys;
    ParsedExactly(TWICE, path, repos);
  }

  lemma OtherKeys()
    ensures "name" != "enabled" && "name" != "gpgcheck" && "name" != "gpgkey" && "name" != "baseurl" && "name" != "metalink"
  {
    assert "name"[0] == 'n';
  }
}
