/**
 * The index from repository ids to repository files, and the selection that initialization
 * writes through it. Several index entries share one file object.
 */
module RepoManager {
  import opened KeyFiles
  import opened RepoClosure
  import opened RepoFiles
  import opened Wrappers

  /** The directory of repository files, by path. */
  class YumDir {
    var files: map<string, KeyFile>
  }

  function Switched(repos: Repos, ids: set<string>, value: bool): Repos {
    map id | id in repos :: if id in ids then repos[id].(enabled := value) else repos[id]
  }

  lemma SwitchNothing(repos: Repos, value: bool)
    ensures Switched(repos, {}, value) == repos
  {
  }

  lemma SwitchKeys(repos: Repos, ids: set<string>, value: bool)
    ensures forall id :: id in Switched(repos, ids, value) <==> id in repos
  {
  }

  lemma SwitchOneMore(repos: Repos, ids: set<string>, id: string, value: bool)
    requires id in repos
    ensures id in Switched(repos, ids, value)
    ensures Switched(repos, ids + {id}, value)
         == Switched(repos, ids, value)[id := Switched(repos, ids, value)[id].(enabled := value)]
  {
  }

  class RepoFile {
    const path: string
    var repos: Repos

    constructor (path: string, repos: Repos)
      ensures this.path == path && this.repos == repos
    {
      this.path := path;
      this.repos := repos;
    }

    /** Save a file of which only some switches differ from the disk. */
    method SaveSwitched(dir: YumDir, ghost read: Repos, ghost on: set<string>, ghost value: bool)
      requires path in dir.files && ReadsAs(dir.files[path], path, read)
      requires repos == Switched(read, on, value)
      modifies dir
      ensures path in dir.files && dir.files == old(dir.files)[path := dir.files[path]]
      ensures ReadsAs(dir.files[path], path, repos)
    {
      hide Parsed, Merged, Switched;
      ReadIsWellFiled(dir.files[path], path, read, on, value);
      Save(dir);
      SwitchReadsBack(old(dir.files)[path], read, on, value, dir.files[path], path);
    }

    method Save(dir: YumDir)
      requires WellFiled(repos)
      requires path in dir.files && dir.files[path].Valid()
      modifies dir
      ensures exists file: KeyFile ::
        && file.Valid() && file.entries == Merged(old(dir.files)[path], repos)
        && dir.files == old(dir.files)[path := file]
    {
      var file := Unparse(repos, dir.files[path]);
      dir.files := dir.files[path := file];
    }
  }

  ghost predicate ReadsAs(file: KeyFile, path: string, repos: Repos) {
    file.Valid() && Parsed(file, path) == Success(repos)
  }

  lemma ReadIsWellFiled(file: KeyFile, path: string, read: Repos, ids: set<string>, value: bool)
    requires ReadsAs(file, path, read)
    ensures file.Valid() && WellFiled(read) && WellFiled(Switched(read, ids, value))
  {
    hide RepoOf;
    ParsedExactly(file, path, read);
    forall id | id in read ensures read[id].id == id && read[id].group == id {
      assert RepoOf(file, id, path) == Success(read[id]);
    }
  }

  lemma SwitchReadsBack(existing: KeyFile, read: Repos, ids: set<string>, value: bool, file: KeyFile, path: string)
    requires ReadsAs(existing, path, read)
    requires file.Valid() && file.entries == Merged(existing, Switched(read, ids, value))
    ensures ReadsAs(file, path, Switched(read, ids, value))
  {
    hide Parsed, Merged;
    SwitchedFileRoundTrip(existing, read, Switched(read, ids, value), file, path);
  }

  /** On disk, files yet to be saved are as before, and the other loaded ones as in memory. */
  ghost predicate SavedBut(before: map<string, KeyFile>, files: map<string, KeyFile>, now: map<string, Repos>, todo: set<string>) {
    && files.Keys == before.Keys
    && forall p :: p in files ==> if p in now && p !in todo then ReadsAs(files[p], p, now[p]) else files[p] == before[p]
  }

  lemma NothingSaved(files: map<string, KeyFile>, now: map<string, Repos>, todo: set<string>)
    requires forall p :: p in now && p !in todo ==> p in files && ReadsAs(files[p], p, now[p])
    ensures SavedBut(files, files, now, todo)
  {
  }

  lemma StillToSave(before: map<string, KeyFile>, files: map<string, KeyFile>, now: map<string, Repos>, todo: set<string>, p: string)
    requires SavedBut(before, files, now, todo) && p in todo && p in before
    ensures p in files && files[p] == before[p]
  {
  }

  lemma OneMoreSaved(before: map<string, KeyFile>, was: map<string, KeyFile>, files: map<string, KeyFile>,
                     now: map<string, Repos>, todo: set<string>, p: string)
    requires SavedBut(before, was, now, todo) && p in now && p in was && p in files
    requires files == was[p := files[p]] && ReadsAs(files[p], p, now[p])
    ensures SavedBut(before, files, now, todo - {p})
  {
    hide ReadsAs;
  }

  lemma AllSaved(before: map<string, KeyFile>, files: map<string, KeyFile>, now: map<string, Repos>, todo: set<string>)
    requires SavedBut(before, files, now, todo) && todo == {}
    ensures files.Keys == before.Keys
    ensures forall p :: p in files ==> if p in now then ReadsAs(files[p], p, now[p]) else files[p] == before[p]
  {
  }

  lemma SwitchedIsSame(repos: Repos, ids: set<string>, value: bool)
    ensures Switched(repos, ids, value) == repos <==> forall id :: id in ids && id in repos ==> repos[id].enabled == value
  {
    if Switched(repos, ids, value) == repos {
      forall id | id in ids && id in repos ensures repos[id].enabled == value {
        assert Switched(repos, ids, value)[id] == repos[id];
      }
    }
  }

  /** Files that were not saved read as memory has them exactly when no switch was changed. */
  lemma StillSynced(files: map<string, KeyFile>, read: map<string, Repos>, now: map<string, Repos>, on: map<string, set<string>>, value: bool)
    requires read.Keys == now.Keys == on.Keys
    requires forall p :: p in read ==> p in files && ReadsAs(files[p], p, read[p]) && now[p] == Switched(read[p], on[p], value)
    ensures (forall p :: p in now ==> ReadsAs(files[p], p, now[p])) <==>
      forall p, id :: p in read && id in on[p] && id in read[p] ==> read[p][id].enabled == value
  {
    hide Parsed, Switched;
    forall p | p in read
      ensures ReadsAs(files[p], p, now[p]) <==> forall id :: id in on[p] && id in read[p] ==> read[p][id].enabled == value
    {
      SwitchedIsSame(read[p], on[p], value);
    }
  }

  predicate IsRepoFileName(path: string) {
    |path| >= 5 && path[|path| - 5..] == ".repo"
  }

  class RPMRepoManager {
    const dir: YumDir
    var index: map<string, RepoFile>
    ghost var loaded: map<string, RepoFile>

    /** Every index entry is a loaded file that holds the repository. */
    ghost predicate Linked()
      reads this, loaded.Values
    {
      && (forall p :: p in loaded ==> loaded[p].path == p)
      && (forall id :: id in index ==>
            && index[id].path in loaded && loaded[index[id].path] == index[id]
            && id in index[id].repos)
    }

    /** Every loaded file object agrees with its file on disk. */
    ghost predicate Synced()
      reads this, dir, loaded.Values
    {
      forall p :: p in loaded ==> p in dir.files && ReadsAs(dir.files[p], p, loaded[p].repos)
    }

    ghost predicate Valid()
      reads this, dir, loaded.Values
    {
      Linked() && Synced()
    }

    /** The ids among these that the index files under one path. */
    ghost function Filed(ids: seq<string>, path: string): set<string>
      reads this
    {
      set id | id in ids && id in index && path in loaded && index[id] == loaded[path]
    }

    constructor (dir: YumDir)
      ensures Valid() && this.dir == dir && index == map[] && loaded == map[]
    {
      this.dir := dir;
      index := map[];
      loaded := map[];
    }

    ghost predicate AllLoaded(files: set<RepoFile>)
      reads this, loaded.Values
    {
      forall f :: f in files ==> f.path in loaded && loaded[f.path] == f
    }

    /** Every loaded file is as it started, but for the switches of the first n ids. */
    ghost predicate SwitchedSoFar(start: map<string, Repos>, ids: seq<string>, value: bool)
      reads this, loaded.Values
    {
      forall p :: p in loaded ==> p in start && loaded[p].repos == Switched(start[p], Filed(ids, p), value)
    }

    method SwitchNext(ids: seq<string>, i: nat, value: bool, ghost start: map<string, Repos>)
      requires Linked() && i < |ids| && ids[i] in index
      requires SwitchedSoFar(start, ids[..i], value)
      modifies index[ids[i]]
      ensures Linked() && SwitchedSoFar(start, ids[..i + 1], value)
    {
      hide Switched;
      var file := index[ids[i]];
      ghost var on := Filed(ids[..i], file.path);
      assert on == Filed(ids[..i], file.path);
      assert ids[i] in start[file.path] by {
        assert file.repos == Switched(start[file.path], on, value);
        SwitchKeys(start[file.path], on, value);
      }
      SwitchOneMore(start[file.path], on, ids[i], value);
      file.repos := file.repos[ids[i] := file.repos[ids[i]].(enabled := value)];
      FiledOneMore(ids, i);
      forall p | p in loaded ensures p in start && loaded[p].repos == Switched(start[p], Filed(ids[..i + 1], p), value) {
        if p != file.path {
          assert loaded[p] != file;
          assert Filed(ids[..i + 1], p) == Filed(ids[..i], p);
        }
      }
    }

    lemma NothingSwitched(start: map<string, Repos>, value: bool)
      requires forall p :: p in loaded ==> p in start && loaded[p].repos == start[p]
      ensures SwitchedSoFar(start, [], value)
    {
      forall p | p in loaded ensures loaded[p].repos == Switched(start[p], Filed([], p), value) {
        assert Filed([], p) == {};
        SwitchNothing(start[p], value);
      }
    }

    /** The first n ids are indexed, and the next one, if there is one, is not. */
    ghost predicate KnownUpTo(ids: seq<string>, n: nat)
      reads this
    {
      && n <= |ids| && (forall k :: 0 <= k < n ==> ids[k] in index)
      && (n < |ids| ==> ids[n] !in index)
    }

    /** Set the switches in memory up to the first unknown id, and collect the files to save. */
    method SwitchAll(ids: seq<string>, value: bool, ghost start: map<string, Repos>)
      returns (ok: bool, toSave: set<RepoFile>, ghost n: nat)
      requires Linked()
      requires forall p :: p in loaded ==> p in start && loaded[p].repos == start[p]
      modifies loaded.Values
      ensures KnownUpTo(ids, n) && n <= |ids| && ok == (n == |ids|)
      ensures Linked() && AllLoaded(toSave)
      ensures SwitchedSoFar(start, ids[..n], value)
      ensures forall p :: p in loaded && loaded[p] !in toSave ==> loaded[p].repos == start[p]
    {
      hide Switched, SwitchedSoFar;
      toSave := {};
      var i := 0;
      assert ids[..i] == [];
      NothingSwitched(start, value);
      while i < |ids|
        invariant 0 <= i <= |ids|
        invariant forall k :: 0 <= k < i ==> ids[k] in index
        invariant Linked() && AllLoaded(toSave)
        invariant SwitchedSoFar(start, ids[..i], value)
        invariant forall p :: p in loaded && loaded[p] !in toSave ==> loaded[p].repos == start[p]
      {
        if ids[i] !in index {
          return false, toSave, i;
        }
        toSave := toSave + {index[ids[i]]};
        assert index[ids[i]] in loaded.Values;
        SwitchNext(ids, i, value, start);
        i := i + 1;
      }
      return true, toSave, i;
    }

    lemma FiledOneMore(ids: seq<string>, i: nat)
      requires i < |ids| && ids[i] in index && Linked()
      ensures forall p :: p in loaded ==>
        Filed(ids[..i + 1], p) == Filed(ids[..i], p) + if loaded[p] == index[ids[i]] then {ids[i]} else {}
    {
      assert ids[..i + 1] == ids[..i] + [ids[i]];
    }

    /** Save files whose switches differ from the disk. */
    method SaveAll(files: set<RepoFile>, ghost read: map<string, Repos>, ghost on: map<string, set<string>>, ghost value: bool)
      requires Linked() && AllLoaded(files) && read.Keys == on.Keys == loaded.Keys
      requires forall p :: p in loaded ==>
        && p in dir.files && ReadsAs(dir.files[p], p, read[p])
        && loaded[p].repos == Switched(read[p], on[p], value)
        && (loaded[p] !in files ==> loaded[p].repos == read[p])
      modifies dir
      ensures Synced() && dir.files.Keys == old(dir.files).Keys
      ensures forall p :: p in dir.files && p !in loaded ==> dir.files[p] == old(dir.files)[p]
    {
      hide ReadsAs, Switched, SavedBut;
      ghost var before, now := dir.files, map p | p in loaded :: loaded[p].repos;
      ghost var todo := set p | p in loaded && loaded[p] in files;
      var toSave := files;
      NothingSaved(before, now, todo);
      while toSave != {}
        invariant toSave <= files
        invariant forall p :: p in todo <==> p in loaded && loaded[p] in toSave
        invariant SavedBut(before, dir.files, now, todo)
        decreases |toSave|
      {
        var file :| file in toSave;
        ghost var p, was := file.path, dir.files;
        StillToSave(before, was, now, todo, p);
        file.SaveSwitched(dir, read[p], on[p], value);
        OneMoreSaved(before, was, dir.files, now, todo, p);
        toSave, todo := toSave - {file}, todo - {p};
      }
      AllSaved(before, dir.files, now, todo);
    }

    /** The first n ids already have this switch. */
    ghost predicate AlreadySwitched(ids: seq<string>, n: nat, value: bool)
      reads this, loaded.Values
    {
      Linked() && KnownUpTo(ids, n) && forall k :: 0 <= k < n ==> index[ids[k]].repos[ids[k]].enabled == value
    }

    lemma SwitchedFiles(ids: seq<string>, n: nat, value: bool)
      requires Linked() && KnownUpTo(ids, n)
      ensures AlreadySwitched(ids, n, value) <==>
        forall p, id :: p in loaded && id in Filed(ids[..n], p) && id in loaded[p].repos ==> loaded[p].repos[id].enabled == value
    {
      forall p, id | p in loaded && id in Filed(ids[..n], p)
        ensures exists k :: 0 <= k < n && ids[k] == id && index[id] == loaded[p]
      {
        var k :| 0 <= k < |ids[..n]| && ids[..n][k] == id;
        assert ids[k] == id;
      }
      forall k | 0 <= k < n ensures ids[k] in Filed(ids[..n], index[ids[k]].path) {
        assert ids[..n][k] == ids[k];
      }
    }

    lemma SwitchedFilesAll(ids: seq<string>, value: bool)
      requires Linked()
      ensures forall n: nat :: KnownUpTo(ids, n) ==>
        (AlreadySwitched(ids, n, value) <==>
         forall p, id :: p in loaded && id in Filed(ids[..n], p) && id in loaded[p].repos ==> loaded[p].repos[id].enabled == value)
    {
      forall n: nat | KnownUpTo(ids, n)
        ensures AlreadySwitched(ids, n, value) <==>
          forall p, id :: p in loaded && id in Filed(ids[..n], p) && id in loaded[p].repos ==> loaded[p].repos[id].enabled == value
      {
        SwitchedFiles(ids, n, value);
      }
    }

    /**
     * Enable or disable several repositories, saving each file once. An unknown id saves none, but the ids
     * before it stay switched in memory: memory and disk then agree only if they had that switch already.
     */
    method EnableAll(ids: seq<string>, value: bool) returns (ok: bool, ghost n: nat)
      requires Valid()
      modifies dir, loaded.Values
      ensures KnownUpTo(ids, n) && n <= |ids| && ok == (n == |ids|)
      ensures Linked()
      ensures forall p :: p in loaded ==> loaded[p].repos == Switched(old(loaded[p].repos), Filed(ids[..n], p), value)
      ensures !ok ==> dir.files == old(dir.files)
      ensures !ok ==> (Synced() <==> old(AlreadySwitched(ids, n, value)))
      ensures ok ==> Synced() && dir.files.Keys == old(dir.files).Keys
      ensures ok ==> forall p :: p in dir.files && p !in loaded ==> dir.files[p] == old(dir.files)[p]
    {
      hide ReadsAs, Switched, KnownUpTo, AlreadySwitched;
      ghost var read := map p | p in loaded :: loaded[p].repos;
      SwitchedFilesAll(ids, value);
      var toSave;
      ok, toSave, n := SwitchAll(ids, value, read);
      ghost var on := map p | p in loaded :: Filed(ids[..n], p);
      if ok {
        SaveAll(toSave, read, on, value);
      } else {
        StillSynced(dir.files, read, map p | p in loaded :: loaded[p].repos, on, value);
      }
    }

    /** An id that is already indexed keeps its file. */
    method IndexAll(file: RepoFile)
      modifies `index
      ensures forall id :: id in index <==> id in old(index) || id in file.repos
      ensures forall id :: id in index ==> index[id] == if id in old(index) then old(index)[id] else file
    {
      var rest := file.repos.Keys;
      ghost var done: set<string> := {};
      ghost var index0 := index;
      while rest != {}
        invariant rest <= file.repos.Keys && done <= file.repos.Keys
        invariant forall id :: id in file.repos ==> id in done || id in rest
        invariant forall id :: id in index <==> id in index0 || id in done
        invariant forall id :: id in index ==> index[id] == if id in index0 then index0[id] else file
        decreases |rest|
      {
        var id :| id in rest;
        if id !in index {
          index := index[id := file];
        }
        rest, done := rest - {id}, done + {id};
      }
    }

    /** Load one file of the directory. */
    method Install(path: string) returns (ok: bool)
      requires Valid() && path in dir.files && dir.files[path].Valid() && path !in loaded
      modifies this
      ensures ok == Parsed(dir.files[path], path).Success?
      ensures !ok ==> index == old(index) && loaded == old(loaded)
      ensures ok ==>
        && path in loaded && fresh(loaded[path]) && loaded == old(loaded)[path := loaded[path]]
        && loaded[path].path == path && ReadsAs(dir.files[path], path, loaded[path].repos)
        && (forall id :: id in index <==> id in old(index) || id in loaded[path].repos)
        && forall id :: id in index ==> index[id] == if id in old(index) then old(index)[id] else loaded[path]
    {
      hide Parsed;
      var read := Parse(dir.files[path], path);
      if read.Failure? {
        return false;
      }
      var file := new RepoFile(path, read.value);
      IndexAll(file);
      loaded := loaded[path := file];
      ok := true;
    }

    ghost predicate AllIndexed()
      reads this, loaded.Values
    {
      forall p, id :: p in loaded && id in loaded[p].repos ==> id in index
    }

    method InstallNext(path: string) returns (ok: bool)
      requires Valid() && AllIndexed() && path in dir.files && dir.files[path].Valid() && path !in loaded
      modifies this
      ensures ok == Parsed(dir.files[path], path).Success?
      ensures ok ==> Linked() && Synced() && AllIndexed()
      ensures ok ==> path in loaded && fresh(loaded[path]) && loaded == old(loaded)[path := loaded[path]]
    {
      hide Parsed, ReadsAs;
      ok := Install(path);
    }

    /** Load every repository file of the directory. */
    method LoadBaseDir() returns (ok: bool)
      requires Valid() && index == map[] && loaded == map[]
      requires forall p :: p in dir.files ==> dir.files[p].Valid()
      modifies this
      ensures ok <==> forall p :: p in dir.files && IsRepoFileName(p) ==> Parsed(dir.files[p], p).Success?
      ensures ok ==> Valid()
      ensures ok ==> forall p :: p in loaded <==> p in dir.files && IsRepoFileName(p)
      ensures ok ==> AllIndexed()
      ensures ok ==> forall p :: p in loaded ==> fresh(loaded[p])
    {
      hide Parsed, IsRepoFileName;
      var rest := dir.files.Keys;
      ok := true;
      while rest != {}
        invariant rest <= dir.files.Keys
        invariant Linked() && Synced() && AllIndexed()
        invariant forall p :: p in loaded ==> fresh(loaded[p])
        invariant forall p :: p in loaded <==> p in dir.files && p !in rest && IsRepoFileName(p)
        decreases |rest|
      {
        var path :| path in rest;
        rest := rest - {path};
        if IsRepoFileName(path) {
          ok := InstallNext(path);
          if !ok {
            return;
          }
        }
      }
    }
  }
}
