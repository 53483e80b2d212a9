/**
 * What the head node keeps between runs for its stateless images: the xCAT definitions, the
 * queue markers, the staged lists, the root images and the packed images. Every command the
 * installer issues is one operation on this state, and a run may die between any two of them.
 */
module ImageDisk {
  import opened Text
  import opened Wrappers

  /** One staged chunk of the post-install script. Only the scheduler chunks are told apart. */
  datatype Snippet =
    | Common(text: string)
    | SlurmdOptions(server: string)
    | SlurmServices
    | PbsServer(hostname: string)

  /** A root image is complete only once genimage has finished with it. */
  datatype Root =
    | Partial
    | Built(packages: seq<string>, scripts: seq<Snippet>, password: Option<string>)

  /** A file that packimage copies from the head node into the packed image. */
  datatype SyncedFile = Passwd | Group | SlurmConf | MungeKey

  /** The synclist grows by chunks of lines, one line for each file. */
  type Synclist = seq<seq<SyncedFile>>

  datatype Packed = Packed(root: Root, synclist: Synclist)

  /** The definitions record whether an image refers to the staged lists yet. */
  datatype Disk = Disk(
    definitions: map<string, bool>,
    markers: map<string, string>,
    otherpkgs: seq<string>,
    postinstall: seq<Snippet>,
    synclist: Synclist,
    roots: map<string, Root>,
    packed: map<string, Packed>)

  datatype Op =
    | RemoveDefinition(image: string)
    | RemoveMarker(file: string)
    | AppendMarker(file: string, text: string)
    | Copycds(image: string)
    | DefineImage(image: string)
    | TearRoot(path: string)
    | DiscardRoot(path: string)
    | Customize(path: string)
    | TruncateOtherPkgs
    | AppendOtherPkgs(packages: seq<string>)
    | TruncatePostinstall
    | AppendPostinstall(snippet: Snippet)
    | AttachLists(image: string)
    | Genimage(image: string, path: string)
    | TruncateSynclist
    | AppendSynclist(files: seq<SyncedFile>)
    | Finalize(path: string, password: string)
    | Packimage(image: string, path: string)

  /** Appending to a file leaves it alone when it already holds the text. */
  function AppendOnce<T(==)>(content: seq<T>, item: T): seq<T> {
    if item in content then content else content + [item]
  }

  function AppendText(content: string, text: string): string {
    if Contains(content, text) then content else content + text
  }

  function Apply(d: Disk, op: Op): Disk {
    match op
    case RemoveDefinition(image) => d.(definitions := d.definitions - {image})
    case RemoveMarker(file) => d.(markers := d.markers - {file})
    case AppendMarker(file, text) =>
      d.(markers := d.markers[file := AppendText(if file in d.markers then d.markers[file] else "", text)])
    case Copycds(image) =>
      if image in d.definitions then d else d.(definitions := d.definitions[image := false])
    case DefineImage(image) => d.(definitions := d.definitions[image := true])
    case TearRoot(path) => if path in d.roots then d.(roots := d.roots[path := Partial]) else d
    case DiscardRoot(path) => d.(roots := d.roots - {path})
    case Customize(path) => d.(roots := d.roots[path := Partial])
    case TruncateOtherPkgs => d.(otherpkgs := [])
    case AppendOtherPkgs(packages) => d.(otherpkgs := packages)
    case TruncatePostinstall => d.(postinstall := [])
    case AppendPostinstall(snippet) => d.(postinstall := AppendOnce(d.postinstall, snippet))
    case AttachLists(image) =>
      if image in d.definitions then d.(definitions := d.definitions[image := true]) else d
    case Genimage(image, path) =>
      var attached := image in d.definitions && d.definitions[image];
      d.(roots := d.roots[path := if attached then Built(d.otherpkgs, d.postinstall, None) else Built([], [], None)])
    case TruncateSynclist => d.(synclist := [])
    case AppendSynclist(files) => d.(synclist := AppendOnce(d.synclist, files))
    case Finalize(path, password) =>
      if path in d.roots && d.roots[path].Built?
      then d.(roots := d.roots[path := d.roots[path].(password := Some(password))])
      else d
    case Packimage(image, path) =>
      if path in d.roots then
        var attached := image in d.definitions && d.definitions[image];
        d.(packed := d.packed[image := Packed(d.roots[path], if attached then d.synclist else [])])
      else d
  }

  function Execute(d: Disk, ops: seq<Op>): Disk
    decreases |ops|
  {
    if ops == [] then d else Execute(Apply(d, ops[0]), ops[1..])
  }

  lemma ExecuteOne(d: Disk, a: Op)
    ensures Execute(d, [a]) == Apply(d, a)
  {
    assert [a][1..] == [];
  }

  lemma ExecuteTwo(d: Disk, a: Op, b: Op)
    ensures Execute(d, [a, b]) == Apply(Apply(d, a), b)
  {
    assert [a, b][1..] == [b];
    ExecuteOne(Apply(d, a), b);
  }

  lemma {:induction false} ExecuteConcat(d: Disk, a: seq<Op>, b: seq<Op>)
    ensures Execute(d, a + b) == Execute(Execute(d, a), b)
    decreases |a|
  {
    if a == [] {
      assert a + b == b;
    } else {
      assert (a + b)[1..] == a[1..] + b;
      ExecuteConcat(Apply(d, a[0]), a[1..], b);
    }
  }

  /** A run that dies after n operations of a two-part plan. */
  lemma ExecutePrefix(d: Disk, a: seq<Op>, b: seq<Op>, n: nat)
    requires n <= |a + b|
    ensures n <= |a| ==> Execute(d, (a + b)[..n]) == Execute(d, a[..n])
    ensures n > |a| ==> Execute(d, (a + b)[..n]) == Execute(Execute(d, a), b[..n - |a|])
  {
    if n <= |a| {
      assert (a + b)[..n] == a[..n];
    } else {
      assert (a + b)[..n] == a + b[..n - |a|];
      ExecuteConcat(d, a, b[..n - |a|]);
    }
  }

  /**
   * The head node as one run sees it: the persistent state, and how many more operations the
   * run completes before it dies.
   */
  class HeadNode {
    var disk: Disk
    var fuse: nat

    constructor (disk: Disk, fuse: nat)
      ensures this.disk == disk && this.fuse == fuse
    {
      this.disk, this.fuse := disk, fuse;
    }

    method Perform(op: Op) returns (ok: bool)
      modifies this
      ensures Ran(old(disk), old(fuse), [op], disk, fuse, ok)
      ensures ok ==> disk == Apply(old(disk), op)
    {
      ok := fuse > 0;
      if ok {
        disk, fuse := Apply(disk, op), fuse - 1;
      }
      assert Execute(old(disk), [op]) == Apply(old(disk), op);
    }

    /** Perform the operations in order, stopping where the run dies. */
    method PerformAll(ops: seq<Op>) returns (ok: bool)
      modifies this
      ensures Ran(old(disk), old(fuse), ops, disk, fuse, ok)
    {
      var i := 0;
      ok := true;
      while i < |ops|
        invariant 0 <= i <= |ops|
        invariant Ran(old(disk), old(fuse), ops[..i], disk, fuse, true)
      {
        ghost var mid, left := disk, fuse;
        ok := Perform(ops[i]);
        RanThen(old(disk), old(fuse), ops[..i], mid, left, [ops[i]], disk, fuse, ok);
        assert ops[..i] + [ops[i]] == ops[..i + 1];
        if !ok {
          RanStops(old(disk), old(fuse), ops[..i + 1], ops, disk, fuse);
          return;
        }
        i := i + 1;
      }
      assert ops[..i] == ops;
    }
  }

  /** What it means to issue ops with a given fuse: all of them, or exactly as many as the fuse allows. */
  ghost predicate Ran(d0: Disk, fuse0: nat, ops: seq<Op>, d1: Disk, fuse1: nat, ok: bool) {
    && ok == (|ops| <= fuse0)
    && fuse1 == (if ok then fuse0 - |ops| else 0)
    && d1 == Execute(d0, if ok then ops else ops[..fuse0])
  }

  lemma RanThen(d0: Disk, f0: nat, a: seq<Op>, d1: Disk, f1: nat, b: seq<Op>, d2: Disk, f2: nat, ok: bool)
    requires Ran(d0, f0, a, d1, f1, true)
    requires Ran(d1, f1, b, d2, f2, ok)
    ensures Ran(d0, f0, a + b, d2, f2, ok)
  {
    ExecuteConcat(d0, a, b);
    if !ok {
      ExecutePrefix(d0, a, b, f0);
    }
  }

  lemma RanStops(d0: Disk, f0: nat, done: seq<Op>, plan: seq<Op>, d1: Disk, f1: nat)
    requires Ran(d0, f0, done, d1, f1, false)
    requires done <= plan
    ensures Ran(d0, f0, plan, d1, f1, false)
  {
    assert plan == done + plan[|done|..];
    ExecutePrefix(d0, done, plan[|done|..], f0);
  }
}
