/**
 * Creating the stateless compute image: reuse the cached root image, or rebuild it, and repack it.
 * The queue marker of an image records which workload manager its root image was built for.
 */
module ImageCache {
  import opened ImageDisk
  import opened ImageNames
  import opened Text

  datatype Queue = Unset | NoQueue | Slurm | Pbs

  /** What one run of the installer was asked for. */
  datatype Config = Config(
    os: OS,
    queue: Queue,
    hostname: string,
    address: string,
    basePackages: seq<string>,
    earlyScripts: seq<string>,
    lateScripts: seq<string>,
    password: string,
    forceGenimage: bool,
    skipCopycds: bool)
  {
    function Key(): ImageKey {
      KeyOf(os)
    }

    function Image(): string {
      ImageName(Key())
    }

    function Marker(): string {
      MarkerOf(Key())
    }

    function Chroot(): string {
      RootPath(Key())
    }
  }

  const SHEBANG: Snippet := Common("#!/bin/sh\n\n")

  function QueueMarkerToken(queue: Queue): string {
    match queue
    case Unset => "none"
    case NoQueue => "none"
    case Slurm => "slurm"
    case Pbs => "pbs"
  }

  function QueueMarkerValue(c: Config): string {
    if c.queue.Pbs? then QueueMarkerToken(c.queue) + " " + c.hostname else QueueMarkerToken(c.queue)
  }

  function QueuePackages(c: Config): seq<string> {
    match c.queue
    case Slurm => ["ohpc-slurm-client", if c.os.IsDeb() then "hwloc-ohpc" else "hwloc-libs"]
    case Pbs => ["openpbs-execution-ohpc"]
    case _ => []
  }

  function QueueScripts(c: Config): seq<Snippet> {
    match c.queue
    case Slurm => [SlurmdOptions(c.address), SlurmServices]
    case Pbs => [PbsServer(c.hostname)]
    case _ => []
  }

  function CommonScripts(texts: seq<string>): seq<Snippet> {
    seq(|texts|, i requires 0 <= i < |texts| => Common(texts[i]))
  }

  function Packages(c: Config): seq<string> {
    c.basePackages + QueuePackages(c)
  }

  function Scripts(c: Config): seq<Snippet> {
    [SHEBANG] + CommonScripts(c.earlyScripts) + QueueScripts(c) + CommonScripts(c.lateScripts)
  }

  const LOCAL_FILES: seq<SyncedFile> := [Passwd, Group]
  const SLURM_FILES: seq<SyncedFile> := [SlurmConf, MungeKey]

  function SynclistFor(c: Config): Synclist {
    [LOCAL_FILES] + if c.queue.Slurm? then [SLURM_FILES] else []
  }

  // ----- the commands of one run, in order

  function Forget(c: Config): seq<Op> {
    if c.forceGenimage then [RemoveDefinition(c.Image())] else []
  }

  predicate ImageMatchesSelectedQueue(d: Disk, c: Config) {
    c.Marker() in d.markers && FirstLine(d.markers[c.Marker()]) == QueueMarkerValue(c)
  }

  /** Whether the run reuses the cached root image. */
  predicate Reuses(d: Disk, c: Config) {
    && !c.forceGenimage
    && c.Image() in d.definitions
    && ImageMatchesSelectedQueue(d, c)
    && !c.skipCopycds
  }

  function Media(c: Config): seq<Op> {
    if c.skipCopycds
    then [TearRoot(c.Chroot()), DiscardRoot(c.Chroot()), TruncateOtherPkgs, TruncatePostinstall]
    else [Copycds(c.Image())]
  }

  function Clean(c: Config): seq<Op> {
    [TearRoot(c.Chroot()), DiscardRoot(c.Chroot())]
    + if c.os.platform.Ubuntu2404? then [DefineImage(c.Image())] else []
  }

  function StagePackages(c: Config): seq<Op> {
    [TruncateOtherPkgs, AppendOtherPkgs(Packages(c))]
  }

  function Appends(scripts: seq<Snippet>): seq<Op> {
    seq(|scripts|, i requires 0 <= i < |scripts| => AppendPostinstall(scripts[i]))
  }

  function StageScripts(c: Config): seq<Op> {
    [TruncatePostinstall] + Appends(Scripts(c))
  }

  /** Drop the marker up front, then the old root image. */
  function Wipe(c: Config): seq<Op> {
    [RemoveMarker(c.Marker())] + Media(c) + Clean(c)
  }

  /** Stage what genimage reads, and start filling the new root image. */
  function Stage(c: Config): seq<Op> {
    StagePackages(c) + StageScripts(c) + [AttachLists(c.Image()), Customize(c.Chroot())]
  }

  function Generate(c: Config): seq<Op> {
    [Genimage(c.Image(), c.Chroot())] + Stamp(c)
  }

  function Stamp(c: Config): seq<Op> {
    [RemoveMarker(c.Marker()), AppendMarker(c.Marker(), QueueMarkerValue(c) + "\n")]
  }

  function StageSynclist(c: Config): seq<Op> {
    [TruncateSynclist, AppendSynclist(LOCAL_FILES)]
    + if c.queue.Slurm? then [AppendSynclist(SLURM_FILES)] else []
  }

  function Repack(c: Config): seq<Op> {
    StageSynclist(c) + [Finalize(c.Chroot(), c.password), Packimage(c.Image(), c.Chroot())]
  }

  /** genimage refuses an image that xCAT does not know. */
  predicate CanGenerate(d: Disk, c: Config) {
    || !c.skipCopycds
    || c.os.platform.Ubuntu2404?
    || (c.Image() in d.definitions && !c.forceGenimage)
  }

  /** Whether a run that is not interrupted gets as far as packing the image. */
  predicate Finishes(d: Disk, c: Config) {
    Reuses(d, c) || CanGenerate(d, c)
  }

  function Build(d: Disk, c: Config): seq<Op> {
    Wipe(c) + Stage(c) + if CanGenerate(d, c) then Generate(c) else []
  }

  function Plan(d: Disk, c: Config): seq<Op> {
    if Reuses(d, c) then
      Repack(c)
    else
      Forget(c) + (Build(d, c) + if CanGenerate(d, c) then Repack(c) else [])
  }

  /** The state a run leaves behind when it dies after at most fuse commands. */
  function After(d: Disk, c: Config, fuse: nat): Disk {
    var plan := Plan(d, c);
    Execute(d, if fuse < |plan| then plan[..fuse] else plan)
  }

  // ----- the run itself

  class XCAT {
    const host: HeadNode
    var osimage: string
    var chroot: string
    var otherpkgs: seq<string>
    var postinstall: seq<Snippet>

    constructor (host: HeadNode)
      ensures this.host == host
      ensures otherpkgs == [] && postinstall == [SHEBANG]
    {
      this.host := host;
      osimage, chroot := "", "";
      otherpkgs, postinstall := [], [SHEBANG];
    }

    /** Forcing genimage forgets the definition first, so that the lookup misses. */
    method ImageExists(c: Config) returns (ok: bool, exists_: bool)
      modifies host
      ensures Ran(old(host.disk), old(host.fuse), Forget(c), host.disk, host.fuse, ok)
      ensures ok ==> exists_ == (c.Image() in old(host.disk).definitions && !c.forceGenimage)
      ensures ok ==> exists_ == (c.Image() in host.disk.definitions)
    {
      ok, exists_ := true, false;
      if c.forceGenimage {
        ok := host.Perform(RemoveDefinition(c.Image()));
      }
      exists_ := c.Image() in host.disk.definitions;
    }

    method ConfigureQueue(c: Config)
      modifies `otherpkgs, `postinstall
      ensures otherpkgs == old(otherpkgs) + QueuePackages(c)
      ensures postinstall == old(postinstall) + QueueScripts(c)
    {
      match c.queue {
        case Slurm =>
          otherpkgs := otherpkgs + ["ohpc-slurm-client"];
          otherpkgs := otherpkgs + [if c.os.IsDeb() then "hwloc-ohpc" else "hwloc-libs"];
          postinstall := postinstall + [SlurmdOptions(c.address)];
          postinstall := postinstall + [SlurmServices];
        case Pbs =>
          otherpkgs := otherpkgs + ["openpbs-execution-ohpc"];
          postinstall := postinstall + [PbsServer(c.hostname)];
        case _ =>
      }
    }

    method GeneratePostinstallFile(c: Config) returns (ok: bool)
      modifies host, `postinstall
      ensures postinstall == old(postinstall) + CommonScripts(c.lateScripts)
      ensures Ran(old(host.disk), old(host.fuse), [TruncatePostinstall] + Appends(postinstall), host.disk, host.fuse, ok)
    {
      postinstall := postinstall + CommonScripts(c.lateScripts);
      ok := host.PerformAll([TruncatePostinstall] + Appends(postinstall));
    }

    method GenerateSynclistsFile(c: Config) returns (ok: bool)
      modifies host
      ensures Ran(old(host.disk), old(host.fuse), StageSynclist(c), host.disk, host.fuse, ok)
      ensures ok ==> host.disk == old(host.disk).(synclist := SynclistFor(c))
    {
      AfterSynclist(host.disk, c);
      var ops := [TruncateSynclist, AppendSynclist(LOCAL_FILES)];
      if c.queue.Slurm? {
        ops := ops + [AppendSynclist(SLURM_FILES)];
      }
      assert ops == StageSynclist(c);
      ok := host.PerformAll(ops);
    }

    method WipeRoot(c: Config) returns (ok: bool)
      requires osimage == c.Image() && chroot == c.Chroot()
      modifies host
      ensures Ran(old(host.disk), old(host.fuse), Wipe(c), host.disk, host.fuse, ok)
    {
      var media := if c.skipCopycds
        then [TearRoot(chroot), DiscardRoot(chroot), TruncateOtherPkgs, TruncatePostinstall]
        else [Copycds(osimage)];
      var clean := [TearRoot(chroot), DiscardRoot(chroot)]
        + if c.os.platform.Ubuntu2404? then [DefineImage(osimage)] else [];
      var ops := [RemoveMarker(MarkerFile(osimage))] + media + clean;
      assert media == Media(c) && clean == Clean(c);
      ok := host.PerformAll(ops);
    }

    method StageLists(c: Config) returns (ok: bool)
      requires otherpkgs == Packages(c)
      requires postinstall + CommonScripts(c.lateScripts) == Scripts(c)
      requires osimage == c.Image() && chroot == c.Chroot()
      modifies host, `postinstall
      ensures Ran(old(host.disk), old(host.fuse), Stage(c), host.disk, host.fuse, ok)
    {
      ghost var d0, f0 := host.disk, host.fuse;
      ghost var plan := Stage(c);
      ghost var packages, scripts := StagePackages(c), StageScripts(c);
      ghost var last := [AttachLists(osimage), Customize(chroot)];
      assert plan == packages + scripts + last;
      ok := host.PerformAll([TruncateOtherPkgs, AppendOtherPkgs(otherpkgs)]);
      if !ok { RanStops(d0, f0, packages, plan, host.disk, host.fuse); return; }
      ghost var d, f := host.disk, host.fuse;
      ok := GeneratePostinstallFile(c);
      RanThen(d0, f0, packages, d, f, scripts, host.disk, host.fuse, ok);
      if !ok { RanStops(d0, f0, packages + scripts, plan, host.disk, host.fuse); return; }
      d, f := host.disk, host.fuse;
      ok := host.PerformAll([AttachLists(osimage), Customize(chroot)]);
      RanThen(d0, f0, packages + scripts, d, f, last, host.disk, host.fuse, ok);
    }

    /** The marker is restamped only after genimage succeeded. */
    method GenerateAndStamp(c: Config) returns (ok: bool)
      requires osimage == c.Image() && chroot == c.Chroot()
      modifies host
      ensures Ran(old(host.disk), old(host.fuse), Generate(c), host.disk, host.fuse, ok)
      ensures ok ==> c.Chroot() in host.disk.roots && host.disk.roots[c.Chroot()].Built?
      ensures ok ==> host.disk.markers == old(host.disk).markers[c.Marker() := QueueMarkerValue(c) + "\n"]
      ensures !ok && c.Marker() !in old(host.disk).markers ==> host.disk.markers == old(host.disk).markers
    {
      AfterGenerate(host.disk, c, host.fuse);
      var ops := [Genimage(osimage, chroot), RemoveMarker(MarkerFile(osimage)),
                  AppendMarker(MarkerFile(osimage), QueueMarkerValue(c) + "\n")];
      assert ops == Generate(c);
      ok := host.PerformAll(ops);
    }

    /** Rebuild the root image from scratch; genimage refuses an image that xCAT does not know. */
    method Rebuild(c: Config) returns (ran: bool, ok: bool)
      requires otherpkgs == [] && postinstall == [SHEBANG]
      requires osimage == c.Image() && chroot == c.Chroot()
      requires !c.forceGenimage || c.Image() !in host.disk.definitions
      modifies this, host
      ensures osimage == old(osimage) && chroot == old(chroot)
      ensures Ran(old(host.disk), old(host.fuse), Build(old(host.disk), c), host.disk, host.fuse, ran)
      ensures ok == (ran && CanGenerate(old(host.disk), c))
    {
      ghost var d0, f0 := host.disk, host.fuse;
      ghost var plan := Build(d0, c);
      ghost var wipe, stage, generate := Wipe(c), Stage(c), Generate(c);
      ran, ok := false, false;
      var alive := WipeRoot(c);
      if !alive { RanStops(d0, f0, wipe, plan, host.disk, host.fuse); return; }

      postinstall := postinstall + CommonScripts(c.earlyScripts);
      otherpkgs := otherpkgs + c.basePackages;
      ConfigureQueue(c);

      ghost var d, f := host.disk, host.fuse;
      alive := StageLists(c);
      RanThen(d0, f0, wipe, d, f, stage, host.disk, host.fuse, alive);
      if !alive { RanStops(d0, f0, wipe + stage, plan, host.disk, host.fuse); return; }
      ExecuteConcat(d0, wipe, stage);
      DefinedAfterStaging(d0, c);
      if osimage !in host.disk.definitions {
        assert plan == wipe + stage;
        ran := true;
        return;
      }
      d, f := host.disk, host.fuse;
      alive := GenerateAndStamp(c);
      RanThen(d0, f0, wipe + stage, d, f, generate, host.disk, host.fuse, alive);
      ran, ok := alive, alive;
    }

    /** One installer run: its commands are a prefix of the plan, as long as its fuse. */
    method CreateImage(c: Config) returns (ok: bool)
      requires otherpkgs == [] && postinstall == [SHEBANG]
      modifies this, host
      ensures host.disk == After(old(host.disk), c, old(host.fuse))
      ensures ok <==> Finishes(old(host.disk), c) && old(host.fuse) >= |Plan(old(host.disk), c)|
    {
      ghost var d0, f0 := host.disk, host.fuse;
      osimage, chroot := c.Image(), c.Chroot();
      var exists_;
      ok, exists_ := ImageExists(c);
      if !ok {
        ForgetStops(d0, f0, c, host.disk, host.fuse);
        return;
      }
      ForgetKeepsMarkers(d0, c);
      if exists_ && !ImageMatchesSelectedQueue(host.disk, c) {
        exists_ := false;
      }
      if !(exists_ && !c.skipCopycds) {
        ok := CreateByRebuild(c, d0, f0);
      } else {
        ok := Finish(c, d0, f0, [], Repack(c));
      }
    }

    method CreateByRebuild(c: Config, ghost d0: Disk, ghost f0: nat) returns (ok: bool)
      requires otherpkgs == [] && postinstall == [SHEBANG]
      requires osimage == c.Image() && chroot == c.Chroot()
      requires Ran(d0, f0, Forget(c), host.disk, host.fuse, true)
      requires !Reuses(d0, c)
      modifies this, host
      ensures exists ran :: Ran(d0, f0, Plan(d0, c), host.disk, host.fuse, ran) && ok == (ran && CanGenerate(d0, c))
    {
      ghost var d, f := host.disk, host.fuse;
      ForgetKeepsMarkers(d0, c);
      var ran;
      ran, ok := Rebuild(c);
      RebuildRan(d0, f0, c, d, f, host.disk, host.fuse, ran);
      if ok {
        ok := Finish(c, d0, f0, Forget(c) + Build(d0, c), Plan(d0, c));
        assert Ran(d0, f0, Plan(d0, c), host.disk, host.fuse, ok);
      } else {
        assert Ran(d0, f0, Plan(d0, c), host.disk, host.fuse, ran);
      }
    }

    /** Stage the shared synclist for the selected queue, and repack the root image. */
    method Finish(c: Config, ghost d0: Disk, ghost f0: nat, ghost done: seq<Op>, ghost plan: seq<Op>) returns (ok: bool)
      requires osimage == c.Image() && chroot == c.Chroot()
      requires Ran(d0, f0, done, host.disk, host.fuse, true)
      requires plan == done + Repack(c)
      modifies host
      ensures Ran(d0, f0, plan, host.disk, host.fuse, ok)
    {
      ghost var sync, pack := StageSynclist(c), [Finalize(chroot, c.password), Packimage(osimage, chroot)];
      assert plan == done + sync + pack;
      ghost var d, f := host.disk, host.fuse;
      ok := GenerateSynclistsFile(c);
      RanThen(d0, f0, done, d, f, sync, host.disk, host.fuse, ok);
      if !ok { RanStops(d0, f0, done + sync, plan, host.disk, host.fuse); return; }
      d, f := host.disk, host.fuse;
      ok := host.PerformAll([Finalize(chroot, c.password), Packimage(osimage, chroot)]);
      RanThen(d0, f0, done + sync, d, f, pack, host.disk, host.fuse, ok);
    }
  }

  /** Whatever was staged before, the synclist is the one for the selected queue. */
  lemma AfterSynclist(d: Disk, c: Config)
    ensures Execute(d, StageSynclist(c)) == d.(synclist := SynclistFor(c))
  {
    var local := [TruncateSynclist, AppendSynclist(LOCAL_FILES)];
    ExecuteTwo(d, local[0], local[1]);
    assert AppendOnce([], LOCAL_FILES) == [LOCAL_FILES];
    if c.queue.Slurm? {
      ExecuteConcat(d, local, [AppendSynclist(SLURM_FILES)]);
      ExecuteOne(Execute(d, local), AppendSynclist(SLURM_FILES));
      assert LOCAL_FILES[0] != SLURM_FILES[0];
    } else {
      assert local + [] == local;
    }
  }

  /** Before the last command of the three there is no new marker, and with it there is exactly the one for the queue. */
  lemma AfterGenerate(d: Disk, c: Config, n: nat)
    ensures n < 3 && c.Marker() !in d.markers ==> Execute(d, Generate(c)[..n]).markers == d.markers
    ensures
      var e := Execute(d, Generate(c));
      && c.Chroot() in e.roots && e.roots[c.Chroot()].Built?
      && e.markers == d.markers[c.Marker() := QueueMarkerValue(c) + "\n"]
  {
    hide QueueMarkerValue;
    var gen, drop, stamp := Genimage(c.Image(), c.Chroot()), RemoveMarker(c.Marker()), AppendMarker(c.Marker(), QueueMarkerValue(c) + "\n");
    var e := Apply(d, gen);
    assert Generate(c) == [gen] + [drop, stamp];
    ExecuteOne(d, gen);
    ExecuteConcat(d, [gen], [drop, stamp]);
    ExecuteTwo(e, drop, stamp);
    AppendToNothing(QueueMarkerValue(c) + "\n");
    if n == 1 {
      assert Generate(c)[..1] == [gen];
    } else if n == 2 {
      assert Generate(c)[..2] == [gen, drop];
      ExecuteTwo(d, gen, drop);
    }
  }

  lemma AppendToNothing(text: string)
    ensures AppendText("", text) == text
  {
    assert "" + text == text;
    if Contains("", text) {
      assert text == "";
    }
  }

  lemma ForgetKeepsMarkers(d: Disk, c: Config)
    ensures
      var e := Execute(d, Forget(c));
      && e == d.(definitions := e.definitions)
      && (c.Image() in e.definitions <==> c.Image() in d.definitions && !c.forceGenimage)
      && Build(d, c) == Build(e, c) && CanGenerate(d, c) == CanGenerate(e, c)
  {
    ExecuteOne(d, RemoveDefinition(c.Image()));
  }

  lemma ForgetStops(d0: Disk, f0: nat, c: Config, d1: Disk, f1: nat)
    requires Ran(d0, f0, Forget(c), d1, f1, false)
    ensures Ran(d0, f0, Plan(d0, c), d1, f1, false)
    ensures f0 < |Plan(d0, c)|
  {
    assert c.forceGenimage;
    RanStops(d0, f0, Forget(c), Plan(d0, c), d1, f1);
  }

  lemma RanParts(d0: Disk, f0: nat, forget: seq<Op>, build: seq<Op>, pack: seq<Op>, d: Disk, f: nat, d1: Disk, f1: nat, ran: bool)
    requires Ran(d0, f0, forget, d, f, true) && Ran(d, f, build, d1, f1, ran)
    ensures Ran(d0, f0, forget + build, d1, f1, ran)
    ensures !ran || pack == [] ==> Ran(d0, f0, forget + (build + pack), d1, f1, ran)
    ensures forget + (build + pack) == forget + build + pack
  {
    RanThen(d0, f0, forget, d, f, build, d1, f1, ran);
    assert forget + (build + pack) == forget + build + pack;
    if pack == [] {
      assert forget + build + pack == forget + build;
    } else if !ran {
      RanStops(d0, f0, forget + build, forget + build + pack, d1, f1);
    }
  }

  lemma RebuildRan(d0: Disk, f0: nat, c: Config, d: Disk, f: nat, d1: Disk, f1: nat, ran: bool)
    requires !Reuses(d0, c)
    requires Ran(d0, f0, Forget(c), d, f, true)
    requires Ran(d, f, Build(d, c), d1, f1, ran)
    ensures ran ==> Ran(d0, f0, Forget(c) + Build(d0, c), d1, f1, true)
    ensures !(ran && CanGenerate(d0, c)) ==> Ran(d0, f0, Plan(d0, c), d1, f1, ran)
    ensures CanGenerate(d0, c) ==> Plan(d0, c) == Forget(c) + Build(d0, c) + Repack(c)
  {
    ForgetKeepsMarkers(d0, c);
    RanParts(d0, f0, Forget(c), Build(d0, c), if CanGenerate(d0, c) then Repack(c) else [], d, f, d1, f1, ran);
  }

  // ----- what the phases of a rebuild leave on the disk

  /** The post-install script as it reaches the disk: repeated chunks are written once. */
  function Written(content: seq<Snippet>, scripts: seq<Snippet>): seq<Snippet>
    decreases |scripts|
  {
    if scripts == [] then content else Written(AppendOnce(content, scripts[0]), scripts[1..])
  }

  lemma {:induction false} AppendsWrite(d: Disk, scripts: seq<Snippet>)
    ensures Execute(d, Appends(scripts)) == d.(postinstall := Written(d.postinstall, scripts))
    decreases |scripts|
  {
    if scripts != [] {
      assert Appends(scripts)[1..] == Appends(scripts[1..]);
      AppendsWrite(Apply(d, AppendPostinstall(scripts[0])), scripts[1..]);
    }
  }

  lemma AfterRootRemoval(d: Disk, path: string)
    ensures Execute(d, [TearRoot(path), DiscardRoot(path)]) == d.(roots := d.roots - {path})
  {
    ExecuteTwo(d, TearRoot(path), DiscardRoot(path));
    var e := Apply(d, TearRoot(path));
    assert e.roots - {path} == d.roots - {path};
  }

  lemma AfterMedia(d: Disk, c: Config)
    ensures
      var e := Execute(d, Media(c));
      && e.markers == d.markers && e.roots - {c.Chroot()} == d.roots - {c.Chroot()} && e.packed == d.packed
      && (c.Image() in e.definitions <==> c.Image() in d.definitions || !c.skipCopycds)
  {
    if c.skipCopycds {
      var remove, truncate := [TearRoot(c.Chroot()), DiscardRoot(c.Chroot())], [TruncateOtherPkgs, TruncatePostinstall];
      assert Media(c) == remove + truncate;
      AfterRootRemoval(d, c.Chroot());
      ExecuteConcat(d, remove, truncate);
      ExecuteTwo(Execute(d, remove), TruncateOtherPkgs, TruncatePostinstall);
    } else {
      ExecuteOne(d, Copycds(c.Image()));
    }
  }

  lemma AfterClean(d: Disk, c: Config)
    ensures
      var e := Execute(d, Clean(c));
      && e.markers == d.markers && e.roots == d.roots - {c.Chroot()} && e.packed == d.packed
      && (c.Image() in e.definitions <==> c.Image() in d.definitions || c.os.platform.Ubuntu2404?)
  {
    var clean := [TearRoot(c.Chroot()), DiscardRoot(c.Chroot())];
    var define := if c.os.platform.Ubuntu2404? then [DefineImage(c.Image())] else [];
    assert Clean(c) == clean + define;
    ExecuteConcat(d, clean, define);
    AfterRootRemoval(d, c.Chroot());
    ExecuteOne(Execute(d, clean), DefineImage(c.Image()));
  }

  /** The marker and the root image are gone; xCAT may have learned the image. */
  lemma AfterWipe(d: Disk, c: Config)
    ensures
      var e := Execute(d, Wipe(c));
      && e.markers == d.markers - {c.Marker()} && e.roots == d.roots - {c.Chroot()} && e.packed == d.packed
      && (c.Image() in e.definitions <==>
            c.Image() in d.definitions || !c.skipCopycds || c.os.platform.Ubuntu2404?)
  {
    var drop := [RemoveMarker(c.Marker())];
    ExecuteConcat(d, drop + Media(c), Clean(c));
    ExecuteConcat(d, drop, Media(c));
    ExecuteOne(d, RemoveMarker(c.Marker()));
    AfterMedia(Execute(d, drop), c);
    AfterClean(Execute(d, drop + Media(c)), c);
  }

  /** Everything genimage reads is staged, and the root image is under construction. */
  lemma AfterStage(d: Disk, c: Config)
    ensures
      var e := Execute(d, Stage(c));
      && e.markers == d.markers && e.packed == d.packed
      && e.roots == d.roots[c.Chroot() := Partial]
      && e.otherpkgs == Packages(c) && e.postinstall == Written([], Scripts(c))
      && (c.Image() in e.definitions <==> c.Image() in d.definitions)
      && (c.Image() in e.definitions ==> e.definitions[c.Image()])
  {
    var last := [AttachLists(c.Image()), Customize(c.Chroot())];
    ExecuteConcat(d, StagePackages(c) + StageScripts(c), last);
    AfterLists(d, c);
    AfterAttach(Execute(d, StagePackages(c) + StageScripts(c)), c.Image(), c.Chroot());
  }

  lemma AfterLists(d: Disk, c: Config)
    ensures Execute(d, StagePackages(c) + StageScripts(c))
         == d.(otherpkgs := Packages(c), postinstall := Written([], Scripts(c)))
  {
    ExecuteConcat(d, StagePackages(c), StageScripts(c));
    ExecuteTwo(d, TruncateOtherPkgs, AppendOtherPkgs(Packages(c)));
    var d1 := Execute(d, StagePackages(c));
    ExecuteConcat(d1, [TruncatePostinstall], Appends(Scripts(c)));
    ExecuteOne(d1, TruncatePostinstall);
    AppendsWrite(Apply(d1, TruncatePostinstall), Scripts(c));
  }

  lemma AfterAttach(d: Disk, image: string, path: string)
    ensures
      var e := Execute(d, [AttachLists(image), Customize(path)]);
      && e == d.(definitions := e.definitions, roots := d.roots[path := Partial])
      && (image in e.definitions <==> image in d.definitions)
      && (image in e.definitions ==> e.definitions[image])
  {
    ExecuteTwo(d, AttachLists(image), Customize(path));
  }

  /** Whether xCAT knows the image once everything is staged. */
  lemma DefinedAfterStaging(d: Disk, c: Config)
    requires !c.forceGenimage || c.Image() !in d.definitions
    ensures c.Image() in Execute(Execute(d, Wipe(c)), Stage(c)).definitions <==> CanGenerate(d, c)
  {
    AfterWipe(d, c);
    AfterStage(Execute(d, Wipe(c)), c);
  }
}
