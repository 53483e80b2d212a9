/**
 * What every history of runs keeps, whatever each run was configured for and wherever it died.
 */
module ImageCacheSafety {
  import opened ImageCache
  import opened ImageDisk
  import opened ImageNames

  /** A complete root image, generated from what one configuration stages. */
  ghost predicate BuiltFrom(root: Root, key: ImageKey, c: Config) {
    && root.Built?
    && c.Key() == key
    && root.packages == Packages(c)
    && root.scripts == Written([], Scripts(c))
  }

  ghost predicate MarkerIsHonest(allowed: set<Config>, d: Disk, key: ImageKey) {
    MarkerOf(key) in d.markers ==>
      && (ImageName(key) in d.definitions ==> d.definitions[ImageName(key)])
      && RootPath(key) in d.roots
      && exists c ::
           && c in allowed && BuiltFrom(d.roots[RootPath(key)], key, c)
           && d.markers[MarkerOf(key)] == QueueMarkerValue(c) + "\n"
  }

  /**
   * Every marker stands for a complete root image that one of the allowed configurations generated,
   * for exactly its marker value.
   */
  ghost predicate Inv(allowed: set<Config>, d: Disk) {
    forall key: ImageKey :: MarkerIsHonest(allowed, d, key)
  }

  lemma EmptyMarkersAreHonest(allowed: set<Config>, d: Disk)
    requires d.markers == map[]
    ensures Inv(allowed, d)
  {
  }

  // ----- one command

  /** A command that leaves markers alone and touches no image but one. */
  predicate Quiet(op: Op, image: string, path: string) {
    match op
    case RemoveDefinition(i) => i == image
    case RemoveMarker(_) => false
    case AppendMarker(_, _) => false
    case Copycds(i) => i == image
    case DefineImage(i) => i == image
    case TearRoot(p) => p == path
    case DiscardRoot(p) => p == path
    case Customize(p) => p == path
    case AttachLists(i) => i == image
    case Genimage(_, p) => p == path
    case Finalize(p, _) => p == path
    case _ => true
  }

  /** Two states agree on what is known about an image and on what its root image was made from. */
  ghost predicate SameImage(d: Disk, e: Disk, image: string, path: string) {
    && (image in e.definitions ==> image in d.definitions && e.definitions[image] == d.definitions[image])
    && (path in d.roots && d.roots[path].Built? ==>
          && path in e.roots && e.roots[path].Built?
          && e.roots[path].packages == d.roots[path].packages
          && e.roots[path].scripts == d.roots[path].scripts)
  }

  lemma QuietFrame(d: Disk, op: Op, image: string, path: string, other: string, otherPath: string)
    requires Quiet(op, image, path) && other != image && otherPath != path
    ensures Apply(d, op).markers == d.markers
    ensures SameImage(d, Apply(d, op), other, otherPath)
  {
    var e := Apply(d, op);
    assert otherPath in d.roots ==> otherPath in e.roots && e.roots[otherPath] == d.roots[otherPath];
  }

  /** An image under construction: its marker is gone, every other marker is honest. */
  ghost predicate Building(allowed: set<Config>, d: Disk, key: ImageKey) {
    Inv(allowed, d) && MarkerOf(key) !in d.markers
  }

  /** Only its own marker, definition and root image matter to a marker. */
  lemma StaysHonest(allowed: set<Config>, d: Disk, e: Disk, key: ImageKey)
    requires MarkerIsHonest(allowed, d, key)
    requires e.markers == d.markers && SameImage(d, e, ImageName(key), RootPath(key))
    ensures MarkerIsHonest(allowed, e, key)
  {
    if MarkerOf(key) in d.markers {
      var c :| c in allowed && BuiltFrom(d.roots[RootPath(key)], key, c)
        && d.markers[MarkerOf(key)] == QueueMarkerValue(c) + "\n";
      assert BuiltFrom(e.roots[RootPath(key)], key, c);
    }
  }

  lemma QuietStep(allowed: set<Config>, d: Disk, op: Op, key: ImageKey)
    requires Building(allowed, d, key) && Quiet(op, ImageName(key), RootPath(key))
    ensures Building(allowed, Apply(d, op), key)
  {
    var e := Apply(d, op);
    assert e.markers == d.markers;
    forall other: ImageKey ensures MarkerIsHonest(allowed, e, other) {
      assert MarkerIsHonest(allowed, d, other);
      NamesIdentifyImages(key, other);
      if other != key {
        QuietFrame(d, op, ImageName(key), RootPath(key), ImageName(other), RootPath(other));
        StaysHonest(allowed, d, e, other);
      }
    }
  }

  ghost predicate AllQuiet(ops: seq<Op>, key: ImageKey) {
    forall i :: 0 <= i < |ops| ==> Quiet(ops[i], ImageName(key), RootPath(key))
  }

  lemma {:induction false} QuietRun(allowed: set<Config>, d: Disk, ops: seq<Op>, key: ImageKey, n: nat)
    requires Building(allowed, d, key) && AllQuiet(ops, key) && n <= |ops|
    ensures Building(allowed, Execute(d, ops[..n]), key)
    decreases n
  {
    if n > 0 {
      QuietStep(allowed, d, ops[0], key);
      assert ops[..n][1..] == ops[1..][..n - 1];
      QuietRun(allowed, Apply(d, ops[0]), ops[1..], key, n - 1);
    }
  }

  lemma DropMarker(allowed: set<Config>, d: Disk, key: ImageKey)
    requires Inv(allowed, d)
    ensures Building(allowed, Apply(d, RemoveMarker(MarkerOf(key))), key)
  {
    var e := Apply(d, RemoveMarker(MarkerOf(key)));
    forall other: ImageKey ensures MarkerIsHonest(allowed, e, other) {
      assert MarkerIsHonest(allowed, d, other);
    }
  }

  /** Repacking writes no marker and completes no root image. */
  predicate Harmless(op: Op) {
    op.TruncateSynclist? || op.AppendSynclist? || op.Finalize? || op.Packimage? || op.RemoveDefinition?
  }

  lemma HarmlessFrame(d: Disk, op: Op, image: string, path: string)
    requires Harmless(op)
    ensures Apply(d, op).markers == d.markers
    ensures SameImage(d, Apply(d, op), image, path)
  {
  }

  lemma HarmlessStep(allowed: set<Config>, d: Disk, op: Op)
    requires Inv(allowed, d) && Harmless(op)
    ensures Inv(allowed, Apply(d, op))
  {
    forall key: ImageKey ensures MarkerIsHonest(allowed, Apply(d, op), key) {
      assert MarkerIsHonest(allowed, d, key);
      HarmlessFrame(d, op, ImageName(key), RootPath(key));
      StaysHonest(allowed, d, Apply(d, op), key);
    }
  }

  ghost predicate AllHarmless(ops: seq<Op>) {
    forall i :: 0 <= i < |ops| ==> Harmless(ops[i])
  }

  lemma {:induction false} HarmlessRun(allowed: set<Config>, d: Disk, ops: seq<Op>, n: nat)
    requires Inv(allowed, d) && AllHarmless(ops) && n <= |ops|
    ensures Inv(allowed, Execute(d, ops[..n]))
    decreases n
  {
    if n > 0 {
      HarmlessStep(allowed, d, ops[0]);
      assert ops[..n][1..] == ops[1..][..n - 1];
      HarmlessRun(allowed, Apply(d, ops[0]), ops[1..], n - 1);
    }
  }

  // ----- one run, cut anywhere

  /** What a rebuild does between dropping the marker and stamping it. */
  function Body(d: Disk, c: Config): seq<Op> {
    Media(c) + Clean(c) + Stage(c) + if CanGenerate(d, c) then [Genimage(c.Image(), c.Chroot())] else []
  }

  function Stamps(d: Disk, c: Config): seq<Op> {
    if CanGenerate(d, c) then Stamp(c) else []
  }

  lemma Regroup(a: seq<Op>, b: seq<Op>, c: seq<Op>, d: seq<Op>, e: seq<Op>, f: seq<Op>)
    ensures a + b + c + d + (e + f) == a + (b + c + d + e + f)
  {
  }

  lemma BuildShape(d: Disk, c: Config)
    ensures Build(d, c) == [RemoveMarker(c.Marker())] + (Body(d, c) + Stamps(d, c))
  {
    var gen := if CanGenerate(d, c) then [Genimage(c.Image(), c.Chroot())] else [];
    Regroup([RemoveMarker(c.Marker())], Media(c), Clean(c), Stage(c), gen, Stamps(d, c));
    assert Build(d, c) == Wipe(c) + Stage(c) + (gen + Stamps(d, c));
  }

  lemma QuietConcat(a: seq<Op>, b: seq<Op>, key: ImageKey)
    requires AllQuiet(a, key) && AllQuiet(b, key)
    ensures AllQuiet(a + b, key)
  {
  }

  lemma BodyIsQuiet(d: Disk, c: Config)
    ensures AllQuiet(Body(d, c), c.Key())
  {
    var key := c.Key();
    var last := [AttachLists(c.Image()), Customize(c.Chroot())];
    assert AllQuiet(Media(c), key) && AllQuiet(Clean(c), key);
    assert AllQuiet(StagePackages(c), key) && AllQuiet(StageScripts(c), key) && AllQuiet(last, key);
    QuietConcat(Media(c), Clean(c), key);
    QuietConcat(StagePackages(c), StageScripts(c), key);
    QuietConcat(StagePackages(c) + StageScripts(c), last, key);
    QuietConcat(Media(c) + Clean(c), Stage(c), key);
    QuietConcat(Media(c) + Clean(c) + Stage(c), Body(d, c)[|Media(c) + Clean(c) + Stage(c)|..], key);
  }

  /** What genimage leaves: a root image made from all that this configuration stages. */
  ghost predicate Generated(d: Disk, c: Config) {
    && c.Chroot() in d.roots
    && BuiltFrom(d.roots[c.Chroot()], c.Key(), c)
    && c.Image() in d.definitions && d.definitions[c.Image()]
  }

  lemma AfterBody(d: Disk, c: Config)
    requires !c.forceGenimage || c.Image() !in d.definitions
    requires CanGenerate(d, c)
    ensures
      var e := Execute(Apply(d, RemoveMarker(c.Marker())), Body(d, c));
      && Generated(e, c)
      && e.markers == d.markers - {c.Marker()}
  {
    var drop, d0 := [RemoveMarker(c.Marker())], Apply(d, RemoveMarker(c.Marker()));
    var wipe, gen := Media(c) + Clean(c), [Genimage(c.Image(), c.Chroot())];
    var d1 := Execute(d0, wipe);
    ExecuteOne(d, drop[0]);
    ExecuteConcat(d, drop, wipe);
    assert drop + wipe == Wipe(c);
    ExecuteConcat(d0, wipe, Stage(c));
    ExecuteConcat(d0, wipe + Stage(c), gen);
    AfterWipe(d, c);
    AfterStage(d1, c);
    DefinedAfterStaging(d, c);
    ExecuteOne(Execute(d1, Stage(c)), gen[0]);
  }

  lemma StampIsHonest(allowed: set<Config>, d: Disk, c: Config, n: nat)
    requires c in allowed
    requires Building(allowed, d, c.Key()) && n <= 2
    requires c.Chroot() in d.roots && BuiltFrom(d.roots[c.Chroot()], c.Key(), c)
    requires c.Image() in d.definitions ==> d.definitions[c.Image()]
    ensures Inv(allowed, Execute(d, Stamp(c)[..n]))
    ensures n == 2 ==>
      var e := Execute(d, Stamp(c)[..n]);
      e == d.(markers := d.markers[c.Marker() := QueueMarkerValue(c) + "\n"])
  {
    if n == 0 {
    } else if n == 1 {
      assert Stamp(c)[..1] == [RemoveMarker(c.Marker())];
      ExecuteOne(d, RemoveMarker(c.Marker()));
      DropMarker(allowed, d, c.Key());
    } else {
      var value := QueueMarkerValue(c) + "\n";
      assert Stamp(c)[..2] == [RemoveMarker(c.Marker()), AppendMarker(c.Marker(), value)];
      ExecuteTwo(d, RemoveMarker(c.Marker()), AppendMarker(c.Marker(), value));
      assert d.markers - {c.Marker()} == d.markers;
      assert AppendText("", value) == value;
      var e := d.(markers := d.markers[c.Marker() := value]);
      forall key: ImageKey ensures MarkerIsHonest(allowed, e, key) {
        assert MarkerIsHonest(allowed, d, key);
        NamesIdentifyImages(key, c.Key());
      }
    }
  }

  /** A quiet run of commands, then the stamp, cut anywhere. */
  lemma CutStamped(allowed: set<Config>, d: Disk, c: Config, body: seq<Op>, stamps: seq<Op>, n: nat)
    requires c in allowed
    requires Building(allowed, d, c.Key()) && AllQuiet(body, c.Key()) && n <= |body + stamps|
    requires stamps == [] || (stamps == Stamp(c) && Generated(Execute(d, body), c))
    ensures Inv(allowed, Execute(d, (body + stamps)[..n]))
  {
    ExecutePrefix(d, body, stamps, n);
    if n <= |body| {
      QuietRun(allowed, d, body, c.Key(), n);
    } else {
      QuietRun(allowed, d, body, c.Key(), |body|);
      assert body[..|body|] == body;
      StampIsHonest(allowed, Execute(d, body), c, n - |body|);
    }
  }

  /** A rebuild that dies after n commands. */
  lemma CutBuild(allowed: set<Config>, d: Disk, c: Config, n: nat)
    requires c in allowed
    requires Inv(allowed, d) && n <= |Build(d, c)|
    requires !c.forceGenimage || c.Image() !in d.definitions
    ensures Inv(allowed, Execute(d, Build(d, c)[..n]))
  {
    BuildShape(d, c);
    var drop, rest := [RemoveMarker(c.Marker())], Body(d, c) + Stamps(d, c);
    if n > 0 {
      assert (drop + rest)[..n] == drop + rest[..n - 1];
      ExecuteConcat(d, drop, rest[..n - 1]);
      ExecuteOne(d, drop[0]);
      DropMarker(allowed, d, c.Key());
      BodyIsQuiet(d, c);
      if CanGenerate(d, c) { AfterBody(d, c); }
      CutStamped(allowed, Apply(d, drop[0]), c, Body(d, c), Stamps(d, c), n - 1);
    }
  }

  /** A whole rebuild leaves the image built from this very configuration, and stamped for it. */
  lemma WholeBuild(allowed: set<Config>, d: Disk, c: Config)
    requires c in allowed
    requires Inv(allowed, d) && CanGenerate(d, c)
    requires !c.forceGenimage || c.Image() !in d.definitions
    ensures
      var e := Execute(d, Build(d, c));
      Inv(allowed, e) && Generated(e, c) && e.markers == d.markers[c.Marker() := QueueMarkerValue(c) + "\n"]
  {
    BuildShape(d, c);
    var drop, d1 := [RemoveMarker(c.Marker())], Apply(d, RemoveMarker(c.Marker()));
    ExecuteConcat(d, drop, Body(d, c) + Stamps(d, c));
    ExecuteOne(d, drop[0]);
    AfterBody(d, c);
    DropMarker(allowed, d, c.Key());
    BodyIsQuiet(d, c);
    WholeStamp(allowed, d1, c, Body(d, c));
  }

  lemma WholeStamp(allowed: set<Config>, d: Disk, c: Config, body: seq<Op>)
    requires c in allowed
    requires Building(allowed, d, c.Key()) && AllQuiet(body, c.Key()) && Generated(Execute(d, body), c)
    ensures
      var e := Execute(d, body + Stamp(c));
      && Inv(allowed, e) && Generated(e, c)
      && e.markers == Execute(d, body).markers[c.Marker() := QueueMarkerValue(c) + "\n"]
  {
    ExecuteConcat(d, body, Stamp(c));
    QuietRun(allowed, d, body, c.Key(), |body|);
    assert body[..|body|] == body && Stamp(c)[..2] == Stamp(c);
    StampIsHonest(allowed, Execute(d, body), c, 2);
  }

  lemma CutRebuild(allowed: set<Config>, d: Disk, c: Config, forget: seq<Op>, rest: seq<Op>, n: nat)
    requires c in allowed
    requires Inv(allowed, d) && n <= |forget + rest|
    requires forget == Forget(c)
    requires rest == Build(d, c) + if CanGenerate(d, c) then Repack(c) else []
    ensures Inv(allowed, Execute(d, (forget + rest)[..n]))
  {
    ExecutePrefix(d, forget, rest, n);
    assert AllHarmless(forget);
    if n <= |forget| {
      HarmlessRun(allowed, d, forget, n);
    } else {
      HarmlessRun(allowed, d, forget, |forget|);
      assert forget[..|forget|] == forget;
      ForgetKeepsMarkers(d, c);
      CutBuildAndPack(allowed, Execute(d, forget), c, n - |forget|);
    }
  }

  /** A plan cut anywhere keeps every marker honest. */
  lemma CutPlan(allowed: set<Config>, d: Disk, c: Config, n: nat)
    requires c in allowed
    requires Inv(allowed, d) && n <= |Plan(d, c)|
    ensures Inv(allowed, Execute(d, Plan(d, c)[..n]))
  {
    if Reuses(d, c) {
      RepackIsHarmless(c);
      HarmlessRun(allowed, d, Repack(c), n);
    } else {
      CutRebuild(allowed, d, c, Forget(c), Build(d, c) + if CanGenerate(d, c) then Repack(c) else [], n);
    }
  }

  /** One run, dying after any number of commands, keeps every marker honest. */
  lemma RunKeepsMarkersHonest(allowed: set<Config>, d: Disk, c: Config, fuse: nat)
    requires c in allowed
    requires Inv(allowed, d)
    ensures Inv(allowed, After(d, c, fuse))
  {
    var plan := Plan(d, c);
    var n := if fuse < |plan| then fuse else |plan|;
    assert plan[..|plan|] == plan;
    CutPlan(allowed, d, c, n);
  }

  lemma RepackIsHarmless(c: Config)
    ensures AllHarmless(Repack(c))
  {
    var sync, pack := StageSynclist(c), [Finalize(c.Chroot(), c.password), Packimage(c.Image(), c.Chroot())];
    assert Repack(c) == sync + pack;
    assert AllHarmless(sync) && AllHarmless(pack);
  }

  lemma CutBuildAndPack(allowed: set<Config>, d: Disk, c: Config, n: nat)
    requires c in allowed
    requires Inv(allowed, d)
    requires !c.forceGenimage || c.Image() !in d.definitions
    requires n <= |Build(d, c) + if CanGenerate(d, c) then Repack(c) else []|
    ensures Inv(allowed, Execute(d, (Build(d, c) + if CanGenerate(d, c) then Repack(c) else [])[..n]))
  {
    var build, pack := Build(d, c), if CanGenerate(d, c) then Repack(c) else [];
    ExecutePrefix(d, build, pack, n);
    if n <= |build| {
      CutBuild(allowed, d, c, n);
    } else {
      WholeBuild(allowed, d, c);
      RepackIsHarmless(c);
      HarmlessRun(allowed, Execute(d, build), pack, n - |build|);
    }
  }

  // ----- any number of runs

  datatype Run = Run(config: Config, fuse: nat)

  ghost function RunConfigs(runs: seq<Run>): set<Config> {
    set r | r in runs :: r.config
  }

  /** The disk after a history of runs, most of which may have died halfway. */
  function History(d: Disk, runs: seq<Run>): Disk
    decreases |runs|
  {
    if runs == [] then d else History(After(d, runs[0].config, runs[0].fuse), runs[1..])
  }

  /** Crash safety: over every history, what a marker stands for was built by a configuration that ran. */
  lemma {:induction false} MarkersStayHonest(allowed: set<Config>, d: Disk, runs: seq<Run>)
    requires RunConfigs(runs) <= allowed
    requires Inv(allowed, d)
    ensures Inv(allowed, History(d, runs))
    decreases |runs|
  {
    if runs != [] {
      assert runs[0] in runs && forall r :: r in runs[1..] ==> r in runs;
      RunKeepsMarkersHonest(allowed, d, runs[0].config, runs[0].fuse);
      MarkersStayHonest(allowed, After(d, runs[0].config, runs[0].fuse), runs[1..]);
    }
  }
}
