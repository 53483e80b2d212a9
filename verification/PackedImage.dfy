/** What a run that finishes packs: the right workload manager, the right synclist. */
module PackedImage {
  import opened ImageCache
  import opened ImageCacheSafety
  import opened ImageDisk
  import opened ImageNames
  import opened Text
  import opened Wrappers

  /** The part of a root image that belongs to a workload manager. */
  function SchedulerOf(scripts: seq<Snippet>): seq<Snippet> {
    if scripts == [] then []
    else (if scripts[0].Common? then [] else [scripts[0]]) + SchedulerOf(scripts[1..])
  }

  lemma {:induction false} SchedulerConcat(a: seq<Snippet>, b: seq<Snippet>)
    ensures SchedulerOf(a + b) == SchedulerOf(a) + SchedulerOf(b)
  {
    if a == [] {
      assert a + b == b;
    } else {
      assert (a + b)[1..] == a[1..] + b;
      SchedulerConcat(a[1..], b);
    }
  }

  lemma {:induction false} SchedulerOfCommon(texts: seq<string>)
    ensures SchedulerOf(CommonScripts(texts)) == []
  {
    if texts != [] {
      assert CommonScripts(texts)[1..] == CommonScripts(texts[1..]);
      SchedulerOfCommon(texts[1..]);
    }
  }

  lemma {:induction false} SchedulerMembers(scripts: seq<Snippet>, snippet: Snippet)
    ensures snippet in SchedulerOf(scripts) <==> snippet in scripts && !snippet.Common?
  {
    if scripts != [] {
      SchedulerMembers(scripts[1..], snippet);
    }
  }

  lemma {:induction false} SchedulerWritten(content: seq<Snippet>, scripts: seq<Snippet>)
    ensures SchedulerOf(Written(content, scripts)) == Written(SchedulerOf(content), SchedulerOf(scripts))
    decreases |scripts|
  {
    if scripts != [] {
      var s := scripts[0];
      SchedulerWritten(AppendOnce(content, s), scripts[1..]);
      SchedulerMembers(content, s);
      SchedulerConcat(content, [s]);
      assert SchedulerOf([s]) == if s.Common? then [] else [s];
      if !s.Common? {
        assert SchedulerOf(scripts)[1..] == SchedulerOf(scripts[1..]);
      } else {
        assert SchedulerOf(scripts) == SchedulerOf(scripts[1..]);
        assert SchedulerOf(AppendOnce(content, s)) == SchedulerOf(content);
      }
    }
  }

  /** What reaches the disk keeps exactly the scheduler chunks of the selected queue. */
  lemma SchedulerOfStaged(c: Config)
    ensures SchedulerOf(Written([], Scripts(c))) == QueueScripts(c)
  {
    var early, queue, late := CommonScripts(c.earlyScripts), QueueScripts(c), CommonScripts(c.lateScripts);
    SchedulerWritten([], Scripts(c));
    SchedulerConcat([SHEBANG] + early + queue, late);
    SchedulerConcat([SHEBANG] + early, queue);
    SchedulerConcat([SHEBANG], early);
    SchedulerOfCommon(c.earlyScripts);
    SchedulerOfCommon(c.lateScripts);
    assert SchedulerOf([SHEBANG]) == [];
    assert SchedulerOf(Scripts(c)) == SchedulerOf(queue);
    QueueScriptsStay(queue);
  }

  lemma QueueScriptsStay(queue: seq<Snippet>)
    requires |queue| <= 2 && (forall i :: 0 <= i < |queue| ==> !queue[i].Common?)
    requires |queue| == 2 ==> queue[0] != queue[1]
    ensures SchedulerOf(queue) == queue && Written([], queue) == queue
  {
    if |queue| == 1 {
      assert queue[1..] == [] && AppendOnce([], queue[0]) == queue;
    } else if |queue| == 2 {
      assert queue[1..] == [queue[1]] && queue[1..][1..] == [];
      assert SchedulerOf(queue[1..]) == [queue[1]];
      var first := AppendOnce([], queue[0]);
      assert first == [queue[0]] && AppendOnce(first, queue[1]) == queue;
      assert Written(first, queue[1..]) == Written(queue, []);
    }
  }

  /** The marker value tells apart the queues, and under PBS the head nodes, and nothing else. */
  lemma MarkerValueIdentifiesQueue(a: Config, b: Config)
    ensures QueueMarkerValue(a) == QueueMarkerValue(b) <==>
      && a.queue.Slurm? == b.queue.Slurm?
      && a.queue.Pbs? == b.queue.Pbs?
      && (a.queue.Pbs? ==> a.hostname == b.hostname)
  {
    var x, y := QueueMarkerValue(a), QueueMarkerValue(b);
    assert x[0] == (if a.queue.Pbs? then 'p' else if a.queue.Slurm? then 's' else 'n');
    assert y[0] == (if b.queue.Pbs? then 'p' else if b.queue.Slurm? then 's' else 'n');
    if a.queue.Pbs? && b.queue.Pbs? {
      assert x[4..] == a.hostname && y[4..] == b.hostname;
    }
  }

  lemma AfterPassword(d: Disk, path: string, password: string)
    requires path in d.roots && d.roots[path].Built?
    ensures Apply(d, Finalize(path, password))
         == d.(roots := d.roots[path := d.roots[path].(password := Some(password))])
  {
  }

  lemma AfterPackimage(d: Disk, image: string, path: string)
    requires path in d.roots
    requires image in d.definitions && d.definitions[image]
    ensures Apply(d, Packimage(image, path)) == d.(packed := d.packed[image := Packed(d.roots[path], d.synclist)])
  {
  }

  lemma AfterFinalize(d: Disk, image: string, path: string, password: string)
    requires path in d.roots && d.roots[path].Built?
    requires image in d.definitions && d.definitions[image]
    ensures
      var root := d.roots[path].(password := Some(password));
      Execute(d, [Finalize(path, password), Packimage(image, path)])
        == d.(roots := d.roots[path := root], packed := d.packed[image := Packed(root, d.synclist)])
  {
    ExecuteTwo(d, Finalize(path, password), Packimage(image, path));
    AfterPassword(d, path, password);
    AfterPackimage(Apply(d, Finalize(path, password)), image, path);
  }

  lemma AfterRepack(d: Disk, c: Config)
    requires c.Chroot() in d.roots && d.roots[c.Chroot()].Built?
    requires c.Image() in d.definitions && d.definitions[c.Image()]
    ensures
      var e := Execute(d, Repack(c));
      var root := d.roots[c.Chroot()].(password := Some(c.password));
      && e.markers == d.markers && e.definitions == d.definitions
      && e.roots == d.roots[c.Chroot() := root]
      && e.packed == d.packed[c.Image() := Packed(root, SynclistFor(c))]
  {
    ExecuteConcat(d, StageSynclist(c), [Finalize(c.Chroot(), c.password), Packimage(c.Image(), c.Chroot())]);
    AfterSynclist(d, c);
    AfterFinalize(d.(synclist := SynclistFor(c)), c.Image(), c.Chroot(), c.password);
  }

  lemma MoreAllowed(allowed: set<Config>, d: Disk, c: Config)
    requires Inv(allowed, d)
    ensures Inv(allowed + {c}, d)
  {
    forall key: ImageKey ensures MarkerIsHonest(allowed + {c}, d, key) {
      assert MarkerIsHonest(allowed, d, key);
    }
  }

  lemma AfterPlanRebuild(allowed: set<Config>, d: Disk, c: Config) returns (e: Disk)
    requires Inv(allowed, d) && !Reuses(d, c) && CanGenerate(d, c)
    ensures Execute(d, Plan(d, c)) == Execute(e, Repack(c))
    ensures Generated(e, c) && c.Marker() in e.markers && e.markers[c.Marker()] == QueueMarkerValue(c) + "\n"
  {
    var d1 := Execute(d, Forget(c));
    MoreAllowed(allowed, d, c);
    ExecuteConcat(d, Forget(c), Build(d, c) + Repack(c));
    ExecuteConcat(d1, Build(d, c), Repack(c));
    ForgetKeepsMarkers(d, c);
    assert AllHarmless(Forget(c)) && Forget(c)[..|Forget(c)|] == Forget(c);
    HarmlessRun(allowed + {c}, d, Forget(c), |Forget(c)|);
    WholeBuild(allowed + {c}, d1, c);
    e := Execute(d1, Build(d, c));
  }

  /** The image a run for c packs when its root was generated by the builder. */
  function PackedFrom(builder: Config, c: Config): Packed {
    Packed(Built(Packages(builder), Written([], Scripts(builder)), Some(c.password)), SynclistFor(c))
  }

  /** What a finishing run packs, and which configuration its root image was generated from. */
  lemma FinishedRunPacks(allowed: set<Config>, d: Disk, c: Config) returns (builder: Config)
    requires Inv(allowed, d) && Finishes(d, c)
    ensures
      var e := Execute(d, Plan(d, c));
      && c.Image() in e.packed && e.packed[c.Image()] == PackedFrom(builder, c)
      && c.Marker() in e.markers && e.markers[c.Marker()] == QueueMarkerValue(builder) + "\n"
      && c.Image() in e.definitions
    ensures builder.Key() == c.Key()
    ensures !Reuses(d, c) ==> builder == c
    ensures Reuses(d, c) ==>
      && builder in allowed
      && FirstLine(QueueMarkerValue(builder) + "\n") == QueueMarkerValue(c)
      && c.Chroot() in d.roots && BuiltFrom(d.roots[c.Chroot()], c.Key(), builder)
  {
    if Reuses(d, c) {
      assert MarkerIsHonest(allowed, d, c.Key());
      builder :| builder in allowed && BuiltFrom(d.roots[c.Chroot()], c.Key(), builder)
        && d.markers[c.Marker()] == QueueMarkerValue(builder) + "\n";
      AfterRepack(d, c);
    } else {
      builder := c;
      var e := AfterPlanRebuild(allowed, d, c);
      AfterRepack(e, c);
    }
  }

  // ----- what a marker line says

  /** The marker of this configuration fits on one line. */
  predicate LineSafe(c: Config) {
    c.queue.Pbs? ==> '\n' !in c.hostname
  }

  lemma MarkerValueIsOneLine(c: Config)
    ensures '\n' !in QueueMarkerValue(c) <==> LineSafe(c)
    ensures FirstLine(QueueMarkerValue(c) + "\n") == QueueMarkerValue(c) <==> LineSafe(c)
  {
    FirstLineOfLine(QueueMarkerValue(c));
    if c.queue.Pbs? {
      var value := QueueMarkerValue(c);
      assert value[4..] == c.hostname;
      assert forall i :: 0 <= i < 4 ==> value[i] != '\n';
      assert forall i :: 0 <= i < |c.hostname| ==> c.hostname[i] == value[i + 4];
    }
  }

  lemma {:induction false} FirstLineAfter(prefix: string, text: string)
    requires '\n' !in prefix
    ensures FirstLine(prefix + text) == prefix + FirstLine(text)
  {
    if prefix == "" {
      assert prefix + text == text;
    } else {
      assert (prefix + text)[1..] == prefix[1..] + text;
      FirstLineAfter(prefix[1..], text);
    }
  }

  /** The line read back under PBS is the one for the first line of the host name. */
  lemma MarkerLine(c: Config)
    requires c.queue.Pbs?
    ensures FirstLine(QueueMarkerValue(c) + "\n") == QueueMarkerValue(c.(hostname := FirstLine(c.hostname + "\n")))
  {
    var prefix := QueueMarkerToken(c.queue) + " ";
    assert QueueMarkerValue(c) + "\n" == prefix + (c.hostname + "\n");
    FirstLineAfter(prefix, c.hostname + "\n");
  }

  /** Which markers answer for a configuration: those of its own queue, as far as the first line goes. */
  lemma MarkerLineIdentifies(builder: Config, c: Config)
    ensures FirstLine(QueueMarkerValue(builder) + "\n") == QueueMarkerValue(c) <==>
      && builder.queue.Slurm? == c.queue.Slurm?
      && builder.queue.Pbs? == c.queue.Pbs?
      && (c.queue.Pbs? ==> c.hostname == FirstLine(builder.hostname + "\n"))
  {
    if builder.queue.Pbs? {
      MarkerLine(builder);
      MarkerValueIdentifiesQueue(builder.(hostname := FirstLine(builder.hostname + "\n")), c);
    } else {
      MarkerValueIsOneLine(builder);
      MarkerValueIdentifiesQueue(builder, c);
    }
  }

  /** A marker answers for a configuration with another marker value exactly when its own spans several lines. */
  lemma MisleadingMarkers(b: Config)
    ensures (exists c: Config :: c.Key() == b.Key() && FirstLine(QueueMarkerValue(b) + "\n") == QueueMarkerValue(c) != QueueMarkerValue(b))
      <==> !LineSafe(b)
  {
    MarkerValueIsOneLine(b);
    if !LineSafe(b) {
      var c := b.(hostname := FirstLine(b.hostname + "\n"));
      MarkerLine(b);
      assert c.Key() == b.Key();
    }
  }

  // ----- what every history packs

  /**
   * The cached root image was scripted for another head node: under SLURM for another address, which
   * no marker records, and under PBS for another name, which a marker of several lines can hide.
   */
  predicate ScriptedForAnother(d: Disk, c: Config) {
    && c.Chroot() in d.roots && d.roots[c.Chroot()].Built?
    && match c.queue
       case Slurm => SlurmdOptions(c.address) !in d.roots[c.Chroot()].scripts
       case Pbs => PbsServer(c.hostname) !in d.roots[c.Chroot()].scripts
       case _ => false
  }

  lemma BuilderScripts(builder: Config, c: Config)
    requires builder.queue.Slurm? == c.queue.Slurm? && builder.queue.Pbs? == c.queue.Pbs?
    ensures
      var scripts := Written([], Scripts(builder));
      && SchedulerOf(scripts) == QueueScripts(builder)
      && (SlurmdOptions(c.address) in scripts <==> builder.queue.Slurm? && builder.address == c.address)
      && (PbsServer(c.hostname) in scripts <==> builder.queue.Pbs? && builder.hostname == c.hostname)
  {
    SchedulerOfStaged(builder);
    SchedulerMembers(Written([], Scripts(builder)), SlurmdOptions(c.address));
    SchedulerMembers(Written([], Scripts(builder)), PbsServer(c.hostname));
  }

  /** The packed scheduler chunks are the current ones unless a root image scripted for another head node is reused. */
  lemma SchedulerIsCurrentUnlessReused(allowed: set<Config>, d: Disk, c: Config)
    requires Inv(allowed, d) && Finishes(d, c)
    ensures
      var e := Execute(d, Plan(d, c));
      c.Image() in e.packed && e.packed[c.Image()].root.Built?
    ensures
      var e := Execute(d, Plan(d, c));
      SchedulerOf(e.packed[c.Image()].root.scripts) == QueueScripts(c) <==> !(Reuses(d, c) && ScriptedForAnother(d, c))
  {
    var b := FinishedRunPacks(allowed, d, c);
    if Reuses(d, c) {
      MarkerLineIdentifies(b, c);
    }
    BuilderScripts(b, c);
  }

  /** The packed image was made, from all they stage, by one of these configurations for the same marker value. */
  ghost predicate FitsSelection(packed: Packed, c: Config, configs: set<Config>) {
    exists b :: b in configs && b.Key() == c.Key() && QueueMarkerValue(b) == QueueMarkerValue(c) && packed == PackedFrom(b, c)
  }

  /** For whoever fits: the queue's packages, its scripts, and under PBS the host name. */
  lemma FittingImage(packed: Packed, c: Config, configs: set<Config>) returns (base: seq<string>, address: string)
    requires FitsSelection(packed, c, configs)
    ensures packed.root.Built? && packed.root.packages == base + QueuePackages(c)
    ensures SchedulerOf(packed.root.scripts) == QueueScripts(c.(address := address))
    ensures exists b :: b in configs && base == b.basePackages && address == b.address
  {
    var b :| b in configs && b.Key() == c.Key() && QueueMarkerValue(b) == QueueMarkerValue(c) && packed == PackedFrom(b, c);
    base, address := b.basePackages, b.address;
    MarkerValueIdentifiesQueue(b, c);
    SchedulerOfStaged(b);
    SameImageSamePackageFamily(b.os, c.os);
  }

  /**
   * Over every history of interrupted and reconfigured runs on a disk without markers, a run that
   * finishes packs an image made by itself or by a run for the same marker value, unless it reuses,
   * under PBS, a root image scripted for another host name.
   */
  lemma EveryPackedImage(d: Disk, runs: seq<Run>, c: Config)
    requires d.markers == map[] && Finishes(History(d, runs), c)
    ensures
      var h := History(d, runs);
      var e := Execute(h, Plan(h, c));
      && c.Image() in e.packed
      && (FitsSelection(e.packed[c.Image()], c, RunConfigs(runs) + {c}) <==>
            !(c.queue.Pbs? && Reuses(h, c) && ScriptedForAnother(h, c)))
  {
    var h, configs := History(d, runs), RunConfigs(runs) + {c};
    EmptyMarkersAreHonest(RunConfigs(runs), d);
    MarkersStayHonest(RunConfigs(runs), d, runs);
    var b := FinishedRunPacks(RunConfigs(runs), h, c);
    var packed := Execute(h, Plan(h, c)).packed[c.Image()];
    if Reuses(h, c) {
      MarkerLineIdentifies(b, c);
    }
    BuilderScripts(b, c);
    MarkerValueIdentifiesQueue(b, c);
    if !(c.queue.Pbs? && Reuses(h, c) && ScriptedForAnother(h, c)) {
      assert b in configs && QueueMarkerValue(b) == QueueMarkerValue(c);
      assert FitsSelection(packed, c, configs);
    } else if FitsSelection(packed, c, configs) {
      var base, address := FittingImage(packed, c, configs);
      assert false;
    }
  }

  /** If no run had a host name of several lines, every packed image fits. */
  lemma EveryPackedImageFits(d: Disk, runs: seq<Run>, c: Config)
    requires d.markers == map[] && Finishes(History(d, runs), c)
    requires forall b :: b in RunConfigs(runs) ==> LineSafe(b)
    ensures
      var h := History(d, runs);
      var e := Execute(h, Plan(h, c));
      c.Image() in e.packed && FitsSelection(e.packed[c.Image()], c, RunConfigs(runs) + {c})
  {
    var h := History(d, runs);
    EmptyMarkersAreHonest(RunConfigs(runs), d);
    MarkersStayHonest(RunConfigs(runs), d, runs);
    var b := FinishedRunPacks(RunConfigs(runs), h, c);
    if Reuses(h, c) {
      MarkerValueIsOneLine(b);
      assert b in RunConfigs(runs) + {c};
    }
  }

  /** A finished run is reused by the next run for the same configuration, if its marker fits on a line. */
  lemma FinishedRunIsReused(allowed: set<Config>, d: Disk, c: Config, next: Config)
    requires Inv(allowed, d) && Finishes(d, c)
    requires next.Key() == c.Key() && QueueMarkerValue(next) == QueueMarkerValue(c)
    requires !next.forceGenimage && !next.skipCopycds
    ensures Reuses(Execute(d, Plan(d, c)), next) <==> LineSafe(c)
  {
    var b := FinishedRunPacks(allowed, d, c);
    FirstLineOfLine(QueueMarkerValue(b));
    MarkerValueIsOneLine(c);
    MarkerValueIsOneLine(b);
    if Reuses(d, c) {
      assert '\n' !in QueueMarkerValue(c);
      ReuseKeepsMarker(allowed, d, c);
    }
  }

  lemma ReuseKeepsMarker(allowed: set<Config>, d: Disk, c: Config)
    requires Inv(allowed, d) && Reuses(d, c)
    ensures Execute(d, Plan(d, c)).markers == d.markers
  {
    assert MarkerIsHonest(allowed, d, c.Key());
    AfterRepack(d, c);
  }

  /** What the next run packs when it finds the marker of a run on a disk without markers. */
  lemma NextRunPacks(d: Disk, c: Config, next: Config)
    requires d.markers == map[] && Finishes(d, c) && next.Key() == c.Key()
    requires FirstLine(QueueMarkerValue(c) + "\n") == QueueMarkerValue(next)
    requires !next.forceGenimage && !next.skipCopycds
    ensures
      var d1 := Execute(d, Plan(d, c));
      var d2 := Execute(d1, Plan(d1, next));
      next.Image() in d2.packed && d2.packed[next.Image()] == PackedFrom(c, next)
  {
    EmptyMarkersAreHonest({}, d);
    var e := AfterPlanRebuild({}, d, c);
    AfterRepack(e, c);
    AfterRepack(Execute(d, Plan(d, c)), next);
  }

  /** Changing only the head node's address under SLURM repacks an image with the old address. */
  lemma StaleSlurmServer(d: Disk, c: Config, address: string)
    requires d.markers == map[] && Finishes(d, c)
    requires c.queue.Slurm? && !c.forceGenimage && !c.skipCopycds && address != c.address
    ensures
      var d1 := Execute(d, Plan(d, c));
      var moved := c.(address := address);
      var d2 := Execute(d1, Plan(d1, moved));
      && moved.Image() in d2.packed
      && d2.packed[moved.Image()].root.Built?
      && SchedulerOf(d2.packed[moved.Image()].root.scripts) == [SlurmdOptions(c.address), SlurmServices]
  {
    MarkerLineIdentifies(c, c.(address := address));
    NextRunPacks(d, c, c.(address := address));
    SchedulerOfStaged(c);
  }

  /** Any head node name of several lines leaves a marker that answers for its first line, another head node. */
  lemma NewlineHostnameMisleadsMarker(d: Disk, c: Config)
    requires d.markers == map[] && Finishes(d, c)
    requires !LineSafe(c) && !c.forceGenimage && !c.skipCopycds
    ensures
      var d1 := Execute(d, Plan(d, c));
      var renamed := c.(hostname := FirstLine(c.hostname + "\n"));
      var d2 := Execute(d1, Plan(d1, renamed));
      && renamed.hostname != c.hostname
      && renamed.Image() in d2.packed
      && d2.packed[renamed.Image()].root.Built?
      && SchedulerOf(d2.packed[renamed.Image()].root.scripts) == [PbsServer(c.hostname)]
  {
    MarkerLine(c);
    FirstLineOfLine(c.hostname);
    NextRunPacks(d, c, c.(hostname := FirstLine(c.hostname + "\n")));
    SchedulerOfStaged(c);
  }
}
