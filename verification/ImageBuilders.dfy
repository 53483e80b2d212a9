/** Which run built the root image that a later run reuses: the last one that stamped the image. */
module ImageBuilders {
  import opened ImageCache
  import opened ImageCacheSafety
  import opened ImageDisk
  import opened ImageNames
  import opened PackedImage
  import opened Text

  /** A run stamps its image when it rebuilds it and lives long enough to write the marker. */
  predicate StampsImage(d: Disk, c: Config, fuse: nat) {
    !Reuses(d, c) && CanGenerate(d, c) && fuse >= |Forget(c)| + |Build(d, c)|
  }

  /** For each image the configuration of the last run of a history that stamped it. */
  function Builders(builders: map<ImageKey, Config>, d: Disk, runs: seq<Run>): map<ImageKey, Config>
    decreases |runs|
  {
    if runs == [] then builders
    else
      var c, fuse := runs[0].config, runs[0].fuse;
      Builders(if StampsImage(d, c, fuse) then builders[c.Key() := c] else builders, After(d, c, fuse), runs[1..])
  }

  ghost function Configs(builders: map<ImageKey, Config>): set<Config> {
    set key | key in builders :: builders[key]
  }

  /** Every marker stands for a root image that the builder of its own image generated. */
  ghost predicate BuiltBy(builders: map<ImageKey, Config>, d: Disk) {
    && (forall key :: key in builders ==> builders[key].Key() == key)
    && Inv(Configs(builders), d)
  }

  lemma OneBuilder(builders: map<ImageKey, Config>, c: Config)
    requires (forall key :: key in builders ==> builders[key].Key() == key) && c in Configs(builders)
    ensures c.Key() in builders && builders[c.Key()] == c
  {
  }

  // ----- a run that stamps nothing

  lemma UnstampedBuild(allowed: set<Config>, d: Disk, c: Config, n: nat)
    requires Inv(allowed, d) && n <= |Build(d, c)| && (n < |Build(d, c)| || !CanGenerate(d, c))
    ensures Inv(allowed, Execute(d, Build(d, c)[..n]))
  {
    hide Inv, Body, CanGenerate;
    BuildShape(d, c);
    var drop, body, stamps := RemoveMarker(c.Marker()), Body(d, c), Stamps(d, c);
    if n > 0 {
      assert ([drop] + (body + stamps))[..n] == [drop] + (body + stamps)[..n - 1];
      ExecuteConcat(d, [drop], (body + stamps)[..n - 1]);
      ExecuteOne(d, drop);
      DropMarker(allowed, d, c.Key());
      BodyIsQuiet(d, c);
      UnstampedRest(allowed, Apply(d, drop), c, body, stamps, n - 1);
    }
  }

  lemma UnstampedRest(allowed: set<Config>, d: Disk, c: Config, body: seq<Op>, stamps: seq<Op>, n: nat)
    requires Building(allowed, d, c.Key()) && AllQuiet(body, c.Key()) && (stamps == [] || stamps == Stamp(c))
    requires n <= |body| + if stamps == [] then 0 else 1
    ensures Inv(allowed, Execute(d, (body + stamps)[..n]))
  {
    hide Inv, AllQuiet;
    ExecutePrefix(d, body, stamps, n);
    if n <= |body| {
      QuietRun(allowed, d, body, c.Key(), n);
    } else {
      assert n - |body| == 1 && stamps[..1] == [RemoveMarker(c.Marker())];
      assert body[..|body|] == body;
      QuietRun(allowed, d, body, c.Key(), |body|);
      ExecuteOne(Execute(d, body), RemoveMarker(c.Marker()));
      DropMarker(allowed, Execute(d, body), c.Key());
    }
  }

  lemma UnstampedRun(allowed: set<Config>, d: Disk, c: Config, fuse: nat)
    requires Inv(allowed, d) && !StampsImage(d, c, fuse)
    ensures Inv(allowed, After(d, c, fuse))
  {
    hide Inv, Build, Repack, CanGenerate;
    var plan := Plan(d, c);
    var n := if fuse < |plan| then fuse else |plan|;
    assert plan[..|plan|] == plan;
    if Reuses(d, c) {
      RepackIsHarmless(c);
      HarmlessRun(allowed, d, plan, n);
    } else {
      var forget, build := Forget(c), Build(d, c);
      var pack := if CanGenerate(d, c) then Repack(c) else [];
      ExecutePrefix(d, forget, build + pack, n);
      assert AllHarmless(forget) && forget[..|forget|] == forget;
      if n <= |forget| {
        HarmlessRun(allowed, d, forget, n);
      } else {
        HarmlessRun(allowed, d, forget, |forget|);
        ForgetKeepsMarkers(d, c);
        assert (build + pack)[..n - |forget|] == build[..n - |forget|];
        UnstampedBuild(allowed, Execute(d, forget), c, n - |forget|);
      }
    }
  }

  // ----- a run that stamps its image

  lemma NowBuiltBy(builders: map<ImageKey, Config>, e: Disk, c: Config)
    requires forall key :: key in builders ==> builders[key].Key() == key
    requires Inv(Configs(builders) + {c}, e) && Generated(e, c)
    requires c.Marker() in e.markers && e.markers[c.Marker()] == QueueMarkerValue(c) + "\n"
    ensures BuiltBy(builders[c.Key() := c], e)
  {
    hide BuiltFrom;
    var latest := builders[c.Key() := c];
    forall key: ImageKey ensures MarkerIsHonest(Configs(latest), e, key) {
      assert MarkerIsHonest(Configs(builders) + {c}, e, key);
      if MarkerOf(key) in e.markers {
        if key == c.Key() {
          assert latest[key] == c && c in Configs(latest);
        } else {
          var b :| b in Configs(builders) + {c} && BuiltFrom(e.roots[RootPath(key)], key, b)
            && e.markers[MarkerOf(key)] == QueueMarkerValue(b) + "\n";
          BuiltFor(e.roots[RootPath(key)], key, b);
          OneBuilder(builders, b);
          assert latest[key] == b && b in Configs(latest);
        }
      }
    }
  }

  lemma BuiltFor(root: Root, key: ImageKey, c: Config)
    requires BuiltFrom(root, key, c)
    ensures c.Key() == key
  {
  }

  lemma BuiltNow(builders: map<ImageKey, Config>, d: Disk, c: Config)
    requires BuiltBy(builders, d) && CanGenerate(d, c)
    ensures BuiltBy(builders[c.Key() := c], Execute(Execute(d, Forget(c)), Build(d, c)))
  {
    hide Inv, Build, CanGenerate, Generated, Configs;
    var allowed, forget := Configs(builders) + {c}, Forget(c);
    MoreAllowed(Configs(builders), d, c);
    assert AllHarmless(forget) && forget[..|forget|] == forget;
    HarmlessRun(allowed, d, forget, |forget|);
    ForgetKeepsMarkers(d, c);
    WholeBuild(allowed, Execute(d, forget), c);
    NowBuiltBy(builders, Execute(Execute(d, forget), Build(d, c)), c);
  }

  /** Once the image is stamped, what is left of the plan is a part of the repacking. */
  lemma AfterStamping(d: Disk, c: Config, fuse: nat) returns (k: nat)
    requires StampsImage(d, c, fuse)
    ensures k <= |Repack(c)|
    ensures After(d, c, fuse) == Execute(Execute(Execute(d, Forget(c)), Build(d, c)), Repack(c)[..k])
  {
    hide Build, Repack, CanGenerate;
    var ready, pack := Forget(c) + Build(d, c), Repack(c);
    var plan := Plan(d, c);
    assert plan == ready + pack;
    var n := if fuse < |plan| then fuse else |plan|;
    k := n - |ready|;
    assert plan[..n] == ready + pack[..k];
    assert plan[..|plan|] == plan;
    ExecuteConcat(d, ready, pack[..k]);
    ExecuteConcat(d, Forget(c), Build(d, c));
  }

  lemma StampedRun(builders: map<ImageKey, Config>, d: Disk, c: Config, fuse: nat)
    requires BuiltBy(builders, d) && StampsImage(d, c, fuse)
    ensures BuiltBy(builders[c.Key() := c], After(d, c, fuse))
  {
    hide Inv, Build, Repack, CanGenerate, After;
    BuiltNow(builders, d, c);
    var k := AfterStamping(d, c, fuse);
    RepackIsHarmless(c);
    HarmlessRun(Configs(builders[c.Key() := c]), Execute(Execute(d, Forget(c)), Build(d, c)), Repack(c), k);
  }

  // ----- every history

  lemma {:induction false} HistoryIsBuiltBy(builders: map<ImageKey, Config>, d: Disk, runs: seq<Run>)
    requires BuiltBy(builders, d)
    ensures BuiltBy(Builders(builders, d, runs), History(d, runs))
    decreases |runs|
  {
    if runs != [] {
      hide Inv, After, StampsImage;
      var c, fuse := runs[0].config, runs[0].fuse;
      if StampsImage(d, c, fuse) {
        StampedRun(builders, d, c, fuse);
        HistoryIsBuiltBy(builders[c.Key() := c], After(d, c, fuse), runs[1..]);
      } else {
        UnstampedRun(Configs(builders), d, c, fuse);
        HistoryIsBuiltBy(builders, After(d, c, fuse), runs[1..]);
      }
    }
  }

  /** From a disk without markers, a run that reuses its image packs what the last run that stamped it staged. */
  lemma PackedByLatest(d: Disk, runs: seq<Run>, c: Config)
    requires d.markers == map[] && Finishes(History(d, runs), c)
    ensures
      var h, builders := History(d, runs), Builders(map[], d, runs);
      var e := Execute(h, Plan(h, c));
      && (Reuses(h, c) ==> c.Key() in builders)
      && c.Image() in e.packed
      && e.packed[c.Image()] == PackedFrom(if Reuses(h, c) then builders[c.Key()] else c, c)
    ensures
      var h, builders := History(d, runs), Builders(map[], d, runs);
      Reuses(h, c) ==> FirstLine(QueueMarkerValue(builders[c.Key()]) + "\n") == QueueMarkerValue(c)
  {
    hide Inv, Builders, History, PackedFrom, Reuses, Finishes, Plan;
    EmptyMarkersAreHonest({}, d);
    assert Configs(map[]) == {};
    HistoryIsBuiltBy(map[], d, runs);
    var builders := Builders(map[], d, runs);
    var b := FinishedRunPacks(Configs(builders), History(d, runs), c);
    if Reuses(History(d, runs), c) {
      OneBuilder(builders, b);
    }
  }

  /** The packed scheduler chunks are stale exactly when the image is reused and was last stamped for another head node. */
  lemma StaleScheduler(d: Disk, runs: seq<Run>, c: Config)
    requires d.markers == map[] && Finishes(History(d, runs), c)
    ensures
      var h, builders := History(d, runs), Builders(map[], d, runs);
      var e := Execute(h, Plan(h, c));
      && c.Image() in e.packed && e.packed[c.Image()].root.Built?
      && (Reuses(h, c) ==> c.Key() in builders)
      && (SchedulerOf(e.packed[c.Image()].root.scripts) != QueueScripts(c) <==>
            && Reuses(h, c)
            && match c.queue
               case Slurm => builders[c.Key()].address != c.address
               case Pbs => builders[c.Key()].hostname != c.hostname
               case _ => false)
  {
    hide Builders, History, Reuses, Finishes, Plan, Scripts, Packages, SynclistFor, Written;
    PackedByLatest(d, runs, c);
    if Reuses(History(d, runs), c) {
      var b := Builders(map[], d, runs)[c.Key()];
      MarkerLineIdentifies(b, c);
      BuilderScripts(b, c);
    } else {
      SchedulerOfStaged(c);
    }
  }
}
