/** What a packed image contains, file by file and package by package, after any history of runs. */
module ImageContents {
  import opened ImageBuilders
  import opened ImageCache
  import opened ImageCacheSafety
  import opened ImageDisk
  import opened ImageNames
  import opened PackedImage
  import opened Text
  import opened Wrappers

  lemma {:induction false} WrittenMembers(content: seq<Snippet>, scripts: seq<Snippet>, s: Snippet)
    ensures s in Written(content, scripts) <==> s in content || s in scripts
    decreases |scripts|
  {
    if scripts != [] {
      WrittenMembers(AppendOnce(content, scripts[0]), scripts[1..], s);
    }
  }

  lemma CommonMembers(texts: seq<string>, text: string)
    ensures Common(text) in CommonScripts(texts) <==> text in texts
  {
    if text in texts {
      var i :| 0 <= i < |texts| && texts[i] == text;
      assert CommonScripts(texts)[i] == Common(text);
    }
  }

  lemma CommonOfStaged(c: Config, text: string)
    ensures Common(text) in Written([], Scripts(c)) <==>
      text == "#!/bin/sh\n\n" || text in c.earlyScripts || text in c.lateScripts
  {
    hide CommonScripts;
    WrittenMembers([], Scripts(c), Common(text));
    CommonMembers(c.earlyScripts, text);
    CommonMembers(c.lateScripts, text);
  }

  /** The chunks of a list, each once, in the order in which they first come up. */
  ghost predicate OnceInOrder(part: seq<Snippet>, list: seq<Snippet>) {
    && (forall s :: s in part <==> s in list)
    && (forall i, j :: 0 <= i < j < |part| ==> ComesFirst(list, part[i], part[j]))
  }

  ghost predicate ComesFirst(list: seq<Snippet>, s: Snippet, t: Snippet) {
    exists k :: 0 <= k < |list| && list[k] == s && t !in list[..k + 1]
  }

  lemma StillFirst(list: seq<Snippet>, x: Snippet, s: Snippet, t: Snippet)
    requires ComesFirst(list, s, t) || (s in list && t !in list)
    ensures ComesFirst(list + [x], s, t)
  {
    var k :| 0 <= k < |list| && list[k] == s && t !in list[..k + 1];
    assert (list + [x])[..k + 1] == list[..k + 1];
  }

  lemma OneMoreInOrder(part: seq<Snippet>, list: seq<Snippet>, x: Snippet)
    requires OnceInOrder(part, list)
    ensures OnceInOrder(AppendOnce(part, x), list + [x])
  {
    hide ComesFirst;
    var r := AppendOnce(part, x);
    forall i, j | 0 <= i < j < |r| ensures ComesFirst(list + [x], r[i], r[j]) {
      StillFirst(list, x, r[i], r[j]);
    }
  }

  lemma {:induction false} WrittenInOrder(content: seq<Snippet>, list: seq<Snippet>, scripts: seq<Snippet>)
    requires OnceInOrder(content, list)
    ensures OnceInOrder(Written(content, scripts), list + scripts)
    decreases |scripts|
  {
    hide OnceInOrder;
    if scripts == [] {
      assert list + scripts == list;
    } else {
      OneMoreInOrder(content, list, scripts[0]);
      WrittenInOrder(AppendOnce(content, scripts[0]), list + [scripts[0]], scripts[1..]);
      assert list + [scripts[0]] + scripts[1..] == list + scripts;
    }
  }

  /** The chunks of a run: the first line of a script, the early texts, those of the queue, and the late texts. */
  ghost predicate IsScriptList(list: seq<Snippet>, builder: Config, scheduler: seq<Snippet>) {
    var a, b := 1 + |builder.earlyScripts|, |builder.earlyScripts| + |scheduler| + 1;
    && |list| == b + |builder.lateScripts|
    && list[0] == Common("#!/bin/sh\n\n")
    && (forall i :: 1 <= i < a ==> list[i] == Common(builder.earlyScripts[i - 1]))
    && list[a..b] == scheduler
    && (forall i :: b <= i < |list| ==> list[i] == Common(builder.lateScripts[i - b]))
  }

  lemma ScriptsInOrder(builder: Config) returns (list: seq<Snippet>)
    ensures IsScriptList(list, builder, QueueScripts(builder))
    ensures OnceInOrder(Written([], Scripts(builder)), list)
  {
    hide Written, OnceInOrder, IsScriptList, QueueScripts;
    list := Scripts(builder);
    ListOfScripts(builder);
    NothingInOrder();
    assert [] + list == list;
    WrittenInOrder([], [], list);
  }

  lemma NothingInOrder()
    ensures OnceInOrder([], [])
  {
  }

  lemma ListOfScripts(builder: Config)
    ensures IsScriptList(Scripts(builder), builder, QueueScripts(builder))
  {
    hide QueueScripts;
  }

  lemma QueueScriptsByName(builder: Config, c: Config)
    requires builder.queue.Slurm? == c.queue.Slurm? && builder.queue.Pbs? == c.queue.Pbs?
    ensures QueueScripts(builder) ==
      match c.queue
      case Slurm => [SlurmdOptions(builder.address), SlurmServices]
      case Pbs => [PbsServer(builder.hostname)]
      case _ => []
  {
  }

  /** The packages of the builder, and then those of the selected workload manager alone. */
  lemma PackagesByName(builder: Config, c: Config)
    requires builder.queue.Slurm? == c.queue.Slurm? && builder.queue.Pbs? == c.queue.Pbs?
    requires builder.os.distro.Ubuntu? == c.os.distro.Ubuntu?
    ensures Packages(builder) == builder.basePackages +
      match c.queue
      case Slurm => ["ohpc-slurm-client", if c.os.distro.Ubuntu? then "hwloc-ohpc" else "hwloc-libs"]
      case Pbs => ["openpbs-execution-ohpc"]
      case _ => []
  {
  }

  lemma SynclistByName(c: Config)
    ensures SynclistFor(c) == if c.queue.Slurm? then [[Passwd, Group], [SlurmConf, MungeKey]] else [[Passwd, Group]]
  {
  }

  lemma SchedulerByName(builder: Config, c: Config)
    requires builder.queue.Slurm? == c.queue.Slurm? && builder.queue.Pbs? == c.queue.Pbs?
    ensures SchedulerOf(Written([], Scripts(builder))) ==
      match c.queue
      case Slurm => [SlurmdOptions(builder.address), SlurmServices]
      case Pbs => [PbsServer(builder.hostname)]
      case _ => []
  {
    SchedulerOfStaged(builder);
  }

  /** A run that has to rebuild, because it is forced or skips copycds, reuses nothing. */
  lemma RebuildsWhenTold(d: Disk, c: Config)
    requires c.forceGenimage || c.skipCopycds
    ensures !Reuses(d, c)
  {
  }

  /**
   * From a disk without markers, over every history of interrupted and reconfigured runs: a run that finishes
   * packs what it staged itself or what an earlier run staged for the same queue, and always the former when it
   * was told to force genimage or to skip copycds. The image holds that run's own packages, then exactly the
   * packages of the selected queue; that run's scripts, each chunk once and in order, with exactly the chunks of
   * the selected queue; and the files of the selected queue.
   */
  lemma PackedContents(d: Disk, runs: seq<Run>, c: Config) returns (builder: Config, scripts: seq<Snippet>)
    requires d.markers == map[] && Finishes(History(d, runs), c)
    ensures builder == c || builder in RunConfigs(runs)
    ensures c.forceGenimage || c.skipCopycds ==> builder == c
    ensures IsScriptList(scripts, builder,
      match c.queue
      case Slurm => [SlurmdOptions(builder.address), SlurmServices]
      case Pbs => [PbsServer(builder.hostname)]
      case _ => [])
    ensures
      var h := History(d, runs);
      var e := Execute(h, Plan(h, c));
      && c.Image() in e.packed && e.packed[c.Image()].root.Built?
      && var packed := e.packed[c.Image()];
      && packed.root.packages == builder.basePackages +
           (match c.queue
            case Slurm => ["ohpc-slurm-client", if c.os.distro.Ubuntu? then "hwloc-ohpc" else "hwloc-libs"]
            case Pbs => ["openpbs-execution-ohpc"]
            case _ => [])
      && SchedulerOf(packed.root.scripts) ==
           (match c.queue
            case Slurm => [SlurmdOptions(builder.address), SlurmServices]
            case Pbs => [PbsServer(builder.hostname)]
            case _ => [])
      && OnceInOrder(packed.root.scripts, scripts)
      && (forall text :: Common(text) in packed.root.scripts <==>
            text == "#!/bin/sh\n\n" || text in builder.earlyScripts || text in builder.lateScripts)
      && packed.root.password == Some(c.password)
      && packed.synclist == if c.queue.Slurm? then [[Passwd, Group], [SlurmConf, MungeKey]] else [[Passwd, Group]]
  {
    var h, configs := History(d, runs), RunConfigs(runs);
    hide Inv, History, Reuses, Finishes, Plan, Scripts, Packages, SynclistFor, Written, QueueMarkerValue, SchedulerOf;
    hide IsScriptList, OnceInOrder, QueueScripts;
    EmptyMarkersAreHonest(configs, d);
    MarkersStayHonest(configs, d, runs);
    builder := FinishedRunPacks(configs, h, c);
    if Reuses(h, c) {
      MarkerLineIdentifies(builder, c);
    }
    if c.forceGenimage || c.skipCopycds {
      RebuildsWhenTold(h, c);
    }
    SameImageSamePackageFamily(builder.os, c.os);
    PackagesByName(builder, c);
    SchedulerByName(builder, c);
    scripts := ScriptsInOrder(builder);
    QueueScriptsByName(builder, c);
    SynclistByName(c);
    forall text ensures Common(text) in Written([], Scripts(builder)) <==>
      text == "#!/bin/sh\n\n" || text in builder.earlyScripts || text in builder.lateScripts
    {
      CommonOfStaged(builder, text);
    }
  }

  /** When a cached image is reused: when it is known, stamped for this marker value, and nothing asks for a rebuild. */
  lemma ReusesInPlainTerms(d: Disk, c: Config)
    ensures Reuses(d, c) <==>
      && !c.forceGenimage && !c.skipCopycds
      && ImageName(c.Key()) in d.definitions
      && MarkerOf(c.Key()) in d.markers && FirstLine(d.markers[MarkerOf(c.Key())]) ==
           (match c.queue case Slurm => "slurm" case Pbs => "pbs " + c.hostname case _ => "none")
  {
    assert "pbs" + " " == "pbs ";
  }

  /** How a distribution and its version are spelled; the release of RHEL 9 gets a zero. */
  lemma VersionsByName(os: OS)
    ensures DistroVersion(os) ==
      (match os.distro
       case RHEL => "rhels" case OL => "ol" case Rocky => "rocky" case AlmaLinux => "alma" case Ubuntu => "ubuntu")
      + os.version + if os.distro.RHEL? && os.platform.El9? then ".0" else ""
  {
    assert forall s: string :: s + "" == s;
  }

  /** Where xCAT keeps an image, and where its marker is. */
  lemma PlacesByName(os: OS)
    ensures
      var key, arch := KeyOf(os), if os.arch.X86_64? then "x86_64" else "ppc64le";
      && ImageName(key) == DistroVersion(os) + "-" + arch + "-netboot-compute"
      && RootPath(key) == "/install/netboot/" + (DistroVersion(os) + "/" + arch) + "/compute/rootimg"
      && MarkerOf(key) == "/install/custom/netboot/compute.queue." + ImageName(key)
  {
    hide DistroVersion;
  }
}
