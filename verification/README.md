# OpenCATTUS: verified model of the installer's stateful cores

OpenCATTUS installs an HPC cluster from a head node. Most of it runs other tools, but several parts
keep state across steps, across runs, or across a file and back, and these are modelled and proved here:

- **The cache of stateless images** (`ImageNames`, `ImageDisk`, `ImageCache`, `ImageCacheSafety`,
  `PackedImage`, `ImageBuilders`, `ImageContents`). `XCAT::createImage` reuses or rebuilds a root image depending on a queue marker on disk.
  Every command is one operation on a disk state, and a run has a fuse: it dies after any number of
  operations. `XCAT.CreateImage` is proved to perform exactly a prefix of a plan; the lemmas then speak of
  all histories of runs, each with its own configuration and its own moment of death.
- **Repositories** (`KeyFiles`, `RepoFiles`, `RepoClosure`, `RepoManager`, `RepoSelection`): the dependency
  closure over any graph, the `.repo` parser and printer, the index of shared file objects, and the
  disable-then-enable sequence down to what the files read as afterwards.
- **The node inventory of an answerfile** (`NodeInventory`, `MacAddresses`, `NodeTopology`, `NodeRoundTrip`,
  `NodeLoading`, `NodeDumping`): loading, resolution against the generic node, the uniqueness check with its five
  tables, and dumping. What a file loads as, and what a dump leaves in it, is also stated entry by entry.
- **The questionnaire** (`DraftState`, `Questionnaire`): the step loop, the draft it saves in two writes, and
  resuming after being cut off anywhere.
- **IPv4 planning** (`Ipv4`, `Ipv4Text`, `NodePlanning`, `PlannedInventory`): bitwise masks against division by
  the block size (prefix notation, section 3.1 of RFC 4632), address suggestion, the DHCP pool, and the node loop.
- **Time zone menus** (`TimezoneNames`, `TimezoneTree`), **interface sharing** (`NetworkCreation`),
  **shell quoting** (`ShellQuote`, against sections 2.2 and 2.3 of the POSIX.1-2017 Shell Command Language)
  and **find and replace** (`FindReplace`).

`Wrappers`, `Text` and `Decimal` hold what several of these need.

The parts of the program that update objects step by step are classes and methods here
(`ImageDisk.HeadNode`, `ImageCache.XCAT`, `DraftState.DraftStore`, `RepoManager.RepoFile`, `RepoManager.RPMRepoManager`,
`RepoClosure.Expansion`, `NodeRoundTrip.AnswerFile`, `TimezoneTree.Tree`, `NetworkCreation.NetworkCreator`,
and the loops over local variables); each is tied to a specification function, and the properties are
proved about that function. I/O, menus and probes are parameters: outcomes of steps, entries typed by the
operator, lists of interfaces, names of zones.

## What the proofs found

- Under SLURM the root image holds the head node's address in the `slurmd` options, but the marker is only
  `slurm`: after an address change the cached image is reused with the old address. The comment at
  `src/services/xcat.cpp:1648-1650` says that SLURM needs no fingerprint; the model follows the code
  (`ImageBuilders.StaleScheduler`, `PackedImage.SchedulerIsCurrentUnlessReused`, `PackedImage.StaleSlurmServer`).
- A PBS host name of several lines makes the marker answer for its first line, because only that is read
  back. "Every packed image was built for the selected queue and host name" therefore holds exactly when the
  run does not reuse a root image scripted for another host name (`PackedImage.EveryPackedImage`), and no
  marker misleads exactly when no host name has several lines (`PackedImage.MisleadingMarkers`,
  `PackedImage.NewlineHostnameMisleadsMarker`).
- MACs are validated in several notations but compared as text, so one hardware address written with colons
  and with hyphens passes the uniqueness check of an answerfile (`NodeTopology.HardwareAddresses`,
  `NodeRoundTrip.OneAddressTwice`).
- A draft is saved in two writes. Cut off between them it is no draft any more, and every completed step is
  forgotten (`Questionnaire.CutRestoresPosition`, `Questionnaire.LostSession`).
- A node whose address would be 0.0.0.0 is asked for again for ever. All requested nodes can be planned
  exactly when none is asked for, or the first address is not zero and the last one does not wrap around
  (`NodePlanning.PlanningCompletes`); two nodes from 255.255.255.255 on cannot (`NodePlanning.LastAddress`).
- The node loop compares neither MACs nor the BMC addresses of different nodes, so it can plan a list that
  the answerfile check refuses (`PlannedInventory.PlannedListPasses`, `PlannedInventory.SameMacTwice`).
- A batch of repositories with an unknown id saves nothing but leaves the ids before it switched in memory,
  for a later save to write (`RepoManager.RPMRepoManager.EnableAll`).
- A service network may lie inside the management network, or around it, if their masked addresses differ
  (`Ipv4.AcceptedServiceNetwork`, `Ipv4.NestedServiceNetwork`).
- For a /32 network at either end of the address space the guard of the DHCP pool wraps around and lets it
  through (`NodePlanning.TinyNetworks`).
- A zone name that another one continues ("A" next to "A/B") cannot be selected, and a slash at the end of a
  name is lost (`TimezoneTree.ContinuedZoneIsNeverSelected`, `TimezoneNames.PartsRejoin`).
- Where two `.repo` files hold the same repository, only the one that was indexed first is switched
  (`RepoSelection.EveryCopyFollows`, `RepoSelection.EveryIndexFollows`, `RepoSelection.TwoHomes`).
- A repository with an empty name is written to a file that no longer parses (`RepoFiles.NewFileRoundTrip`).
- An empty search text makes the replacement loop run for ever (`FindReplace.EmptySearchNeverStops`).

## Model

| member | source | states |
|---|---|---|
| ImageNames.NamesIdentifyImages | src/services/xcat.cpp:2183-2244 | Image name, root path and marker file each determine distribution version and architecture, and the other way round, so no two images share a root or a marker. |
| ImageNames.SameImageSamePackageFamily | src/services/xcat.cpp:49-81 | Two operating systems that yield the same image name agree on DEB or RPM packages. |
| ImageContents.VersionsByName | src/services/xcat.cpp:49-81 | The spelling of each distribution, and the zero that RHEL 9 releases get. |
| ImageContents.PlacesByName | src/services/xcat.cpp:2183-2244 | Where an image, its root and its marker are, spelled out. |
| ImageCache.XCAT.ImageExists | src/services/xcat.cpp:1290-1322 | Forcing genimage removes the definition before the lookup, so that the image then counts as absent. |
| ImageCache.AfterGenerate | src/services/xcat.cpp:2060-2067 | A run that dies before the last of the three commands has put no new marker on a disk without one; after all three there is a complete root image and exactly the marker of the selected queue, whatever was there before. |
| ImageCache.AfterSynclist | src/services/xcat.cpp:1786-1803 | Whatever an earlier run left in the shared synclist, afterwards it is exactly the one for the selected queue, and nothing else has changed. |
| ImageCache.XCAT.CreateImage | src/services/xcat.cpp:1972-2079 | One run leaves the disk as its plan cut at the fuse does, and succeeds exactly when the plan runs to its end and genimage knows the image; what the packed image then holds, by name, is ImageContents.PackedContents. |
| ImageCache.AfterWipe | src/services/xcat.cpp:2007-2035 | After marker, media and clean-up, the root image is gone and the definition is what CanGenerate says, whatever was there before. |
| ImageCache.AfterStage | src/services/xcat.cpp:2037-2060 | What is staged for genimage depends on this run's configuration only: nothing of an earlier run's lists survives. |
| ImageCacheSafety.RunKeepsMarkersHonest | src/services/xcat.cpp:1996-2079 | One run, cut after any number of commands, keeps every marker standing for a complete root image that an allowed configuration, or this one, built for exactly the marker's value. |
| ImageCacheSafety.MarkersStayHonest | src/services/xcat.cpp:1642-1680 | The same over every history of runs with changing configurations and any crash points: what a marker stands for was built by a configuration that ran. |
| ImageCacheSafety.WholeBuild | src/services/xcat.cpp:2006-2067 | A rebuild that is not interrupted leaves a root image made from this very configuration, attached lists and the matching marker. |
| ImageCacheSafety.StampIsHonest | src/services/xcat.cpp:1674-1680 | The two commands of the stamp, cut anywhere, leave either no marker for the image or the one of the configuration that built it. |
| PackedImage.MarkerValueIdentifiesQueue | src/services/xcat.cpp:1613-1660 | Two marker values are equal exactly when the queues stage the same manager and, under PBS, the host names agree. |
| PackedImage.SchedulerOfStaged | src/services/xcat.cpp:1557-1606 | After appends that suppress equal chunks the staged script holds exactly the selected manager's chunks. |
| PackedImage.FinishedRunPacks | src/services/xcat.cpp:2069-2079 | A finishing run packs exactly what its builder stages, with the current password and synclist; the builder is the run itself, or, for a reused image, an allowed configuration whose marker reads as the current one. |
| PackedImage.EveryPackedImage | src/services/xcat.cpp:1972-2079 | From a disk without markers, after any history, the packed image is exactly what the run itself or an earlier run for the same marker value stages, if and only if the run does not, under PBS, reuse a root image scripted for another host name. |
| PackedImage.EveryPackedImageFits | src/services/xcat.cpp:1972-2079 | If no earlier run had a host name of several lines, every packed image is exactly what the run itself or an earlier run for the same marker value stages. |
| PackedImage.FittingImage | src/services/xcat.cpp:1557-1606 | Such an image has the packages and the scheduler chunks of the selected queue, and under PBS the current host name. |
| ImageContents.PackedContents | src/services/xcat.cpp:1683-1700 | Over every history: the packed image holds some allowed run's base packages followed by exactly `ohpc-slurm-client` and `hwloc-ohpc` (Ubuntu) or `hwloc-libs` under SLURM, `openpbs-execution-ohpc` under PBS, nothing otherwise; that run's script chunks once each and in order, with exactly the queue's own; the current password; and the files of the queue by name. A run that is forced or skips copycds packs what it staged itself. |
| ImageContents.ReusesInPlainTerms | src/services/xcat.cpp:1996-2004 | An image is reused exactly when it is known, its marker's first line is `slurm`, `pbs` with the host name, or `none`, as the queue says, and neither forcing nor skipping copycds asks for a rebuild. |
| PackedImage.SchedulerIsCurrentUnlessReused | src/services/xcat.cpp:1557-1606 | The packed scheduler chunks are the current ones if and only if the run does not reuse a root image that lacks the current SLURM address or PBS host name; host names of any number of lines are covered. |
| ImageBuilders.HistoryIsBuiltBy | src/services/xcat.cpp:2006-2067 | Over every history, what a marker stands for was built by the last run that stamped that image. |
| ImageBuilders.PackedByLatest | src/services/xcat.cpp:1972-2079 | From a disk without markers, after any history, the packed image is exactly what the run itself stages, or, if it reuses its image, what the last run that stamped it staged. |
| ImageBuilders.StaleScheduler | src/services/xcat.cpp:1557-1606 | The packed scheduler chunks are stale if and only if the image is reused and the last run that stamped it had another address, under SLURM, or another host name, under PBS. |
| PackedImage.MarkerLineIdentifies | src/services/xcat.cpp:1661-1672 | A stored marker answers for a configuration exactly when the queues agree and, under PBS, the current host name is the first line of the stored one. |
| PackedImage.MisleadingMarkers | src/services/xcat.cpp:1661-1680 | A marker answers for some configuration with another marker value if and only if its own spans several lines. |
| PackedImage.FinishedRunIsReused | src/services/xcat.cpp:1661-1672 | After a finished run, a next run for the same marker value reuses the image if and only if the marker fits on one line. |
| PackedImage.StaleSlurmServer | src/services/xcat.cpp:1645-1660 | Changing only the head node's address under SLURM repacks the image with the old address. |
| PackedImage.NewlineHostnameMisleadsMarker | src/services/xcat.cpp:1661-1672 | After a run with any PBS host name of several lines, a run with its first line as host name packs an image scripted for the former. |
| RepoFiles.Parse | src/services/repos.cpp:173-244 | The parsing loop computes the map of repositories of all groups, or the first error; what that is in terms of the entries, both ways, is RepoFiles.ParsedSays and RepoFiles.UnreadableFiles. |
| RepoFiles.ParsedExactly | src/services/repos.cpp:210-244 | A file reads as a map of repositories if and only if the groups are its keys and each group reads as its entry. |
| RepoFiles.ParsedSays | src/services/repos.cpp:173-244 | A file reads as a map of repositories if and only if each group has a non-empty name and says so: enabled (on without an entry) and gpgcheck (without an entry, on if there is a gpgkey) are on for 1, true or yes and off for 0, false or no, trimmed and in any case; the other fields are the raw entries. |
| RepoFiles.UnreadableFiles | src/services/repos.cpp:173-208 | A file fails to parse if and only if some group has no name, or a switch with any other text. |
| RepoFiles.WordsByLetter | src/services/repos.cpp:173-196 | Which texts count as these words, letter by letter. |
| RepoFiles.Unparse | src/services/repos.cpp:246-261 | Writing merges: the entries are the old ones with each repository's fields laid over its group. |
| RepoFiles.SaveIsMerge | src/services/repos.cpp:246-261 | After saving, untouched groups read as before, written groups read as the repository with absent optional fields kept, and an empty name makes the group unreadable. |
| RepoFiles.NewFileRoundTrip | src/services/repos.cpp:246-261 | Written to a new file, repositories read back as themselves but for the path, if and only if every name is non-empty. |
| RepoFiles.SwitchedFileRoundTrip | src/services/repos.cpp:210-298 | What was read from a file and changed only in its switches reads back exactly after saving over that file. |
| RepoClosure.ExpandSelectedRepositoryIds | src/services/repos.cpp:2570-2602 | The recursive append with its set of seen ids terminates on every graph, cycles included, and computes the specified list. |
| RepoClosure.ExpandIsLeastClosure | src/services/repos.cpp:2570-2602 | The list has no duplicates, and its set is the least one that holds the selection and is closed under dependencies. |
| RepoClosure.ExpandIsIdempotent | src/services/repos.cpp:2570-2602 | Expanding an expanded list gives the same list in the same order. |
| RepoClosure.ShippedDependencies | src/services/repos.cpp:2570-2602 | Under the shipped table only BeeGFS adds anything: its two monitoring repositories. |
| RepoClosure.DependenciesFollow | src/services/repos.cpp:2570-2602 | Whatever is selected before and after BeeGFS, its two companions are listed right after it, Grafana first. |
| RepoManager.RPMRepoManager.SwitchAll | src/services/repos.cpp:1866-1889 | Switching in memory through shared file objects sets exactly the listed ids filed under each file, and fails on the first unknown id. |
| RepoManager.RPMRepoManager.EnableAll | src/services/repos.cpp:1866-1889 | A batch succeeds if and only if every id is indexed. It switches the ids before the first unknown one in memory; a failing batch saves no file, and memory and disk then agree if and only if those ids had that switch already; a successful one saves them. |
| RepoManager.RPMRepoManager.Install | src/services/repos.cpp:1754-1777 | Installing one file adds its repositories to the index; ids that are indexed already keep their file. |
| RepoManager.RPMRepoManager.LoadBaseDir | src/services/repos.cpp:1779-1804 | Exactly the files named `.repo` are loaded, each as it reads, and it fails exactly when one of them does not parse. |
| RepoSelection.WantedInPlainTerms | src/services/repos.cpp:2650-2691 | A repository is to be enabled exactly when it is mandatory, selected, a BeeGFS companion of a selection, or oneAPI with the Intel bundle. |
| RepoSelection.DefaultRepositoriesFor | src/services/repos.cpp:2614-2691 | The selections cover exactly the catalogue, each with that switch and with the name that the last entry gives it. |
| RepoSelection.WriteSelection | src/services/repos.cpp:2933-2954 | Disabling all managed and enabling the selected ones rewrites, in the indexed file of each id, its switch and nothing else; any unknown id or unreadable file leaves the directory untouched. |
| RepoSelection.InitializeDefaultRepositories | src/services/repos.cpp:2907-2960 | Afterwards every managed repository, in the file the index names for it, reads as enabled exactly when it is wanted, and all other fields, repositories and files read as before. |
| RepoSelection.OneHomeIsEnough | src/services/repos.cpp:2933-2954 | With every id in one file this holds of every file. |
| RepoSelection.EveryCopyFollows | src/services/repos.cpp:1754-1777 | With ids in several files every copy ends up as wanted if and only if the copies outside the index already were. |
| RepoSelection.EveryIndexFollows | src/services/repos.cpp:1754-1777 | The copies outside the index had the wanted switch for every index the directory order may give, if and only if every managed repository that two files hold had it in all of them. |
| RepoSelection.TwoHomes | src/services/repos.cpp:1754-1777 | A directory of two files with the same id: whichever the index names, the other copy stays enabled when the repository is disabled. |
| RepoSelection.EitherHome | src/services/repos.cpp:1754-1777 | Either of the two files may be the one that an index names. |
| NodeInventory.RememberUnique | src/models/answerfile.cpp:82-95 | A non-empty value is refused exactly when it was seen, naming both owners, and entered otherwise. |
| NodeTopology.ValidateNodeInventoryTopology | src/models/answerfile.cpp:97-134 | The check with five tables accepts exactly the inventories with distinct host names, lower-cased MACs and node and BMC addresses; what it reports is a duplicate. |
| NodeTopology.DistinctIsPairwise | src/models/answerfile.cpp:97-134 | Claims are all distinct if and only if no two nodes share one and no node claims one twice. |
| NodeTopology.DistinctInPlainTerms | src/models/answerfile.cpp:97-134 | Accepted are exactly the inventories in which no two nodes have the same host name, the same MAC but for case, or an address (their own or their BMC's) in common, and no BMC is at its own node's address; empty texts and 0.0.0.0 count for nothing. |
| NodeTopology.StoredMacs | src/connection.cpp:304-334 | For MACs that pass validation, the uniqueness check accepts exactly the inventories whose stored MACs are pairwise distinct, without exception. |
| MacAddresses.StoredIsAddressAndNotation | src/connection.cpp:313-334 | Two valid MACs are stored as the same text if and only if they denote the same 48-bit address in the same notation. |
| MacAddresses.DottedNotation | src/connection.cpp:313-334 | Every MAC of six pairs, written in three groups, is accepted, denotes the same hardware address, and is stored as another text. |
| NodeTopology.HardwareAddresses | src/models/answerfile.cpp:97-134 | The uniqueness check accepts exactly the inventories in which nodes with the same hardware address write it in different notations. |
| NodeRoundTrip.OneAddressTwice | src/models/answerfile.cpp:898-969 | For every MAC of six pairs some answerfile loads with its hardware address in two nodes. |
| NodeRoundTrip.TwoNodesLoad | src/models/answerfile.cpp:898-969 | Two resolved nodes that differ in name and address are in some answerfile that loads, if and only if their MACs are stored as different texts. |
| NodeRoundTrip.AnswerFile.LoadNodes | src/models/answerfile.cpp:898-969 | The loading loop succeeds exactly on the files that load, with exactly that inventory, which NodeLoading.FileLoads gives in terms of the entries; otherwise it reports the first section that cannot be read, the generic one first, or a duplicate. |
| NodeLoading.FileLoads | src/models/answerfile.cpp:898-969 | A file loads as an inventory if and only if the generic section reads as its generic node, the i-th node loads from the i-th numbered section, and the nodes are distinct; all in terms of the entries. |
| NodeLoading.GenericLoads | src/models/answerfile.cpp:836-864 | The generic node is read if and only if all its twelve keys and its address are there, the address parses and the numbers are numbers, and then it has exactly these texts. |
| NodeLoading.SectionLoads | src/models/answerfile.cpp:655-690 | A numbered section loads if and only if its MAC entry and an address are there, every required key (and with a BMC every BMC key) has a non-empty text of its own or in the generic section, and numbers are numbers. The node then has the section's own texts and address, and the generic ones where those are missing; the name is its own, or the generic prefix and the section's number in digits, padded. |
| NodeLoading.LoadsFromIsUnique | src/models/answerfile.cpp:971-1016 | That determines the node: no other one loads from the section. |
| NodeLoading.SectionNumbers | src/models/answerfile.cpp:917-936 | The number of a section is the value of its digits after `node.` and an optional plus; after a minus it wraps around below 2^64. |
| NodeLoading.NoOtherNumbers | src/models/answerfile.cpp:917-936 | No other section has a number. |
| NodeRoundTrip.AnswerFile.DumpNodes | src/models/answerfile.cpp:394-515 | The dumping loop writes the generic section, if there is a generic node, and then the nodes, renumbered from one. |
| NodeDumping.DumpedByName | src/models/answerfile.cpp:394-515 | After dumping, section `node.i` holds every field and the address of the i-th node, section `node` those of the generic node, and every entry that neither writes is as it was. |
| NodeRoundTrip.PutAllWrites | src/models/answerfile.cpp:394-515 | Writing the set fields of a section adds exactly them and touches no other section. |
| NodeRoundTrip.LoadedNodeIsResolved | src/models/answerfile.cpp:971-1016 | A loaded node has all it needs in itself: address, host name, required fields, and all BMC fields or none. |
| NodeRoundTrip.NodeReloads | src/models/answerfile.cpp:830-896 | A resolved node that was written loads as itself, under any number and any generic node. |
| NodeRoundTrip.ReloadsTheSame | src/models/answerfile.cpp:830-1016 | Dumping any loaded inventory to a fresh file and loading that gives the same generic node and the same nodes in order. |
| NodeRoundTrip.LoadableInventories | src/models/answerfile.cpp:830-1016 | An inventory is what some answerfile loads as, if and only if its generic node is complete, its nodes are resolved and their claims are distinct. |
| DraftState.SplitUndoesJoin | src/services/tui_session.cpp:74-84 | Splitting a joined list gives the list if and only if all its values are non-empty and free of separators. |
| DraftState.JoinOfSplitIsIdempotent | src/services/tui_session.cpp:74-84 | Joining what was split normalises any raw text in one pass. |
| DraftState.DraftReadsBack | src/services/tui_session.cpp:610-702 | A written draft reads back with the same completed steps, the same last step and the draft flag. |
| DraftState.LoadedState | src/services/tui_session.cpp:610-632 | What a file says about a draft, entry by entry. |
| DraftState.TokensByCharacter | src/services/tui_session.cpp:74-84 | Lists that survive the round trip are exactly those of non-empty values without comma and blank. |
| DraftState.DraftStore.WriteDraft | src/services/tui_session.cpp:662-702 | Saving a draft is two writes of the file, of which as many get through as the program lives for. |
| DraftState.CutDraftReadsBack | src/services/tui_session.cpp:610-702 | A draft cut off anywhere among its saves reads back as the last complete save, or as no draft at all between the two writes of one. |
| Questionnaire.RecordStep | src/presenter/PresenterInstall.cpp:250-260 | Entering a step appends to a history of the right length; the two repair branches truncate or pad first. |
| Questionnaire.CompletedPrefix | src/presenter/PresenterInstall.cpp:233-240 | Resuming starts at the first step that is not completed, with the steps before it as history. |
| Questionnaire.RunQuestionnaire | src/presenter/PresenterInstall.cpp:233-272 | For every sequence of outcomes the history is always the first steps of the list, the repair branches are never taken, the saved drafts are the specified prefixes, and finishing means all steps. |
| Questionnaire.PositionIsCount | src/presenter/PresenterInstall.cpp:247-272 | While a session runs, its position is where it started, plus the steps done, less the steps back. |
| Questionnaire.SessionEnds | src/presenter/PresenterInstall.cpp:247-272 | A session that ends does so at the first answer that finishes the last step, stops, or goes back from the first one. |
| Questionnaire.ResumeRestoresPosition | src/presenter/PresenterInstall.cpp:227-272 | A session that is not cut off is resumed, by way of the draft flag, at the very step it ended at, and at the first step once it has finished. |
| Questionnaire.InterruptionIsTransparent | src/main.cpp:396-429 | Being cut off after any complete save and resumed leads where the answers saved by then and the later ones lead. |
| Questionnaire.ShippedSteps | src/presenter/PresenterInstall.cpp:168-231 | The steps that are shipped are distinct and free of separators, as resuming needs. |
| Questionnaire.CutRestoresPosition | src/services/tui_session.cpp:662-702 | For all outcomes and all cuts, inside a save or outside, resuming starts at the position of the last complete save if and only if no save was cut in two or that position is the first step; after a cut inside a save it starts at the first step. |
| Questionnaire.LostSession | src/services/tui_session.cpp:662-702 | Two steps of the shipped questionnaire completed and the program cut off inside the second save: the next session starts over. |
| Ipv4.MaskArithmetic | src/network.cpp:342-358 | For every address and prefix, the bitwise network, host mask and broadcast are rounding down to the block, the block size less one, and the end of the block. |
| Ipv4.NetworkOfNetwork | src/network.cpp:342-358 | Masking a network address again changes nothing. |
| Ipv4.CalculatedAddress | src/network.cpp:342-358 | The network address fails exactly for the mask of prefix 0 and is otherwise the start of the address's block. |
| Ipv4.GatewayCheckIsExact | src/models/answerfile.cpp:39-80 | The gateway check accepts exactly the unspecified gateway and those in the host's own block. |
| Ipv4.OverlapIsNesting | src/presenter/PresenterNetwork.cpp:154-163 | Two networks share an address exactly when the wider one holds both of their addresses. |
| Ipv4.AcceptedServiceNetwork | src/presenter/PresenterNetwork.cpp:212-240 | With equal prefixes the shared-service check is exact; with different prefixes it lets overlapping networks through in exactly the stated case. |
| Ipv4.RejectionIsRight | src/presenter/PresenterNetwork.cpp:212-240 | For any prefixes, what the shared-service check refuses does overlap. |
| Ipv4.NestedServiceNetwork | src/presenter/PresenterNetwork.cpp:212-240 | 10.0.1.5/24 is accepted next to 10.0.0.5/16, which contains it. |
| Ipv4Text.PrintReadsBack | src/models/answerfile.cpp:394-515 | Dotted text of an address parses back to the address and is never empty. |
| Ipv4Text.ParseIsExact | src/models/answerfile.cpp:627-634 | The only text that reads as an address is the one it prints as. |
| Ipv4Text.DottedQuad | src/models/answerfile.cpp:627-634 | Four numbers below 256 between dots read as the address with these bytes, the most significant first. |
| NodePlanning.SuggestAddress | src/presenter/PresenterNodes.cpp:52-110 | Suggests the first usable preferred offset, else the smallest usable one, and nothing exactly when none is usable. |
| NodePlanning.UsableIsFreeHost | src/presenter/PresenterNodes.cpp:52-110 | On an aligned network usable means strictly between network and broadcast and neither head node nor gateway, without wrap-around. |
| NodePlanning.SmallPrefixHasFreeHost | src/presenter/PresenterNodes.cpp:52-110 | For prefixes up to 29 one of the first three offsets is always usable. |
| NodePlanning.TwoHostNetwork | src/presenter/PresenterNodes.cpp:52-110 | A /30 has nothing to suggest exactly when head node and gateway hold its two hosts. |
| NodePlanning.PoolIsInside | src/services/xcat.cpp:901-927 | For prefixes up to 30 the pool lies strictly inside, holds exactly up to 100 of the available addresses, and for prefixes up to 29 leaves the top two free. |
| NodePlanning.TinyNetworks | src/services/xcat.cpp:901-927 | Prefixes 31 and 32 are rejected, except a /32 at either end of the address space. |
| NodePlanning.NodesBelowPool | src/presenter/PresenterNodes.cpp:112-121 | For prefixes up to 24, nodes from the suggested offset on miss the pool if and only if there are none, or their number and that offset together are at most the broadcast offset less 102. |
| NodePlanning.SuggestedStart | src/presenter/PresenterNodes.cpp:112-121 | For prefixes up to 24 the suggestion is offset 101 if it is free, else 1, else 11. |
| NodePlanning.NodeNamesDiffer | src/presenter/PresenterNodes.cpp:31-35 | Padded node names are equal exactly for equal indices, also beyond the padding. |
| NodePlanning.OffsetsDiffer | src/presenter/PresenterNodes.cpp:37-50 | Offset addresses are equal exactly for indices equal modulo 2^32. |
| NodePlanning.AddNodes | src/presenter/PresenterNodes.cpp:298-360 | The creation loop yields the planned nodes, asking again until an attempt is acceptable; which nodes these are, in terms of what was typed, is NodePlanning.PlannedInTurn. |
| NodePlanning.PlannedInTurn | src/presenter/PresenterNodes.cpp:298-360 | Node by node, from one on: the first attempt that is not refused (bad MAC, zero address, BMC not an address or at the node's own) makes the node, named prefix and padded number, at the start address plus its index modulo 2^32, with the stored MAC and the BMC typed. |
| NodePlanning.PlannedNames | src/presenter/PresenterNodes.cpp:31-35 | The i-th planned node is named prefix and a text of digits whose value is i, counted from one, as long as the padding or the number needs, whichever is more. |
| NodePlanning.StopsAtUnspecified | src/connection.cpp:340-348 | Planning never gets past a node whose address would wrap around to 0.0.0.0, however often the operator tries. |
| NodePlanning.PlanningCompletes | src/presenter/PresenterNodes.cpp:298-360 | Some entries plan all requested nodes if and only if none is asked for, or the first address is not 0.0.0.0 and the last one does not wrap around. |
| NodePlanning.LastAddress | src/connection.cpp:340-348 | Of two nodes from 255.255.255.255 on, the second is never planned, whatever is typed. |
| NodePlanning.PlannedAddresses | src/presenter/PresenterNodes.cpp:298-360 | Planned nodes have consecutive addresses without a wrap, so there are fewer than 2^32 of them. |
| PlannedInventory.PlannedListPasses | src/models/answerfile.cpp:97-134 | A planned list passes the uniqueness check if and only if no two nodes have the same MAC or BMC address and no BMC is at the address of a node. |
| PlannedInventory.SameMacTwice | src/presenter/PresenterNodes.cpp:298-360 | One MAC typed for two nodes is planned, and refused by the uniqueness check. |
| NodePlanning.PlannedNodesDiffer | src/presenter/PresenterNodes.cpp:298-360 | Whatever quantity is asked for, planned nodes have pairwise different names and addresses, and no BMC at their own address. |
| ShellQuote.ShellSingleQuote | src/services/xcat.cpp:954-970 | The loop refuses exactly the texts with a newline or carriage return and otherwise builds the quoted form. |
| ShellQuote.QuotedReads | src/services/xcat.cpp:954-970 | Wherever it stands in a command line, the quoted text adds exactly the value to the current word. |
| ShellQuote.QuotedIsOneWord | src/services/xcat.cpp:954-970 | The shell reads the quoted text as one word, which is the value. |
| ShellQuote.QuotedArguments | src/services/xcat.cpp:1048-1056 | A command line of quoted arguments reads back as exactly those arguments, empty ones included. |
| FindReplace.FindAndReplace | src/functions.cpp:260-272 | The in-place loop terminates for every non-empty search text, also when the replacement holds it, and replaces the leftmost occurrences that do not overlap. |
| FindReplace.PiecesRejoin | src/functions.cpp:260-272 | The pieces between those occurrences do not contain the search text, and joined by it they are the text. |
| FindReplace.NothingLeftToFind | src/functions.cpp:260-272 | A replacement that shares no character with the search text and separates the pieces leaves nothing to find, so a second pass changes nothing. |
| FindReplace.EmptySearchNeverStops | src/functions.cpp:260-272 | With an empty search text every turn of the loop finds it again and leaves as much text. |
| TimezoneNames.SplitTimezonePath | src/presenter/PresenterTime.cpp:20-37 | The splitting loop gives the fields between slashes, without an empty one after a slash at the end. |
| TimezoneNames.PartsRejoin | src/presenter/PresenterTime.cpp:104-116 | The joined parts are the name without a slash at its end, so the name itself exactly when it has none there. |
| TimezoneNames.AreaThenLocation | src/services/timezone.cpp:53-67 | Cutting at the first slash and splitting the rest gives the parts of the whole name. |
| TimezoneNames.FetchAvailableTimezones | src/services/timezone.cpp:125-146 | The map lists, per area and in order, exactly the locations of the non-empty names. |
| TimezoneTree.Tree.InsertTimezone | src/presenter/PresenterTime.cpp:39-51 | Inserting a location marks exactly its place as terminal and adds exactly the places on the way to it. |
| TimezoneTree.Tree.InsertAll | src/presenter/PresenterTime.cpp:95-101 | After all insertions the terminal places are exactly the split locations, and every place lies on the way to one. |
| TimezoneTree.LeavesAreUnextended | src/presenter/PresenterTime.cpp:95-116 | The leaves are exactly the terminal places that no other location continues; every leaf is terminal. |
| TimezoneTree.Tree.NeverEmpty | src/presenter/PresenterTime.cpp:99-102 | The check for a tree without locations never fires for an area that was offered. |
| TimezoneTree.Tree.Descend | src/presenter/PresenterTime.cpp:104-116 | Every descent ends, at a leaf, with the names chosen; an operator who goes for a leaf arrives there. |
| TimezoneTree.SelectTimezone | src/presenter/PresenterTime.cpp:65-118 | The outcome is an available zone (but for a slash at its end) that no other zone continues, each such zone can be selected, and there is none exactly when no zone was found. |
| TimezoneTree.ContinuedZoneIsNeverSelected | src/presenter/PresenterTime.cpp:104-116 | A zone that another one continues is never the outcome. |
| NetworkCreation.CanUseIsExact | src/presenter/PresenterNetwork.cpp:43-50 | For a profile that is new, an interface may be used exactly when adding the network keeps profiles distinct and shared interfaces to Management and Service. |
| NetworkCreation.NetworkCreator.AddNetworkInformation | src/presenter/PresenterNetwork.cpp:275-295 | A network is added exactly when its profile is not there yet. |
| NetworkCreation.NetworkCreator.CanUseInterface | src/presenter/PresenterNetwork.cpp:297-311 | Passes exactly when the request may share with every network on the interface. |
| NetworkCreation.NetworkCreator.FindByInterface | src/presenter/PresenterNetwork.cpp:313-327 | Returns the first network on the interface, if there is one; in a sound state any other there is its partner. |
| NetworkCreation.NetworkCreator.FindByProfile | src/presenter/PresenterNetwork.cpp:329-342 | Returns the first network of a profile if and only if there is one, and in a sound state it is the only one. |
| NetworkCreation.RetrievePossibleInterfaces | src/presenter/PresenterNetwork.cpp:444-459 | The list holds exactly the interfaces of the host whose names begin with `ib` if and only if InfiniBand is asked for, and which carry no network but the other one of Management and Service. |
| NetworkCreation.PresentNetwork | src/presenter/PresenterNetwork.cpp:404-442 | One screen fails for want of interfaces exactly when nothing is offered, and then changes nothing; otherwise it adds the network on an interface that was offered, unless there is one of that profile already. |
| NetworkCreation.TwoInterfacesSuffice | src/presenter/PresenterNetwork.cpp:404-442 | The first screen succeeds exactly with two interfaces offered, later ones with one. |
| NetworkCreation.KindsFollowNames | src/presenter/PresenterNetwork.cpp:444-459 | Over every series of screens, the networks on interfaces whose names begin with `ib` are exactly the InfiniBand ones. |
| NetworkCreation.RunsAreSound | src/presenter/PresenterNetwork.cpp:404-459 | Over every series of screens, profiles are distinct and two networks share an interface only as Management and Service. |
| NetworkCreation.PresentAll | src/presenter/PresenterInstall.cpp:174-214 | The screens one after the other leave the networks of that run, which are sound. |
| NetworkCreation.AtMostOneShared | src/presenter/PresenterNetwork.cpp:43-50 | In a sound state at most one interface carries two networks and none carries three. |
| NetworkCreation.ServiceNeverLacksAnInterface | src/presenter/PresenterNetwork.cpp:444-459 | While the management interface is there, it is offered for a service network that is not there yet. |

## Left out

- Dry runs, and commands that fail without stopping the installer: most exit codes are ignored by the code, so a command here either happens or the run dies.
- Images of other types and node types than stateless compute images: the root path ignores the node type (src/services/xcat.cpp:2242).
- OFED, kernel and bundle choices in the image cache: the marker does not record them, so nothing is claimed about them. The scripts common to all queues are opaque text.
- PackedImage.SchedulerOfStaged: a chunk is left out of a file that holds an equal chunk, where the code looks for the chunk's text anywhere in the file; the two differ only if one chunk's text lies within others. The same goes for the lines of the synclist.
- The append to a marker file is one atomic step, and the guard that keeps the clean-up inside the install directory is not modelled.
- The text of the generated shell scripts, process execution, D-Bus, HTTP probes, logging, and the finite tables of providers and versions.
- Key files are tables of raw text in the order of their groups; escaping, comments and invalid group names are the key-file library's own.
- The fallback of the repository index to a Debian back end, repository generation, listing, single switches, and copying a file into the directory before it is read.
- RepoManager.RPMRepoManager.Install: a file that is loaded already is not installed again; the code would then keep a second object for it in memory, and the two no longer agree once one of them is saved.
- RepoManager.RPMRepoManager.LoadBaseDir: the directory is read into an empty index, where the code would also add to one that is not empty.
- RepoSelection.DefaultRepositoriesFor: the fixed list of four enabled repositories for Ubuntu is not modelled.
- RepoSelection.InitializeDefaultRepositories: the branch for RPM packages only.
- NodeRoundTrip.ReloadsTheSame: the inventory has fewer than 2^64 nodes, the range of the section numbers that the code reads.
- NodeInventory.RememberUnique: an owner is the position of the node, where the code's error message spells out its name.
- Keys of a node section are an enumeration, and only IPv4 addresses are parsed; `inet_aton` byte order and other address notations are not modelled.
- The masks are those of the CIDR table; the printed table itself is not modelled.
- NodePlanning.AddNodes: a malformed attempt is asked for again without modelling the error texts; the operator's list of attempts may end early, which stands for leaving the screen.
- Effects of a questionnaire step on the cluster model, which are not undone by going back, and exceptions other than back and abort.
- Questionnaire.ResumeRestoresPosition: the operator agrees to continue a draft that is offered.
- Questionnaire.RunQuestionnaire: an outcome list that ends stands for a session cut off between two steps.
- FindReplace.FindAndReplace: the search text is not empty, since the loop does not stop otherwise (FindReplace.EmptySearchNeverStops).
- TimezoneTree.Tree.InsertTimezone: nodes carry their place as a ghost constant; the owning wrapper around the root exists for the proof.
- NetworkCreation.PresentNetwork: leaving the screen, which discards the networks chosen so far, is not an outcome.
- NetworkCreation.RetrievePossibleInterfaces: the final sort of the list is not modelled, only its members.
- The default texts that a network screen offers (name servers, gateway, domain), and the retries of its validation loop, whose two checks are Ipv4.GatewayCheckIsExact and Ipv4.AcceptedServiceNetwork.
- Reading `zone1970.tab` and its fallback to `timedatectl`: the list of names is a parameter.
