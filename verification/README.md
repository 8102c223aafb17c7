# Pakstak, modelled and verified

Pakstak keeps a per-user store of OCI containers, manifests and extracted layers, and runs commands in a
sandbox whose root file system is made of those layers. This project models the parts of it that are hard
to get right, and proves what they promise:

- **Whiteouts and stacking** (`LayerTree`, `Whiteouts`, `Overlay`, `Stacking`, `Sandboxes`). An extracted
  layer in OCI form is rewritten in place, by a worklist loop, into overlayfs form; the layers are then
  stacked. The loop is a method over a path-keyed tree. It is proved against a pure per-layer
  specification that knows nothing of the order of directory listings or of the pending stack, and the
  stack of converted layers is proved to show, at every path, what applying the OCI changesets in order
  gives. What becomes of this when a run drops repeated layers is settled exactly, and from end to end:
  after any history of commands, the root that a run's command line mounts is the root file system of
  archives that registries have served for its layers, and it shows so much of all images exactly if no
  dropped repeat is overruled. The source semantics is that of the OCI Image Format Specification,
  sections "Applying Changesets", "Whiteouts" and "Opaque Whiteout" of layer.md; the target semantics is
  overlayfs lookup, section "whiteouts and opaque directories" of the Linux overlayfs documentation.
- **The store as a crash-prone state machine** (`Stores`, `MutableStorage`, `Extraction`, `Fetching`,
  `Commands`, `Updates`, `Pruning`, `Repairing`, `Sessions`). A class holds the contents of the storage
  directory. Every rename, write, unlink and lock operation is one step, and a journal records the store
  after each of them: whatever is proved of every entry of the journal is proved of every crash. The
  registry is an arbitrary function of the request and its number; file operations fail where an arbitrary
  function says so.
- **The two-level lock protocol** (`Protocol`, `Worlds`, `Guarantee`, `Running`, `CommandLines`, `Bubblewrap`). Many processes
  interleave: mutating commands under the exclusive storage lock, runs under the shared one, and sandboxes
  that have left the storage lock behind and rely on read locks on layer lock files, which are inodes apart
  from their names. The journals of the commands are proved to be steps of the mutators of this protocol. The arguments of a
  run are read back as bwrap reads them, and name the lock files that its sandbox binds.
- **Smaller pieces**: the streaming digest verifier (`Digests`), the worklist that makes a tree writable
  (`WritableTrees`), and the reference parser and printer (`References`).

`Wrappers` holds the option and result types. `dafny verify dfyconfig.toml` checks the whole project.

## What is a parameter

- The hash functions, JSON decoding, and unpacking of an archive over a directory: the functions in `Codec`.
- The registry: `Registry`, one answer for each request number and request. It may lie, change its mind,
  and break off in the middle of a body.
- Failures of file operations (`faults`), the read locks that sandboxes hold at each moment (`readLocked`),
  and how decoders and buffers split their reads (`requestSizes`, and the choice in `Stream.Read`).
- The order in which directories, and Rust's hash sets, yield their entries: every such loop takes an
  arbitrary element of what remains.
- Whether overlayfs honours the opaque attribute on the root of a layer: `rootFlag`. Where the results need
  it, they assume that it does, or that no upper layer has an opaque marker in its root.

## Hypotheses, and where they are needed

- *Well-formed layers* (`WellFormed`): no marker is a directory, and no whiteout aims at `.`, `..` or
  another marker. A marker that aims at a marker makes the outcome depend on the order of the listing
  (`NestedMarkersDependOnOrder`); a target of `.` or `..` flags a directory that may already have been
  visited, or one outside the layer; and a marker that is a directory makes the conversion fail. `PlainLayer`
  also says that unpacking has set no overlay attributes.
- *A single layer is mounted as it is*, not overlaid (`src/run.rs:53-58`), so a whiteout file made by its
  conversion shows up as an empty file. `BindIsRootfs` says that this goes well exactly for layers whose
  whiteouts all name something in the layer itself; with two layers or more no such condition is needed.
- *The digest that comes back is the digest that was asked for*, in the one request that counts. A manifest
  is saved under the digest string of the response (`src/fetch.rs:202-206`), while `switch` gives the
  container the string of the user (`src/switch.rs:20`); both verify, but another algorithm, capital letters,
  or the digest of an index make them differ. `Switch` is proved to leave an intact store exactly when the
  two agree or the requested one had been saved before; `SwitchAgrees` is that condition for a history of
  commands, and speaks of the request that this switch makes. `SpellingBreaksSwitch` carries out, from any
  intact store, a switch that is answered honestly and leaves the container without a manifest. `install` and
  `update` need no such hypothesis, and neither does `repair` to keep an intact store intact.
- *What restores a container* (`Restores`). A `repair` whose one request for a container has been answered
  leaves it intact if and only if the answer repeats the digest that was asked for, or the manifest saved
  under that digest verifies, parses, and misses no layers but those of the answer. For a direct answer the
  second case is that the saved manifest verifies (`DirectAnswerRestores`); through an index that is no
  manifest itself there is neither case, and the container stays broken (`IndexNeverRestores`). If the answer
  comes under another digest, this needs no hypothesis (`OtherAnswerOutcome`). `RepairLeavesBroken` carries
  out a repair that is answered honestly and leaves the container broken. `AllRestorable` says of every
  container of a store, and every answer that there may be to its repair, that it restores the container.
- *No collisions* (`NoCollisions`), for repair from an arbitrary store only: two documents, saved or served,
  that verify under the same digest are the same. Repair re-fetches the layers of the served document, but
  keeps a saved document that verifies.
- *Layers that can be shown* (`ServedCanBeShown`), for what a sandbox shows after a history of commands: every
  archive that a registry of the history has served, and that verifies, for a layer of the stack is a
  `PlainLayer`, and meets the conditions above on a single layer and on opaque markers in its root.
- *A command does not begin with a dash*, for bwrap to run it as it is given (`CommandIsRun`): it is appended
  to the options without a separator (`src/run.rs:86`). What is mounted and locked is stated of the options
  before it, whatever the command.
- *Coherent registry* (`Coherent`), for the confluence of `update` only: answers do not change during the
  command, all layers are served, and a digest stands for one document and one tree.

## Where code and documentation differ

- A run uses a layer once, at its first occurrence (`src/run.rs:103-111`, `src/main.rs:66-67`). The sandbox
  then shows what the images of all containers together define if and only if no dropped repeat is overruled:
  nowhere has a layer that lies strictly between a first occurrence and its dropped repeat the last word
  about a path on which the repeat would have had it, with something else to say (`RunShowsAllImages`).
  Adjacent repeats are always harmless (`AdjacentRepeatsAreHarmless`); `DroppingDistantRepeatMatters` gives
  two containers in an intact store for which a file is missing. The model follows the code.
- The message of `repair` calls every defect that it counts "unused" (`src/repair.rs:64-71`). This is right if
  every answer restores its container (`DefectsAreUnused`), and wrong otherwise: `RepairLeavesBroken` gives
  repairs that count a manifest that a container uses, and, where nothing is saved under the digest of the
  container, repairs that find nothing to report while the container has no manifest.
- A digest reference to a registry with a port is printed as a string that does not parse
  (`PortBreaksRoundTrip`); the parser takes the port for a tag.
- Neither lock covers the interval between exec and the moment when bwrap has its read locks
  (`src/run.rs:9-13`): `GapIsReal` carries out, for every store with a one-layer container, a run, the
  uninstalling of all containers and a prune, after which the layer has gone in that interval. Protection is
  claimed from the moment when the read locks are held on the files that are then named for the layers
  (`SandboxIsProtected`); `UndisturbedLaunchIsGuarded` says when a launch gets that far.

## Model

| member | source | states |
|---|---|---|
| Whiteouts.LayerDirectory.ConvertWhiteouts | src/storage.rs:798-854 | the worklist loop ends, and succeeds, on every well-formed layer, with exactly the layer that the pure specification `Converted` gives, whatever order entries are listed in; every directory with a `.wh..wh..opq` is then flagged and the marker gone; if it succeeds on any other layer, every entry that is not a marker is still there, the same but for an opaque flag that a marker asked for, and every new entry is a whiteout that a marker aims at |
| Whiteouts.LayerDirectory.ConvertDirectory | src/storage.rs:801-851 | one turn of the loop: exactly the subdirectories are pushed, once each; in a well-formed layer the directory is marked if opaque, its markers are consumed, and nothing else changes |
| Whiteouts.LayerDirectory.ListAndMark | src/storage.rs:802-823 | the listing is taken before the first change, and the opaque flag is set exactly when the listing holds an opaque marker |
| Whiteouts.LayerDirectory.ConvertEntry | src/storage.rs:825-850 | an entry is consumed if it is a marker, and reported if it is a directory that is not one |
| Whiteouts.LayerDirectory.ConvertMarker | src/storage.rs:856-885 | a missing target becomes an explicit whiteout, a directory becomes opaque, a file or link stays, also where the target is `.` or `..`; then the marker goes; it fails exactly when the marker is a directory |
| Whiteouts.MarkerIsConsumed | src/storage.rs:856-902 | by the names as they are spelled: consuming `.wh.name` makes a whiteout file of a missing `name`, makes a directory of that name opaque, for `.` this directory, for `..` the one above, which in the root lies outside the layer, and removes the marker |
| Whiteouts.LayerDirectory.RemoveMarker | src/storage.rs:887-902 | removes the marker and nothing else, and fails exactly on a directory |
| Whiteouts.ConversionIsClean | src/storage.rs:798-885 | a converted layer holds no markers; every other entry is still there with its content and kind; every new entry is the whiteout that some marker asked for |
| Whiteouts.OpaqueMarkerIsConverted | src/storage.rs:816-832 | in every well-formed layer, a directory with an entry `.wh..wh..opq` is flagged and the entry is gone |
| Whiteouts.WhiteoutIsConverted | src/storage.rs:829-885 | an entry `.wh.name` goes; a missing `name` beside it becomes a whiteout file, unless the directory is opaque; a directory of that name becomes opaque, and a file or link stays as it is |
| Whiteouts.MarkerIsConverted | src/storage.rs:856-885 | consuming one whiteout marker in place is one step of the order-independent specification |
| Whiteouts.ConsumptionResembles | src/storage.rs:856-885 | in any layer, well formed or not, consuming one more marker leaves every entry that is no marker as it was but for an opaque flag that a marker asked for, and adds nothing but a whiteout that a marker aims at |
| Whiteouts.MarkerIsRemoved | src/storage.rs:829-838 | whiteouts beside an opaque marker are redundant: dropping them is what the specification does |
| Whiteouts.OpaqueIsSet | src/storage.rs:816-823 | flagging a directory that holds an opaque marker is what the specification does when the directory is visited |
| Whiteouts.EverythingDone | src/storage.rs:798-854 | when every directory is visited and every marker consumed, the state in progress is the specification |
| Whiteouts.NestedMarkersDependOnOrder | src/storage.rs:825-842 | in every layer in which a marker aims at a marker, the order of the two decides whether the inner name is still there at the end |
| Whiteouts.TraversalIsComplete | src/storage.rs:799-801 | once the stack is empty every directory has been visited |
| LayerTree.MarkerTargets | src/storage.rs:904-910 | the marker for a path names that path as its target, and is never the opaque marker unless the path is a marker itself |
| LayerTree.TargetOfMarker | src/storage.rs:904-910 | the target of a marker has that marker; the two maps are inverse |
| LayerTree.ReservedNames | src/storage.rs:904-910 | `.wh.` before a name that is not empty is the marker for that name, nothing else is a marker, and the opaque marker is `.wh..wh..opq` |
| LayerTree.WellFormedNames | src/storage.rs:825-910 | well-formed layers by the names as they are spelled: no marker is a directory, and none is `.wh..`, `.wh...`, or aims at a marker, apart from `.wh..wh..opq` |
| Overlay.OverlayIsRootfs | src/run.rs:59-64 | at every path, overlay lookup in the converted layers gives what applying the OCI changesets in order gives, for every list of plain layers |
| Overlay.OpaqueMarkerHidesLower | src/storage.rs:816-823 | in every stack of converted layers, below a directory in which the top layer had a `.wh..wh..opq` nothing is seen that this layer does not have |
| Overlay.WhiteoutHidesLower | src/storage.rs:856-885 | where the top layer had a `.wh.name`, neither `name` nor anything below it is seen that this layer does not have |
| Overlay.OpaqueExample | src/storage.rs:1076-1096 | a layer with `d/.wh..wh..opq` is well formed, is converted to a flagged `d` and no marker, and hides `d/x` of the layer below |
| Overlay.SandboxIsRootfs | src/run.rs:51-65 | the same for what the sandbox sees, one layer or more; one layer needs that its conversion creates no whiteout |
| Overlay.BindIsRootfs | src/run.rs:53-58 | the one-layer mount is right at every path if and only if every effective whiteout of the layer names something in the layer |
| Overlay.WalkOnTop | src/run.rs:60-63 | lookup in a stack, component by component and merging directories, is lookup in the top layer merged over lookup in the rest |
| Overlay.OnTopIsApply | src/storage.rs:798-885 | merging a converted layer over a root file system is applying its OCI changeset: opaque directories, recreated directories, files over directories and back |
| Overlay.RootfsIsRootfs | src/storage.rs:798-885 | applying plain changesets always gives a prefix-closed tree without markers or overlay attributes |
| Overlay.ApplyTwice | src/run.rs:103-111 | applying a changeset twice is applying it once |
| Stacking.StackDropsRepeats | src/run.rs:95-112 | the stack of a run is the list of all layers of all containers without its repeats |
| Stacking.LastDecides | src/run.rs:60-63 | what is at a path of a root file system is what the topmost layer says that has an entry there or hides it |
| Stacking.DroppingKeepsPath | src/run.rs:103-111 | dropping repeats keeps what is at a path if and only if no dropped repeat is overruled there by a layer between it and its first occurrence |
| Stacking.AdjacentRepeatsAreHarmless | src/run.rs:103-111 | dropping adjacent repeats keeps the root file system |
| Stacking.StackIsShown | src/run.rs:51-65 | the sandbox shows the root file system of the archives of the stack |
| Stacking.RunShowsAllImages | src/run.rs:51-115 | for every store and containers, the sandbox shows what the images of all containers define if and only if no dropped repeat is overruled anywhere |
| Stacking.DroppingDistantRepeatMatters | src/run.rs:103-111 | in an intact store with two containers that share a layer, a file of the upper image is missing from the sandbox |
| CommandLines.OptionsAreRead | src/run.rs:35-84 | read as bwrap reads them, the options clear the environment and unshare all namespaces, mount the layers of the stack at the root, bottom first, and the usual mounts, and lock, in order, the lock files of exactly these layers |
| Sandboxes.CommandShowsStack | src/run.rs:15-89 | what the options of a command line mount shows at every path the root file system of the stacked archives |
| Sandboxes.RunAfterSessionsShowsImages | src/run.rs:9-115 | after any history of commands, failures, crashes and registries whose served archives can be shown, what a run has mounted shows the root file system of archives that were served for the layers of its stack, and shows that of all images of all containers if and only if no dropped repeat is overruled |
| Digests.DigestVerifier.Read | src/digest.rs:85-93 | exactly the bytes handed on are hashed: the context is always the part of the stream that has been read |
| Digests.DigestVerifier.Consume | src/storage.rs:757-778 | any sequence of short reads by a decoder keeps that |
| Digests.DigestVerifier.Drain | src/storage.rs:787-788 | draining ends, and on success the whole stream has been read |
| Digests.DigestVerifier.Verify | src/digest.rs:71-82 | once the stream is drained, accepts exactly when the hash of all its bytes is the expected digest, however it was read |
| Digests.VerifyBytes | src/digest.rs:95-102 | succeeds exactly when the digest string parses and is that of all the bytes; otherwise names the right error |
| Digests.AlgorithmsByName | src/digest.rs:37-62 | `sha256:`, `sha384:` and `sha512:` before hex name the algorithms with outputs of 32, 48 and 64 bytes; another length, or what is no hex, is refused as such |
| Digests.OtherDigestsAreRefused | src/digest.rs:37-43 | every other string is refused, for its algorithm if it has a colon, for its format if not |
| Digests.DigestsNameHashes | src/digest.rs:71-123 | bytes verify under the hex of an expected hash exactly if the algorithm that is named gives this hash of them |
| Digests.HexDigits | src/digest.rs:125-148 | the digits by their values, high digit first; capitals are read; an odd number of digits and other characters are refused |
| Digests.WhitespaceIsTrimmed | src/storage.rs:60-76 | spaces and line ends around a digest in its file do not matter |
| Digests.DigestSurvivesTrim | src/storage.rs:60-76 | every digest string that parses reads back from a container's file as it was written |
| Digests.HexIgnoresCase | src/digest.rs:125-139 | hex in capitals decodes to the same bytes |
| Digests.HexRoundTrip | src/digest.rs:125-148 | decoding encoded bytes gives them back |
| Digests.BothSpellingsVerify | src/digest.rs:37-69 | bytes verify under their digest in small letters and in capitals |
| Digests.SpellingsAgree | src/digest.rs:37-69 | digest strings that differ in the case of their hex verify the same bytes |
| Digests.SplitOnceJoins | src/digest.rs:38-40 | splitting a digest string at its first colon loses nothing, and leaves no colon in the algorithm name |
| Extraction.ExtractLayer | src/storage.rs:744-796 | a layer is accepted only if the hash of the entire stream is the expected one, however the decoder reads and wherever it stops, and it is the converted archive; a whole and well-formed layer is always accepted |
| References.RoundTrip | src/reference.rs:29-76 | printing and parsing a parsed reference gives it back if and only if it is tagged, or its registry and repository hold no colon |
| References.ParsesTag | src/reference.rs:30-58 | for every explicit registry, repository and tag, `registry/repository:tag` parses to these three |
| References.ParsesNoTag | src/reference.rs:35-58 | without a tag or digest, and without a colon in the name, the tag is `latest` |
| References.ParsesDigest | src/reference.rs:30-58 | `registry/repository@digest` parses to these three |
| References.ParsedSpelling | src/reference.rs:30-58 | whatever parses was written as registry, repository, and the tag, the digest, both or neither |
| References.RejectsImplicitRegistry | src/reference.rs:40-46 | a first word without dot or colon that is not `localhost` is refused, whatever follows |
| References.RejectsNoRepository | src/reference.rs:48-52 | a registry alone is refused for want of a repository |
| References.TagBesideDigestIsDropped | src/reference.rs:30-58 | for every name, a tag beside a digest is dropped by parsing: the outcome is that of the name with the digest alone, and it prints without the tag; what is printed parses back if and only if the name has no colon |
| References.PortBreaksRoundTrip | src/reference.rs:29-76 | a reference with a port, a tag and a digest parses, and what it prints as is refused for want of a repository |
| References.ParsedParts | src/reference.rs:29-60 | what the parts of a parsed reference look like: an explicit registry, a repository, and no separator where one would be split |
| Stores.FormatsByName | src/fetch.rs:31-43 | the five media types of layers and their formats; every other type has none |
| Stores.DigestFileIsRead | src/storage.rs:60-76 | a missing or blank digest file gives no digest; white space around a digest does not matter |
| Stores.AddingLayersKeepsIntact | src/storage.rs:446-474 | publishing layers keeps the store intact |
| Stores.WriteManifestKeepsIntact | src/storage.rs:368-372 | saving a manifest keeps the store intact if it verifies, parses, and has its layers already |
| Stores.PutContainerKeepsIntact | src/storage.rs:374-425 | writing a container keeps the store intact if and only if its digest names a saved manifest |
| Stores.RemoveContainerKeepsIntact | src/storage.rs:427-432 | removing a container keeps the store intact |
| Running.Storage.ReadStackedLayers | src/run.rs:91-115 | the nested loops compute the specified stack, and fail exactly when a container cannot be read |
| Running.Storage.BuildBwrapCommand | src/run.rs:15-89 | builds exactly the specified arguments, or fails exactly when they are not defined; changes nothing but lock files, one for each layer; the arguments end with the command, and the options before it, read as bwrap reads them, mount the paths of the layers of the stack and lock exactly the inodes that their lock files now have, in order |
| Running.Storage.CreateLayerLockFiles | src/run.rs:40-49 | creates the missing lock files and keeps the inodes of those that exist |
| Running.LocksOnly | src/storage.rs:163-167 | creating lock files changes nothing else, names each layer, and never replaces a file |
| Running.StackKeepsFirstOccurrences | src/run.rs:91-115 | the stack has no repeated digest, the same digests as all lists together, and keeps first occurrences in order |
| Running.MoreContainersAppend | src/run.rs:97-112 | requesting more containers only puts layers on top |
| CommandLines.LockMountAt | src/run.rs:77-86 | the arguments end with one lock mount for each layer, in index order, each at a path of its own in `/tmp/.layer_locks`, and then with the command |
| CommandLines.LocksAreBound | src/run.rs:77-84 | when all options have been read, the lock file of each layer is still bound at its path: no later mount hides it |
| Bubblewrap.CommandIsRun | src/run.rs:86 | a command is run as it is given if and only if its first word does not begin like an option |
| Bubblewrap.ReadInFront | src/run.rs:35-86 | options that are complete are read the same whatever follows them |
| Running.LocksResolve | src/run.rs:40-84 | the files that bwrap is told to lock are, by the names that they have in any store, the inodes of the lock files of the stack, in order |
| CommandLines.SourcesAreRead | src/run.rs:59-64 | bwrap collects every layer of the stack for the overlay, bottom first |
| CommandLines.DecimalReads | src/run.rs:46 | indices are printed in decimal digits without leading zeros, and read back |
| Running.IntactStoreRuns | src/run.rs:15-115 | in an intact store a command line is built if and only if a command and containers are given, all are installed, and one has a layer: nothing is ever missing |
| Running.StillBuilds | src/run.rs:15-115 | a store that still holds all that the containers reach builds to the same arguments |
| Worlds.SandboxIsProtected | src/prune.rs:66-123 | over every interleaving of commands, runs, sandboxes and crashes: while a sandbox that guards a layer lives, no step removes or changes the layer or replaces its lock file |
| Worlds.MutatorSparesLocked | src/storage.rs:316-337 | no step that a mutator may take removes a read-locked layer or its lock file |
| Worlds.InvariantInRun | src/storage.rs:722-742 | in every reachable world a mutator excludes every other holder of the storage lock, what it has locked is the file under that name, and nobody else holds a read lock on it |
| Worlds.NoNewReadLock | src/storage.rs:608-636 | nobody gets a read lock on a file that a mutator has locked |
| Worlds.RunReadsOneStore | src/run.rs:28-65 | the command line that a run hands to bwrap, read file by file while other runs create lock files, is the one that a single read of the store at lock acquisition gives |
| Worlds.LaunchedBindsWhatItIsTold | src/run.rs:77-84 | each lock file that a launched bwrap binds is the one that its options name next, by the inode that it has at that moment |
| Worlds.RefusalReadsOneStore | src/run.rs:28-65 | a run that gives up, at whatever step, has been refused what a single read of the store at lock acquisition refuses |
| Worlds.UndisturbedLaunchIsGuarded | src/run.rs:40-84 | a sandbox that gets its read locks before the next mutator starts guards its layers |
| Guarantee.CommandStepIsMutatorStep | src/storage.rs:255-565 | each moment of each command is one step of a mutator in the world of processes |
| Guarantee.JournalIsRun | src/storage.rs:255-565 | beside a sandbox without read locks, the journal of a command, up to any moment, is a run of the world |
| Guarantee.GapIsReal | src/run.rs:9-13 | for every store with a one-layer container, a run, uninstalls and a prune, carried out as the commands are, end with a sandbox that holds its read lock while its layer is gone |
| Guarantee.CommandSparesLocked | src/prune.rs:66-123 | no command, at no moment, removes or changes a layer whose lock file stays read-locked, nor replaces the file |
| MutableStorage.StorageMutable.constructor | src/storage.rs:256-276 | whatever an earlier command or crash has left, a command starts with no temporary files and the same containers, manifests and layers |
| MutableStorage.StorageMutable.Commit | src/storage.rs:476-565 | every durable change is recorded, and is a step of the lock protocol |
| MutableStorage.StorageMutable.Stage | src/storage.rs:476-500 | writing a temporary file, torn by a crash or not, changes nothing but temporary files |
| MutableStorage.StorageMutable.EnsureContainerDirectory | src/storage.rs:590-596 | a missing parent directory is made, and nothing else changes |
| MutableStorage.StorageMutable.WriteManifest | src/storage.rs:368-372 | a crash finds the manifest either as before or completely written; failure leaves it as before |
| MutableStorage.StorageMutable.WriteContainerManifestDigest | src/storage.rs:374-385 | the digest of a container changes in one step and its reference is kept; for a name that is not installed a directory comes first |
| MutableStorage.StorageMutable.WriteContainer | src/storage.rs:387-425 | a container appears with both its files or not at all, and never in place of a container with a file; an empty directory may be replaced |
| MutableStorage.StorageMutable.StageContainer | src/storage.rs:387-423 | the two files are written one after the other in the temporary directory, and a crash between them finds no change outside it |
| MutableStorage.StorageMutable.PublishContainer | src/storage.rs:502-512 | the rename makes the container appear in one step; it fails where a directory with a file is, and may replace an empty one |
| MutableStorage.StorageMutable.StageLayer | src/storage.rs:446-464 | an extracted layer is the converted archive over what lay in the temporary directory before; failure touches no published state |
| MutableStorage.LeftoversAreExtractedOver | src/storage.rs:446-464 | a layer is extracted over what an unfinished extraction has left in its temporary directory, and over nothing if nothing is there |
| MutableStorage.StorageMutable.PublishLayer | src/storage.rs:502-512 | the rename makes the layer appear in one step, and fails where one is |
| MutableStorage.StorageMutable.WriteLayer | src/storage.rs:446-474 | a layer appears whole or not at all, only if its archive verifies, and never in place of another |
| MutableStorage.StorageMutable.RemoveContainer | src/storage.rs:427-432 | a container goes in one step; it fails for one that is not installed |
| MutableStorage.StorageMutable.RemoveManifest | src/storage.rs:434-438 | a manifest goes in one step, whatever fails afterwards |
| MutableStorage.StorageMutable.RemoveLayer | src/storage.rs:440-444 | a layer goes in one step, under the layer lock |
| MutableStorage.StorageMutable.LockLayerForPrune | src/storage.rs:316-337 | the lock is refused if and only if somebody holds a read lock, at the moment of the attempt, on the file now under that name, and granted otherwise, unless an operation fails |
| MutableStorage.StorageMutable.RemoveLockFile | src/storage.rs:698-703 | only the file under lock is unlinked, and the lock goes with it |
| Fetching.FetchedIsVerified | src/fetch.rs:123-207 | whatever the registry answers, directly or through an index, an accepted manifest verifies under its digest, parses, and has schema version 2 |
| Fetching.FetchedIsAnswered | src/fetch.rs:123-207 | a fetch arrives at a manifest if and only if the request for its reference was answered with it, completely, under a digest it verifies under, and verifying under the digest that was asked for, or with an index, declared or tried when it is no manifest, whose choice for this platform was asked for and answered so next |
| Fetching.SelectsForPlatform | src/fetch.rs:146-153 | from an index the first descriptor for this platform is taken, or the first of all if there is none |
| Fetching.RegistryClient.FetchManifestBytes | src/fetch.rs:163-207 | one request, whose answer is taken only if it is complete and verifies under both digests |
| Fetching.RegistryClient.FetchImageManifest | src/fetch.rs:123-138 | the requests one after another lead to what the first two answers determine |
| Fetching.RegistryClient.FetchLayer | src/fetch.rs:292-312 | success leaves the layer present, and a layer that was not there is what the answer to the one request for it, to the registry and repository of the reference, is extracted to; at every moment this layer alone may have been added, and it is whole: extracted from a verified answer of this registry, given a clear temporary directory |
| Fetching.RegistryClient.FetchLayers | src/fetch.rs:278-315 | the same for the layers of a manifest, and no others; a registry that serves them leaves exactly the missing ones added |
| Fetching.RegistryClient.FetchImage | src/fetch.rs:87-121 | success leaves the manifest saved under its verified digest, with its layers present unless it was trusted as saved; repair replaces a saved manifest exactly if it does not verify; failure leaves the manifests as they were; every moment is accounted for, with layers of this manifest only; it succeeds, in repair mode or not, when nothing fails and the image is served |
| Fetching.FetchKeepsIntact | src/fetch.rs:103-118 | wherever a fetch stops, an intact store is still intact, and layers that were extracted from what had been received are so of what has been received by now |
| Fetching.FetchKeepsData | src/fetch.rs:97-118 | no fetch drops or changes a layer or a manifest that verifies |
| Fetching.CompletedMore | src/fetch.rs:292-312 | completing a store with some layers and then more is completing it with all of them |
| Commands.FetchInto | src/fetch.rs:87-121 | the part that installing, updating and switching share: safe at every moment, no container touched, and the digest saved on success |
| Commands.ContainerNames | src/install.rs:29-53 | the names that are accepted: ASCII letters, digits, dots, underscores and dashes, beginning with a letter or digit, and so neither `.` nor `..` |
| Commands.Install | src/install.rs:6-27 | every moment is safe without hypotheses on the registry; success adds the container, at the digest under which its manifest is saved; failure adds none; when nothing fails, the name is free and the image is saved or served, it succeeds and changes exactly this |
| Commands.Uninstall | src/uninstall.rs:4-12 | every moment is safe; exactly this container goes, and no manifest or layer; it fails for one that is not installed, whatever else happens |
| Commands.Switch | src/switch.rs:6-28 | a finished switch leaves every moment safe if and only if the fetched digest string is the requested one or that was saved before; a failed one always does; it succeeds when nothing fails and the image is served |
| Commands.SpellingBreaksSwitch | src/fetch.rs:196-206 | from every intact store with an installed container: switching to the digest of a manifest in capitals, answered honestly with the usual spelling, succeeds and leaves the container without a manifest |
| Commands.ContainerIsSafe | src/storage.rs:374-425 | pointing a container at a digest string that parses is safe if and only if that string names a saved manifest |
| Updates.Update | src/update.rs:6-48 | every moment is safe, and finds each container as it was or at what some request of this command up to its end has led to for its reference; success means that every named container, or every installed one if none is named, has such a digest; other containers, layers and valid manifests stay; with a coherent registry the outcome is a closed form without order |
| Updates.UpdateOne | src/update.rs:17-45 | the same for one container and the requests made up to then, the others untouched |
| Updates.FetchFor | src/update.rs:18-25 | fetches for the reference of a container that is installed, and touches no container |
| Updates.Publish | src/update.rs:36-40 | a container that is not up to date is pointed at the fetched digest, at a moment when the manifest is saved; it then reads back as that digest |
| Updates.RefreshedNext | src/update.rs:17-45 | what has been updated stays updated while others are |
| Updates.UpdatedNext | src/update.rs:17-45 | updating one more container is adding one more name to the closed form, whichever containers came before |
| Updates.LayersCameAlong | src/fetch.rs:103-106 | the early return for a saved manifest is harmless among updates: the container that brought the manifest brought its layers |
| Pruning.Prune | src/prune.rs:5-16 | at every moment, failing or not, the store is the old one without unused things, layers going after manifests only; without failures the manifests left are those that a container names, and the layers left those that the manifest of a container lists or that are locked; the counters say how many have gone |
| Pruning.PrunedKeeps | src/prune.rs:5-16 | what is left: a manifest exactly if some container names it, a layer exactly if the manifest of some container lists it or somebody has locked it |
| Pruning.ReadUsedManifests | src/prune.rs:18-30 | the digests that containers name, or a failure if one cannot be read |
| Pruning.ReadUsedLayers | src/prune.rs:32-44 | the layers that containers use, or a failure if a used manifest cannot be read |
| Pruning.PruneManifests | src/prune.rs:46-64 | every moment keeps used manifests and all layers; success leaves exactly the used ones and counts the rest |
| Pruning.PruneLayer | src/prune.rs:75-95 | a layer goes, with its lock file, exactly when nothing fails and nobody has locked it |
| Pruning.SweepLayer | src/prune.rs:69-96 | a used layer is passed over, and so is one that cannot be removed |
| Pruning.PruneLayers | src/prune.rs:66-97 | the fold removes and counts exactly the unused layers that are not locked, in any order |
| Pruning.CleanupLayerLock | src/prune.rs:100-119 | a lock file goes exactly when it names no layer and nobody has locked it |
| Pruning.CleanupLayerLocks | src/prune.rs:99-123 | the loop removes exactly those, and no data |
| Pruning.SweepKeepsReachable | src/prune.rs:18-97 | from any store, every moment of a sweep keeps all that the containers reach |
| Pruning.PruneIsInvisible | src/prune.rs:5-16 | at every moment of prune, a command line that could be built before builds to the same arguments |
| Pruning.SweepKeepsIntact | src/prune.rs:5-16 | every moment of a sweep keeps an intact store intact: manifests go before layers |
| Pruning.SweepRestoresIntact | src/prune.rs:5-16 | a finished sweep leaves an intact store if what the containers use was intact, whatever else was broken |
| Pruning.PruneFinished | src/prune.rs:5-16 | the three sweeps together give exactly the used manifests, the used or locked layers, and the lock files that name a layer or are locked; the counters equal the numbers removed |
| Pruning.PruneTwice | src/prune.rs:5-16 | with no change of locks a second prune removes nothing |
| Repairing.Repair | src/repair.rs:8-76 | every moment keeps an intact store intact; no layer and no valid manifest is lost; it reaches its check when nothing fails and all images are served, and then reports the number of saved manifests that do not verify or parse, and of the places where the others name a missing layer; if every answer restores its container, all containers are intact by then; the only container of a store that is answered under another digest is intact if and only if its own saved manifest is sound and completed |
| Repairing.RepairContainer | src/repair.rs:11-27 | after the one request for it has been answered, the container is intact if and only if the answer repeats its digest or completes its sound saved manifest; for a direct answer, if and only if it repeats the digest or the saved manifest verifies; those repaired before stay intact; it succeeds when nothing fails and the image is served |
| Repairing.CheckManifests | src/repair.rs:29-62 | the first counter is the number of saved manifests that do not verify or parse, the second the number of places where the others name a missing layer |
| Repairing.OtherAnswerOutcome | src/fetch.rs:97-118 | re-fetching under another digest than the container has leaves the container intact if and only if its own saved manifest verifies, parses and misses no layers but those fetched |
| Repairing.SameAnswerOutcome | src/fetch.rs:97-118 | re-fetching under the digest of the container makes it intact, whatever was saved there |
| Repairing.DirectAnswerRestores | src/repair.rs:21-26 | a direct answer restores the container if and only if it repeats the digest or the manifest saved there verifies |
| Repairing.IndexNeverRestores | src/fetch.rs:140-162 | an answer through an index that is no manifest never restores the container |
| Repairing.RepairLeavesBroken | src/repair.rs:8-76 | in every store whose only container names a digest in capitals with nothing sound saved there, a repair that is answered honestly and in full reaches its check with the container broken: a saved document there is counted although it is used, and if there is none, and the other manifests are intact, nothing is counted |
| Repairing.IntactHasNoDefect | src/repair.rs:38-61 | a manifest is intact if and only if the check finds nothing wrong with it |
| Repairing.CleanCheck | src/repair.rs:64 | both counters are zero if and only if no saved manifest is defective |
| Repairing.DefectsAreUnused | src/repair.rs:64-71 | once all containers are intact, every defect that is counted belongs to a manifest that no container uses |
| Repairing.RepairThenPrune | src/repair.rs:64-71 | pruning a repaired store leaves an intact one, even if the check found defects |
| Repairing.CleanCheckThenPrune | src/repair.rs:64-75 | after a check without defects this needs no hypothesis on the registry |
| Sessions.Execute | src/main.rs:82-113 | each command, on storage without temporary files, has the outcome that its success or failure stands for, and is safe at every moment; a switch is if its own request is answered as asked |
| Sessions.RunSession | src/main.rs:79-115 | one command, finished or crashed at any of its moments, takes a safe store to a safe store; a finished one has its outcome |
| Sessions.RunReader | src/main.rs:108-113 | a run changes nothing but lock files, and starts bwrap exactly when the command line is defined |
| Sessions.RunSessions | src/main.rs:79-115 | from an empty store, whatever commands run, fail or crash, and whatever registries answer: each command that is not interrupted has its outcome on what the one before left, and in every store on the way every saved manifest verifies, parses and has its layers, every container names one, and every layer was extracted from a verified answer of a registry met so far; only `switch` relies on its registry |
| Sessions.RunAfterSessions | src/run.rs:15-115 | after any such history a command line is built if and only if the request is for installed containers with a layer, and has a command |
| Sessions.RepairAndPrune | src/repair.rs:8-76 | from any store at all, a repair that reaches its check and a prune that succeeds leave an intact store, if every answer restores its container or the check finds nothing |
| WritableTrees.FileSystem.MakeTreeWritable | src/storage.rs:644-668 | the worklist ends, never needs a permission that it has not granted, and changes exactly the entries below the place that the root leads to, although the operations it uses follow links; it fails only if there is nothing at the root |
| WritableTrees.FileSystem.MakePathWritable | src/storage.rs:670-690 | adds the owner's bits to the entry that was inspected, by an operation that follows links, and nothing to a link or to what it leads to |
| WritableTrees.LocatedIsFollowed | src/storage.rs:648-651 | an operation that follows links reaches the entry that was inspected, unless that is a link |
| WritableTrees.FollowToLink | src/storage.rs:683-687 | a path to a link leads on to its target, from the directory of the link or from the root |
| WritableTrees.SearchIsNeeded | src/storage.rs:644-668 | a path through directories leads to its entry if and only if the owner may search all of them |
| WritableTrees.UnguardedReachesTarget | src/storage.rs:671-673 | without the guard, setting permissions at a link would change the file it leads to, which lies outside the tree |
| WritableTrees.FileSystem.SetPermissions | src/storage.rs:683-687 | succeeds exactly if the path leads, through links, to a file or directory; its mode is then the given one, its kind is the same, and no other entry changes; on failure nothing does |
| WritableTrees.FileSystem.ReadDirectory | src/storage.rs:657-664 | yields the names in the directory that the path leads to, once each, if and only if it leads to a directory that its owner may read |
| WritableTrees.TreeIsWritable | src/storage.rs:644-690 | afterwards the owner may read and write every file below the root, and search every directory as well; these bits are added and no other changes, nothing outside changes, and links are as they were |

## Left out

- HTTP, TLS, bearer tokens and the retry after a refusal (`src/auth.rs`, `src/fetch.rs:209-276`): the registry is a function, and a response may fail or break off.
- The hash functions, the decoders of tar, gzip, zstd and JSON, and platform selection and media type headers, which are fields of the decoded data.
- Extended attributes, fcntl and flock as system calls: the model has their effect, a flag on a node or an entry in a lock table.
- Directory listing in overlayfs, where whiteouts made of attributes need a mark on the directory as well: only lookup is modelled.
- bwrap apart from reading the options used here, mounting what they say, binding lock files, taking read locks and exiting; the mounts besides the root, and what the command does.
- Command-line parsing, environment variables, the location of the storage directory, messages and error texts; an error is an outcome without its text, except in `Digests` and `References`.
- Permissions, ownership, other metadata and hard links during whiteout conversion; permissions are modelled in `WritableTrees` only.
- The deletion after a tree has been made writable: removing a temporary entry is one step that succeeds or leaves it as it was. A crash that leaves a part of it is not distinguished, as nothing reads temporary entries before the next command clears them.
- A failure to clear the temporary directory, which ends a command before it starts: it leaves what a crash at the first moment leaves.
- Failures to list a directory: they stop a command in a state in which a crash can stop it too.
- Failures to create lock files and other failing reads in `run`: `Running` models a storage directory that answers.
- A temporary entry of another kind than the one to be written: no command writes two kinds under one name, as layer digests hold a colon and container names do not.
- The token cache and the connection that a client keeps between requests.
- Whiteouts.LayerDirectory.ConvertWhiteouts: for a layer that is not well formed the targets of markers and the remaining markers are bounded but not determined, as they depend on the order of the listing.
- MutableStorage.StorageMutable.WriteLayer: excludes an empty directory at the layer's path, which the rename would replace; its only caller has found nothing there.
- MutableStorage.StorageMutable.PublishLayer: excludes it likewise.
- WritableTrees.FileSystem.MakeTreeWritable: targets of links hold no `.` or `..`, and the user owns every entry.
- Worlds.SandboxIsProtected: claims protection only from the moment when the read locks are held, because neither lock covers the time before.
- Pruning.Prune: the exact outcome is stated for read locks that do not change while it runs; the safety of every moment is stated for all.
- Directory listings that a command changes while it goes through them: a loop goes through what was there when it started, in any order.
