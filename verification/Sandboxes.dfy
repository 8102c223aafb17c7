/**
  From command lines to what the sandbox shows: after any history of commands, the root that a run
  has mounted is the root file system of archives that registries have served for its layers.
 */
module Sandboxes {
  import opened Wrappers
  import opened LayerTree
  import opened Whiteouts
  import opened Overlay
  import opened Stores
  import opened Bubblewrap
  import opened CommandLines
  import opened Running
  import opened Stacking
  import opened Sessions

  // ----- What a command line mounts -----

  /** The directory at a path of the storage directory, as far as layers go. */
  function DirectoryAt(root: string, s: Store, path: string): Tree {
    var prefix := root + "/layers/";
    if prefix <= path && path[|prefix|..] in s.layers then s.layers[path[|prefix|..]] else EMPTY_TREE
  }

  /** The directories that bwrap mounts at the root. */
  function MountedTrees(root: string, s: Store, options: seq<string>): seq<Tree> {
    var read := Read(options, NO_SETUP);
    var sources := if read.Some? then RootSources(read.value.setup) else [];
    seq(|sources|, i requires 0 <= i < |sources| => DirectoryAt(root, s, sources[i]))
  }

  lemma MountedAreStored(root: string, s: Store, layers: seq<Descriptor>, command: seq<string>)
    requires layers != []
    ensures |command| <= |Arguments(root, layers, command)|
    ensures MountedTrees(root, s, OptionsOf(Arguments(root, layers, command), command)) == StoredTrees(s, layers)
  {
    OptionsAreRead(root, layers);
    assert OptionsOf(Arguments(root, layers, command), command) == Options(root, layers);
    hide Arguments, Options, RootSources, Read;
    forall i | 0 <= i < |layers|
      ensures DirectoryAt(root, s, LayerPath(root, layers[i].digest)) == StoredTrees(s, layers)[i]
    {
      var prefix := root + "/layers/";
      assert LayerPath(root, layers[i].digest)[|prefix|..] == layers[i].digest;
    }
  }

  /** What a command line shows at every path is the root file system of the stacked archives. */
  lemma CommandShowsStack(codec: Codec, root: string, s: Store, containers: seq<string>, command: seq<string>,
                          archives: Archives, p: Path, rootFlag: bool)
    requires BwrapCommand(codec, root, s, containers, command).Some?
    requires var stack := StackedLayers(codec, s, containers).value;
             StoredAsArchived(s, stack, archives) && Mountable(stack, archives, rootFlag)
    ensures var arguments := BwrapCommand(codec, root, s, containers, command).value;
            var stack := StackedLayers(codec, s, containers).value;
            |command| <= |arguments|
            && SandboxView(MountedTrees(root, s, OptionsOf(arguments, command)), p, rootFlag)
               == Lookup(OciRootfs(TreesOf(stack, archives)), p)
  {
    hide SandboxView, MountedTrees, OciRootfs, Lookup, StoredAsArchived, Mountable, StackedLayers, Arguments;
    var stack := StackedLayers(codec, s, containers).value;
    MountedAreStored(root, s, stack, command);
    StackIsShown(s, stack, archives, p, rootFlag);
  }

  // ----- The archives that layers come from -----

  /** An archive that has been served, and verifies, for the digest. */
  ghost predicate IsServedArchive(codec: Codec, received: iset<Delivery>, digest: string, archive: Tree) {
    exists delivery :: delivery in received && delivery.digest == digest && IsArchive(codec, delivery, archive)
  }

  /** One that the layer was extracted from. */
  ghost function ArchiveOf(codec: Codec, received: iset<Delivery>, s: Store, digest: string): (archive: Tree)
    ensures digest in s.layers && WholeLayer(codec, received, digest, s.layers[digest]) ==>
              && IsServedArchive(codec, received, digest, archive)
              && ConvertsTo(archive, s.layers[digest])
  {
    if digest in s.layers && WholeLayer(codec, received, digest, s.layers[digest]) then
      var delivery, archive :| ExtractedFrom(codec, received, digest, s.layers[digest], delivery, archive);
      archive
    else EMPTY_TREE
  }

  ghost function ArchivesOf(codec: Codec, received: iset<Delivery>, s: Store): Archives {
    digest => ArchiveOf(codec, received, s, digest)
  }

  // ----- What registries must have served -----

  /** An archive can be shown as layer `i` of `count`: it is well formed and unpacking has set no
      overlay attributes; its root has no opaque marker, if that would have no effect; and alone it
      has no whiteout to be created. */
  predicate CanBeShown(archive: Tree, i: nat, count: nat, rootFlag: bool) {
    && PlainLayer(archive)
    && (rootFlag || i == 0 || !HasOpaqueMarker(archive, []))
    && (count == 1 ==> !CreatesWhiteout(archive))
  }

  /** This holds of everything that was served for a layer of the stack. */
  ghost predicate ServedCanBeShown(codec: Codec, received: iset<Delivery>, stack: seq<Descriptor>, rootFlag: bool) {
    forall i, archive | 0 <= i < |stack| && IsServedArchive(codec, received, stack[i].digest, archive) ::
      CanBeShown(archive, i, |stack|, rootFlag)
  }

  ghost predicate AllServed(codec: Codec, received: iset<Delivery>, stack: seq<Descriptor>, archives: Archives) {
    forall i | 0 <= i < |stack| :: IsServedArchive(codec, received, stack[i].digest, archives(stack[i].digest))
  }

  lemma WholeIsArchived(codec: Codec, received: iset<Delivery>, s: Store, stack: seq<Descriptor>, rootFlag: bool)
    requires WholeLayers(codec, received, s) && stack != [] && DigestsOf(stack) <= s.layers.Keys
    requires ServedCanBeShown(codec, received, stack, rootFlag)
    ensures var archives := ArchivesOf(codec, received, s);
            && StoredAsArchived(s, stack, archives) && Mountable(stack, archives, rootFlag)
            && AllServed(codec, received, stack, archives)
  {
    hide PlainLayer, WholeLayer, IsServedArchive, CreatesWhiteout, HasOpaqueMarker, Resembles, Converted;
    var archives := ArchivesOf(codec, received, s);
    AllPresent(stack, s.layers.Keys);
    forall i | 0 <= i < |stack|
      ensures CanBeShown(archives(stack[i].digest), i, |stack|, rootFlag)
      ensures StoredLayer(s, stack[i].digest, archives(stack[i].digest))
      ensures IsServedArchive(codec, received, stack[i].digest, archives(stack[i].digest))
    {
      assert WholeLayer(codec, received, stack[i].digest, s.layers[stack[i].digest]);
      PlainIsWellFormed(archives(stack[i].digest));
    }
    forall i | 0 <= i < |stack| ensures rootFlag || i == 0 || !HasOpaqueMarker(TreesOf(stack, archives)[i], []) {
      assert CanBeShown(archives(stack[i].digest), i, |stack|, rootFlag);
    }
  }

  lemma PlainIsWellFormed(archive: Tree)
    ensures PlainLayer(archive) ==> WellFormed(archive)
  {
  }

  // ----- End to end -----

  /** What the sandbox shows, of archives that have all been served: the root file system of the
      stack, which is that of all layers of all containers, repeats included, exactly if no dropped
      repeat is overruled anywhere. */
  ghost predicate ShowsServedImages(codec: Codec, received: iset<Delivery>, root: string, s: Store,
                                    containers: seq<string>, options: seq<string>, rootFlag: bool)
  {
    StackedLayers(codec, s, containers).Some?
    && var stack, all := StackedLayers(codec, s, containers).value, AllLayers(codec, s, containers);
       var archives, shown := ArchivesOf(codec, received, s), MountedTrees(root, s, options);
       && AllServed(codec, received, stack, archives) && DigestsOf(stack) == DigestsOf(all)
       && ShowsRootfs(shown, stack, archives, rootFlag)
       && (ShowsRootfs(shown, all, archives, rootFlag) <==> forall p :: !OverruledAt(all, archives, p))
  }

  /** At every path. */
  ghost predicate ShowsRootfs(shown: seq<Tree>, layers: seq<Descriptor>, archives: Archives, rootFlag: bool) {
    forall p :: SandboxView(shown, p, rootFlag) == Lookup(OciRootfs(TreesOf(layers, archives)), p)
  }

  lemma WholeStoreShows(codec: Codec, received: iset<Delivery>, root: string, s: Store, containers: seq<string>,
                        command: seq<string>, rootFlag: bool)
    requires WholeLayers(codec, received, s) && BwrapCommand(codec, root, s, containers, command).Some?
    requires ServedCanBeShown(codec, received, StackedLayers(codec, s, containers).value, rootFlag)
    ensures var arguments := BwrapCommand(codec, root, s, containers, command).value;
            |command| <= |arguments|
            && ShowsServedImages(codec, received, root, s, containers, OptionsOf(arguments, command), rootFlag)
  {
    hide SandboxView, MountedTrees, OciRootfs, Lookup, Mountable, StoredAsArchived, WholeLayers, Arguments, ArchivesOf,
         StackedLayers, AllLayers, OverruledAt, ServedCanBeShown, AllServed;
    var stack, all := StackedLayers(codec, s, containers).value, AllLayers(codec, s, containers);
    var archives, shown := ArchivesOf(codec, received, s), StoredTrees(s, stack);
    WholeIsArchived(codec, received, s, stack, rootFlag);
    MountedAreStored(root, s, stack, command);
    StackDropsRepeats(codec, s, containers);
    KeptDigests(all);
    RunShowsAllImages(codec, s, containers, archives, rootFlag);
    forall p ensures SandboxView(shown, p, rootFlag) == Lookup(OciRootfs(TreesOf(stack, archives)), p) {
      CommandShowsStack(codec, root, s, containers, command, archives, p, rootFlag);
    }
  }

  /** From an empty store, after any history of commands, failures, crashes and registries: when a
      run gets its command line, and what the registries of the history have served for its layers
      can be shown, the root that the command line mounts shows at every path what the OCI
      changesets of served archives give. It shows so much of all images of all containers exactly
      if no dropped repeat is overruled. */
  method RunAfterSessionsShowsImages(codec: Codec, environments: seq<Environment>, lines: seq<CommandLine>,
                                     crashes: seq<Option<nat>>, root: string, containers: seq<string>,
                                     command: seq<string>, ghost rootFlag: bool)
    returns (stores: seq<Store>, oks: seq<bool>, bwrap: Option<seq<string>>)
    requires |environments| == |lines| == |crashes|
    ensures |stores| == |lines| + 1 && stores[0] == EMPTY_STORE && |oks| == |lines|
    ensures Outcomes(codec, environments, lines, crashes, stores, oks, |lines|)
    ensures bwrap == BwrapCommand(codec, root, stores[|lines|], containers, command)
    ensures SwitchesAgree(codec, environments, lines, stores, |lines|) && bwrap.Some?
            && ServedCanBeShown(codec, Received(environments),
                                StackedLayers(codec, stores[|lines|], containers).value, rootFlag) ==>
              |command| <= |bwrap.value|
              && ShowsServedImages(codec, Received(environments), root, stores[|lines|], containers,
                                   OptionsOf(bwrap.value, command), rootFlag)
  {
    hide BwrapCommand, WithLocks, StackedLayers, Outcomes, SwitchesAgree, ServedCanBeShown, ShowsServedImages,
         WholeLayers, Intact, Received;
    stores, oks := RunSessions(codec, environments, lines, crashes);
    assert environments[..|lines|] == environments;
    var storage := new Storage(root, codec, stores[|lines|]);
    bwrap := storage.BuildBwrapCommand(containers, command);
    StackOfCommand(codec, root, stores[|lines|], containers, command);
    if SwitchesAgree(codec, environments, lines, stores, |lines|) && bwrap.Some?
       && ServedCanBeShown(codec, Received(environments), StackedLayers(codec, stores[|lines|], containers).value,
                           rootFlag)
    {
      WholeStoreShows(codec, Received(environments), root, stores[|lines|], containers, command, rootFlag);
    }
  }

  lemma StackOfCommand(codec: Codec, root: string, s: Store, containers: seq<string>, command: seq<string>)
    ensures BwrapCommand(codec, root, s, containers, command).Some? ==> StackedLayers(codec, s, containers).Some?
  {
  }
}
