/** Stacking the layers of the requested containers and building the bwrap command line. */
module Running {
  import opened Wrappers
  import opened Stores
  import opened Bubblewrap
  import opened CommandLines

  // ----- Stacked layers -----

  /** Adds, in order, the layers whose digests are not there yet. */
  function AddNew(layers: seq<Descriptor>, more: seq<Descriptor>): seq<Descriptor> {
    if more == [] then layers
    else
      var front, last := more[..|more| - 1], more[|more| - 1];
      var added := AddNew(layers, front);
      if last.digest in DigestsOf(added) then added else added + [last]
  }

  /** The layers of the containers, bottom first; none when a container cannot be read. */
  function StackedLayers(codec: Codec, s: Store, containers: seq<string>): Option<seq<Descriptor>> {
    if containers == [] then Some([])
    else
      var front, last := containers[..|containers| - 1], containers[|containers| - 1];
      match (StackedLayers(codec, s, front), ManifestOf(codec, s, last))
      case (Some(layers), Some(manifest)) => Some(AddNew(layers, manifest.layers))
      case (None, _) => None
      case (_, None) => None
  }

  /** All layers of all containers, repeats included. */
  function AllLayers(codec: Codec, s: Store, containers: seq<string>): seq<Descriptor> {
    if containers == [] then []
    else
      var front, last := containers[..|containers| - 1], containers[|containers| - 1];
      AllLayers(codec, s, front) + LayersOf(codec, s, last)
  }

  function LayersOf(codec: Codec, s: Store, container: string): seq<Descriptor> {
    match ManifestOf(codec, s, container)
    case None => []
    case Some(manifest) => manifest.layers
  }

  function FirstIndex(layers: seq<Descriptor>, digest: string): nat
    requires digest in DigestsOf(layers)
  {
    if digest in DigestsOf(layers[..|layers| - 1]) then FirstIndex(layers[..|layers| - 1], digest) else |layers| - 1
  }

  lemma {:induction false} FirstIndexIsFirst(layers: seq<Descriptor>, digest: string)
    requires digest in DigestsOf(layers)
    ensures var i := FirstIndex(layers, digest);
            && i < |layers| && layers[i].digest == digest
            && forall j | 0 <= j < i :: layers[j].digest != digest
  {
    if digest in DigestsOf(layers[..|layers| - 1]) {
      FirstIndexIsFirst(layers[..|layers| - 1], digest);
    } else {
      forall j | 0 <= j < |layers| - 1 ensures layers[j].digest != digest {
        assert layers[..|layers| - 1][j].digest in DigestsOf(layers[..|layers| - 1]);
      }
    }
  }

  predicate Distinct(layers: seq<Descriptor>) {
    forall i, j | 0 <= i < j < |layers| :: layers[i].digest != layers[j].digest
  }

  /** `kept` holds the first occurrence of every digest of `all`, in the order of `all`. */
  predicate KeepsFirstOccurrences(all: seq<Descriptor>, kept: seq<Descriptor>) {
    && Distinct(kept)
    && DigestsOf(kept) == DigestsOf(all)
    && (forall i | 0 <= i < |kept| :: FirstAt(all, kept[i]))
    && (forall i, j | 0 <= i < j < |kept| :: Precedes(all, kept[i].digest, kept[j].digest))
  }

  predicate FirstAt(all: seq<Descriptor>, layer: Descriptor) {
    && layer.digest in DigestsOf(all)
    && (FirstIndexIsFirst(all, layer.digest); all[FirstIndex(all, layer.digest)] == layer)
  }

  predicate Precedes(all: seq<Descriptor>, a: string, b: string) {
    a in DigestsOf(all) && b in DigestsOf(all) && FirstIndex(all, a) < FirstIndex(all, b)
  }

  lemma DigestsOfAppend(layers: seq<Descriptor>, last: Descriptor)
    ensures DigestsOf(layers + [last]) == DigestsOf(layers) + {last.digest}
    ensures (layers + [last])[..|layers|] == layers
  {
    var both := layers + [last];
    assert both[|layers|] == last;
    forall d | d in DigestsOf(layers) ensures d in DigestsOf(both) {
      var i :| 0 <= i < |layers| && layers[i].digest == d;
      assert both[i].digest == d;
    }
  }

  lemma KeepsFirstOccurrencesNext(all: seq<Descriptor>, kept: seq<Descriptor>, last: Descriptor)
    requires KeepsFirstOccurrences(all, kept)
    ensures KeepsFirstOccurrences(all + [last], if last.digest in DigestsOf(kept) then kept else kept + [last])
  {
    DigestsOfAppend(all, last);
    DigestsOfAppend(kept, last);
    forall d | d in DigestsOf(all)
      ensures FirstIndex(all + [last], d) == FirstIndex(all, d) < |all|
    {
      FirstIndexIsFirst(all, d);
    }
    var next := if last.digest in DigestsOf(kept) then kept else kept + [last];
    forall i | 0 <= i < |kept| ensures kept[i].digest in DigestsOf(kept) && FirstAt(all, kept[i]) {
    }
    forall i | 0 <= i < |next| ensures FirstAt(all + [last], next[i]) {
      if i < |kept| {
        assert FirstAt(all, kept[i]);
      }
    }
    forall i, j | 0 <= i < j < |next| ensures Precedes(all + [last], next[i].digest, next[j].digest) {
      assert FirstAt(all, kept[i]);
      if j < |kept| {
        assert Precedes(all, kept[i].digest, kept[j].digest);
      }
    }
  }

  lemma AddNewLast(layers: seq<Descriptor>, more: seq<Descriptor>)
    ensures more == [] ==> AddNew(layers, more) == layers
    ensures more != [] ==>
              var added := AddNew(layers, more[..|more| - 1]);
              AddNew(layers, more)
              == if more[|more| - 1].digest in DigestsOf(added) then added else added + [more[|more| - 1]]
  {
  }

  lemma SameDigests(all: seq<Descriptor>, kept: seq<Descriptor>)
    requires KeepsFirstOccurrences(all, kept)
    ensures DigestsOf(kept) == DigestsOf(all)
  {
  }

  lemma {:induction false} AddNewKeepsFirst(all: seq<Descriptor>, kept: seq<Descriptor>, more: seq<Descriptor>)
    requires KeepsFirstOccurrences(all, kept)
    ensures KeepsFirstOccurrences(all + more, AddNew(kept, more))
    ensures kept <= AddNew(kept, more)
    decreases |more|
  {
    AddNewLast(kept, more);
    hide KeepsFirstOccurrences, DigestsOf, AddNew;
    if more == [] {
      assert all + more == all;
    } else {
      var front, last := more[..|more| - 1], more[|more| - 1];
      AddNewKeepsFirst(all, kept, front);
      SameDigests(all + front, AddNew(kept, front));
      KeepsFirstOccurrencesNext(all + front, AddNew(kept, front), last);
      assert all + more == all + front + [last];
    }
  }

  /** The stack is the concatenation of the layer lists without later repeats. */
  lemma {:induction false} StackKeepsFirstOccurrences(codec: Codec, s: Store, containers: seq<string>)
    requires StackedLayers(codec, s, containers).Some?
    ensures KeepsFirstOccurrences(AllLayers(codec, s, containers), StackedLayers(codec, s, containers).value)
    decreases |containers|
  {
    if containers != [] {
      var front, last := containers[..|containers| - 1], containers[|containers| - 1];
      StackKeepsFirstOccurrences(codec, s, front);
      AddNewKeepsFirst(AllLayers(codec, s, front), StackedLayers(codec, s, front).value,
                       ManifestOf(codec, s, last).value.layers);
    }
  }

  /** Requesting more containers only puts layers on top. */
  lemma {:induction false} MoreContainersAppend(codec: Codec, s: Store, containers: seq<string>, more: seq<string>)
    requires StackedLayers(codec, s, containers + more).Some?
    ensures StackedLayers(codec, s, containers).Some?
    ensures StackedLayers(codec, s, containers).value <= StackedLayers(codec, s, containers + more).value
    decreases |more|
  {
    var both := containers + more;
    hide AddNew, KeepsFirstOccurrences, ManifestOf;
    if more == [] {
      assert both == containers;
    } else {
      var front := more[..|more| - 1];
      assert both[..|both| - 1] == containers + front;
      MoreContainersAppend(codec, s, containers, front);
      StackKeepsFirstOccurrences(codec, s, containers + front);
      AddNewKeepsFirst(AllLayers(codec, s, containers + front), StackedLayers(codec, s, containers + front).value,
                       ManifestOf(codec, s, both[|both| - 1]).value.layers);
    }
  }

  // ----- The command line -----

  /** The arguments that a request leads to in a store, or none when it fails. */
  function BwrapCommand(codec: Codec, root: string, s: Store, containers: seq<string>, command: seq<string>)
    : Option<seq<string>>
  {
    if containers == [] || command == [] then None
    else match StackedLayers(codec, s, containers)
      case None => None
      case Some(layers) =>
        if layers == [] || !(DigestsOf(layers) <= s.layers.Keys) then None else Some(Arguments(root, layers, command))
  }

  /** The inodes of the lock files that are locked, as their names are now; none where there is no
      such file. */
  function LockedInodes(root: string, s: Store, setup: Setup): seq<Option<Inode>> {
    var files := LockedFiles(setup);
    seq(|files|, i requires 0 <= i < |files| => if files[i].Some? then InodeAt(root, s, files[i].value) else None)
  }

  function InodeAt(root: string, s: Store, path: string): Option<Inode> {
    var prefix := root + "/locks/layers/";
    if prefix <= path && path[|prefix|..] in s.locks then Some(s.locks[path[|prefix|..]]) else None
  }

  /** The options of a command line that is to run this command. */
  function OptionsOf(arguments: seq<string>, command: seq<string>): seq<string>
    requires |command| <= |arguments|
  {
    arguments[..|arguments| - |command|]
  }

  /** bwrap is told to lock the lock files of the layers, by whatever inodes they have by then. */
  lemma LocksResolve(root: string, s: Store, layers: seq<Descriptor>)
    requires layers != []
    ensures var read := Read(Options(root, layers), NO_SETUP);
            && read.Some?
            && |LockedInodes(root, s, read.value.setup)| == |layers|
            && forall i | 0 <= i < |layers| ::
                 LockedInodes(root, s, read.value.setup)[i]
                 == if layers[i].digest in s.locks then Some(s.locks[layers[i].digest]) else None
  {
    OptionsAreRead(root, layers);
    hide Options, Read, LockedFiles, RootSources;
    forall i | 0 <= i < |layers|
      ensures InodeAt(root, s, LockPath(root, layers[i].digest))
              == if layers[i].digest in s.locks then Some(s.locks[layers[i].digest]) else None
    {
      assert LockPath(root, layers[i].digest)[|root + "/locks/layers/"|..] == layers[i].digest;
    }
  }

  // ----- When a command can be built -----

  lemma ManifestOfIntactStore(codec: Codec, s: Store, container: string)
    requires Intact(codec, s)
    ensures ManifestOf(codec, s, container).Some? <==> container in s.containers
    ensures DigestsOf(LayersOf(codec, s, container)) <= s.layers.Keys
  {
    if container in s.containers {
      assert IntactContainer(s, container);
      assert IntactManifest(codec, s, ReadDigest(s, container).value);
    }
  }

  lemma InFrontOrLast(containers: seq<string>)
    requires containers != []
    ensures forall c :: c in containers <==> c in containers[..|containers| - 1] || c == containers[|containers| - 1]
  {
    assert containers == containers[..|containers| - 1] + [containers[|containers| - 1]];
  }

  lemma {:induction false} StackOfIntactStore(codec: Codec, s: Store, containers: seq<string>)
    requires Intact(codec, s)
    ensures StackedLayers(codec, s, containers).Some? <==> forall c | c in containers :: c in s.containers
    ensures DigestsOf(AllLayers(codec, s, containers)) <= s.layers.Keys
    ensures AllLayers(codec, s, containers) == [] <==> forall c | c in containers :: LayersOf(codec, s, c) == []
    decreases |containers|
  {
    if containers == [] {
      hide Intact;
    } else {
      hide Intact, ManifestOf, DigestsOf, LayersOf, AddNew;
      var front, last := containers[..|containers| - 1], containers[|containers| - 1];
      StackOfIntactStore(codec, s, front);
      InFrontOrLast(containers);
      ManifestOfIntactStore(codec, s, last);
      DigestsOfConcat(AllLayers(codec, s, front), LayersOf(codec, s, last));
    }
  }

  lemma DigestsOfConcat(a: seq<Descriptor>, b: seq<Descriptor>)
    ensures DigestsOf(a + b) == DigestsOf(a) + DigestsOf(b)
  {
    var both := a + b;
    forall d | d in DigestsOf(a) ensures d in DigestsOf(both) {
      var i :| 0 <= i < |a| && a[i].digest == d;
      assert both[i] == a[i];
    }
    forall d | d in DigestsOf(b) ensures d in DigestsOf(both) {
      var i :| 0 <= i < |b| && b[i].digest == d;
      assert both[|a| + i] == b[i];
    }
  }

  /** In an intact store a command can be built exactly for installed containers that bring a
      layer: no manifest and no layer is ever missing. */
  lemma IntactStoreRuns(codec: Codec, root: string, s: Store, containers: seq<string>, command: seq<string>)
    requires Intact(codec, s)
    ensures BwrapCommand(codec, root, s, containers, command).Some? <==>
              && containers != [] && command != []
              && (forall c | c in containers :: c in s.containers)
              && exists c :: c in containers && LayersOf(codec, s, c) != []
  {
    StackOfIntactStore(codec, s, containers);
    if StackedLayers(codec, s, containers).Some? {
      StackKeepsFirstOccurrences(codec, s, containers);
      EmptyTogether(AllLayers(codec, s, containers), StackedLayers(codec, s, containers).value);
    }
    hide Intact, ManifestOf, DigestsOf, KeepsFirstOccurrences, LayersOf, AllLayers, StackedLayers, Arguments;
  }

  lemma EmptyTogether(all: seq<Descriptor>, kept: seq<Descriptor>)
    requires KeepsFirstOccurrences(all, kept)
    ensures DigestsOf(kept) == DigestsOf(all) && (all == [] <==> kept == [])
  {
    if all != [] {
      assert all[0].digest in DigestsOf(all);
    }
    if kept != [] {
      assert kept[0].digest in DigestsOf(kept);
    }
  }

  /** Everything that the containers of `s` can reach is still there in `t`. */
  predicate StillReachable(codec: Codec, s: Store, t: Store) {
    && t.containers == s.containers
    && forall c | c in s.containers :: StillReaches(codec, s, t, c)
  }

  predicate StillReaches(codec: Codec, s: Store, t: Store, container: string) {
    ManifestOf(codec, s, container).Some? ==>
      && ManifestOf(codec, t, container) == ManifestOf(codec, s, container)
      && DigestsOf(ManifestOf(codec, s, container).value.layers) * s.layers.Keys <= t.layers.Keys
  }

  lemma {:induction false} StillStacks(codec: Codec, s: Store, t: Store, containers: seq<string>)
    requires StillReachable(codec, s, t) && StackedLayers(codec, s, containers).Some?
    ensures StackedLayers(codec, t, containers) == StackedLayers(codec, s, containers)
    ensures DigestsOf(AllLayers(codec, s, containers)) * s.layers.Keys <= t.layers.Keys
    decreases |containers|
  {
    if containers != [] {
      var front, last := containers[..|containers| - 1], containers[|containers| - 1];
      StillStacks(codec, s, t, front);
      assert StillReaches(codec, s, t, last);
      var manifest := ManifestOf(codec, s, last).value;
      DigestsOfConcat(AllLayers(codec, s, front), manifest.layers);
    }
  }

  /** A command that could be built before still builds to the same arguments. */
  lemma StillBuilds(codec: Codec, root: string, s: Store, t: Store, containers: seq<string>, command: seq<string>)
    requires StillReachable(codec, s, t) && BwrapCommand(codec, root, s, containers, command).Some?
    ensures BwrapCommand(codec, root, t, containers, command) == BwrapCommand(codec, root, s, containers, command)
  {
    StillStacks(codec, s, t, containers);
    StackKeepsFirstOccurrences(codec, s, containers);
  }

  // ----- Building it step by step -----

  function WithLocks(s: Store, layers: seq<Descriptor>): Store {
    if layers == [] then s else WithLock(WithLocks(s, layers[..|layers| - 1]), layers[|layers| - 1].digest)
  }

  lemma {:induction false} LocksOnly(s: Store, layers: seq<Descriptor>)
    ensures WithLocks(s, layers) == s.(locks := WithLocks(s, layers).locks, nextInode := WithLocks(s, layers).nextInode)
    ensures WithLocks(s, layers).locks.Keys == s.locks.Keys + DigestsOf(layers)
    ensures forall digest | digest in s.locks :: WithLocks(s, layers).locks[digest] == s.locks[digest]
  {
    if layers != [] {
      var front, last := layers[..|layers| - 1], layers[|layers| - 1];
      LocksOnly(s, front);
      DigestsOfAppend(front, last);
      assert layers == front + [last];
    }
  }

  /** A storage directory that is held with a shared lock. */
  class Storage {
    const root: string
    const codec: Codec
    var disk: Store

    constructor (root: string, codec: Codec, disk: Store)
      ensures this.root == root && this.codec == codec && this.disk == disk
    {
      this.root, this.codec, this.disk := root, codec, disk;
    }

    method CreateLayerLockFile(digest: string) returns (path: string)
      modifies this
      ensures disk == WithLock(old(disk), digest) && path == LockPath(root, digest)
    {
      disk := WithLock(disk, digest);
      path := LockPath(root, digest);
    }

    method GetLayerPath(digest: string) returns (path: Option<string>)
      ensures path == if digest in disk.layers then Some(LayerPath(root, digest)) else None
    {
      path := if digest in disk.layers then Some(LayerPath(root, digest)) else None;
    }

    method ReadStackedLayers(containers: seq<string>) returns (stacked: Option<seq<Descriptor>>)
      ensures stacked == StackedLayers(codec, disk, containers)
    {
      var layers: seq<Descriptor> := [];
      for i := 0 to |containers|
        invariant StackedLayers(codec, disk, containers[..i]) == Some(layers)
      {
        assert containers[..i + 1][..i] == containers[..i];
        var manifest := ManifestOf(codec, disk, containers[i]);
        if manifest.None? {
          StackFails(codec, disk, containers, i);
          return None;
        }
        var found := manifest.value.layers;
        ghost var below := layers;
        for j := 0 to |found|
          invariant layers == AddNew(below, found[..j])
        {
          assert found[..j + 1][..j] == found[..j];
          if forall k | 0 <= k < |layers| :: layers[k].digest != found[j].digest {
            layers := layers + [found[j]];
          }
        }
        assert found[..|found|] == found;
      }
      assert containers[..|containers|] == containers;
      stacked := Some(layers);
    }

    method BuildBwrapCommand(containers: seq<string>, command: seq<string>) returns (bwrap: Option<seq<string>>)
      modifies this
      ensures bwrap == BwrapCommand(codec, root, old(disk), containers, command)
      ensures bwrap.Some? ==> disk == WithLocks(old(disk), StackedLayers(codec, old(disk), containers).value)
      ensures Core(disk).(locks := map[], nextInode := 0) == Core(old(disk)).(locks := map[], nextInode := 0)
      ensures bwrap.Some? ==>
        var stack := StackedLayers(codec, old(disk), containers).value;
        && stack != [] && command != [] && |command| <= |bwrap.value|
        && bwrap.value[|bwrap.value| - |command|..] == command
        && var read := Read(OptionsOf(bwrap.value, command), NO_SETUP);
           && read.Some? && read.value.command == []
           && read.value.setup.cleared && read.value.setup.unshared
           && RootSources(read.value.setup) == LayerPaths(root, stack)
           && |LockedInodes(root, disk, read.value.setup)| == |stack|
           && (forall i | 0 <= i < |stack| ::
                 stack[i].digest in disk.locks
                 && LockedInodes(root, disk, read.value.setup)[i] == Some(disk.locks[stack[i].digest]))
           && (!IsOption(command[0])
               <==> Read(bwrap.value, NO_SETUP) == Some(Invocation(read.value.setup, command)))
    {
      hide StackedLayers, WithLocks, LockMounts, LockMount, RootMount, DigestsOf, Read, LockedInodes, RootSources,
           LayerPaths, Options;
      if containers == [] || command == [] {
        return None;
      }
      var stacked := ReadStackedLayers(containers);
      if stacked.None? {
        return None;
      }
      var layers := stacked.value;
      var lockPaths := CreateLayerLockFiles(layers);
      LocksOnly(old(disk), layers);
      if layers == [] {
        return None;
      }
      var arguments := OPENING;
      var mount := MountRoot(layers);
      if mount.None? {
        return None;
      }
      arguments := arguments + mount.value + MOUNTS;
      ghost var preamble, locked := arguments, disk;
      NoLockMounts(root, layers);
      for i := 0 to |lockPaths|
        invariant arguments == preamble + LockMounts(root, layers[..i]) && disk == locked
      {
        LockMountsNext(root, layers, i);
        arguments := arguments + ["--ro-bind", lockPaths[i], SandboxLock(i), "--lock-file", SandboxLock(i)];
      }
      assert layers[..|layers|] == layers;
      OptionsAre(root, layers);
      bwrap := Some(arguments + command);
      OptionsAreRead(root, layers);
      LocksResolve(root, disk, layers);
      AllPresent(layers, disk.locks.Keys);
      CommandIsRun(Options(root, layers), command, NO_SETUP);
      assert OptionsOf(bwrap.value, command) == Options(root, layers);
    }

    method CreateLayerLockFiles(layers: seq<Descriptor>) returns (paths: seq<string>)
      modifies this
      ensures disk == WithLocks(old(disk), layers)
      ensures |paths| == |layers| && forall i | 0 <= i < |layers| :: paths[i] == LockPath(root, layers[i].digest)
    {
      paths := [];
      for i := 0 to |layers|
        invariant disk == WithLocks(old(disk), layers[..i])
        invariant |paths| == i && forall j | 0 <= j < i :: paths[j] == LockPath(root, layers[j].digest)
      {
        assert layers[..i + 1][..i] == layers[..i];
        var path := CreateLayerLockFile(layers[i].digest);
        paths := paths + [path];
      }
      assert layers[..|layers|] == layers;
    }

    method MountRoot(layers: seq<Descriptor>) returns (arguments: Option<seq<string>>)
      requires layers != []
      ensures arguments == if DigestsOf(layers) <= disk.layers.Keys then Some(RootMount(root, layers)) else None
    {
      hide DigestsOf, LayerPath;
      AllPresent(layers, disk.layers.Keys);
      if |layers| == 1 {
        var path := GetLayerPath(layers[0].digest);
        if path.None? { return None; }
        return Some(["--ro-bind", path.value, "/"]);
      }
      var sources := AddOverlaySources(layers);
      if sources.None? { return None; }
      arguments := Some(sources.value + ["--ro-overlay", "/"]);
    }

    method AddOverlaySources(layers: seq<Descriptor>) returns (sources: Option<seq<string>>)
      ensures sources == if DigestsOf(layers) <= disk.layers.Keys then Some(OverlaySources(root, layers)) else None
    {
      AllPresent(layers, disk.layers.Keys);
      hide DigestsOf, LayerPath, OverlaySources;
      var arguments: seq<string> := [];
      NoOverlaySources(root, layers);
      for i := 0 to |layers|
        invariant arguments == OverlaySources(root, layers[..i])
        invariant forall j | 0 <= j < i :: layers[j].digest in disk.layers
      {
        OverlaySourcesNext(root, layers, i);
        var path := GetLayerPath(layers[i].digest);
        if path.None? { return None; }
        arguments := arguments + ["--overlay-src", path.value];
      }
      assert layers[..|layers|] == layers;
      sources := Some(arguments);
    }
  }

  lemma OptionsAre(root: string, layers: seq<Descriptor>)
    requires layers != []
    ensures Options(root, layers) == OPENING + RootMount(root, layers) + MOUNTS + LockMounts(root, layers)
  {
  }

  lemma AllPresent(layers: seq<Descriptor>, digests: set<string>)
    ensures DigestsOf(layers) <= digests <==> forall i | 0 <= i < |layers| :: layers[i].digest in digests
  {
    forall i | 0 <= i < |layers| ensures layers[i].digest in DigestsOf(layers) {
    }
  }

  lemma {:induction false} StackFails(codec: Codec, s: Store, containers: seq<string>, i: nat)
    requires i < |containers| && ManifestOf(codec, s, containers[i]).None?
    ensures StackedLayers(codec, s, containers).None?
    decreases |containers|
  {
    if i < |containers| - 1 {
      StackFails(codec, s, containers[..|containers| - 1], i);
    }
  }
}
