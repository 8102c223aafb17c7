/**
  Many processes around one storage directory: mutating commands under the exclusive storage
  lock, runs under the shared one, and sandboxes that have left the storage lock behind and
  rely on read locks on layer lock files. A lock file is an inode; its name may be unlinked.
 */
module Worlds {
  import opened Wrappers
  import opened Stores
  import opened Bubblewrap
  import opened CommandLines
  import opened Running
  import opened Protocol

  type Pid = nat

  datatype Process =
    /** A command that may change the store. */
    | Mutator(lock: LayerLock)
    /** A run that has read some of its containers, and perhaps the digest file of the next;
        `start` is the store when it took its lock. */
    | Reading(start: Store, containers: seq<string>, read: nat, layers: seq<Descriptor>, named: Option<string>)
    /** A run that has created some of its lock files. */
    | Locking(start: Store, containers: seq<string>, layers: seq<Descriptor>, created: nat)
    /** A run that has found some of its layers. */
    | Mounting(start: Store, containers: seq<string>, layers: seq<Descriptor>, found: nat)
    /** A run that has given up, because something it needs is not there. */
    | Refused(start: Store, containers: seq<string>)
    /** bwrap, without the storage lock, that has bound some of the lock files. */
    | Launched(layers: seq<Descriptor>, bound: seq<Inode>)
    /** bwrap that holds read locks on the first `held` of them. */
    | Sandbox(layers: seq<Descriptor>, bound: seq<Inode>, held: nat)
  {
    predicate HoldsStorage() {
      Mutator? || Reading? || Locking? || Mounting?
    }

    function ReadLocks(): set<Inode> {
      if Sandbox? then set j | 0 <= j < held && j < |bound| :: bound[j] else {}
    }
  }

  datatype World = World(codec: Codec, store: Store, processes: map<Pid, Process>)

  function ReadLocked(w: World): set<Inode> {
    set pid, inode | pid in w.processes && inode in w.processes[pid].ReadLocks() :: inode
  }

  predicate IsWriteLocked(w: World, inode: Inode) {
    exists pid :: pid in w.processes && HasWriteLock(w.processes[pid], inode)
  }

  predicate HasWriteLock(p: Process, inode: Inode) {
    p.Mutator? && p.lock.Acquired? && p.lock.inode == inode
  }

  // ----- Steps -----

  predicate Starts(w: World, p: Process) {
    match p
    case Mutator(lock) => lock.NoLock? && forall q | q in w.processes :: !w.processes[q].HoldsStorage()
    case Reading(start, _, read, layers, named) =>
      && start == w.store && read == 0 && layers == [] && named.None?
      && forall q | q in w.processes :: !w.processes[q].Mutator?
    case Locking(_, _, _, _) => false
    case Mounting(_, _, _, _) => false
    case Refused(_, _) => false
    case Launched(_, _) => false
    case Sandbox(_, _, _) => false
  }

  /** A run reads the digest file of a container, then the manifest that it names. */
  function ReadsOn(w: World, start: Store, containers: seq<string>, read: nat, layers: seq<Descriptor>,
                   named: Option<string>): Process
  {
    if read >= |containers| then Locking(start, containers, layers, 0)
    else match named
      case None =>
        (match ReadDigest(w.store, containers[read])
         case Some(digest) => Reading(start, containers, read, layers, Some(digest))
         case None => Refused(start, containers))
      case Some(digest) =>
        (match ReadManifest(w.codec, w.store, digest)
         case Some(manifest) => Reading(start, containers, read + 1, AddNew(layers, manifest.layers), None)
         case None => Refused(start, containers))
  }

  predicate Advances(w: World, p: Process, store: Store, next: Process) {
    match p
    case Mutator(lock) =>
      next.Mutator? && MutatorStep(Snapshot(w.store, lock), Snapshot(store, next.lock), ReadLocked(w))
    case Reading(start, containers, read, layers, named) =>
      store == w.store && next == ReadsOn(w, start, containers, read, layers, named)
    case Locking(start, containers, layers, created) =>
      if created < |layers| then
        store == WithLock(w.store, layers[created].digest) && next == Locking(start, containers, layers, created + 1)
      else store == w.store && next == Mounting(start, containers, layers, 0)
    case Mounting(start, containers, layers, found) =>
      && store == w.store
      && if found < |layers| && layers[found].digest in w.store.layers then
           next == Mounting(start, containers, layers, found + 1)
         else if found < |layers| || layers == [] then next == Refused(start, containers)
         else next == Launched(layers, [])
    case Refused(_, _) => false
    case Launched(layers, bound) =>
      && store == w.store
      && if |bound| < |layers| then
           var digest := layers[|bound|].digest;
           digest in w.store.locks && next == Launched(layers, bound + [w.store.locks[digest]])
         else next == Sandbox(layers, bound, 0)
    case Sandbox(layers, bound, held) =>
      store == w.store && held < |bound| && !IsWriteLocked(w, bound[held]) && next == Sandbox(layers, bound, held + 1)
  }

  /** One step of one process: it starts, advances, or ends, by exiting, failing or crashing. */
  ghost predicate StepBy(w: World, w': World, pid: Pid) {
    && w'.codec == w.codec
    && if pid !in w.processes then
         && w'.store == w.store && pid in w'.processes && Starts(w, w'.processes[pid])
         && w'.processes == w.processes[pid := w'.processes[pid]]
       else if pid !in w'.processes then
         w'.store == w.store && w'.processes == w.processes - {pid}
       else
         && Advances(w, w.processes[pid], w'.store, w'.processes[pid])
         && w'.processes == w.processes[pid := w'.processes[pid]]
  }

  ghost predicate Next(w: World, w': World) {
    exists pid :: StepBy(w, w', pid)
  }

  ghost predicate IsRun(run: seq<World>) {
    && run != [] && run[0].processes == map[]
    && forall k | 0 <= k < |run| - 1 :: NextAt(run, k)
  }

  ghost predicate NextAt(run: seq<World>, k: nat)
    requires k + 1 < |run|
  {
    Next(run[k], run[k + 1])
  }

  // ----- Invariant -----

  predicate ProcessOk(w: World, p: Process) {
    match p
    case Mutator(lock) =>
      && (!lock.NoLock? ==> lock.digest in w.store.locks && w.store.locks[lock.digest] == lock.inode)
      && (lock.Acquired? ==> lock.inode !in ReadLocked(w))
    case Reading(start, containers, read, layers, named) =>
      && SameData(start, w.store) && read <= |containers|
      && StackedLayers(w.codec, start, containers[..read]) == Some(layers)
      && (named.Some? ==> read < |containers| && ReadDigest(start, containers[read]) == named)
    case Locking(start, containers, layers, created) =>
      && SameData(start, w.store) && created <= |layers|
      && StackedLayers(w.codec, start, containers) == Some(layers)
      && forall j | 0 <= j < created :: layers[j].digest in w.store.locks
    case Mounting(start, containers, layers, found) =>
      && SameData(start, w.store) && found <= |layers|
      && StackedLayers(w.codec, start, containers) == Some(layers)
      && (forall j | 0 <= j < |layers| :: layers[j].digest in w.store.locks)
      && (forall j | 0 <= j < found :: layers[j].digest in w.store.layers)
    case Refused(start, containers) => Unbuildable(w.codec, start, containers)
    case Launched(layers, bound) => |bound| <= |layers|
    case Sandbox(layers, bound, held) => |bound| == |layers| && held <= |bound|
  }

  /** No command line can be built for these containers. */
  predicate Unbuildable(codec: Codec, s: Store, containers: seq<string>) {
    match StackedLayers(codec, s, containers)
    case None => true
    case Some(layers) => layers == [] || !(DigestsOf(layers) <= s.layers.Keys)
  }

  lemma UnbuildableIsNone(codec: Codec, root: string, s: Store, containers: seq<string>, command: seq<string>)
    requires Unbuildable(codec, s, containers)
    ensures BwrapCommand(codec, root, s, containers, command) == None
  {
  }

  predicate Compatible(p: Process, q: Process) {
    p.Mutator? ==> !q.HoldsStorage()
  }

  predicate Invariant(w: World) {
    && (forall pid | pid in w.processes :: ProcessOk(w, w.processes[pid]))
    && (forall p, q | p in w.processes && q in w.processes && p != q :: Compatible(w.processes[p], w.processes[q]))
  }

  lemma ReadsFromData(codec: Codec, s: Store, t: Store)
    requires SameData(s, t)
    ensures forall c :: ReadDigest(s, c) == ReadDigest(t, c)
    ensures forall digest :: ReadManifest(codec, s, digest) == ReadManifest(codec, t, digest)
  {
  }

  /** What a run reads in two steps is what one look at its start gives; when it gives up, so would
      a run that reads everything at once. */
  lemma ReadingAdvances(w: World, p: Process, store: Store, next: Process)
    requires ProcessOk(w, p) && p.Reading? && Advances(w, p, store, next)
    ensures ProcessOk(w, next) && !next.Mutator? && store == w.store
  {
    var containers, read := p.containers, p.read;
    ReadsFromData(w.codec, p.start, w.store);
    if read < |containers| {
      assert containers[..read + 1][..read] == containers[..read];
      if next.Refused? {
        StackFails(w.codec, p.start, containers, read);
      }
    } else {
      assert containers[..read] == containers;
    }
  }

  lemma MountingAdvances(w: World, p: Process, store: Store, next: Process)
    requires ProcessOk(w, p) && p.Mounting? && Advances(w, p, store, next)
    ensures ProcessOk(w, next) && !next.Mutator? && store == w.store
  {
    hide StackedLayers, AddNew, DigestsOf, MutatorStep, ReadLocked, ReadsOn, ManifestOf, Unbuildable, IsWriteLocked,
         WithLock;
    if next.Refused? {
      MountFails(w, p);
    }
  }

  lemma MountFails(w: World, p: Process)
    requires ProcessOk(w, p) && p.Mounting?
    requires p.layers == [] || (p.found < |p.layers| && p.layers[p.found].digest !in w.store.layers)
    ensures Unbuildable(w.codec, p.start, p.containers)
  {
    hide StackedLayers, DigestsOf, Unbuildable;
    AllPresent(p.layers, p.start.layers.Keys);
    MissingIsUnbuildable(w.codec, p.start, p.containers, p.layers);
  }

  lemma MissingIsUnbuildable(codec: Codec, s: Store, containers: seq<string>, layers: seq<Descriptor>)
    requires StackedLayers(codec, s, containers) == Some(layers)
    requires layers == [] || !(DigestsOf(layers) <= s.layers.Keys)
    ensures Unbuildable(codec, s, containers)
  {
  }

  lemma MutatorAdvances(w: World, w': World, pid: Pid)
    requires pid in w.processes && pid in w'.processes && w'.processes == w.processes[pid := w'.processes[pid]]
    requires ProcessOk(w, w.processes[pid]) && w.processes[pid].Mutator?
    requires Advances(w, w.processes[pid], w'.store, w'.processes[pid])
    ensures ProcessOk(w', w'.processes[pid])
  {
    MutatorAddsNoReadLock(w, w', pid);
    hide ReadLocked;
  }

  /** The process that moves stays as it should be. */
  lemma MoverIsOk(w: World, w': World, pid: Pid)
    requires Invariant(w) && StepBy(w, w', pid) && pid in w'.processes
    ensures ProcessOk(w', w'.processes[pid])
  {
    hide MutatorStep, ReadLocked, AddNew, DigestsOf, ManifestOf, ReadsOn, Unbuildable;
    var next := w'.processes[pid];
    if pid !in w.processes {
      if next.Reading? {
        assert next.containers[..0] == [];
      }
    } else {
      var p := w.processes[pid];
      assert ProcessOk(w, p);
      hide Invariant, StackedLayers;
      if p.Reading? {
        hide Advances;
        ReadingAdvances(w, p, w'.store, next);
        hide ProcessOk;
        SameCodec(w, w', next);
      } else if p.Mounting? {
        hide Advances;
        MountingAdvances(w, p, w'.store, next);
        hide ProcessOk;
        SameCodec(w, w', next);
      } else if p.Mutator? {
        hide ProcessOk, Advances;
        MutatorAdvances(w, w', pid);
      }
    }
  }

  lemma SameCodec(w: World, w': World, p: Process)
    requires w'.codec == w.codec && w'.store == w.store && !p.Mutator?
    ensures ProcessOk(w', p) == ProcessOk(w, p)
  {
  }

  lemma MutatorAddsNoReadLock(w: World, w': World, pid: Pid)
    requires pid in w'.processes && w'.processes[pid].Mutator? && w'.processes == w.processes[pid := w'.processes[pid]]
    ensures ReadLocked(w') <= ReadLocked(w)
  {
    forall inode | inode in ReadLocked(w') ensures inode in ReadLocked(w) {
      var q :| q in w'.processes && inode in w'.processes[q].ReadLocks();
      assert q in w.processes && w.processes[q] == w'.processes[q];
    }
  }

  /** So does every other process. */
  lemma OthersAreOk(w: World, w': World, pid: Pid, other: Pid)
    requires Invariant(w) && StepBy(w, w', pid) && other != pid && other in w'.processes
    ensures ProcessOk(w', w'.processes[other])
  {
    var q := w.processes[other];
    assert w'.processes[other] == q && ProcessOk(w, q);
    if pid in w.processes {
      assert Compatible(w.processes[pid], q) && Compatible(q, w.processes[pid]);
    }
    if q.Mutator? && q.lock.Acquired? {
      NoNewReadLock(w, w', pid, q.lock.inode, other);
    }
  }

  /** Nobody gets a read lock on a file that a mutator has locked. */
  lemma NoNewReadLock(w: World, w': World, pid: Pid, inode: Inode, owner: Pid)
    requires StepBy(w, w', pid) && owner != pid && owner in w.processes
    requires HasWriteLock(w.processes[owner], inode) && inode !in ReadLocked(w)
    ensures inode !in ReadLocked(w')
  {
    forall q | q in w'.processes ensures inode !in w'.processes[q].ReadLocks() {
      if q in w.processes {
        assert inode !in w.processes[q].ReadLocks();
        if q == pid && w.processes[q].Sandbox? {
          assert IsWriteLocked(w, inode);
        }
      }
    }
  }

  lemma InvariantKept(w: World, w': World)
    requires Invariant(w) && Next(w, w')
    ensures Invariant(w')
  {
    var pid :| StepBy(w, w', pid);
    forall p | p in w'.processes ensures ProcessOk(w', w'.processes[p]) {
      if p == pid {
        MoverIsOk(w, w', pid);
      } else {
        OthersAreOk(w, w', pid, p);
      }
    }
    forall p, q | p in w'.processes && q in w'.processes && p != q
      ensures Compatible(w'.processes[p], w'.processes[q])
    {
      StaysCompatible(w, w', pid, p, q);
    }
  }

  lemma StaysCompatible(w: World, w': World, pid: Pid, p: Pid, q: Pid)
    requires Invariant(w) && StepBy(w, w', pid)
    requires p in w'.processes && q in w'.processes && p != q
    ensures Compatible(w'.processes[p], w'.processes[q])
  {
    if p in w.processes && q in w.processes {
      assert Compatible(w.processes[p], w.processes[q]);
    }
  }

  lemma {:induction false} InvariantInRun(run: seq<World>, k: nat)
    requires IsRun(run) && k < |run|
    ensures Invariant(run[k])
    decreases k
  {
    if k > 0 {
      InvariantInRun(run, k - 1);
      assert NextAt(run, k - 1);
      InvariantKept(run[k - 1], run[k]);
    }
  }

  // ----- Sandboxes are protected -----

  /** The sandbox holds a read lock on the file now named for its layer, and the layer is there. */
  predicate Guarded(w: World, pid: Pid, j: nat) {
    && pid in w.processes && w.processes[pid].Sandbox?
    && j < w.processes[pid].held <= |w.processes[pid].bound| && |w.processes[pid].bound| == |w.processes[pid].layers|
    && var digest := w.processes[pid].layers[j].digest;
       && digest in w.store.locks && w.store.locks[digest] == w.processes[pid].bound[j]
       && digest in w.store.layers
  }

  function LayerAt(w: World, pid: Pid, j: nat): string
    requires Guarded(w, pid, j)
  {
    w.processes[pid].layers[j].digest
  }

  /** A mutator spares every layer whose lock file is read-locked under its name. */
  lemma MutatorSparesLocked(before: Snapshot, after: Snapshot, readLocked: set<Inode>, digest: string)
    requires MutatorStep(before, after, readLocked)
    requires before.lock.Acquired? ==> before.lock.inode !in readLocked
    requires !before.lock.NoLock? ==>
               before.lock.digest in before.store.locks && before.store.locks[before.lock.digest] == before.lock.inode
    requires digest in before.store.locks && before.store.locks[digest] in readLocked && digest in before.store.layers
    ensures digest in after.store.locks && after.store.locks[digest] == before.store.locks[digest]
    ensures digest in after.store.layers && after.store.layers[digest] == before.store.layers[digest]
  {
    if DataStep(before, after) {
      hide OpenStep, AcquireStep, DropStep, RemoveLayerStep, UnlinkStep;
    } else if OpenStep(before, after) {
      hide DataStep, AcquireStep, DropStep, RemoveLayerStep, UnlinkStep;
    } else if RemoveLayerStep(before, after) || UnlinkStep(before, after) {
      hide DataStep, OpenStep, AcquireStep, DropStep;
    } else {
      hide DataStep, OpenStep, RemoveLayerStep, UnlinkStep;
    }
  }

  /** No process takes a read-locked lock file or its layer away. */
  lemma StepSparesLocked(w: World, w': World, actor: Pid, digest: string)
    requires Invariant(w) && StepBy(w, w', actor)
    requires digest in w.store.locks && w.store.locks[digest] in ReadLocked(w) && digest in w.store.layers
    ensures digest in w'.store.locks && w'.store.locks[digest] == w.store.locks[digest]
    ensures digest in w'.store.layers && w'.store.layers[digest] == w.store.layers[digest]
  {
    hide MutatorStep, ReadLocked, ReadsOn, StackedLayers, Unbuildable, IsWriteLocked;
    if actor in w.processes && actor in w'.processes {
      var p := w.processes[actor];
      assert ProcessOk(w, p);
      if p.Mutator? {
        hide WithLock, Invariant;
        MutatorSparesLocked(Snapshot(w.store, p.lock), Snapshot(w'.store, w'.processes[actor].lock),
                            ReadLocked(w), digest);
      }
    }
  }

  lemma SandboxStays(w: World, w': World, actor: Pid, pid: Pid)
    requires Invariant(w) && StepBy(w, w', actor)
    requires pid in w.processes && w.processes[pid].Sandbox? && pid in w'.processes
    ensures var p, p' := w.processes[pid], w'.processes[pid];
            && p'.Sandbox? && p'.layers == p.layers && p'.bound == p.bound
            && |p.bound| == |p.layers| && p.held <= p'.held <= |p.bound|
  {
    assert ProcessOk(w, w.processes[pid]);
  }

  /** Between two worlds the sandbox guards the same layer, by the same lock file. */
  predicate GuardsTheSame(w: World, w': World, pid: Pid, j: nat) {
    && Guarded(w, pid, j) && Guarded(w', pid, j) && LayerAt(w', pid, j) == LayerAt(w, pid, j)
    && w'.store.layers[LayerAt(w, pid, j)] == w.store.layers[LayerAt(w, pid, j)]
    && w'.store.locks[LayerAt(w, pid, j)] == w.store.locks[LayerAt(w, pid, j)]
  }

  lemma GuardedStays(w: World, w': World, pid: Pid, j: nat)
    requires Invariant(w) && Next(w, w') && Guarded(w, pid, j) && pid in w'.processes
    ensures GuardsTheSame(w, w', pid, j)
  {
    var actor :| StepBy(w, w', actor);
    hide Invariant, StepBy;
    var inode := w.processes[pid].bound[j];
    assert inode in w.processes[pid].ReadLocks();
    assert inode in ReadLocked(w);
    StepSparesLocked(w, w', actor, LayerAt(w, pid, j));
    SandboxStays(w, w', actor, pid);
  }

  lemma NextInRun(run: seq<World>, k: nat)
    requires IsRun(run) && k + 1 < |run|
    ensures Next(run[k], run[k + 1])
  {
    assert NextAt(run, k);
  }

  lemma GuardsItself(w: World, pid: Pid, j: nat)
    requires Guarded(w, pid, j)
    ensures GuardsTheSame(w, w, pid, j)
  {
  }

  lemma GuardsTransitively(w: World, w': World, w'': World, pid: Pid, j: nat)
    requires GuardsTheSame(w, w', pid, j) && GuardsTheSame(w', w'', pid, j)
    ensures GuardsTheSame(w, w'', pid, j) && Guarded(w', pid, j)
  {
  }

  /** Over every interleaving: while a sandbox lives, no step removes or changes a layer that it
      guards, nor replaces the lock file. */
  lemma {:induction false} SandboxIsProtected(run: seq<World>, pid: Pid, j: nat, first: nat, last: nat)
    requires IsRun(run) && first <= last < |run|
    requires forall k | first <= k <= last :: pid in run[k].processes
    requires Guarded(run[first], pid, j)
    ensures GuardsTheSame(run[first], run[last], pid, j)
    decreases last
  {
    hide Invariant, Next, IsRun, Guarded, GuardsTheSame;
    if first == last {
      GuardsItself(run[first], pid, j);
    } else {
      SandboxIsProtected(run, pid, j, first, last - 1);
      InvariantInRun(run, last - 1);
      NextInRun(run, last - 1);
      GuardsNext(run[first], run[last - 1], run[last], pid, j);
    }
  }

  lemma GuardsNext(w: World, w': World, w'': World, pid: Pid, j: nat)
    requires GuardsTheSame(w, w', pid, j) && Invariant(w') && Next(w', w'') && pid in w''.processes
    ensures GuardsTheSame(w, w'', pid, j)
  {
    hide Invariant, Next;
    GuardedStays(w', w'', pid, j);
    GuardsTransitively(w, w', w'', pid, j);
  }

  // ----- Runs read one store -----

  /** At `a` the run took the shared lock, on the store `start`. */
  predicate AcquiredAt(run: seq<World>, a: nat, pid: Pid, start: Store, containers: seq<string>)
    requires a < |run|
  {
    run[a].store == start && pid in run[a].processes && run[a].processes[pid] == Reading(start, containers, 0, [], None)
  }

  /** The process is a run that holds the storage lock. */
  predicate OnTheWay(p: Process) {
    p.Reading? || p.Locking? || p.Mounting?
  }

  lemma {:induction false} StartWasAcquired(run: seq<World>, k: nat, pid: Pid) returns (a: nat)
    requires IsRun(run) && k < |run| && pid in run[k].processes
    requires OnTheWay(run[k].processes[pid]) || run[k].processes[pid].Refused?
    ensures a <= k && AcquiredAt(run, a, pid, run[k].processes[pid].start, run[k].processes[pid].containers)
    ensures forall i | a <= i <= k :: pid in run[i].processes
    decreases k
  {
    assert k > 0;
    assert NextAt(run, k - 1);
    var w, w' := run[k - 1], run[k];
    var actor :| StepBy(w, w', actor);
    if pid in w.processes {
      hide IsRun;
      a := StartWasAcquired(run, k - 1, pid);
    } else {
      a := k;
    }
  }

  /** The command that a run hands to bwrap, read container by container while other runs create
      lock files, is the one that a single read of the store at lock acquisition gives. */
  lemma RunReadsOneStore(run: seq<World>, k: nat, pid: Pid, root: string, command: seq<string>) returns (a: nat)
    requires IsRun(run) && k + 1 < |run| && StepBy(run[k], run[k + 1], pid) && command != []
    requires pid in run[k].processes && run[k].processes[pid].Mounting?
    requires pid in run[k + 1].processes && run[k + 1].processes[pid].Launched?
    ensures a <= k && AcquiredAt(run, a, pid, run[k].processes[pid].start, run[k].processes[pid].containers)
    ensures run[k + 1].processes[pid].layers != []
    ensures BwrapCommand(run[k].codec, root, run[a].store, run[k].processes[pid].containers, command)
            == Some(Arguments(root, run[k + 1].processes[pid].layers, command))
  {
    a := StartWasAcquired(run, k, pid);
    InvariantInRun(run, k);
    LaunchIsAtomic(run[k], run[k + 1], pid, root, command);
  }

  /** What bwrap binds is what its options name: the lock files to be locked, in their order, each by
      the inode that it has at the time. */
  lemma LaunchedBindsWhatItIsTold(w: World, p: Process, store: Store, next: Process, root: string)
    requires p.Launched? && p.layers != [] && |p.bound| < |p.layers| && Advances(w, p, store, next)
    ensures var read := Read(Options(root, p.layers), NO_SETUP);
            && read.Some? && next.Launched? && next.layers == p.layers
            && |LockedInodes(root, w.store, read.value.setup)| == |p.layers|
            && next.bound[..|p.bound|] == p.bound && |next.bound| == |p.bound| + 1
            && LockedInodes(root, w.store, read.value.setup)[|p.bound|] == Some(next.bound[|p.bound|])
  {
    LocksResolve(root, w.store, p.layers);
    hide Read, Options, LockedInodes, MutatorStep, ReadsOn;
  }

  /** And a run that gives up, at whatever step, has been refused what a single read of the store at
      lock acquisition refuses. */
  lemma RefusalReadsOneStore(run: seq<World>, k: nat, pid: Pid, root: string, command: seq<string>) returns (a: nat)
    requires IsRun(run) && k < |run| && pid in run[k].processes && run[k].processes[pid].Refused?
    ensures a <= k && AcquiredAt(run, a, pid, run[k].processes[pid].start, run[k].processes[pid].containers)
    ensures BwrapCommand(run[k].codec, root, run[a].store, run[k].processes[pid].containers, command) == None
  {
    a := StartWasAcquired(run, k, pid);
    InvariantInRun(run, k);
    assert ProcessOk(run[k], run[k].processes[pid]);
    UnbuildableIsNone(run[k].codec, root, run[a].store, run[k].processes[pid].containers, command);
  }

  lemma LaunchIsAtomic(w: World, w': World, pid: Pid, root: string, command: seq<string>)
    requires Invariant(w) && StepBy(w, w', pid) && command != []
    requires pid in w.processes && w.processes[pid].Mounting? && pid in w'.processes && w'.processes[pid].Launched?
    ensures w'.processes[pid].layers != []
    ensures BwrapCommand(w.codec, root, w.processes[pid].start, w.processes[pid].containers, command)
            == Some(Arguments(root, w'.processes[pid].layers, command))
  {
    assert ProcessOk(w, w.processes[pid]);
    AllPresent(w.processes[pid].layers, w.processes[pid].start.layers.Keys);
  }

  // ----- The interval between exec and the read locks -----

  predicate NoMutator(w: World) {
    forall pid | pid in w.processes :: !w.processes[pid].Mutator?
  }

  /** The layers of a launched sandbox are there, with their lock files, and it is bound to them. */
  predicate Ready(w: World, pid: Pid) {
    && pid in w.processes && (w.processes[pid].Launched? || w.processes[pid].Sandbox?)
    && var p := w.processes[pid];
       && |p.bound| <= |p.layers|
       && forall j | 0 <= j < |p.layers| ::
            && p.layers[j].digest in w.store.layers && p.layers[j].digest in w.store.locks
            && (j < |p.bound| ==> w.store.locks[p.layers[j].digest] == p.bound[j])
  }

  lemma LaunchIsReady(w: World, w': World, pid: Pid)
    requires Invariant(w) && StepBy(w, w', pid)
    requires pid in w.processes && w.processes[pid].Mounting? && pid in w'.processes && w'.processes[pid].Launched?
    ensures Ready(w', pid)
  {
    assert ProcessOk(w, w.processes[pid]);
    AllPresent(w'.processes[pid].layers, w.store.layers.Keys);
  }

  lemma ReadyStays(w: World, w': World, pid: Pid)
    requires NoMutator(w) && Next(w, w') && Ready(w, pid) && pid in w'.processes
    ensures Ready(w', pid)
  {
    var actor :| StepBy(w, w', actor);
    hide MutatorStep, AddNew, ManifestOf, IsWriteLocked, DigestsOf;
  }

  lemma {:induction false} StaysReady(run: seq<World>, pid: Pid, first: nat, last: nat)
    requires IsRun(run) && first <= last < |run| && Ready(run[first], pid)
    requires forall k | first <= k <= last :: NoMutator(run[k]) && pid in run[k].processes
    ensures Ready(run[last], pid)
    decreases last
  {
    if first < last {
      hide Ready, Next, NoMutator;
      StaysReady(run, pid, first, last - 1);
      assert NextAt(run, last - 1);
      ReadyStays(run[last - 1], run[last], pid);
    }
  }

  /** A sandbox that gets its read locks before any mutating command comes in guards its layers. */
  lemma UndisturbedLaunchIsGuarded(run: seq<World>, pid: Pid, first: nat, last: nat, j: nat)
    requires IsRun(run) && 0 < first <= last < |run|
    requires StepBy(run[first - 1], run[first], pid)
    requires pid in run[first - 1].processes && run[first - 1].processes[pid].Mounting?
    requires pid in run[first].processes && run[first].processes[pid].Launched?
    requires forall k | first <= k <= last :: NoMutator(run[k]) && pid in run[k].processes
    requires run[last].processes[pid].Sandbox? && j < run[last].processes[pid].held
    ensures Guarded(run[last], pid, j)
  {
    InvariantInRun(run, first - 1);
    LaunchIsReady(run[first - 1], run[first], pid);
    StaysReady(run, pid, first, last);
    InvariantInRun(run, last);
    assert ProcessOk(run[last], run[last].processes[pid]);
  }

  lemma Extended(run: seq<World>, w: World, pid: Pid)
    requires IsRun(run) && StepBy(run[|run| - 1], w, pid)
    ensures IsRun(run + [w])
  {
    var longer := run + [w];
    forall k | 0 <= k < |longer| - 1 ensures NextAt(longer, k) {
      if k < |run| - 1 {
        assert NextAt(run, k);
      }
    }
  }

  /** Some run ends here. */
  ghost predicate Reachable(w: World) {
    exists run: seq<World> :: IsRun(run) && run[|run| - 1] == w
  }

  lemma ReachableNext(w: World, w': World, pid: Pid)
    requires Reachable(w) && StepBy(w, w', pid)
    ensures Reachable(w')
  {
    var run :| IsRun(run) && run[|run| - 1] == w;
    Extended(run, w', pid);
    assert (run + [w'])[|run|] == w';
  }

  lemma Starting(w: World, p: Process, pid: Pid) returns (w': World)
    requires Reachable(w) && pid !in w.processes && Starts(w, p)
    ensures Reachable(w') && w' == w.(processes := w.processes[pid := p])
  {
    w' := w.(processes := w.processes[pid := p]);
    assert StepBy(w, w', pid);
    ReachableNext(w, w', pid);
  }

  lemma Advancing(w: World, pid: Pid, store: Store, next: Process) returns (w': World)
    requires Reachable(w) && pid in w.processes && Advances(w, w.processes[pid], store, next)
    ensures Reachable(w') && w' == w.(store := store, processes := w.processes[pid := next])
  {
    w' := w.(store := store, processes := w.processes[pid := next]);
    assert StepBy(w, w', pid);
    ReachableNext(w, w', pid);
  }

  lemma Ending(w: World, pid: Pid) returns (w': World)
    requires Reachable(w) && pid in w.processes
    ensures Reachable(w') && w' == w.(processes := w.processes - {pid})
  {
    w' := w.(processes := w.processes - {pid});
    assert StepBy(w, w', pid);
    ReachableNext(w, w', pid);
  }

  lemma AddOne(layer: Descriptor)
    ensures AddNew([], [layer]) == [layer] && DigestsOf([layer]) == {layer.digest}
  {
    assert [layer][..0] == [];
  }

  lemma ReadingOne(codec: Codec, s: Store, container: string, layer: Descriptor) returns (w: World)
    requires ManifestOf(codec, s, container).Some? && ManifestOf(codec, s, container).value.layers == [layer]
    ensures Reachable(w) && w == World(codec, s, map[0 := Locking(s, [container], [layer], 0)])
  {
    AddOne(layer);
    w := World(codec, s, map[]);
    assert IsRun([w]);
    assert Reachable(w);
    hide Reachable, AddNew, ManifestOf, DigestsOf;
    w := Starting(w, Reading(s, [container], 0, [], None), 0);
    var digest := ReadDigest(s, container).value;
    hide ReadDigest, ReadManifest;
    w := Advancing(w, 0, s, Reading(s, [container], 0, [], Some(digest)));
    w := Advancing(w, 0, s, Reading(s, [container], 1, [layer], None));
    w := Advancing(w, 0, s, Locking(s, [container], [layer], 0));
  }

  lemma AdvancingAlone(codec: Codec, s: Store, p: Process, s': Store, next: Process)
    requires Reachable(World(codec, s, map[0 := p])) && Advances(World(codec, s, map[0 := p]), p, s', next)
    ensures Reachable(World(codec, s', map[0 := next]))
  {
    var w := Advancing(World(codec, s, map[0 := p]), 0, s', next);
    assert w == World(codec, s', map[0 := next]);
  }

  /** A run of a one-layer container finds its layer and starts bwrap. */
  lemma Mounted(codec: Codec, s: Store, container: string, layer: Descriptor)
    requires ManifestOf(codec, s, container).Some? && ManifestOf(codec, s, container).value.layers == [layer]
    requires layer.digest in s.layers
    ensures Reachable(World(codec, WithLock(s, layer.digest), map[0 := Launched([layer], [])]))
  {
    var s' := WithLock(s, layer.digest);
    AddOne(layer);
    var w := ReadingOne(codec, s, container, layer);
    hide Reachable, AddNew, ManifestOf, DigestsOf, MutatorStep, ReadLocked, IsWriteLocked, ReadsOn;
    AdvancingAlone(codec, s, Locking(s, [container], [layer], 0), s', Locking(s, [container], [layer], 1));
    AdvancingAlone(codec, s', Locking(s, [container], [layer], 1), s', Mounting(s, [container], [layer], 0));
    AdvancingAlone(codec, s', Mounting(s, [container], [layer], 0), s', Mounting(s, [container], [layer], 1));
    AdvancingAlone(codec, s', Mounting(s, [container], [layer], 1), s', Launched([layer], []));
  }

  /** It gets as far as being bound to its lock file. */
  lemma Launching(codec: Codec, s: Store, container: string, layer: Descriptor) returns (w: World)
    requires ManifestOf(codec, s, container).Some? && ManifestOf(codec, s, container).value.layers == [layer]
    requires layer.digest in s.layers
    ensures Reachable(w)
    ensures var s' := WithLock(s, layer.digest);
            w == World(codec, s', map[0 := Sandbox([layer], [s'.locks[layer.digest]], 0)])
  {
    Mounted(codec, s, container, layer);
    var s' := WithLock(s, layer.digest);
    var inode := s'.locks[layer.digest];
    hide Reachable, ManifestOf, MutatorStep, ReadLocked, IsWriteLocked, WithLock, ReadsOn;
    var none: seq<Inode> := [];
    assert none + [inode] == [inode];
    AdvancingAlone(codec, s', Launched([layer], []), s', Launched([layer], [inode]));
    AdvancingAlone(codec, s', Launched([layer], [inode]), s', Sandbox([layer], [inode], 0));
    w := World(codec, s', map[0 := Sandbox([layer], [inode], 0)]);
  }
}
