/** The commands of this project are the mutators of the lock protocol. */
module Guarantee {
  import opened Stores
  import opened Protocol
  import opened MutableStorage
  import opened Pruning
  import opened Commands
  import opened Worlds

  /** Any moment of any command is followed by its next moment as one step of a mutator process,
      in every world where the read locks are those that the command meets. */
  lemma CommandStepIsMutatorStep(w: World, w': World, pid: Pid, journal: seq<Moment>, k: nat,
                                 readLocked: nat -> set<Inode>)
    requires k + 1 < |journal| && FollowsProtocol(journal, k, readLocked)
    requires w.store == StoreAt(journal, k) && ReadLocked(w) == readLocked(journal[k + 1].time)
    requires pid in w.processes && w.processes[pid] == Mutator(journal[k].snapshot.lock)
    requires w' == w.(store := StoreAt(journal, k + 1),
                      processes := w.processes[pid := Mutator(journal[k + 1].snapshot.lock)])
    ensures StepBy(w, w', pid)
  {
    hide MutatorStep, ReadLocked;
    assert Snapshot(w.store, journal[k].snapshot.lock) == journal[k].snapshot;
    assert Snapshot(w'.store, journal[k + 1].snapshot.lock) == journal[k + 1].snapshot;
  }

  /** What a command holds on to is named, and is not the given inode. */
  predicate HoldsOther(snapshot: Snapshot, inode: Inode) {
    && (!snapshot.lock.NoLock? ==>
          && snapshot.lock.digest in snapshot.store.locks
          && snapshot.store.locks[snapshot.lock.digest] == snapshot.lock.inode)
    && (snapshot.lock.Acquired? ==> snapshot.lock.inode != inode)
  }

  predicate Keeps(s: Store, t: Store, digest: string)
    requires digest in s.layers && digest in s.locks
  {
    && digest in t.layers && t.layers[digest] == s.layers[digest]
    && digest in t.locks && t.locks[digest] == s.locks[digest]
  }

  lemma StepKeepsLocked(before: Snapshot, after: Snapshot, readLocked: set<Inode>, digest: string)
    requires MutatorStep(before, after, readLocked)
    requires digest in before.store.layers && digest in before.store.locks
    requires before.store.locks[digest] in readLocked && HoldsOther(before, before.store.locks[digest])
    ensures Keeps(before.store, after.store, digest) && HoldsOther(after, before.store.locks[digest])
  {
    if OpenStep(before, after) {
      hide DataStep, AcquireStep, DropStep, RemoveLayerStep, UnlinkStep;
    } else if RemoveLayerStep(before, after) || UnlinkStep(before, after) {
      hide DataStep, OpenStep, AcquireStep, DropStep;
    } else {
      hide OpenStep, RemoveLayerStep, UnlinkStep;
    }
  }

  /** No command, at no moment, removes or changes a layer whose lock file is read-locked while the
      command runs, nor replaces that lock file. */
  lemma {:induction false} CommandSparesLocked(journal: seq<Moment>, readLocked: nat -> set<Inode>, digest: string,
                                               k: nat)
    requires k < |journal| && journal[0].snapshot.lock.NoLock?
    requires forall i | 0 <= i < |journal| - 1 :: FollowsProtocol(journal, i, readLocked)
    requires digest in StoreAt(journal, 0).layers && digest in StoreAt(journal, 0).locks
    requires forall n :: StoreAt(journal, 0).locks[digest] in readLocked(n)
    ensures Keeps(StoreAt(journal, 0), StoreAt(journal, k), digest)
    ensures HoldsOther(journal[k].snapshot, StoreAt(journal, 0).locks[digest])
    decreases k
  {
    if k > 0 {
      CommandSparesLocked(journal, readLocked, digest, k - 1);
      assert FollowsProtocol(journal, k - 1, readLocked);
      hide MutatorStep, HoldsOther;
      StepKeepsLocked(journal[k - 1].snapshot, journal[k].snapshot, readLocked(journal[k].time), digest);
    }
  }

  // ----- The interval between exec and the read locks -----

  function Alone(codec: Codec, s: Store, p: Process): World {
    World(codec, s, map[0 := p])
  }

  function WithCommand(codec: Codec, p: Process, moment: Moment): World {
    World(codec, moment.snapshot.store, map[0 := p, 1 := Mutator(moment.snapshot.lock)])
  }

  lemma NothingReadLocked(codec: Codec, p: Process, moment: Moment)
    requires p.Sandbox? && p.held == 0
    ensures ReadLocked(WithCommand(codec, p, moment)) == {}
  {
    var w := WithCommand(codec, p, moment);
    forall pid | pid in w.processes ensures w.processes[pid].ReadLocks() == {} {
    }
  }

  /** Beside a sandbox without read locks, a journal of a command is a run of the world. */
  lemma {:induction false} JournalIsRun(codec: Codec, p: Process, journal: seq<Moment>, readLocked: nat -> set<Inode>,
                                        k: nat)
    requires p.Sandbox? && p.held == 0 && k < |journal| && journal[0].snapshot.lock.NoLock?
    requires Reachable(Alone(codec, StoreAt(journal, 0), p))
    requires forall n :: readLocked(n) == {}
    requires forall i | 0 <= i < |journal| - 1 :: FollowsProtocol(journal, i, readLocked)
    ensures Reachable(WithCommand(codec, p, journal[k]))
    decreases k
  {
    hide Reachable, FollowsProtocol, ReadLocked;
    if k == 0 {
      var w := Alone(codec, StoreAt(journal, 0), p);
      var started := Starting(w, Mutator(NoLock), 1);
      assert started == WithCommand(codec, p, journal[0]);
    } else {
      JournalIsRun(codec, p, journal, readLocked, k - 1);
      var w, w' := WithCommand(codec, p, journal[k - 1]), WithCommand(codec, p, journal[k]);
      NothingReadLocked(codec, p, journal[k - 1]);
      assert FollowsProtocol(journal, k - 1, readLocked);
      assert w' == w.(store := StoreAt(journal, k), processes := w.processes[1 := Mutator(journal[k].snapshot.lock)]);
      CommandStepIsMutatorStep(w, w', 1, journal, k - 1, readLocked);
      ReachableNext(w, w', 1);
    }
  }

  /** And when the command is over, its outcome is there without it. */
  lemma CommandIsRun(codec: Codec, p: Process, journal: seq<Moment>, readLocked: nat -> set<Inode>)
    requires p.Sandbox? && p.held == 0 && journal != [] && journal[0].snapshot.lock.NoLock?
    requires Reachable(Alone(codec, StoreAt(journal, 0), p))
    requires forall n :: readLocked(n) == {}
    requires forall i | 0 <= i < |journal| - 1 :: FollowsProtocol(journal, i, readLocked)
    ensures Reachable(Alone(codec, StoreAt(journal, |journal| - 1), p))
  {
    hide Reachable, FollowsProtocol;
    var last := |journal| - 1;
    JournalIsRun(codec, p, journal, readLocked, last);
    var ended := Ending(WithCommand(codec, p, journal[last]), 1);
    assert ended.processes == map[0 := p];
  }

  /** Beside the sandbox, a container is uninstalled. */
  method UninstallBeside(codec: Codec, s: Store, p: Process, container: string) returns (after: Store)
    requires p.Sandbox? && p.held == 0 && container in s.containers
    requires Reachable(Alone(codec, s, p))
    ensures Reachable(Alone(codec, after, p))
    ensures after.containers == s.containers - {container} && after.layers == s.layers && after.manifests == s.manifests
  {
    hide Reachable, FollowsProtocol, OneOf, AllIntact, SafeStart;
    var storage := new StorageMutable(codec, n => false, n => {}, s);
    ghost var journal := storage.journal;
    var ok := Uninstall(storage, container, IntactOnly);
    after := storage.disk;
    assert storage.journal[0] == journal[0];
    CommandIsRun(codec, p, storage.journal, storage.readLocked);
  }

  method UninstallAllBeside(codec: Codec, s: Store, p: Process) returns (after: Store)
    requires p.Sandbox? && p.held == 0 && Reachable(Alone(codec, s, p))
    ensures Reachable(Alone(codec, after, p)) && after.containers == map[]
  {
    hide Reachable;
    after := s;
    while after.containers != map[]
      invariant Reachable(Alone(codec, after, p))
      decreases |after.containers|
    {
      var c :| c in after.containers;
      after := UninstallBeside(codec, after, p, c);
    }
  }

  /** Beside the sandbox, a store without containers is pruned. */
  method PruneBeside(codec: Codec, s: Store, p: Process) returns (after: Store)
    requires p.Sandbox? && p.held == 0 && s.containers == map[]
    requires Reachable(Alone(codec, s, p))
    ensures Reachable(Alone(codec, after, p)) && after.layers == map[]
  {
    hide Reachable, FollowsProtocol, OneOf, AllSwept, Swept, PrunedTo;
    var storage := new StorageMutable(codec, n => false, n => {}, s);
    ghost var journal := storage.journal;
    var pruned := Prune(storage, {});
    after := storage.disk;
    assert storage.journal[0] == journal[0];
    CommandIsRun(codec, p, storage.journal, storage.readLocked);
    NothingUsed(codec, Core(s), after);
  }

  lemma NothingUsed(codec: Codec, s: Store, t: Store)
    requires PrunedTo(codec, s, t, {}) && s.containers == map[]
    ensures t.layers == map[]
  {
    assert UsedLayers(codec, s) == {};
    assert UnusedLayers(s, {}, {}) == s.layers.Keys;
  }

  /** The container is run, up to the point where bwrap has bound the lock file. */
  method LaunchedAlone(codec: Codec, s: Store, container: string, layer: Descriptor)
    returns (launched: Store, p: Process)
    requires ManifestOf(codec, s, container).Some? && ManifestOf(codec, s, container).value.layers == [layer]
    requires layer.digest in s.layers
    ensures launched == WithLock(s, layer.digest) && p == Sandbox([layer], [launched.locks[layer.digest]], 0)
    ensures Reachable(Alone(codec, launched, p))
  {
    hide Reachable, ManifestOf;
    launched := WithLock(s, layer.digest);
    p := Sandbox([layer], [launched.locks[layer.digest]], 0);
    ghost var started := Launching(codec, s, container, layer);
    assert started == Alone(codec, launched, p);
  }

  /** Neither lock covers the interval between exec and the read locks: from every store with a
      one-layer container, the container can be run and, before bwrap has its read lock, all
      containers be uninstalled and the store be pruned, so that the sandbox gets its read lock
      when the layer is gone. */
  method GapIsReal(codec: Codec, s: Store, container: string, layer: Descriptor) returns (w: World)
    requires ManifestOf(codec, s, container).Some? && ManifestOf(codec, s, container).value.layers == [layer]
    requires layer.digest in s.layers
    ensures Reachable(w) && layer.digest !in w.store.layers
    ensures w.processes.Keys == {0} && w.processes[0].Sandbox?
    ensures w.processes[0].held == 1 && w.processes[0].layers == [layer]
  {
    hide Reachable, ManifestOf, WithLock, MutatorStep;
    var launched, p := LaunchedAlone(codec, s, container, layer);
    var store := UninstallAllBeside(codec, launched, p);
    store := PruneBeside(codec, store, p);
    LocksLate(codec, store, p);
    w := World(codec, store, map[0 := p.(held := 1)]);
  }

  lemma LocksLate(codec: Codec, s: Store, p: Process)
    requires p.Sandbox? && p.held == 0 && p.bound != [] && Reachable(Alone(codec, s, p))
    ensures Reachable(Alone(codec, s, p.(held := 1)))
  {
    hide Reachable;
    var w := Alone(codec, s, p);
    assert !IsWriteLocked(w, p.bound[0]);
    var locked := Advancing(w, 0, s, p.(held := 1));
    assert locked == Alone(codec, s, p.(held := 1));
  }
}
