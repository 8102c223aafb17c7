/** The steps by which a command that holds the exclusive storage lock may change a store. */
module Protocol {
  import opened Stores

  /** The layer lock of a pruning command: none, a lock file it has opened, or one it has locked. */
  datatype LayerLock = NoLock | Opened(digest: string, inode: Inode) | Acquired(digest: string, inode: Inode)

  datatype Snapshot = Snapshot(store: Store, lock: LayerLock)

  /** Layers may come, but neither go nor change. */
  predicate LayersKept(s: Store, t: Store) {
    forall digest | digest in s.layers :: digest in t.layers && t.layers[digest] == s.layers[digest]
  }

  predicate DataStep(before: Snapshot, after: Snapshot) {
    && after.lock == before.lock
    && after.store.locks == before.store.locks && after.store.nextInode == before.store.nextInode
    && LayersKept(before.store, after.store)
  }

  predicate OpenStep(before: Snapshot, after: Snapshot) {
    && before.lock.NoLock? && after.lock.Opened?
    && after.store == WithLock(before.store, after.lock.digest)
    && after.lock.inode == after.store.locks[after.lock.digest]
  }

  /** A write lock is granted unless another process holds a read lock on the same file. */
  predicate AcquireStep(before: Snapshot, after: Snapshot, readLocked: set<Inode>) {
    && before.lock.Opened? && before.lock.inode !in readLocked
    && after == before.(lock := Acquired(before.lock.digest, before.lock.inode))
  }

  predicate DropStep(before: Snapshot, after: Snapshot) {
    after == before.(lock := NoLock)
  }

  predicate RemoveLayerStep(before: Snapshot, after: Snapshot) {
    && before.lock.Acquired? && after.lock == before.lock
    && after.store == before.store.(layers := before.store.layers - {before.lock.digest},
                                    temporary := after.store.temporary)
  }

  predicate UnlinkStep(before: Snapshot, after: Snapshot) {
    && before.lock.Acquired? && after.lock.NoLock?
    && after.store == before.store.(locks := before.store.locks - {before.lock.digest})
  }

  predicate MutatorStep(before: Snapshot, after: Snapshot, readLocked: set<Inode>) {
    || DataStep(before, after)
    || OpenStep(before, after)
    || AcquireStep(before, after, readLocked)
    || DropStep(before, after)
    || RemoveLayerStep(before, after)
    || UnlinkStep(before, after)
  }
}
