/**
  The storage directory as a mutating command changes it. Every rename, write, unlink and lock
  operation is one step; the journal records the store after each of them, so every entry of the
  journal is a state that a crash can leave behind.
 */
module MutableStorage {
  import opened Wrappers
  import opened Digests
  import opened References
  import opened LayerTree
  import opened Stores
  import opened Protocol
  import opened Extraction

  /** A durable state, and when it came about. */
  datatype Moment = Moment(snapshot: Snapshot, time: nat)

  function StoreAt(journal: seq<Moment>, k: nat): Store
    requires k < |journal|
  {
    journal[k].snapshot.store
  }

  /** One step of the journal is one step of the lock protocol. */
  predicate FollowsProtocol(journal: seq<Moment>, k: nat, readLocked: nat -> set<Inode>)
    requires k + 1 < |journal|
  {
    MutatorStep(journal[k].snapshot, journal[k + 1].snapshot, readLocked(journal[k + 1].time))
  }

  /** Since `n`, a crash leaves one of two stores behind, apart from temporary files. */
  predicate OneOf(journal: seq<Moment>, n: nat, a: Store, b: Store) {
    forall k | n <= k < |journal| :: Core(StoreAt(journal, k)) == Core(a) || Core(StoreAt(journal, k)) == Core(b)
  }

  predicate OneOfThree(journal: seq<Moment>, n: nat, a: Store, b: Store, c: Store) {
    forall k | n <= k < |journal| :: Core(StoreAt(journal, k)) in {Core(a), Core(b), Core(c)}
  }

  lemma OneOfTransitive(first: seq<Moment>, second: seq<Moment>, n: nat, a: Store, b: Store, c: Store, d: Store)
    requires n <= |first| && first <= second
    requires OneOf(first, n, a, b) && OneOf(second, |first|, c, d)
    requires Core(c) == Core(a) || Core(c) == Core(b)
    requires Core(d) == Core(a) || Core(d) == Core(b)
    ensures OneOf(second, n, a, b)
  {
    forall k | n <= k < |second|
      ensures Core(StoreAt(second, k)) == Core(a) || Core(StoreAt(second, k)) == Core(b)
    {
      if k < |first| {
        assert StoreAt(second, k) == StoreAt(first, k);
      }
    }
  }

  lemma OneOfCommit(first: seq<Moment>, n: nat, a: Store, b: Store, last: Moment)
    requires n <= |first| && OneOf(first, n, a, b)
    requires Core(last.snapshot.store) == Core(a) || Core(last.snapshot.store) == Core(b)
    ensures OneOf(first + [last], n, a, b)
  {
    OneOfTransitive(first, first + [last], n, a, b, last.snapshot.store, last.snapshot.store);
  }

  datatype LayerLockResult = LockAcquired | LockFailed | LockError

  function ManifestFile(digest: string): string {
    digest + ".json"
  }

  const DIGEST_FILE := "manifest_digest"

  class StorageMutable {
    const codec: Codec
    /** Which file operations fail. */
    const faults: nat -> bool
    /** The lock files on which sandboxes hold read locks, at every time. */
    const readLocked: nat -> set<Inode>
    var clock: nat
    var disk: Store
    var lock: LayerLock
    var journal: seq<Moment>

    ghost predicate Valid()
      reads this
    {
      && journal != [] && journal[|journal| - 1].snapshot == Snapshot(disk, lock)
      && forall k | 0 <= k < |journal| - 1 :: FollowsProtocol(journal, k, readLocked)
    }

    /** No file operation fails. */
    ghost predicate Reliable() {
      forall n :: !faults(n)
    }

    /** Takes over a store that an earlier command, finished or crashed, has left behind. */
    constructor (codec: Codec, faults: nat -> bool, readLocked: nat -> set<Inode>, left: Store)
      ensures Valid() && lock.NoLock? && disk == Core(left)
      ensures this.codec == codec && this.faults == faults && this.readLocked == readLocked
      ensures |journal| == 2 && journal[0].snapshot == Snapshot(left, NoLock) && OneOf(journal, 0, left, left)
    {
      this.codec, this.faults, this.readLocked := codec, faults, readLocked;
      clock := 0;
      lock := NoLock;
      disk := Core(left);
      journal := [Moment(Snapshot(left, NoLock), 0), Moment(Snapshot(Core(left), NoLock), 0)];
    }

    /** Makes one change durable. */
    method Commit(next: Store, nextLock: LayerLock)
      requires Valid() && MutatorStep(Snapshot(disk, lock), Snapshot(next, nextLock), readLocked(clock))
      modifies this
      ensures Valid() && disk == next && lock == nextLock
      ensures journal == old(journal) + [Moment(Snapshot(next, nextLock), old(clock))]
      ensures clock == old(clock) + 1
    {
      ghost var before := journal;
      journal := journal + [Moment(Snapshot(next, nextLock), clock)];
      disk := next;
      lock := nextLock;
      clock := clock + 1;
      forall k | 0 <= k < |journal| - 1 ensures FollowsProtocol(journal, k, readLocked) {
        if k < |before| - 1 {
          assert FollowsProtocol(before, k, readLocked);
        }
      }
    }

    /** Tries one file operation. */
    method Attempt() returns (ok: bool)
      requires Valid()
      modifies this`clock
      ensures Valid() && clock == old(clock) + 1
      ensures Reliable() ==> ok
    {
      ok := !faults(clock);
      clock := clock + 1;
    }

    // ----- Reading -----

    method ReadContainerManifestDigest(container: string) returns (digest: Option<string>)
      requires Valid()
      modifies this`clock
      ensures Valid()
      ensures digest.Some? ==> digest == ReadDigest(disk, container)
      ensures Reliable() ==> digest == ReadDigest(disk, container)
    {
      var ok := Attempt();
      digest := if ok then ReadDigest(disk, container) else None;
    }

    method ReadContainerReference(container: string) returns (reference: Option<Reference>)
      requires Valid()
      modifies this`clock
      ensures Valid()
      ensures reference.Some? ==> reference == ReadReference(disk, container)
      ensures Reliable() ==> reference == ReadReference(disk, container)
    {
      var ok := Attempt();
      reference := if ok then ReadReference(disk, container) else None;
    }

    method ReadSavedManifest(digest: string) returns (manifest: Option<Manifest>)
      requires Valid()
      modifies this`clock
      ensures Valid()
      ensures manifest.Some? ==> manifest == ReadManifest(codec, disk, digest)
      ensures Reliable() ==> manifest == ReadManifest(codec, disk, digest)
    {
      var ok := Attempt();
      manifest := if ok then ReadManifest(codec, disk, digest) else None;
    }

    // ----- Temporary files -----

    /** Changes temporary files only. */
    method PutTemporary(name: string, slot: Slot) returns (ok: bool)
      requires Valid()
      modifies this
      ensures Valid() && old(journal) <= journal && lock == old(lock)
      ensures disk == if ok then old(disk).(temporary := old(disk).temporary[name := slot]) else old(disk)
      ensures OneOf(journal, |old(journal)|, old(disk), old(disk))
      ensures Reliable() ==> ok
    {
      ok := Attempt();
      if ok {
        Commit(disk.(temporary := disk.temporary[name := slot]), lock);
      }
    }

    method RemoveTemporary(name: string) returns (ok: bool)
      requires Valid()
      modifies this
      ensures Valid() && old(journal) <= journal && lock == old(lock)
      ensures disk == if ok then old(disk).(temporary := old(disk).temporary - {name}) else old(disk)
      ensures OneOf(journal, |old(journal)|, old(disk), old(disk))
      ensures Reliable() ==> ok
    {
      ok := Attempt();
      if ok {
        Commit(disk.(temporary := disk.temporary - {name}), lock);
      }
    }

    // ----- Atomic writes -----

    /** Writes a temporary file, of which a crash can leave a part. */
    method Stage(name: string, partial: Slot, whole: Slot) returns (ok: bool)
      requires Valid()
      modifies this
      ensures Valid() && old(journal) <= journal && lock == old(lock)
      ensures Core(disk) == Core(old(disk))
      ensures ok ==> disk.temporary == old(disk).temporary[name := whole]
      ensures OneOf(journal, |old(journal)|, old(disk), old(disk))
      ensures Reliable() ==> ok
    {
      hide OneOf, FollowsProtocol;
      ok := PutTemporary(name, partial);
      if !ok { return; }
      ghost var staged, between := journal, disk;
      ok := PutTemporary(name, whole);
      OneOfTransitive(staged, journal, |old(journal)|, old(disk), old(disk), between, between);
    }

    method WriteManifest(digest: string, contents: Bytes) returns (ok: bool)
      requires Valid()
      modifies this
      ensures Valid() && old(journal) <= journal && lock == old(lock)
      ensures var written := old(disk).(manifests := old(disk).manifests[digest := contents]);
              && Core(disk) == (if ok then Core(written) else Core(old(disk)))
              && OneOf(journal, |old(journal)|, old(disk), if ok then written else old(disk))
      ensures ok ==> |old(journal)| < |journal|
      ensures ok ==> disk.temporary == old(disk).temporary - {ManifestFile(digest)}
      ensures Reliable() ==> ok
    {
      hide OneOf, FollowsProtocol;
      var name := ManifestFile(digest);
      var partial :| 0 <= partial <= |contents|;
      ghost var written := disk.(manifests := disk.manifests[digest := contents]);
      ok := Stage(name, ManifestSlot(contents[..partial]), ManifestSlot(contents));
      if !ok { return; }
      ok := Attempt();
      if !ok { return; }
      OneOfWeaken(journal, |old(journal)|, old(disk), written);
      ghost var staged := journal;
      Commit(disk.(manifests := disk.manifests[digest := contents], temporary := disk.temporary - {name}), lock);
      OneOfCommit(staged, |old(journal)|, old(disk), written, journal[|staged|]);
      ok := true;
    }

    /** The parent directory of the file is made if there is none. */
    method EnsureContainerDirectory(container: string) returns (ok: bool)
      requires Valid()
      modifies this
      ensures Valid() && old(journal) <= journal && lock == old(lock)
      ensures disk == if ok then WithDirectory(old(disk), container) else old(disk)
      ensures OneOf(journal, |old(journal)|, old(disk), WithDirectory(old(disk), container))
      ensures Reliable() ==> ok
    {
      ok := Attempt();
      if ok && container !in disk.containers {
        Commit(WithDirectory(disk, container), lock);
      }
    }

    /** Of an installed container the digest changes in one step. For another name, which no caller
        passes, a directory comes first, and then holds nothing but the digest. */
    method WriteContainerManifestDigest(container: string, digest: string) returns (ok: bool)
      requires Valid()
      modifies this
      ensures Valid() && old(journal) <= journal && lock == old(lock)
      ensures var written := PointTo(old(disk), container, digest);
              var made := WithDirectory(old(disk), container);
              && (ok ==> Core(disk) == Core(written))
              && (!ok ==> Core(disk) == Core(old(disk)) || Core(disk) == Core(made))
              && OneOfThree(journal, |old(journal)|, old(disk), made, if ok then written else old(disk))
              && (container in old(disk).containers ==>
                    OneOf(journal, |old(journal)|, old(disk), if ok then written else old(disk)))
      ensures ok ==> |old(journal)| < |journal|
      ensures ok ==> disk.temporary == old(disk).temporary - {DIGEST_FILE}
      ensures Reliable() ==> ok
    {
      hide OneOf, FollowsProtocol, Core;
      var partial :| 0 <= partial <= |digest|;
      ghost var s, n := disk, |journal|;
      ghost var written, made := PointTo(disk, container, digest), WithDirectory(disk, container);
      DirectoryMade(s, container, digest);
      ok := EnsureContainerDirectory(container);
      ghost var staged := journal;
      OneOfMakes(staged, n, s, made, written, ok);
      if !ok { return; }
      ok := Stage(DIGEST_FILE, TextSlot(digest[..partial]), TextSlot(digest));
      OneOfTransitive(staged, journal, n, s, made, made, made);
      OneOfMakes(journal, n, s, made, written, ok);
      if !ok { return; }
      ok := Attempt();
      OneOfMakes(journal, n, s, made, written, ok);
      if !ok { return; }
      staged := journal;
      Pointed(s, disk, container, digest);
      Commit(PointTo(disk, container, digest).(temporary := disk.temporary - {DIGEST_FILE}), lock);
      OneOfMakesCommit(staged, n, s, made, written, journal[|staged|]);
      ok := true;
    }

    // ----- Publishing directories -----

    /** Renames the finished directory into place; a container that is there already stays. A
        directory without both files may be an empty one, which the rename replaces. */
    method WriteContainer(container: string, digest: string, reference: Reference) returns (ok: bool)
      requires Valid()
      modifies this
      ensures Valid() && old(journal) <= journal && lock == old(lock)
      ensures var written := WithContainer(old(disk), container, digest, reference);
              && Core(disk) == (if ok then Core(written) else Core(old(disk)))
              && OneOf(journal, |old(journal)|, old(disk), if ok then written else old(disk))
      ensures ok ==> |old(journal)| < |journal|
      ensures ok ==> disk.temporary == old(disk).temporary - {container}
      ensures old(container in disk.containers && disk.containers[container] != Container(None, None)) ==> !ok
      ensures Reliable() && old(container !in disk.containers) ==> ok
    {
      hide OneOf, FollowsProtocol, Core;
      ghost var s, n := disk, |journal|;
      ghost var written := WithContainer(disk, container, digest, reference);
      ok := StageContainer(container, digest, reference);
      OneOfWeaken(journal, n, s, s);
      if !ok { return; }
      ghost var staged := journal;
      PublishedContainer(s, disk, container, digest, reference);
      ok := PublishContainer(container, digest, reference);
      OneOfWeaken(staged, n, s, if ok then written else s);
      OneOfPublished(staged, journal, n, s, if ok then written else s);
    }

    method StageContainer(container: string, digest: string, reference: Reference) returns (ok: bool)
      requires Valid()
      modifies this
      ensures Valid() && old(journal) <= journal && lock == old(lock)
      ensures Core(disk) == Core(old(disk)) && OneOf(journal, |old(journal)|, old(disk), old(disk))
      ensures ok ==> disk.temporary
                     == old(disk).temporary[container := ContainerSlot(Container(Some(digest), Some(reference)))]
      ensures Reliable() ==> ok
    {
      hide OneOf, FollowsProtocol;
      ok := Stage(container, ContainerSlot(Container(None, None)), ContainerSlot(Container(Some(digest), None)));
      if !ok { return; }
      ghost var staged, between := journal, disk;
      ok := PutTemporary(container, ContainerSlot(Container(Some(digest), Some(reference))));
      OneOfTransitive(staged, journal, |old(journal)|, old(disk), old(disk), between, between);
    }

    method PublishContainer(container: string, digest: string, reference: Reference) returns (ok: bool)
      requires Valid()
      modifies this
      ensures Valid() && old(journal) <= journal && lock == old(lock)
      ensures disk == if ok then WithContainer(old(disk), container, digest, reference)
                                 .(temporary := old(disk).temporary - {container})
                      else old(disk)
      ensures forall k | |old(journal)| <= k < |journal| :: StoreAt(journal, k) == disk
      ensures ok ==> |old(journal)| < |journal|
      ensures old(container in disk.containers && disk.containers[container] != Container(None, None)) ==> !ok
      ensures Reliable() && old(container !in disk.containers) ==> ok
    {
      hide FollowsProtocol;
      ok := Attempt();
      var isEmpty: bool := *;
      if !ok || (container in disk.containers && !(isEmpty && disk.containers[container] == Container(None, None))) {
        return false;
      }
      Commit(WithContainer(disk, container, digest, reference).(temporary := disk.temporary - {container}), lock);
    }

    /** Extracts a layer in its temporary directory; a failed extraction tries to clear it again. */
    method StageLayer(digest: string, format: LayerFormat, reader: Stream, requests: seq<nat>)
      returns (tree: Option<LayerContents>)
      requires Valid() && reader.position == 0
      modifies this, reader
      ensures Valid() && old(journal) <= journal && lock == old(lock)
      ensures Core(disk) == Core(old(disk)) && OneOf(journal, |old(journal)|, old(disk), old(disk))
      ensures tree.Some? ==>
        && disk.temporary == old(disk).temporary[digest := LayerSlot(tree.value)]
        && Verifies(codec.hash, reader.data, digest)
        && Extracts(codec, format, Leftover(old(disk), digest), reader.data, tree.value)
      ensures Reliable() && Extractable(codec, format, Leftover(old(disk), digest), reader, digest) ==> tree.Some?
    {
      hide OneOf, FollowsProtocol, WellFormed, Extracts, Verifies;
      var existing := Leftover(disk, digest);
      var unfinished: LayerContents := *;
      var ok := Stage(digest, LayerSlot(existing), LayerSlot(unfinished));
      if !ok { return None; }
      tree := ExtractLayer(codec, reader, digest, format, existing, requests);
      ghost var staged, between := journal, disk;
      if tree.None? {
        var _ := RemoveTemporary(digest);
      } else {
        ok := PutTemporary(digest, LayerSlot(tree.value));
        tree := if ok then tree else None;
      }
      OneOfTransitive(staged, journal, |old(journal)|, old(disk), old(disk), between, between);
    }

    /** Renames an extracted layer into place, unless a layer is there; the only caller has found it
        missing. An empty directory there would be replaced, so that is excluded. */
    method WriteLayer(digest: string, format: LayerFormat, reader: Stream, requests: seq<nat>) returns (ok: bool)
      requires Valid() && reader.position == 0
      requires digest in disk.layers ==> disk.layers[digest].Keys != {[]}
      modifies this, reader
      ensures Valid() && old(journal) <= journal && lock == old(lock)
      ensures !ok ==> Core(disk) == Core(old(disk)) && OneOf(journal, |old(journal)|, old(disk), old(disk))
      ensures ok ==>
        && digest !in old(disk.layers) && digest in disk.layers
        && Core(disk) == Core(WithLayer(old(disk), digest, disk.layers[digest]))
        && OneOf(journal, |old(journal)|, old(disk), WithLayer(old(disk), digest, disk.layers[digest]))
      ensures ok ==> Verifies(codec.hash, reader.data, digest)
      ensures ok ==> Extracts(codec, format, Leftover(old(disk), digest), reader.data, disk.layers[digest])
      ensures ok ==> disk.temporary == old(disk).temporary - {digest}
      ensures Reliable() && old(digest !in disk.layers)
              && Extractable(codec, format, Leftover(old(disk), digest), reader, digest) ==>
                ok
    {
      hide OneOf, FollowsProtocol, WellFormed, Extracts, Verifies, Extractable;
      ghost var s, n := disk, |journal|;
      var tree := StageLayer(digest, format, reader, requests);
      if tree.None? { return false; }
      ghost var staged := journal;
      PublishedLayer(s, disk, digest, tree.value);
      hide Core;
      ok := PublishLayer(digest, tree.value);
      ghost var written := WithLayer(s, digest, tree.value);
      OneOfWeaken(staged, n, s, if ok then written else s);
      OneOfPublished(staged, journal, n, s, if ok then written else s);
    }

    method PublishLayer(digest: string, tree: LayerContents) returns (ok: bool)
      requires Valid()
      requires digest in disk.layers ==> disk.layers[digest].Keys != {[]}
      modifies this
      ensures Valid() && old(journal) <= journal && lock == old(lock)
      ensures disk == if ok then old(disk).(layers := old(disk).layers[digest := tree],
                                            temporary := old(disk).temporary - {digest})
                      else old(disk)
      ensures forall k | |old(journal)| <= k < |journal| :: StoreAt(journal, k) == disk
      ensures old(digest in disk.layers) ==> !ok
      ensures Reliable() && old(digest !in disk.layers) ==> ok
    {
      hide FollowsProtocol;
      ok := Attempt();
      if !ok || digest in disk.layers { return false; }
      Commit(disk.(layers := disk.layers[digest := tree], temporary := disk.temporary - {digest}), lock);
    }

    // ----- Removing -----

    /** Clears the temporary name, then moves away, then deletes. */
    method RemoveContainer(container: string) returns (ok: bool)
      requires Valid()
      modifies this
      ensures Valid() && old(journal) <= journal && lock == old(lock)
      ensures var removed := old(disk).(containers := old(disk).containers - {container});
              && (Core(disk) == Core(removed) || Core(disk) == Core(old(disk)))
              && (ok ==> Core(disk) == Core(removed))
              && OneOf(journal, |old(journal)|, old(disk), removed)
      ensures old(container !in disk.containers) ==> !ok
      ensures Reliable() && old(container in disk.containers) ==> ok
    {
      hide OneOf, FollowsProtocol;
      ghost var removed := disk.(containers := disk.containers - {container});
      OneOfNone(journal, old(disk), removed);
      if container !in disk.containers { return false; }
      ok := RemoveTemporary(container);
      OneOfWeaken(journal, |old(journal)|, old(disk), removed);
      if !ok { return; }
      ok := Attempt();
      if !ok { return; }
      ghost var before := journal;
      var slot := ContainerSlot(disk.containers[container]);
      Commit(disk.(containers := disk.containers - {container}, temporary := disk.temporary[container := slot]), lock);
      OneOfCommit(before, |old(journal)|, old(disk), removed, journal[|before|]);
      before := journal;
      ok := RemoveTemporary(container);
      OneOfTransitive(before, journal, |old(journal)|, old(disk), removed, removed, removed);
    }

    method RemoveManifest(digest: string) returns (ok: bool)
      requires Valid()
      modifies this
      ensures Valid() && old(journal) <= journal && lock == old(lock)
      ensures var removed := old(disk).(manifests := old(disk).manifests - {digest});
              && (Core(disk) == Core(removed) || Core(disk) == Core(old(disk)))
              && (ok ==> Core(disk) == Core(removed))
              && OneOf(journal, |old(journal)|, old(disk), removed)
      ensures Reliable() && old(digest in disk.manifests) ==> ok
    {
      hide OneOf, FollowsProtocol;
      var name := ManifestFile(digest);
      ghost var removed := disk.(manifests := disk.manifests - {digest});
      OneOfNone(journal, old(disk), removed);
      ok := RemoveTemporary(name);
      OneOfWeaken(journal, |old(journal)|, old(disk), removed);
      if !ok { return; }
      ok := Attempt();
      if !ok || digest !in disk.manifests { return false; }
      ghost var before := journal;
      var slot := ManifestSlot(disk.manifests[digest]);
      Commit(disk.(manifests := disk.manifests - {digest}, temporary := disk.temporary[name := slot]), lock);
      OneOfCommit(before, |old(journal)|, old(disk), removed, journal[|before|]);
      before := journal;
      ok := RemoveTemporary(name);
      OneOfTransitive(before, journal, |old(journal)|, old(disk), removed, removed, removed);
    }

    /** Prune's removal of the layer whose lock it holds. */
    method RemoveLayer(digest: string) returns (ok: bool)
      requires Valid() && lock.Acquired? && lock.digest == digest
      modifies this
      ensures Valid() && old(journal) <= journal && lock == old(lock)
      ensures var removed := old(disk).(layers := old(disk).layers - {digest});
              && (Core(disk) == Core(removed) || Core(disk) == Core(old(disk)))
              && (ok ==> Core(disk) == Core(removed))
              && OneOf(journal, |old(journal)|, old(disk), removed)
      ensures Reliable() && old(digest in disk.layers) ==> ok
    {
      hide OneOf, FollowsProtocol;
      ghost var removed := disk.(layers := disk.layers - {digest});
      OneOfNone(journal, old(disk), removed);
      ok := RemoveTemporary(digest);
      OneOfWeaken(journal, |old(journal)|, old(disk), removed);
      if !ok { return; }
      ok := Attempt();
      if !ok || digest !in disk.layers { return false; }
      ghost var before := journal;
      var slot := LayerSlot(disk.layers[digest]);
      Commit(disk.(layers := disk.layers - {digest}, temporary := disk.temporary[digest := slot]), lock);
      OneOfCommit(before, |old(journal)|, old(disk), removed, journal[|before|]);
      before := journal;
      ok := RemoveTemporary(digest);
      OneOfTransitive(before, journal, |old(journal)|, old(disk), removed, removed, removed);
    }

    // ----- Layer locks -----

    /** Opens the lock file, creating it if need be, and tries to lock it. */
    method LockLayerForPrune(digest: string) returns (result: LayerLockResult)
      requires Valid() && lock.NoLock?
      modifies this
      ensures Valid() && old(journal) <= journal
      ensures disk == WithLock(old(disk), digest) || (disk == old(disk) && result.LockError?)
      ensures lock == if result.LockAcquired? then Acquired(digest, disk.locks[digest]) else NoLock
      ensures OneOf(journal, |old(journal)|, old(disk), WithLock(old(disk), digest))
      ensures Reliable() ==> !result.LockError?
      ensures journal != []
      ensures !result.LockError? ==>
                var attempt := journal[|journal| - 1].time;
                old(clock) <= attempt < clock
                && (result.LockFailed? <==> LockedAt(readLocked, attempt, WithLock(old(disk), digest).locks[digest]))
    {
      hide OneOf, FollowsProtocol;
      ghost var withLock := WithLock(disk, digest);
      OneOfNone(journal, old(disk), withLock);
      var ok := Attempt();
      if !ok { return LockError; }
      var s := WithLock(disk, digest);
      ghost var before := journal;
      Commit(s, Protocol.Opened(digest, s.locks[digest]));
      OneOfCommit(before, |old(journal)|, old(disk), withLock, journal[|before|]);
      ok := Attempt();
      before := journal;
      if !ok || s.locks[digest] in readLocked(clock) {
        assert ok ==> LockedAt(readLocked, clock, s.locks[digest]);
        result := if ok then LockFailed else LockError;
        Commit(s, NoLock);
      } else {
        assert !LockedAt(readLocked, clock, s.locks[digest]);
        result := LockAcquired;
        Commit(s, Acquired(digest, s.locks[digest]));
      }
      OneOfCommit(before, |old(journal)|, old(disk), withLock, journal[|before|]);
    }

    /** Unlinks the locked file and lets the lock go with it. */
    method RemoveLockFile() returns (ok: bool)
      requires Valid() && lock.Acquired?
      modifies this
      ensures Valid() && old(journal) <= journal && lock.NoLock?
      ensures disk == if ok then old(disk).(locks := old(disk).locks - {old(lock).digest}) else old(disk)
      ensures OneOf(journal, |old(journal)|, old(disk), disk)
      ensures Reliable() ==> ok
    {
      ok := Attempt();
      Commit(if ok then disk.(locks := disk.locks - {lock.digest}) else disk, NoLock);
    }

    method DropLock()
      requires Valid()
      modifies this
      ensures Valid() && old(journal) <= journal && lock.NoLock? && disk == old(disk)
      ensures OneOf(journal, |old(journal)|, old(disk), old(disk))
    {
      Commit(disk, NoLock);
    }
  }

  predicate LockedAt(readLocked: nat -> set<Inode>, n: nat, inode: Inode) {
    inode in readLocked(n)
  }

  lemma OneOfWeaken(journal: seq<Moment>, n: nat, a: Store, b: Store)
    requires OneOf(journal, n, a, a)
    ensures OneOf(journal, n, a, b)
  {
  }

  lemma OneOfNone(journal: seq<Moment>, a: Store, b: Store)
    ensures OneOf(journal, |journal|, a, b)
  {
  }

  /** The reference of a container stays. */
  function PointTo(s: Store, container: string, digest: string): Store {
    s.(containers := s.containers[container := Container(Some(digest), ReadReference(s, container))])
  }

  function WithDirectory(s: Store, container: string): Store {
    if container in s.containers then s
    else s.(containers := s.containers[container := Container(None, None)])
  }

  lemma DirectoryMade(s: Store, container: string, digest: string)
    ensures PointTo(WithDirectory(s, container), container, digest) == PointTo(s, container, digest)
  {
  }

  /** Steps between two stores, as steps on the way to a third. */
  lemma OneOfMakes(journal: seq<Moment>, n: nat, s: Store, made: Store, written: Store, ok: bool)
    requires OneOf(journal, n, s, made)
    ensures OneOfThree(journal, n, s, made, if ok then written else s)
    ensures made == s ==> OneOf(journal, n, s, if ok then written else s)
  {
  }

  lemma OneOfMakesCommit(journal: seq<Moment>, n: nat, s: Store, made: Store, written: Store, last: Moment)
    requires n <= |journal| && OneOf(journal, n, s, made) && Core(last.snapshot.store) == Core(written)
    ensures OneOfThree(journal + [last], n, s, made, written)
    ensures made == s ==> OneOf(journal + [last], n, s, written)
  {
    hide Core;
    var longer := journal + [last];
    forall k | n <= k < |journal| ensures StoreAt(longer, k) == StoreAt(journal, k) {
    }
  }

  lemma SameCores(s: Store, temporary: map<string, Slot>)
    ensures Core(s.(temporary := temporary)) == Core(s)
  {
  }

  lemma Pointed(s: Store, staged: Store, container: string, digest: string)
    requires Core(staged) == Core(WithDirectory(s, container))
    ensures var written := PointTo(staged, container, digest).(temporary := staged.temporary - {DIGEST_FILE});
            && Core(written) == Core(PointTo(s, container, digest))
            && DataStep(Snapshot(staged, NoLock), Snapshot(written, NoLock))
  {
    var made := WithDirectory(s, container);
    assert staged == made.(temporary := staged.temporary);
    DirectoryMade(s, container, digest);
    hide WithDirectory, Core;
    assert PointTo(staged, container, digest) == PointTo(made, container, digest).(temporary := staged.temporary);
    SameCores(PointTo(made, container, digest), staged.temporary - {DIGEST_FILE});
  }

  function WithLayer(s: Store, digest: string, tree: LayerContents): Store {
    s.(layers := s.layers[digest := tree])
  }

  lemma PublishedContainer(s: Store, staged: Store, container: string, digest: string, reference: Reference)
    requires Core(staged) == Core(s)
    ensures staged.containers == s.containers
    ensures Core(WithContainer(staged, container, digest, reference).(temporary := staged.temporary - {container}))
            == Core(WithContainer(s, container, digest, reference))
  {
    assert staged == s.(temporary := staged.temporary);
  }

  lemma PublishedLayer(s: Store, staged: Store, digest: string, tree: LayerContents)
    requires Core(staged) == Core(s)
    ensures staged.layers == s.layers
    ensures Core(WithLayer(staged, digest, tree).(temporary := staged.temporary - {digest}))
            == Core(WithLayer(s, digest, tree))
  {
    assert staged == s.(temporary := staged.temporary);
  }

  lemma OneOfPublished(first: seq<Moment>, second: seq<Moment>, n: nat, a: Store, b: Store)
    requires n <= |first| && first <= second && OneOf(first, n, a, b)
    requires forall k | |first| <= k < |second| ::
               Core(StoreAt(second, k)) == Core(a) || Core(StoreAt(second, k)) == Core(b)
    ensures OneOf(second, n, a, b)
  {
    hide Core;
    forall k | n <= k < |first| ensures StoreAt(second, k) == StoreAt(first, k) {
    }
  }

  function WithContainer(s: Store, container: string, digest: string, reference: Reference): Store {
    s.(containers := s.containers[container := Container(Some(digest), Some(reference))])
  }

  /** A layer is extracted over what lies in its temporary directory, and over nothing if there is none. */
  lemma LeftoversAreExtractedOver(codec: Codec, s: Store, digest: string, format: LayerFormat, blob: Bytes, tree: Tree)
    ensures digest in s.temporary && s.temporary[digest].LayerSlot? ==>
              (Extracts(codec, format, Leftover(s, digest), blob, tree)
               <==> Extracts(codec, format, s.temporary[digest].contents, blob, tree))
    ensures digest !in s.temporary ==>
              (Extracts(codec, format, Leftover(s, digest), blob, tree)
               <==> Extracts(codec, format, EMPTY_TREE, blob, tree))
  {
    hide Extracts;
  }

  /** What an earlier, unfinished extraction has left in the temporary directory of a layer. */
  function Leftover(s: Store, digest: string): LayerContents {
    if digest in s.temporary && s.temporary[digest].LayerSlot? then s.temporary[digest].contents else EMPTY_TREE
  }
}
