/** Removing the manifests and layers that no installed container uses. */
module Pruning {
  import opened Wrappers
  import opened Stores
  import opened Running
  import opened MutableStorage

  // ----- What is used -----

  function UsedManifests(s: Store): set<string> {
    set c | c in s.containers && ReadDigest(s, c).Some? :: ReadDigest(s, c).value
  }

  function UsedLayers(codec: Codec, s: Store): set<string> {
    set c, digest | c in s.containers && digest in DigestsOf(LayersOf(codec, s, c)) :: digest
  }

  /** Every container leads to a manifest. */
  predicate Readable(codec: Codec, s: Store) {
    forall c | c in s.containers :: ManifestOf(codec, s, c).Some?
  }

  // ----- A sweep in progress -----

  /** `t` is `s` after a part of a sweep that keeps these manifests and layers; layers go only
      when no other manifests are left. */
  predicate Swept(s: Store, t: Store, manifests: set<string>, layers: set<string>) {
    && t.containers == s.containers
    && (forall d | d in t.manifests :: d in s.manifests && t.manifests[d] == s.manifests[d])
    && (forall d | d in t.layers :: d in s.layers && t.layers[d] == s.layers[d])
    && s.manifests.Keys * manifests <= t.manifests.Keys
    && s.layers.Keys * layers <= t.layers.Keys
    && (t.layers.Keys == s.layers.Keys || t.manifests.Keys <= manifests)
  }

  predicate AllSwept(journal: seq<Moment>, n: nat, s: Store, manifests: set<string>, layers: set<string>) {
    forall k | n <= k < |journal| :: Swept(s, StoreAt(journal, k), manifests, layers)
  }

  lemma UsedByContainer(codec: Codec, s: Store, c: string)
    requires ManifestOf(codec, s, c).Some?
    ensures ReadDigest(s, c).value in UsedManifests(s)
    ensures DigestsOf(ManifestOf(codec, s, c).value.layers) <= UsedLayers(codec, s)
  {
    assert LayersOf(codec, s, c) == ManifestOf(codec, s, c).value.layers;
  }

  /** Pruning is invisible to runs: at every moment of a sweep the containers reach what they
      reached before, whatever state the store was in. */
  lemma SweepKeepsReachable(codec: Codec, s: Store, t: Store)
    requires Swept(s, t, UsedManifests(s), UsedLayers(codec, s))
    ensures StillReachable(codec, s, t)
  {
    forall c | c in s.containers ensures StillReaches(codec, s, t, c) {
      if ManifestOf(codec, s, c).Some? {
        UsedByContainer(codec, s, c);
      }
    }
  }

  lemma SweepKeepsManifest(codec: Codec, s: Store, t: Store, digest: string)
    requires Swept(s, t, UsedManifests(s), UsedLayers(codec, s)) && digest in t.manifests
    requires IntactManifest(codec, s, digest)
    ensures IntactManifest(codec, t, digest)
  {
    if t.layers.Keys != s.layers.Keys {
      var c :| c in s.containers && ReadDigest(s, c) == Some(digest);
      UsedByContainer(codec, s, c);
    }
  }

  lemma SweepKeepsIntact(codec: Codec, s: Store, t: Store)
    requires Swept(s, t, UsedManifests(s), UsedLayers(codec, s))
    ensures Intact(codec, s) ==> Intact(codec, t)
    ensures forall received :: WholeLayers(codec, received, s) ==> WholeLayers(codec, received, t)
  {
    if Intact(codec, s) {
      hide IntactManifest, IntactContainer, UsedManifests, UsedLayers, WholeLayers;
      forall digest | digest in t.manifests ensures IntactManifest(codec, t, digest) {
        assert IntactManifest(codec, s, digest);
        hide Swept;
        SweepKeepsManifest(codec, s, t, digest);
      }
      forall c | c in t.containers ensures IntactContainer(t, c) {
        assert IntactContainer(s, c);
        SweepKeepsContainer(codec, s, t, c);
      }
    }
    hide Intact, UsedManifests, UsedLayers;
  }

  lemma SweepKeepsContainer(codec: Codec, s: Store, t: Store, c: string)
    requires Swept(s, t, UsedManifests(s), UsedLayers(codec, s)) && c in s.containers && IntactContainer(s, c)
    ensures IntactContainer(t, c)
  {
    hide UsedLayers;
    assert ReadDigest(s, c).value in UsedManifests(s);
  }

  /** After a finished sweep of a store in which the used manifests are intact, everything is. */
  lemma SweepRestoresIntact(codec: Codec, s: Store, t: Store)
    requires Swept(s, t, UsedManifests(s), UsedLayers(codec, s)) && t.manifests.Keys <= UsedManifests(s)
    requires forall c | c in s.containers :: IntactUse(codec, s, c)
    ensures Intact(codec, t)
  {
    forall digest | digest in t.manifests ensures IntactManifest(codec, t, digest) {
      var c :| c in s.containers && ReadDigest(s, c) == Some(digest);
      assert IntactUse(codec, s, c);
      UsedByContainer(codec, s, c);
    }
    forall c | c in t.containers ensures IntactContainer(t, c) {
      assert IntactUse(codec, s, c);
      UsedByContainer(codec, s, c);
    }
  }

  /** The container's manifest is saved and intact. */
  predicate IntactUse(codec: Codec, s: Store, c: string) {
    IntactContainer(s, c) && IntactManifest(codec, s, ReadDigest(s, c).value)
  }

  // ----- Sweeping manifests -----

  lemma SweptSameCore(s: Store, t: Store, t': Store, manifests: set<string>, layers: set<string>)
    requires Core(t) == Core(t')
    ensures Swept(s, t, manifests, layers) == Swept(s, t', manifests, layers)
  {
    assert t' == t.(temporary := t'.temporary);
  }

  lemma SweptMore(first: seq<Moment>, second: seq<Moment>, n: nat, s: Store, manifests: set<string>,
                  layers: set<string>, t: Store, u: Store)
    requires n <= |first| && first <= second && AllSwept(first, n, s, manifests, layers)
    requires OneOf(second, |first|, t, u) && Swept(s, t, manifests, layers) && Swept(s, u, manifests, layers)
    ensures AllSwept(second, n, s, manifests, layers)
  {
    hide Swept;
    forall k | n <= k < |second| ensures Swept(s, StoreAt(second, k), manifests, layers) {
      if k < |first| {
        assert StoreAt(second, k) == StoreAt(first, k);
      } else {
        var v := StoreAt(second, k);
        SweptSameCore(s, if Core(v) == Core(t) then t else u, v, manifests, layers);
      }
    }
  }

  /** How far a sweep of the manifests has come. */
  ghost predicate SweepingManifests(s: Store, t: Store, used: set<string>, remaining: set<string>, removed: nat) {
    && t.containers == s.containers && t.layers == s.layers && t.locks == s.locks && t.nextInode == s.nextInode
    && remaining <= s.manifests.Keys
    && t.manifests.Keys == s.manifests.Keys * (used + remaining)
    && (forall d | d in t.manifests :: t.manifests[d] == s.manifests[d])
    && removed == |s.manifests.Keys| - |t.manifests.Keys|
  }

  lemma SweepingIsSwept(s: Store, t: Store, used: set<string>, remaining: set<string>, removed: nat,
                        layers: set<string>)
    requires SweepingManifests(s, t, used, remaining, removed)
    ensures Swept(s, t, used, layers)
  {
  }

  lemma NextManifest(s: Store, t: Store, used: set<string>, remaining: set<string>, removed: nat, digest: string)
    requires SweepingManifests(s, t, used, remaining, removed) && digest in remaining
    ensures digest in t.manifests
    ensures digest in used ==> SweepingManifests(s, t, used, remaining - {digest}, removed)
    ensures digest !in used ==>
              SweepingManifests(s, t.(manifests := t.manifests - {digest}), used, remaining - {digest}, removed + 1)
  {
    if digest !in used {
      var u := t.(manifests := t.manifests - {digest});
      assert u.manifests.Keys == t.manifests.Keys - {digest};
      assert |u.manifests.Keys| == |t.manifests.Keys| - 1;
      assert u.manifests.Keys == s.manifests.Keys * (used + (remaining - {digest}));
    } else {
      assert used + remaining == used + (remaining - {digest});
    }
  }

  lemma SweepingSameCore(s: Store, t: Store, t': Store, used: set<string>, remaining: set<string>, removed: nat)
    requires Core(t) == Core(t')
    ensures SweepingManifests(s, t, used, remaining, removed) == SweepingManifests(s, t', used, remaining, removed)
  {
    assert t' == t.(temporary := t'.temporary);
  }

  method PruneManifests(storage: StorageMutable, used: set<string>, ghost layers: set<string>)
    returns (result: Option<nat>)
    requires storage.Valid() && storage.lock.NoLock?
    modifies storage
    ensures storage.Valid() && old(storage.journal) <= storage.journal && storage.lock.NoLock?
    ensures Swept(old(storage.disk), storage.disk, used, layers)
    ensures AllSwept(storage.journal, |old(storage.journal)|, old(storage.disk), used, layers)
    ensures result.Some? ==> SweepingManifests(old(storage.disk), storage.disk, used, {}, result.value)
    ensures storage.Reliable() ==> result.Some?
  {
    hide AllSwept, OneOf, Swept, SweepingManifests, Core;
    ghost var s, n := storage.disk, |storage.journal|;
    var remaining := storage.disk.manifests.Keys;
    var removed: nat := 0;
    SweepStarts(storage.journal, s, used, layers);
    while remaining != {}
      invariant storage.Valid() && old(storage.journal) <= storage.journal && storage.lock.NoLock?
      invariant SweepingManifests(s, storage.disk, used, remaining, removed)
      invariant AllSwept(storage.journal, n, s, used, layers)
    {
      var digest :| digest in remaining;
      ghost var t, journal := storage.disk, storage.journal;
      SweepingIsSwept(s, t, used, remaining, removed, layers);
      NextManifest(s, t, used, remaining, removed, digest);
      if digest !in used {
        ghost var u := t.(manifests := t.manifests - {digest});
        SweepingIsSwept(s, u, used, remaining - {digest}, removed + 1, layers);
        var ok := storage.RemoveManifest(digest);
        SweptMore(journal, storage.journal, n, s, used, layers, t, u);
        SweptSameCore(s, if ok || Core(storage.disk) == Core(u) then u else t, storage.disk, used, layers);
        if !ok { return None; }
        SweepingSameCore(s, u, storage.disk, used, remaining - {digest}, removed + 1);
        removed := removed + 1;
      }
      remaining := remaining - {digest};
    }
    SweepingIsSwept(s, storage.disk, used, {}, removed, layers);
    result := Some(removed);
  }

  lemma SweepStarts(journal: seq<Moment>, s: Store, used: set<string>, layers: set<string>)
    ensures SweepingManifests(s, s, used, s.manifests.Keys, 0)
    ensures AllSwept(journal, |journal|, s, used, layers)
  {
  }

  // ----- Sweeping layers -----

  /** The read locks of sandboxes do not change, and are on files that exist. */
  ghost predicate Steady(storage: StorageMutable, s: Store, locked: set<Inode>) {
    (forall n :: storage.readLocked(n) == locked) && forall inode | inode in locked :: inode < s.nextInode
  }

  predicate IsLocked(s: Store, locked: set<Inode>, digest: string) {
    digest in s.locks && s.locks[digest] in locked
  }

  /** At most the layer is gone; lock files may have changed. */
  predicate Drops(s: Store, t: Store, digest: string) {
    && t.containers == s.containers && t.manifests == s.manifests
    && (t.layers == s.layers || t.layers == s.layers - {digest})
  }

  predicate AllDrop(journal: seq<Moment>, n: nat, s: Store, digest: string) {
    forall k | n <= k < |journal| :: Drops(s, StoreAt(journal, k), digest)
  }

  lemma DropMore(first: seq<Moment>, second: seq<Moment>, n: nat, s: Store, digest: string, t: Store, u: Store)
    requires n <= |first| && first <= second && AllDrop(first, n, s, digest)
    requires OneOf(second, |first|, t, u) && Drops(s, t, digest) && Drops(s, u, digest)
    ensures AllDrop(second, n, s, digest)
  {
    forall k | n <= k < |second| ensures Drops(s, StoreAt(second, k), digest) {
      if k < |first| {
        assert StoreAt(second, k) == StoreAt(first, k);
      } else {
        var v := StoreAt(second, k);
        var same := if Core(v) == Core(t) then t else u;
        assert v == same.(temporary := v.temporary);
      }
    }
  }

  lemma DropStarts(journal: seq<Moment>, s: Store, digest: string)
    ensures AllDrop(journal, |journal|, s, digest) && Drops(s, s, digest) && Drops(s, WithLock(s, digest), digest)
  {
  }

  lemma LockOutcome(storage: StorageMutable, s: Store, digest: string, locked: set<Inode>, n: nat)
    requires Steady(storage, s, locked)
    ensures LockedAt(storage.readLocked, n, WithLock(s, digest).locks[digest]) <==> IsLocked(s, locked, digest)
    ensures IsLocked(s, locked, digest) ==> WithLock(s, digest) == s
  {
  }

  method RemoveLockedLayer(storage: StorageMutable, digest: string) returns (removed: bool)
    requires storage.Valid() && storage.lock.Acquired? && storage.lock.digest == digest && digest in storage.disk.layers
    modifies storage
    ensures storage.Valid() && old(storage.journal) <= storage.journal && storage.lock.NoLock?
    ensures Drops(old(storage.disk), storage.disk, digest)
    ensures AllDrop(storage.journal, |old(storage.journal)|, old(storage.disk), digest)
    ensures storage.disk.nextInode == old(storage.disk).nextInode
    ensures removed ==>
              && storage.disk.layers == old(storage.disk).layers - {digest}
              && storage.disk.locks == old(storage.disk).locks - {digest}
    ensures storage.Reliable() ==> removed
  {
    hide OneOf, AllDrop, Core;
    ghost var s, journal := storage.disk, storage.journal;
    ghost var n := |journal|;
    DropStarts(journal, s, digest);
    removed := storage.RemoveLayer(digest);
    DropMore(journal, storage.journal, n, s, digest, s, s.(layers := s.layers - {digest}));
    ghost var t := storage.disk;
    journal := storage.journal;
    LayersAfter(s, t, digest, removed);
    if removed {
      removed := storage.RemoveLockFile();
    } else {
      storage.DropLock();
    }
    DropMore(journal, storage.journal, n, s, digest, t, storage.disk);
  }

  method PruneLayer(storage: StorageMutable, digest: string, ghost locked: set<Inode>) returns (removed: bool)
    requires storage.Valid() && storage.lock.NoLock? && digest in storage.disk.layers
    modifies storage
    ensures storage.Valid() && old(storage.journal) <= storage.journal && storage.lock.NoLock?
    ensures Drops(old(storage.disk), storage.disk, digest)
    ensures AllDrop(storage.journal, |old(storage.journal)|, old(storage.disk), digest)
    ensures storage.disk.nextInode >= old(storage.disk).nextInode
    ensures storage.Reliable() && Steady(storage, old(storage.disk), locked) ==>
              && removed == !IsLocked(old(storage.disk), locked, digest)
              && storage.disk.layers == old(storage.disk).layers - (if removed then {digest} else {})
              && storage.disk.locks == old(storage.disk).locks - (if removed then {digest} else {})
  {
    hide OneOf, AllDrop, LockedAt, Steady, Core, IsLocked;
    ghost var s, journal := storage.disk, storage.journal;
    ghost var n := |journal|;
    DropStarts(journal, s, digest);
    assert s.layers - {} == s.layers && s.locks - {} == s.locks;
    var result := storage.LockLayerForPrune(digest);
    DropMore(journal, storage.journal, n, s, digest, s, WithLock(s, digest));
    if storage.Reliable() && Steady(storage, s, locked) {
      LockOutcomes(storage, s, digest, locked);
    }
    if !result.LockAcquired? { return false; }
    ghost var t := storage.disk;
    journal := storage.journal;
    removed := RemoveLockedLayer(storage, digest);
    DropAgain(journal, storage.journal, n, s, digest, t);
    assert WithLock(s, digest).locks - {digest} == s.locks - {digest};
  }

  lemma DropAgain(first: seq<Moment>, second: seq<Moment>, n: nat, s: Store, digest: string, t: Store)
    requires n <= |first| && first <= second && AllDrop(first, n, s, digest)
    requires t == WithLock(s, digest) && AllDrop(second, |first|, t, digest)
    ensures AllDrop(second, n, s, digest)
  {
    forall k | n <= k < |second| ensures Drops(s, StoreAt(second, k), digest) {
      if k < |first| {
        assert StoreAt(second, k) == StoreAt(first, k);
      } else {
        assert Drops(t, StoreAt(second, k), digest);
      }
    }
  }

  lemma LockOutcomes(storage: StorageMutable, s: Store, digest: string, locked: set<Inode>)
    requires Steady(storage, s, locked)
    ensures forall n ::
              LockedAt(storage.readLocked, n, WithLock(s, digest).locks[digest]) <==> IsLocked(s, locked, digest)
    ensures IsLocked(s, locked, digest) ==> WithLock(s, digest) == s
  {
    forall n: nat
      ensures LockedAt(storage.readLocked, n, WithLock(s, digest).locks[digest]) <==> IsLocked(s, locked, digest)
    {
      LockOutcome(storage, s, digest, locked, n);
    }
    LockOutcome(storage, s, digest, locked, 0);
  }

  lemma LayersAfter(t: Store, u: Store, digest: string, removed: bool)
    requires removed ==> Core(u) == Core(t.(layers := t.layers - {digest}))
    requires Core(u) == Core(t.(layers := t.layers - {digest})) || Core(u) == Core(t)
    ensures u.containers == t.containers && u.manifests == t.manifests
    ensures u.locks == t.locks && u.nextInode == t.nextInode
    ensures u.layers == t.layers - {digest} || (!removed && u.layers == t.layers)
  {
  }

  /** The layers that a sweep removes when nothing fails. */
  function UnusedLayers(s: Store, used: set<string>, locked: set<Inode>): set<string> {
    set d | d in s.layers && d !in used && !IsLocked(s, locked, d)
  }

  /** How far a sweep of the layers has come when nothing fails. */
  ghost predicate SweepingLayers(s: Store, t: Store, used: set<string>, locked: set<Inode>,
                                 remaining: set<string>, removed: nat)
  {
    var gone := UnusedLayers(s, used, locked) - remaining;
    && t.containers == s.containers && t.manifests == s.manifests
    && t.layers == s.layers - gone && t.locks == s.locks - gone
    && t.nextInode >= s.nextInode && removed == |gone|
  }

  lemma SteadyStays(storage: StorageMutable, s: Store, t: Store, locked: set<Inode>)
    requires Steady(storage, s, locked) && t.nextInode >= s.nextInode
    ensures Steady(storage, t, locked)
  {
  }

  lemma LockStays(s: Store, t: Store, used: set<string>, locked: set<Inode>,
                  remaining: set<string>, removed: nat, digest: string)
    requires SweepingLayers(s, t, used, locked, remaining, removed) && digest in remaining
    ensures IsLocked(t, locked, digest) <==> IsLocked(s, locked, digest)
  {
  }

  lemma NextGone(unused: set<string>, remaining: set<string>, digest: string)
    requires digest in remaining
    ensures unused - (remaining - {digest}) == (unused - remaining) + (if digest in unused then {digest} else {})
    ensures |unused - (remaining - {digest})| == |unused - remaining| + (if digest in unused then 1 else 0)
  {
    var gone := unused - remaining;
    if digest in unused {
      assert unused - (remaining - {digest}) == gone + {digest};
    } else {
      assert unused - (remaining - {digest}) == gone;
    }
  }

  lemma RemoveMore<T, U>(m: map<T, U>, gone: set<T>, more: set<T>)
    ensures m - gone - more == m - (gone + more)
  {
  }

  lemma NextLayer(s: Store, t: Store, u: Store, used: set<string>, locked: set<Inode>,
                  remaining: set<string>, removed: nat, digest: string, goes: bool)
    requires SweepingLayers(s, t, used, locked, remaining, removed)
    requires digest in remaining && digest in s.layers
    requires goes == (digest !in used && !IsLocked(t, locked, digest)) && u.nextInode >= t.nextInode
    requires u.containers == t.containers && u.manifests == t.manifests
    requires u.layers == t.layers - (if goes then {digest} else {})
    requires u.locks == t.locks - (if goes then {digest} else {})
    ensures SweepingLayers(s, u, used, locked, remaining - {digest}, if goes then removed + 1 else removed)
  {
    var unused := UnusedLayers(s, used, locked);
    LockStays(s, t, used, locked, remaining, removed, digest);
    assert digest in unused <==> goes;
    hide UnusedLayers, IsLocked;
    NextGone(unused, remaining, digest);
    var more: set<string> := if goes then {digest} else {};
    RemoveMore(s.layers, unused - remaining, more);
    RemoveMore(s.locks, unused - remaining, more);
  }

  lemma DropIsSwept(s: Store, t: Store, u: Store, manifests: set<string>, layers: set<string>, digest: string)
    requires Swept(s, t, manifests, layers) && t.manifests.Keys <= manifests && digest !in layers
    requires Drops(t, u, digest)
    ensures Swept(s, u, manifests, layers) && u.manifests.Keys <= manifests
  {
  }

  lemma DropLeaves(t: Store, u: Store, digest: string, remaining: set<string>)
    requires Drops(t, u, digest) && remaining <= t.layers.Keys
    ensures remaining - {digest} <= u.layers.Keys && u.manifests == t.manifests && u.containers == t.containers
  {
  }

  lemma DropsAreSwept(first: seq<Moment>, second: seq<Moment>, n: nat, s: Store, t: Store,
                      manifests: set<string>, layers: set<string>, digest: string)
    requires n <= |first| && first <= second && AllSwept(first, n, s, manifests, layers)
    requires AllDrop(second, |first|, t, digest)
    requires Swept(s, t, manifests, layers) && t.manifests.Keys <= manifests && digest !in layers
    ensures AllSwept(second, n, s, manifests, layers)
  {
    forall k | n <= k < |second| ensures Swept(s, StoreAt(second, k), manifests, layers) {
      hide Swept, Drops;
      if k < |first| {
        assert StoreAt(second, k) == StoreAt(first, k);
      } else {
        DropIsSwept(s, t, StoreAt(second, k), manifests, layers, digest);
      }
    }
  }

  /** Removes a layer that is neither used nor locked; one that cannot be removed is passed over. */
  method SweepLayer(storage: StorageMutable, used: set<string>, digest: string,
                    ghost s: Store, ghost n: nat, ghost manifests: set<string>, ghost locked: set<Inode>)
    returns (removed: bool)
    requires storage.Valid() && storage.lock.NoLock? && n <= |storage.journal| && digest in storage.disk.layers
    requires Swept(s, storage.disk, manifests, used) && storage.disk.manifests.Keys <= manifests
    requires AllSwept(storage.journal, n, s, manifests, used)
    modifies storage
    ensures storage.Valid() && old(storage.journal) <= storage.journal && storage.lock.NoLock?
    ensures Swept(s, storage.disk, manifests, used) && storage.disk.manifests == old(storage.disk).manifests
    ensures storage.disk.containers == old(storage.disk).containers
    ensures AllSwept(storage.journal, n, s, manifests, used)
    ensures old(storage.disk).layers.Keys - {digest} <= storage.disk.layers.Keys
    ensures storage.disk.nextInode >= old(storage.disk).nextInode
    ensures storage.Reliable() && Steady(storage, old(storage.disk), locked) ==>
              && removed == (digest !in used && !IsLocked(old(storage.disk), locked, digest))
              && storage.disk.layers == old(storage.disk).layers - (if removed then {digest} else {})
              && storage.disk.locks == old(storage.disk).locks - (if removed then {digest} else {})
  {
    hide AllSwept, AllDrop, Drops, Swept, Steady, IsLocked, FollowsProtocol;
    ghost var t, journal := storage.disk, storage.journal;
    assert t.layers - {} == t.layers && t.locks - {} == t.locks;
    if digest in used { return false; }
    removed := PruneLayer(storage, digest, locked);
    DropsAreSwept(journal, storage.journal, n, s, t, manifests, used, digest);
    DropIsSwept(s, t, storage.disk, manifests, used, digest);
    DropLeaves(t, storage.disk, digest, t.layers.Keys);
  }

  method PruneLayers(storage: StorageMutable, used: set<string>,
                     ghost s: Store, ghost n: nat, ghost manifests: set<string>, ghost locked: set<Inode>)
    returns (removed: nat)
    requires storage.Valid() && storage.lock.NoLock? && n <= |storage.journal|
    requires Swept(s, storage.disk, manifests, used) && storage.disk.manifests.Keys <= manifests
    requires AllSwept(storage.journal, n, s, manifests, used)
    modifies storage
    ensures storage.Valid() && old(storage.journal) <= storage.journal && storage.lock.NoLock?
    ensures Swept(s, storage.disk, manifests, used) && storage.disk.manifests == old(storage.disk).manifests
    ensures AllSwept(storage.journal, n, s, manifests, used)
    ensures storage.Reliable() && Steady(storage, old(storage.disk), locked) ==>
              SweepingLayers(old(storage.disk), storage.disk, used, locked, {}, removed)
  {
    hide AllSwept, Swept, SweepingLayers, Steady, IsLocked, FollowsProtocol;
    ghost var t := storage.disk;
    var remaining := storage.disk.layers.Keys;
    removed := 0;
    LayerSweepStarts(t, used, locked);
    while remaining != {}
      invariant storage.Valid() && old(storage.journal) <= storage.journal && storage.lock.NoLock?
      invariant remaining <= storage.disk.layers.Keys && remaining <= t.layers.Keys
      invariant storage.disk.manifests == t.manifests && n <= |storage.journal|
      invariant Swept(s, storage.disk, manifests, used)
      invariant AllSwept(storage.journal, n, s, manifests, used)
      invariant storage.Reliable() && Steady(storage, t, locked) ==>
                  SweepingLayers(t, storage.disk, used, locked, remaining, removed)
    {
      var digest :| digest in remaining;
      ghost var u := storage.disk;
      if storage.Reliable() && Steady(storage, t, locked) {
        NextInodeGrew(t, u, used, locked, remaining, removed);
        SteadyStays(storage, t, u, locked);
      }
      var gone := SweepLayer(storage, used, digest, s, n, manifests, locked);
      if storage.Reliable() && Steady(storage, t, locked) {
        NextLayer(t, u, storage.disk, used, locked, remaining, removed, digest, gone);
      }
      removed := if gone then removed + 1 else removed;
      remaining := remaining - {digest};
    }
  }

  lemma NextInodeGrew(s: Store, t: Store, used: set<string>, locked: set<Inode>, remaining: set<string>, removed: nat)
    requires SweepingLayers(s, t, used, locked, remaining, removed)
    ensures t.nextInode >= s.nextInode
  {
  }

  lemma LayerSweepStarts(s: Store, used: set<string>, locked: set<Inode>)
    ensures SweepingLayers(s, s, used, locked, s.layers.Keys, 0)
  {
    assert UnusedLayers(s, used, locked) - s.layers.Keys == {};
    assert s.layers - {} == s.layers && s.locks - {} == s.locks;
  }

  // ----- Cleaning up lock files -----

  predicate AllSameData(journal: seq<Moment>, n: nat, s: Store) {
    forall k | n <= k < |journal| :: SameData(s, StoreAt(journal, k))
  }

  lemma SameDataMore(first: seq<Moment>, second: seq<Moment>, n: nat, s: Store, t: Store, u: Store)
    requires n <= |first| && first <= second && AllSameData(first, n, s)
    requires OneOf(second, |first|, t, u) && SameData(s, t) && SameData(s, u)
    ensures AllSameData(second, n, s)
  {
    forall k | n <= k < |second| ensures SameData(s, StoreAt(second, k)) {
      if k < |first| {
        assert StoreAt(second, k) == StoreAt(first, k);
      } else {
        var v := StoreAt(second, k);
        var same := if Core(v) == Core(t) then t else u;
        assert v == same.(temporary := v.temporary);
      }
    }
  }

  lemma SameDataStarts(journal: seq<Moment>, s: Store, digest: string)
    ensures AllSameData(journal, |journal|, s) && SameData(s, s) && SameData(s, WithLock(s, digest))
  {
  }

  /** A lock file that neither names a layer nor is locked. */
  predicate IsStale(s: Store, locked: set<Inode>, digest: string) {
    digest in s.locks && digest !in s.layers && !IsLocked(s, locked, digest)
  }

  method CleanupLayerLock(storage: StorageMutable, digest: string, ghost locked: set<Inode>)
    requires storage.Valid() && storage.lock.NoLock? && digest in storage.disk.locks
    modifies storage
    ensures storage.Valid() && old(storage.journal) <= storage.journal && storage.lock.NoLock?
    ensures SameData(old(storage.disk), storage.disk) && storage.disk.nextInode >= old(storage.disk).nextInode
    ensures AllSameData(storage.journal, |old(storage.journal)|, old(storage.disk))
    ensures old(storage.disk).locks.Keys - {digest} <= storage.disk.locks.Keys
    ensures storage.Reliable() && Steady(storage, old(storage.disk), locked) ==>
              storage.disk.locks
              == old(storage.disk).locks - (if IsStale(old(storage.disk), locked, digest) then {digest} else {})
  {
    hide OneOf, AllSameData, LockedAt, Steady, Core, FollowsProtocol;
    ghost var s, journal := storage.disk, storage.journal;
    ghost var n := |journal|;
    SameDataStarts(journal, s, digest);
    assert s.locks - {} == s.locks;
    if digest in storage.disk.layers { return; }
    if storage.Reliable() && Steady(storage, s, locked) {
      LockOutcomes(storage, s, digest, locked);
    }
    var result := storage.LockLayerForPrune(digest);
    SameDataMore(journal, storage.journal, n, s, s, s);
    if result.LockAcquired? {
      journal := storage.journal;
      var _ := storage.RemoveLockFile();
      SameDataMore(journal, storage.journal, n, s, s, storage.disk);
    }
  }

  function StaleLocks(s: Store, locked: set<Inode>): set<string> {
    set d | d in s.locks && IsStale(s, locked, d)
  }

  /** How far a cleanup has come when nothing fails. */
  ghost predicate CleaningLocks(s: Store, t: Store, locked: set<Inode>, remaining: set<string>) {
    SameData(s, t) && t.nextInode >= s.nextInode && t.locks == s.locks - (StaleLocks(s, locked) - remaining)
  }

  lemma NextLock(s: Store, t: Store, u: Store, locked: set<Inode>, remaining: set<string>, digest: string)
    requires CleaningLocks(s, t, locked, remaining) && digest in remaining && digest in s.locks
    requires SameData(t, u) && u.nextInode >= t.nextInode
    requires u.locks == t.locks - (if IsStale(t, locked, digest) then {digest} else {})
    ensures CleaningLocks(s, u, locked, remaining - {digest})
  {
    var stale := StaleLocks(s, locked);
    assert IsStale(t, locked, digest) <==> digest in stale;
    hide StaleLocks, IsStale;
    NextGone(stale, remaining, digest);
    RemoveMore(s.locks, stale - remaining, if digest in stale then {digest} else {});
  }

  lemma SameDataAgain(first: seq<Moment>, second: seq<Moment>, n: nat, s: Store, t: Store)
    requires n <= |first| && first <= second && AllSameData(first, n, s)
    requires SameData(s, t) && AllSameData(second, |first|, t)
    ensures AllSameData(second, n, s)
  {
    forall k | n <= k < |second| ensures SameData(s, StoreAt(second, k)) {
      if k < |first| {
        assert StoreAt(second, k) == StoreAt(first, k);
      }
    }
  }

  lemma CleanupStarts(s: Store, locked: set<Inode>)
    ensures CleaningLocks(s, s, locked, s.locks.Keys)
  {
    assert StaleLocks(s, locked) - s.locks.Keys == {};
    assert s.locks - {} == s.locks;
  }

  method CleanupLayerLocks(storage: StorageMutable, ghost locked: set<Inode>)
    requires storage.Valid() && storage.lock.NoLock?
    modifies storage
    ensures storage.Valid() && old(storage.journal) <= storage.journal && storage.lock.NoLock?
    ensures SameData(old(storage.disk), storage.disk)
    ensures AllSameData(storage.journal, |old(storage.journal)|, old(storage.disk))
    ensures storage.Reliable() && Steady(storage, old(storage.disk), locked) ==>
              CleaningLocks(old(storage.disk), storage.disk, locked, {})
  {
    hide AllSameData, Steady, CleaningLocks, IsStale, FollowsProtocol;
    ghost var s, n := storage.disk, |storage.journal|;
    var remaining := storage.disk.locks.Keys;
    SameDataStarts(storage.journal, s, "");
    CleanupStarts(s, locked);
    while remaining != {}
      invariant storage.Valid() && old(storage.journal) <= storage.journal && storage.lock.NoLock?
      invariant remaining <= storage.disk.locks.Keys && remaining <= s.locks.Keys
      invariant SameData(s, storage.disk) && storage.disk.nextInode >= s.nextInode
      invariant AllSameData(storage.journal, n, s)
      invariant storage.Reliable() && Steady(storage, s, locked) ==>
                  CleaningLocks(s, storage.disk, locked, remaining)
    {
      var digest :| digest in remaining;
      ghost var t, journal := storage.disk, storage.journal;
      if storage.Reliable() && Steady(storage, s, locked) {
        SteadyStays(storage, s, t, locked);
      }
      CleanupLayerLock(storage, digest, locked);
      SameDataAgain(journal, storage.journal, n, s, t);
      if storage.Reliable() && Steady(storage, s, locked) {
        NextLock(s, t, storage.disk, locked, remaining, digest);
      }
      remaining := remaining - {digest};
    }
  }

  // ----- The whole command -----

  method ReadUsedManifests(storage: StorageMutable) returns (used: Option<set<string>>)
    requires storage.Valid()
    modifies storage`clock
    ensures storage.Valid()
    ensures used.Some? ==> used.value == UsedManifests(storage.disk)
    ensures used.Some? ==> forall c | c in storage.disk.containers :: ReadDigest(storage.disk, c).Some?
    ensures storage.Reliable() && Readable(storage.codec, storage.disk) ==> used.Some?
  {
    var remaining := storage.disk.containers.Keys;
    var digests: set<string> := {};
    while remaining != {}
      invariant storage.Valid() && remaining <= storage.disk.containers.Keys
      invariant forall c | c in storage.disk.containers && c !in remaining ::
                  ReadDigest(storage.disk, c).Some? && ReadDigest(storage.disk, c).value in digests
      invariant digests <= UsedManifests(storage.disk)
    {
      var c :| c in remaining;
      assert Readable(storage.codec, storage.disk) ==> ManifestOf(storage.codec, storage.disk, c).Some?;
      var digest := storage.ReadContainerManifestDigest(c);
      if digest.None? { return None; }
      digests := digests + {digest.value};
      remaining := remaining - {c};
    }
    used := Some(digests);
  }

  method ReadUsedLayers(storage: StorageMutable, manifests: set<string>) returns (used: Option<set<string>>)
    requires storage.Valid() && manifests == UsedManifests(storage.disk)
    modifies storage`clock
    ensures storage.Valid()
    ensures used.Some? ==> used.value == UsedLayers(storage.codec, storage.disk)
    ensures used.Some? ==> manifests <= storage.disk.manifests.Keys
    ensures used.Some? ==> forall d | d in manifests :: ReadManifest(storage.codec, storage.disk, d).Some?
    ensures storage.Reliable() && Readable(storage.codec, storage.disk) ==> used.Some?
  {
    var remaining := manifests;
    var layers: set<string> := {};
    while remaining != {}
      invariant storage.Valid() && remaining <= manifests
      invariant forall d | d in manifests - remaining :: ReadManifest(storage.codec, storage.disk, d).Some?
      invariant layers == LayersNamedBy(storage.codec, storage.disk, manifests - remaining)
    {
      var d :| d in remaining;
      if Readable(storage.codec, storage.disk) {
        ReadableManifest(storage.codec, storage.disk, d);
      }
      var manifest := storage.ReadSavedManifest(d);
      if manifest.None? { return None; }
      NamedByMore(storage.codec, storage.disk, manifests - remaining, d, manifest.value);
      assert manifests - (remaining - {d}) == manifests - remaining + {d};
      layers := layers + DigestsOf(manifest.value.layers);
      remaining := remaining - {d};
    }
    assert manifests - {} == manifests;
    NamedByAll(storage.codec, storage.disk);
    used := Some(layers);
  }

  function LayersNamedBy(codec: Codec, s: Store, manifests: set<string>): set<string> {
    set d, layer | d in manifests && layer in DigestsOf(NamedLayers(codec, s, d)) :: layer
  }

  function NamedLayers(codec: Codec, s: Store, digest: string): seq<Descriptor> {
    match ReadManifest(codec, s, digest)
    case None => []
    case Some(manifest) => manifest.layers
  }

  lemma NamedByMore(codec: Codec, s: Store, manifests: set<string>, digest: string, manifest: Manifest)
    requires ReadManifest(codec, s, digest) == Some(manifest)
    ensures LayersNamedBy(codec, s, manifests + {digest})
            == LayersNamedBy(codec, s, manifests) + DigestsOf(manifest.layers)
  {
    assert NamedLayers(codec, s, digest) == manifest.layers;
  }

  lemma NamedByAll(codec: Codec, s: Store)
    ensures LayersNamedBy(codec, s, UsedManifests(s)) == UsedLayers(codec, s)
  {
    forall c | c in s.containers
      ensures LayersOf(codec, s, c)
              == if ReadDigest(s, c).None? then [] else NamedLayers(codec, s, ReadDigest(s, c).value)
    {
    }
    forall layer | layer in LayersNamedBy(codec, s, UsedManifests(s)) ensures layer in UsedLayers(codec, s) {
      var d :| d in UsedManifests(s) && layer in DigestsOf(NamedLayers(codec, s, d));
      var c :| c in s.containers && ReadDigest(s, c) == Some(d);
      assert layer in DigestsOf(LayersOf(codec, s, c));
    }
    forall layer | layer in UsedLayers(codec, s) ensures layer in LayersNamedBy(codec, s, UsedManifests(s)) {
      var c :| c in s.containers && layer in DigestsOf(LayersOf(codec, s, c));
      assert ReadDigest(s, c).value in UsedManifests(s);
    }
  }

  lemma ReadableManifest(codec: Codec, s: Store, digest: string)
    requires Readable(codec, s) && digest in UsedManifests(s)
    ensures ReadManifest(codec, s, digest).Some?
  {
    var c :| c in s.containers && ReadDigest(s, c) == Some(digest);
    assert ManifestOf(codec, s, c).Some?;
  }

  lemma AllReadable(codec: Codec, s: Store)
    requires forall c | c in s.containers :: ReadDigest(s, c).Some?
    requires forall d | d in UsedManifests(s) :: ReadManifest(codec, s, d).Some?
    ensures Readable(codec, s)
  {
    forall c | c in s.containers ensures ManifestOf(codec, s, c).Some? {
      assert ReadDigest(s, c).value in UsedManifests(s);
    }
  }

  /** What pruning makes of a store when nothing fails and read locks do not change: the used
      manifests, the used or locked layers, and the lock files that name a layer or are locked. */
  ghost predicate PrunedTo(codec: Codec, s: Store, t: Store, locked: set<Inode>) {
    && t.containers == s.containers
    && t.manifests == s.manifests - (s.manifests.Keys - UsedManifests(s))
    && t.layers == s.layers - UnusedLayers(s, UsedLayers(codec, s), locked)
    && (forall d :: d in t.locks <==> d in s.locks && (d in t.layers || s.locks[d] in locked))
    && (forall d | d in t.locks :: t.locks[d] == s.locks[d])
  }

  /** A manifest is left exactly if a container names it, a layer exactly if the manifest of some
      container has it or somebody has locked it. */
  lemma PrunedKeeps(codec: Codec, s: Store, t: Store, locked: set<Inode>)
    requires PrunedTo(codec, s, t, locked)
    ensures forall d :: d in t.manifests <==>
              d in s.manifests && exists c :: c in s.containers && ReadDigest(s, c) == Some(d)
    ensures forall d :: d in t.layers <==>
              d in s.layers
              && ((exists c :: c in s.containers && d in DigestsOf(LayersOf(codec, s, c)))
                  || (d in s.locks && s.locks[d] in locked))
  {
    hide ReadDigest, LayersOf, DigestsOf;
  }

  datatype PruneCount = PruneCount(manifests: nat, layers: nat)

  method Prune(storage: StorageMutable, ghost locked: set<Inode>) returns (result: Option<PruneCount>)
    requires storage.Valid() && storage.lock.NoLock?
    modifies storage
    ensures storage.Valid() && old(storage.journal) <= storage.journal && storage.lock.NoLock?
    // At every moment the store is the old one after a part of a sweep.
    ensures var used, layers := UsedManifests(old(storage.disk)), UsedLayers(storage.codec, old(storage.disk));
            && Swept(old(storage.disk), storage.disk, used, layers)
            && AllSwept(storage.journal, |old(storage.journal)|, old(storage.disk), used, layers)
            && (result.Some? ==> storage.disk.manifests.Keys <= used <= old(storage.disk).manifests.Keys)
    ensures result.Some? ==> Readable(storage.codec, old(storage.disk))
    // Without failures everything unused goes, and is counted.
    ensures storage.Reliable() && Readable(storage.codec, old(storage.disk)) ==> result.Some?
    ensures storage.Reliable() && Steady(storage, old(storage.disk), locked) && result.Some? ==>
              && PrunedTo(storage.codec, old(storage.disk), storage.disk, locked)
              && (forall d :: d in storage.disk.manifests <==>
                    d in old(storage.disk).manifests
                    && exists c :: c in old(storage.disk).containers && ReadDigest(old(storage.disk), c) == Some(d))
              && (forall d :: d in storage.disk.layers <==>
                    d in old(storage.disk).layers
                    && ((exists c :: c in old(storage.disk).containers
                                     && d in DigestsOf(LayersOf(storage.codec, old(storage.disk), c)))
                        || (d in old(storage.disk).locks && old(storage.disk).locks[d] in locked)))
              && result.value.manifests == |old(storage.disk).manifests| - |storage.disk.manifests|
              && result.value.layers == |old(storage.disk).layers| - |storage.disk.layers|
  {
    hide AllSwept, Swept, AllSameData, OneOf, SweepingManifests, SweepingLayers, CleaningLocks, Steady, UsedManifests,
         UsedLayers, PrunedTo, FollowsProtocol, Readable;
    ghost var s, n := storage.disk, |storage.journal|;
    ghost var codec := storage.codec;
    SweepStarts(storage.journal, s, UsedManifests(s), UsedLayers(codec, s));
    SweepingIsSwept(s, s, UsedManifests(s), s.manifests.Keys, 0, UsedLayers(codec, s));
    var used := ReadUsedManifests(storage);
    if used.None? { return None; }
    var layers := ReadUsedLayers(storage, used.value);
    if layers.None? { return None; }
    AllReadable(codec, s);
    var removedManifests := PruneManifests(storage, used.value, layers.value);
    if removedManifests.None? { return None; }
    ghost var t := storage.disk;
    ManifestsSwept(s, t, used.value, removedManifests.value);
    if Steady(storage, s, locked) {
      SteadyStays(storage, s, t, locked);
    }
    var removedLayers := PruneLayers(storage, layers.value, s, n, used.value, locked);
    ghost var u, journal := storage.disk, storage.journal;
    if storage.Reliable() && Steady(storage, s, locked) {
      NextInodeGrew(t, u, layers.value, locked, {}, removedLayers);
      SteadyStays(storage, t, u, locked);
    }
    CleanupLayerLocks(storage, locked);
    SameDataIsSwept(journal, storage.journal, n, s, u, storage.disk, used.value, layers.value);
    if storage.Reliable() && Steady(storage, s, locked) {
      PruneFinished(codec, s, t, u, storage.disk, locked, removedManifests.value, removedLayers);
      PrunedKeeps(codec, s, storage.disk, locked);
    }
    result := Some(PruneCount(removedManifests.value, removedLayers));
  }

  lemma ManifestsSwept(s: Store, t: Store, used: set<string>, removed: nat)
    requires SweepingManifests(s, t, used, {}, removed)
    ensures t.manifests.Keys <= used && t.nextInode == s.nextInode
  {
  }

  lemma SameDataIsSwept(first: seq<Moment>, second: seq<Moment>, n: nat, s: Store, t: Store, u: Store,
                        manifests: set<string>, layers: set<string>)
    requires n <= |first| && first <= second && AllSwept(first, n, s, manifests, layers)
    requires Swept(s, t, manifests, layers) && AllSameData(second, |first|, t) && SameData(t, u)
    ensures AllSwept(second, n, s, manifests, layers) && Swept(s, u, manifests, layers)
  {
    forall k | n <= k < |second| ensures Swept(s, StoreAt(second, k), manifests, layers) {
      if k < |first| {
        assert StoreAt(second, k) == StoreAt(first, k);
      } else {
        assert SameData(t, StoreAt(second, k));
      }
    }
  }

  lemma ManifestsFinished(s: Store, t: Store, used: set<string>, removed: nat)
    requires SweepingManifests(s, t, used, {}, removed)
    ensures t.containers == s.containers && t.layers == s.layers && t.locks == s.locks
    ensures t.manifests == s.manifests - (s.manifests.Keys - used)
    ensures removed == |s.manifests| - |t.manifests|
  {
    RestrictedTo(s.manifests, t.manifests, used);
  }

  lemma LayersFinished(t: Store, u: Store, used: set<string>, locked: set<Inode>, removed: nat)
    requires SweepingLayers(t, u, used, locked, {}, removed)
    ensures var unused := UnusedLayers(t, used, locked);
            && u.containers == t.containers && u.manifests == t.manifests
            && u.layers == t.layers - unused && u.locks == t.locks - unused
            && removed == |t.layers| - |u.layers|
  {
    var unused := UnusedLayers(t, used, locked);
    assert unused - {} == unused && unused <= t.layers.Keys;
    hide UnusedLayers;
    SizeAfterRemoval(t.layers.Keys, unused);
    assert u.layers.Keys == t.layers.Keys - unused;
  }

  lemma SameUnused(s: Store, t: Store, used: set<string>, locked: set<Inode>)
    requires t.layers == s.layers && t.locks == s.locks
    ensures UnusedLayers(t, used, locked) == UnusedLayers(s, used, locked)
  {
  }

  lemma CleanupFinished(u: Store, v: Store, locked: set<Inode>)
    requires CleaningLocks(u, v, locked, {})
    ensures SameData(u, v) && v.locks == u.locks - StaleLocks(u, locked)
    ensures v.containers == u.containers && v.manifests == u.manifests && v.layers == u.layers
  {
    assert StaleLocks(u, locked) - {} == StaleLocks(u, locked);
  }

  lemma PruneFinished(codec: Codec, s: Store, t: Store, u: Store, v: Store, locked: set<Inode>,
                      removedManifests: nat, removedLayers: nat)
    requires SweepingManifests(s, t, UsedManifests(s), {}, removedManifests)
    requires SweepingLayers(t, u, UsedLayers(codec, s), locked, {}, removedLayers)
    requires CleaningLocks(u, v, locked, {})
    ensures PrunedTo(codec, s, v, locked)
    ensures removedManifests == |s.manifests| - |v.manifests| && removedLayers == |s.layers| - |v.layers|
  {
    hide UsedManifests, UsedLayers, SweepingManifests, SweepingLayers, CleaningLocks, UnusedLayers, StaleLocks,
         SameData, PrunedTo;
    var used, layers := UsedManifests(s), UsedLayers(codec, s);
    ManifestsFinished(s, t, used, removedManifests);
    LayersFinished(t, u, layers, locked, removedLayers);
    SameUnused(s, t, layers, locked);
    CleanupFinished(u, v, locked);
    IsPruned(codec, s, u, v, locked);
  }

  lemma IsPruned(codec: Codec, s: Store, u: Store, v: Store, locked: set<Inode>)
    requires var unused := UnusedLayers(s, UsedLayers(codec, s), locked);
             u.layers == s.layers - unused && u.locks == s.locks - unused
    requires u.containers == s.containers && u.manifests == s.manifests - (s.manifests.Keys - UsedManifests(s))
    requires SameData(u, v) && v.locks == u.locks - StaleLocks(u, locked)
    ensures PrunedTo(codec, s, v, locked)
  {
    hide UsedManifests, UsedLayers, UnusedLayers, StaleLocks;
    LocksLeft(s, u, v, locked, UsedLayers(codec, s));
  }

  lemma RestrictedTo<T, U>(m: map<T, U>, r: map<T, U>, kept: set<T>)
    requires r.Keys == m.Keys * kept && forall d | d in r :: r[d] == m[d]
    ensures r == m - (m.Keys - kept)
  {
  }

  lemma LocksLeft(s: Store, u: Store, v: Store, locked: set<Inode>, used: set<string>)
    requires var unused := UnusedLayers(s, used, locked); u.layers == s.layers - unused && u.locks == s.locks - unused
    requires SameData(u, v) && v.locks == u.locks - StaleLocks(u, locked)
    ensures forall d :: d in v.locks <==> d in s.locks && (d in v.layers || s.locks[d] in locked)
    ensures forall d | d in v.locks :: v.locks[d] == s.locks[d]
  {
    forall d ensures d in v.locks <==> d in s.locks && (d in v.layers || s.locks[d] in locked) {
      assert d in u.locks ==> u.locks[d] == s.locks[d];
    }
  }

  lemma SizeAfterRemoval(all: set<string>, gone: set<string>)
    requires gone <= all
    ensures |all - gone| == |all| - |gone|
  {
  }

  // ----- What follows -----

  /** At every moment of a pruning command, a command line that could be built before it still
      builds to the same arguments. */
  lemma PruneIsInvisible(codec: Codec, root: string, journal: seq<Moment>, n: nat, k: nat, s: Store,
                         containers: seq<string>, command: seq<string>)
    requires AllSwept(journal, n, s, UsedManifests(s), UsedLayers(codec, s)) && n <= k < |journal|
    requires BwrapCommand(codec, root, s, containers, command).Some?
    ensures BwrapCommand(codec, root, StoreAt(journal, k), containers, command)
            == BwrapCommand(codec, root, s, containers, command)
  {
    assert Swept(s, StoreAt(journal, k), UsedManifests(s), UsedLayers(codec, s));
    hide Swept;
    SweepKeepsReachable(codec, s, StoreAt(journal, k));
    StillBuilds(codec, root, s, StoreAt(journal, k), containers, command);
  }

  lemma SameUse(codec: Codec, s: Store, t: Store, locked: set<Inode>)
    requires PrunedTo(codec, s, t, locked)
    ensures UsedManifests(t) == UsedManifests(s) && UsedLayers(codec, t) == UsedLayers(codec, s)
  {
    forall c | c in s.containers
      ensures ReadDigest(t, c) == ReadDigest(s, c) && LayersOf(codec, t, c) == LayersOf(codec, s, c)
    {
    }
  }

  lemma NothingUnused(codec: Codec, s: Store, t: Store, locked: set<Inode>)
    requires PrunedTo(codec, s, t, locked)
    ensures t.manifests.Keys - UsedManifests(t) == {} && UnusedLayers(t, UsedLayers(codec, t), locked) == {}
  {
    SameUse(codec, s, t, locked);
    var layers := UsedLayers(codec, s);
    hide UsedManifests, UsedLayers;
    forall d | d in t.layers && d !in layers ensures IsLocked(t, locked, d) {
      assert IsLocked(s, locked, d);
    }
  }

  /** A second prune removes nothing. */
  lemma PruneTwice(codec: Codec, s: Store, t: Store, u: Store, locked: set<Inode>)
    requires PrunedTo(codec, s, t, locked) && PrunedTo(codec, t, u, locked)
    ensures SameData(t, u) && u.locks == t.locks
  {
    hide UsedManifests, UsedLayers, UnusedLayers, PrunedTo;
    NothingUnused(codec, s, t, locked);
    NoStaleLocks(codec, s, t, locked);
    NothingToPrune(codec, t, u, locked);
  }

  lemma NoStaleLocks(codec: Codec, s: Store, t: Store, locked: set<Inode>)
    requires PrunedTo(codec, s, t, locked)
    ensures forall d | d in t.locks :: d in t.layers || t.locks[d] in locked
  {
  }

  lemma NothingToPrune(codec: Codec, t: Store, u: Store, locked: set<Inode>)
    requires PrunedTo(codec, t, u, locked)
    requires t.manifests.Keys - UsedManifests(t) == {} && UnusedLayers(t, UsedLayers(codec, t), locked) == {}
    requires forall d | d in t.locks :: d in t.layers || t.locks[d] in locked
    ensures SameData(t, u) && u.locks == t.locks
  {
    hide UsedManifests, UsedLayers, UnusedLayers;
    assert t.layers - {} == t.layers && t.manifests - {} == t.manifests;
    SameLocks(t.locks, u.locks);
  }

  lemma SameLocks(before: map<string, Inode>, after: map<string, Inode>)
    requires forall d :: d in after <==> d in before
    requires forall d | d in after :: after[d] == before[d]
    ensures after == before
  {
  }
}
