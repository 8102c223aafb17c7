/** Re-fetching what installed containers use, and checking every cached manifest. */
module Repairing {
  import opened Wrappers
  import opened Digests
  import opened References
  import opened LayerTree
  import opened Stores
  import opened MutableStorage
  import opened Fetching
  import opened Pruning
  import opened Commands

  // ----- Documents -----

  ghost predicate IsServed(serve: Registry, bytes: Bytes) {
    exists n, request :: Answers(serve, n, request, bytes)
  }

  predicate Answers(serve: Registry, n: nat, request: Request, bytes: Bytes) {
    serve(n, request).Reply? && serve(n, request).body == bytes
  }

  /** What may be found under a digest: a document that is saved there, or one that is served. */
  ghost predicate IsDocument(serve: Registry, s: Store, digest: string, bytes: Bytes) {
    IsServed(serve, bytes) || (digest in s.manifests && s.manifests[digest] == bytes)
  }

  /** No two documents, saved or served, that verify under the same digest differ. */
  ghost predicate NoCollisions(codec: Codec, serve: Registry, s: Store) {
    forall digest, a, b | IsDocument(serve, s, digest, a) && IsDocument(serve, s, digest, b) ::
      NoCollision(codec, digest, a, b)
  }

  predicate NoCollision(codec: Codec, digest: string, a: Bytes, b: Bytes) {
    Verifies(codec.hash, a, digest) && Verifies(codec.hash, b, digest) ==> a == b
  }

  lemma FetchedIsServed(codec: Codec, serve: Registry, n: nat, reference: Reference)
    requires FetchedAt(codec, serve, n, reference).Some?
    ensures IsServed(serve, FetchedAt(codec, serve, n, reference).value.bytes)
  {
    hide Verifies;
    var fetched := FetchedAt(codec, serve, n, reference).value;
    var first := ManifestBytesAt(codec, serve, n, reference, true).value;
    FirstIsServed(codec, serve, n, reference, true);
    if fetched.bytes != first.bytes {
      var descriptor := Select(codec.parseIndex(first.bytes).value).value;
      FirstIsServed(codec, serve, n + 1, reference.(specifier := Digest(descriptor.digest)), false);
    }
  }

  lemma FirstIsServed(codec: Codec, serve: Registry, n: nat, reference: Reference, indexAccepted: bool)
    requires ManifestBytesAt(codec, serve, n, reference, indexAccepted).Some?
    ensures IsServed(serve, ManifestBytesAt(codec, serve, n, reference, indexAccepted).value.bytes)
  {
    var request :=
      ManifestRequest(reference.registry, reference.repository, reference.specifier.Text(), indexAccepted);
    assert Answers(serve, n, request, ManifestBytesAt(codec, serve, n, reference, indexAccepted).value.bytes);
  }

  lemma CollisionsStayAway(codec: Codec, serve: Registry, s: Store, t: Store, n: nat, reference: Reference,
                           source: Source)
    requires NoCollisions(codec, serve, s) && FetchedAt(codec, serve, n, reference).Some?
    requires Fetches(codec, s, t, FetchedAt(codec, serve, n, reference).value, source)
    ensures NoCollisions(codec, serve, t)
  {
    FetchedIsServed(codec, serve, n, reference);
    hide FetchedAt, AddsLayers, IsServed, NoCollision;
    forall digest, bytes | IsDocument(serve, t, digest, bytes) ensures IsDocument(serve, s, digest, bytes) {
    }
  }

  // ----- What repairing a container comes to -----

  /** The request by which a container is repaired. */
  function RepairRequest(s: Store, c: string): Reference
    requires ReadDigest(s, c).Some? && ReadReference(s, c).Some?
  {
    ReadReference(s, c).value.(specifier := Digest(ReadDigest(s, c).value))
  }

  /** The manifest saved under the digest is sound, and all it misses is layers of what is fetched. */
  predicate IsCompletedBy(codec: Codec, s: Store, digest: string, fetched: FetchedManifest) {
    && digest in s.manifests && Verifies(codec.hash, s.manifests[digest], digest)
    && codec.parseManifest(s.manifests[digest]).Some?
    && DigestsOf(codec.parseManifest(s.manifests[digest]).value.layers)
       <= s.layers.Keys + DigestsOf(fetched.manifest.layers)
  }

  /** Fetching this makes what is saved under the digest intact. */
  predicate Restores(codec: Codec, s: Store, digest: string, fetched: FetchedManifest) {
    fetched.digest == digest || IsCompletedBy(codec, s, digest, fetched)
  }

  /** What a finished repair of an image has made of a store. */
  predicate IsRepairedTo(codec: Codec, s: Store, t: Store, fetched: FetchedManifest) {
    && t.containers == s.containers && t.manifests == RepairedManifests(codec, s.manifests, fetched)
    && t.layers.Keys == s.layers.Keys + DigestsOf(fetched.manifest.layers)
  }

  /** If the answer comes under another digest, a container is intact afterwards exactly if its own
      saved manifest is sound and completed. This needs no hypothesis. */
  lemma OtherAnswerOutcome(codec: Codec, s: Store, t: Store, c: string, fetched: FetchedManifest)
    requires IsRepairedTo(codec, s, t, fetched) && ReadDigest(s, c).Some? && fetched.digest != ReadDigest(s, c).value
    ensures IntactUse(codec, t, c) <==> IsCompletedBy(codec, s, ReadDigest(s, c).value, fetched)
  {
    SameRead(s, t, c);
    hide Verifies, ReadDigest, DigestsOf;
  }

  /** If it comes under the digest that was asked for, the container is intact. */
  lemma SameAnswerOutcome(codec: Codec, serve: Registry, s: Store, t: Store, c: string, fetched: FetchedManifest)
    requires IsRepairedTo(codec, s, t, fetched) && ReadDigest(s, c) == Some(fetched.digest)
    requires IsVerified(codec, fetched) && IsServed(serve, fetched.bytes) && NoCollisions(codec, serve, s)
    ensures IntactUse(codec, t, c)
  {
    SameRead(s, t, c);
    hide Verifies, ReadDigest, DigestsOf, IsServed;
    if fetched.digest in s.manifests && Verifies(codec.hash, s.manifests[fetched.digest], fetched.digest) {
      assert IsDocument(serve, s, fetched.digest, s.manifests[fetched.digest]);
      assert IsDocument(serve, s, fetched.digest, fetched.bytes);
      assert NoCollision(codec, fetched.digest, s.manifests[fetched.digest], fetched.bytes);
    }
  }

  /** The registry answers with the manifest itself, not with an index. */
  predicate IsDirect(codec: Codec, serve: Registry, n: nat, reference: Reference) {
    && FetchedAt(codec, serve, n, reference).Some? && ManifestBytesAt(codec, serve, n, reference, true).Some?
    && FetchedAt(codec, serve, n, reference)
       == ParseFetched(codec, ManifestBytesAt(codec, serve, n, reference, true).value)
  }

  /** A direct answer restores exactly those whose digest it repeats, or whose saved manifest is
      sound, whatever digest it comes under. */
  lemma DirectAnswerRestores(codec: Codec, serve: Registry, s: Store, n: nat, reference: Reference)
    requires reference.specifier.Digest? && IsDirect(codec, serve, n, reference) && NoCollisions(codec, serve, s)
    ensures var fetched, digest := FetchedAt(codec, serve, n, reference).value, reference.specifier.digest;
            Restores(codec, s, digest, fetched)
            <==> fetched.digest == digest || IsSound(codec, s, digest)
  {
    var fetched, digest := FetchedAt(codec, serve, n, reference).value, reference.specifier.digest;
    FetchedIsServed(codec, serve, n, reference);
    assert Verifies(codec.hash, fetched.bytes, digest);
    assert codec.parseManifest(fetched.bytes) == Some(fetched.manifest);
    hide FetchedAt, Verifies, DigestsOf, IsServed, ManifestBytesAt;
    if IsSound(codec, s, digest) {
      assert IsDocument(serve, s, digest, s.manifests[digest]) && IsDocument(serve, s, digest, fetched.bytes);
      assert NoCollision(codec, digest, s.manifests[digest], fetched.bytes);
    }
  }

  predicate IsSound(codec: Codec, s: Store, digest: string) {
    digest in s.manifests && Verifies(codec.hash, s.manifests[digest], digest)
  }

  /** An answer through an index that is no manifest itself never restores the container: what can
      be saved under the digest of an index is the index. */
  lemma IndexNeverRestores(codec: Codec, serve: Registry, s: Store, n: nat, reference: Reference)
    requires reference.specifier.Digest? && FetchedAt(codec, serve, n, reference).Some?
    requires codec.parseManifest(ManifestBytesAt(codec, serve, n, reference, true).value.bytes).None?
    requires NoCollisions(codec, serve, s)
    ensures !Restores(codec, s, reference.specifier.digest, FetchedAt(codec, serve, n, reference).value)
  {
    var fetched, digest := FetchedAt(codec, serve, n, reference).value, reference.specifier.digest;
    var index := ManifestBytesAt(codec, serve, n, reference, true).value.bytes;
    FetchedIsServed(codec, serve, n, reference);
    FetchedIsVerified(codec, serve, n, reference);
    FirstIsServed(codec, serve, n, reference, true);
    assert Verifies(codec.hash, index, digest);
    hide FetchedAt, Verifies, DigestsOf, IsServed, ManifestBytesAt;
    assert IsDocument(serve, s, digest, index) && IsDocument(serve, s, digest, fetched.bytes);
    assert NoCollision(codec, digest, index, fetched.bytes);
    if IsSound(codec, s, digest) {
      assert IsDocument(serve, s, digest, s.manifests[digest]);
      assert NoCollision(codec, digest, index, s.manifests[digest]);
    }
  }

  /** What restores a container restores it later as well. */
  lemma RestoresLater(codec: Codec, s: Store, t: Store, digest: string, fetched: FetchedManifest)
    requires Restores(codec, s, digest, fetched) && KeepsData(codec, s, t)
    ensures Restores(codec, t, digest, fetched)
  {
    hide Verifies, DigestsOf;
  }

  /** Every answer that there may be to the repair of a container restores it. */
  ghost predicate AllRestorable(codec: Codec, serve: Registry, s: Store) {
    forall n, c | c in s.containers :: IsRestorable(codec, serve, n, s, c)
  }

  predicate IsRestorable(codec: Codec, serve: Registry, n: nat, s: Store, c: string) {
    ReadDigest(s, c).Some? && ReadReference(s, c).Some? ==>
      var fetched := FetchedAt(codec, serve, n, RepairRequest(s, c));
      fetched.Some? ==> Restores(codec, s, ReadDigest(s, c).value, fetched.value)
  }

  /** The container can be read, and its image is served. */
  ghost predicate RepairIsServed(codec: Codec, serve: Registry, n: nat, s: Store, c: string,
                                 trees: map<string, LayerContents>)
  {
    && ReadDigest(s, c).Some? && ReadReference(s, c).Some?
    && var asked := RepairRequest(s, c);
       && FetchedAt(codec, serve, n, asked).Some?
       && ServesLayers(codec, serve, asked, FetchedAt(codec, serve, n, asked).value.manifest.layers, trees)
  }

  ghost predicate AllRepairsServed(codec: Codec, serve: Registry, s: Store, trees: map<string, LayerContents>) {
    forall n, c | c in s.containers :: RepairIsServed(codec, serve, n, s, c, trees)
  }

  // ----- Re-fetching -----

  lemma FetchKeepsManifest(codec: Codec, s: Store, t: Store, fetched: FetchedManifest, source: Source, digest: string)
    requires Fetches(codec, s, t, fetched, source) && IsVerified(codec, fetched)
    requires digest in s.manifests && IntactManifest(codec, s, digest)
    ensures digest in t.manifests && IntactManifest(codec, t, digest)
  {
  }

  lemma FetchKeepsUse(codec: Codec, s: Store, t: Store, fetched: FetchedManifest, source: Source, c: string)
    requires Fetches(codec, s, t, fetched, source) && IsVerified(codec, fetched) && IntactUse(codec, s, c)
    ensures IntactUse(codec, t, c)
  {
    FetchKeepsManifest(codec, s, t, fetched, source, ReadDigest(s, c).value);
  }

  /** Every saved manifest is intact, whatever the containers name. */
  predicate SavedIntact(codec: Codec, s: Store) {
    forall digest | digest in s.manifests :: IntactManifest(codec, s, digest)
  }

  lemma FetchKeepsSaved(codec: Codec, s: Store, t: Store, fetched: FetchedManifest, source: Source)
    requires Fetches(codec, s, t, fetched, source) && IsVerified(codec, fetched) && SavedIntact(codec, s)
    ensures SavedIntact(codec, t)
  {
    hide Verifies;
    forall digest | digest in t.manifests ensures IntactManifest(codec, t, digest) {
      if digest in s.manifests {
        FetchKeepsManifest(codec, s, t, fetched, source, digest);
      }
    }
  }

  lemma LayersAfterRepair(codec: Codec, s: Store, t: Store, fetched: FetchedManifest, source: Source)
    requires Fetches(codec, s, t, fetched, source) && source.digests == DigestsOf(fetched.manifest.layers)
    requires LayersPresent(t, fetched.manifest)
    ensures t.containers == s.containers && t.layers.Keys == s.layers.Keys + DigestsOf(fetched.manifest.layers)
  {
    hide DigestsOf, WholeLayer;
  }

  /** Repairs one container, and succeeds if nothing fails and its image is served. The container is
      intact afterwards exactly if the answer restores it. */
  method RepairContainer(storage: StorageMutable, client: RegistryClient, c: string, ghost repaired: set<string>,
                         ghost trees: map<string, LayerContents>, ghost claim: Claim)
    returns (ok: bool)
    requires storage.Valid() && storage.codec == client.codec && c in storage.disk.containers
    requires Covers(claim, client.serve)
    modifies storage, client
    ensures storage.Valid() && old(storage.journal) <= storage.journal && storage.lock == old(storage.lock)
    ensures SafeStart(storage.codec, old(storage.disk), claim) ==>
              && SafeStore(storage.codec, storage.disk, claim)
              && AllIntact(storage.codec, storage.journal, |old(storage.journal)|, claim)
    ensures storage.disk.containers == old(storage.disk).containers
    ensures KeepsData(storage.codec, old(storage.disk), storage.disk)
    ensures ok && old(storage.disk).temporary == map[] ==> storage.disk.temporary == map[]
    ensures storage.Reliable() && old(storage.disk).temporary == map[]
            && RepairIsServed(client.codec, client.serve, old(client.clock), old(storage.disk), c, trees) ==>
              ok
    ensures NoCollisions(client.codec, client.serve, old(storage.disk)) ==>
              NoCollisions(client.codec, client.serve, storage.disk)
    ensures AllUsesIntact(client.codec, old(storage.disk), repaired) ==>
              AllUsesIntact(client.codec, storage.disk, repaired)
    ensures SavedIntact(client.codec, old(storage.disk)) ==> SavedIntact(client.codec, storage.disk)
    ensures ok ==>
      && ReadDigest(old(storage.disk), c).Some? && ReadReference(old(storage.disk), c).Some?
      && var asked := RepairRequest(old(storage.disk), c);
         var fetched := FetchedAt(client.codec, client.serve, old(client.clock), asked);
         && fetched.Some?
         && (fetched.value.digest != asked.specifier.digest ==>
               (IntactUse(client.codec, storage.disk, c)
                <==> IsCompletedBy(client.codec, old(storage.disk), asked.specifier.digest, fetched.value)))
         && (NoCollisions(client.codec, client.serve, old(storage.disk)) ==>
               (IntactUse(client.codec, storage.disk, c)
                <==> Restores(client.codec, old(storage.disk), asked.specifier.digest, fetched.value)))
         && (NoCollisions(client.codec, client.serve, old(storage.disk))
             && IsDirect(client.codec, client.serve, old(client.clock), asked) ==>
               (IntactUse(client.codec, storage.disk, c)
                <==> fetched.value.digest == asked.specifier.digest
                     || IsSound(client.codec, old(storage.disk), asked.specifier.digest)))
  {
    hide AllIntact, AllFetch, Fetches, SafeStore, SafeStart, FetchedAt, IsVerified, FollowsProtocol, NoCollisions,
         AllUsesIntact, IntactUse, Verifies, LayersPresent, KeepsData, SavedIntact, Restores, IsCompletedBy, IsDirect,
         IsSound, ServesLayers, Deliveries, DigestsOf, RepairedManifests, WithRepaired, IsRepairedTo, ReadDigest;
    ghost var codec, serve := client.codec, client.serve;
    ghost var s, journal := storage.disk, storage.journal;
    NoneYet(codec, journal, claim);
    StartIsSafeStore(codec, s, claim);
    SameDataIsKept(codec, s, s);
    var digest := storage.ReadContainerManifestDigest(c);
    if digest.None? { return false; }
    var reference := storage.ReadContainerReference(c);
    if reference.None? { return false; }
    var asked := reference.value.(specifier := Digest(digest.value));
    ghost var n := client.clock;
    var fetched := client.FetchImage(storage, asked, true, trees);
    ghost var t := storage.disk;
    ghost var attempted := FetchedAt(codec, serve, n, asked);
    if attempted.Some? {
      Refetched(codec, serve, journal, storage.journal, s, t, n, asked, repaired, claim);
    }
    ok := fetched.Some?;
    if ok {
      Repaired(codec, serve, s, t, n, c);
    }
  }

  /** Whatever has come of the fetch, nothing that was intact has suffered. */
  lemma Refetched(codec: Codec, serve: Registry, journal: seq<Moment>, after: seq<Moment>, s: Store, t: Store, n: nat,
                  asked: Reference, repaired: set<string>, claim: Claim)
    requires FetchedAt(codec, serve, n, asked).Some? && journal <= after && Covers(claim, serve)
    requires var fetched := FetchedAt(codec, serve, n, asked).value;
             var source := ImageSource(fetched, serve, s.temporary == map[]);
             && IsVerified(codec, fetched) && Fetches(codec, s, t, fetched, source)
             && AllFetch(codec, after, |journal|, s, fetched, source)
    ensures t.containers == s.containers
    ensures SafeStart(codec, s, claim) ==> SafeStore(codec, t, claim) && AllIntact(codec, after, |journal|, claim)
    ensures NoCollisions(codec, serve, s) ==> NoCollisions(codec, serve, t)
    ensures AllUsesIntact(codec, s, repaired) ==> AllUsesIntact(codec, t, repaired)
    ensures SavedIntact(codec, s) ==> SavedIntact(codec, t)
  {
    hide AllIntact, AllFetch, Fetches, SafeStore, FetchedAt, IsVerified, NoCollisions, AllUsesIntact, SavedIntact,
         Deliveries, DigestsOf;
    var fetched := FetchedAt(codec, serve, n, asked).value;
    var source := ImageSource(fetched, serve, s.temporary == map[]);
    FetchFrames(codec, s, t, fetched, source);
    if SafeStart(codec, s, claim) {
      NoneYet(codec, journal, claim);
      FetchIsSafe(codec, journal, after, |journal|, s, t, fetched, source, claim);
    }
    if NoCollisions(codec, serve, s) {
      CollisionsStayAway(codec, serve, s, t, n, asked, source);
    }
    if AllUsesIntact(codec, s, repaired) {
      FetchKeepsUses(codec, s, t, fetched, source, repaired);
    }
    if SavedIntact(codec, s) {
      FetchKeepsSaved(codec, s, t, fetched, source);
    }
  }

  /** A repaired container is intact exactly if the answer restores it. */
  lemma Repaired(codec: Codec, serve: Registry, s: Store, t: Store, n: nat, c: string)
    requires ReadDigest(s, c).Some? && ReadReference(s, c).Some?
    requires FetchedAt(codec, serve, n, RepairRequest(s, c)).Some?
    requires var fetched := FetchedAt(codec, serve, n, RepairRequest(s, c)).value;
             && Fetches(codec, s, t, fetched, ImageSource(fetched, serve, s.temporary == map[]))
             && LayersPresent(t, fetched.manifest)
             && t.manifests == RepairedManifests(codec, s.manifests, fetched)
    ensures var asked := RepairRequest(s, c);
            var digest, fetched := asked.specifier.digest, FetchedAt(codec, serve, n, asked).value;
            && (fetched.digest != digest ==> (IntactUse(codec, t, c) <==> IsCompletedBy(codec, s, digest, fetched)))
            && (NoCollisions(codec, serve, s) ==> (IntactUse(codec, t, c) <==> Restores(codec, s, digest, fetched)))
            && (NoCollisions(codec, serve, s) && IsDirect(codec, serve, n, asked) ==>
                  (IntactUse(codec, t, c) <==> fetched.digest == digest || IsSound(codec, s, digest)))
  {
    hide Fetches, FetchedAt, NoCollisions, IntactUse, IsDirect, IsSound, IsCompletedBy, RepairedManifests, DigestsOf,
         LayersPresent, IsVerified, Deliveries, ReadDigest;
    var asked := RepairRequest(s, c);
    var fetched := FetchedAt(codec, serve, n, asked).value;
    LayersAfterRepair(codec, s, t, fetched, ImageSource(fetched, serve, s.temporary == map[]));
    FetchedIsVerified(codec, serve, n, asked);
    FetchedIsServed(codec, serve, n, asked);
    if fetched.digest != asked.specifier.digest {
      OtherAnswerOutcome(codec, s, t, c, fetched);
    } else if NoCollisions(codec, serve, s) {
      SameAnswerOutcome(codec, serve, s, t, c, fetched);
    }
    if NoCollisions(codec, serve, s) && IsDirect(codec, serve, n, asked) {
      DirectAnswerRestores(codec, serve, s, n, asked);
    }
  }

  ghost predicate AllUsesIntact(codec: Codec, s: Store, names: set<string>) {
    forall c | c in names :: IntactUse(codec, s, c)
  }

  lemma FetchKeepsUses(codec: Codec, s: Store, t: Store, fetched: FetchedManifest, source: Source, names: set<string>)
    requires Fetches(codec, s, t, fetched, source) && IsVerified(codec, fetched) && AllUsesIntact(codec, s, names)
    ensures AllUsesIntact(codec, t, names)
  {
    hide Fetches, IsVerified, IntactUse;
    forall c | c in names ensures IntactUse(codec, t, c) {
      FetchKeepsUse(codec, s, t, fetched, source, c);
    }
  }

  // ----- Checking -----

  predicate IsInvalid(codec: Codec, s: Store, digest: string)
    requires digest in s.manifests
  {
    !Verifies(codec.hash, s.manifests[digest], digest) || codec.parseManifest(s.manifests[digest]).None?
  }

  function InvalidManifests(codec: Codec, s: Store, digests: set<string>): set<string> {
    set d | d in digests && d in s.manifests && IsInvalid(codec, s, d)
  }

  /** The positions at which a layer list names a missing layer. */
  function MissingIn(s: Store, layers: seq<Descriptor>): set<nat> {
    set i: nat | i < |layers| && layers[i].digest !in s.layers
  }

  function MissingFor(codec: Codec, s: Store, digest: string): set<nat> {
    if digest !in s.manifests || IsInvalid(codec, s, digest) then {}
    else MissingIn(s, codec.parseManifest(s.manifests[digest]).value.layers)
  }

  /** Every place where one of these manifests names a missing layer. */
  function MissingLayers(codec: Codec, s: Store, digests: set<string>): set<(string, nat)> {
    set d, i | d in digests && i in MissingFor(codec, s, d) :: (d, i)
  }

  lemma NoneMissing(s: Store, layers: seq<Descriptor>)
    ensures MissingIn(s, layers) == {} <==> DigestsOf(layers) <= s.layers.Keys
  {
    if MissingIn(s, layers) != {} {
      var i :| i in MissingIn(s, layers);
      assert layers[i].digest in DigestsOf(layers);
    }
    forall d | d in DigestsOf(layers) && d !in s.layers ensures MissingIn(s, layers) != {} {
      var i: nat :| i < |layers| && layers[i].digest == d;
      assert i in MissingIn(s, layers);
    }
  }

  /** The manifest is invalid, or names a missing layer. */
  predicate IsDefective(codec: Codec, s: Store, digest: string)
    requires digest in s.manifests
  {
    IsInvalid(codec, s, digest) || MissingFor(codec, s, digest) != {}
  }

  lemma IntactHasNoDefect(codec: Codec, s: Store, digest: string)
    requires digest in s.manifests
    ensures IntactManifest(codec, s, digest) <==> !IsDefective(codec, s, digest)
  {
    if !IsInvalid(codec, s, digest) {
      NoneMissing(s, codec.parseManifest(s.manifests[digest]).value.layers);
    }
  }

  datatype RepairResult = Aborted | Checked(invalidManifests: nat, missingLayers: nat)

  lemma MissingNext(s: Store, layers: seq<Descriptor>, i: nat)
    requires i < |layers|
    ensures var before := MissingIn(s, layers[..i]);
            |MissingIn(s, layers[..i + 1])| == |before| + if layers[i].digest in s.layers then 0 else 1
  {
    var before, after := MissingIn(s, layers[..i]), MissingIn(s, layers[..i + 1]);
    assert after == if layers[i].digest in s.layers then before else before + {i};
  }

  method CountMissing(storage: StorageMutable, layers: seq<Descriptor>) returns (missing: nat)
    ensures missing == |MissingIn(storage.disk, layers)|
  {
    missing := 0;
    for i := 0 to |layers|
      invariant missing == |MissingIn(storage.disk, layers[..i])|
    {
      MissingNext(storage.disk, layers, i);
      if layers[i].digest !in storage.disk.layers {
        missing := missing + 1;
      }
    }
    assert layers[..|layers|] == layers;
  }

  /** Counts the invalid manifests, and the missing layers that the others name. */
  method CheckManifests(storage: StorageMutable) returns (result: RepairResult)
    requires storage.Valid()
    modifies storage`clock
    ensures storage.Valid()
    ensures storage.Reliable() ==> result.Checked?
    ensures result.Checked? ==> result == DefectCounts(storage.codec, storage.disk)
    ensures result.Checked? ==>
      var codec, manifests, layers := storage.codec, storage.disk.manifests, storage.disk.layers;
      && result.invalidManifests
         == |set d | d in manifests
                     && !(Verifies(codec.hash, manifests[d], d) && codec.parseManifest(manifests[d]).Some?)|
      && result.missingLayers
         == |set d, i: nat | d in manifests && Verifies(codec.hash, manifests[d], d)
                             && codec.parseManifest(manifests[d]).Some?
                             && i < |codec.parseManifest(manifests[d]).value.layers|
                             && codec.parseManifest(manifests[d]).value.layers[i].digest !in layers :: (d, i)|
  {
    hide Verifies, MissingLayers, InvalidManifests, FollowsProtocol;
    ghost var codec, s := storage.codec, storage.disk;
    var remaining := storage.disk.manifests.Keys;
    ghost var done: set<string> := {};
    var invalid: nat, missing: nat := 0, 0;
    NoDefects(codec, s);
    while remaining != {}
      invariant storage.Valid() && done + remaining == s.manifests.Keys && done !! remaining
      invariant invalid == |InvalidManifests(codec, s, done)| && missing == |MissingLayers(codec, s, done)|
    {
      var digest :| digest in remaining;
      remaining := remaining - {digest};
      DefectsNext(codec, s, done, digest);
      done := done + {digest};
      var ok := storage.Attempt();
      if !ok { return Aborted; }
      var bytes := storage.disk.manifests[digest];
      if !Verifies(storage.codec.hash, bytes, digest) || storage.codec.parseManifest(bytes).None? {
        invalid := invalid + 1;
      } else {
        var count := CountMissing(storage, storage.codec.parseManifest(bytes).value.layers);
        missing := missing + count;
      }
    }
    assert done == s.manifests.Keys;
    result := Checked(invalid, missing);
    DefectsAreCounted(codec, s);
  }

  function DefectCounts(codec: Codec, s: Store): RepairResult {
    Checked(|InvalidManifests(codec, s, s.manifests.Keys)|, |MissingLayers(codec, s, s.manifests.Keys)|)
  }

  /** Saved digests whose bytes do not verify or parse, and positions at which the other manifests
      name a layer that is not there. */
  lemma DefectsAreCounted(codec: Codec, s: Store)
    ensures |InvalidManifests(codec, s, s.manifests.Keys)|
            == |set d | d in s.manifests
                        && !(Verifies(codec.hash, s.manifests[d], d) && codec.parseManifest(s.manifests[d]).Some?)|
    ensures |MissingLayers(codec, s, s.manifests.Keys)|
            == |set d, i: nat | d in s.manifests && Verifies(codec.hash, s.manifests[d], d)
                                && codec.parseManifest(s.manifests[d]).Some?
                                && i < |codec.parseManifest(s.manifests[d]).value.layers|
                                && codec.parseManifest(s.manifests[d]).value.layers[i].digest !in s.layers :: (d, i)|
  {
    hide Verifies;
    assert InvalidManifests(codec, s, s.manifests.Keys)
           == set d | d in s.manifests
                      && !(Verifies(codec.hash, s.manifests[d], d) && codec.parseManifest(s.manifests[d]).Some?);
    assert MissingLayers(codec, s, s.manifests.Keys)
           == set d, i: nat | d in s.manifests && Verifies(codec.hash, s.manifests[d], d)
                              && codec.parseManifest(s.manifests[d]).Some?
                              && i < |codec.parseManifest(s.manifests[d]).value.layers|
                              && codec.parseManifest(s.manifests[d]).value.layers[i].digest !in s.layers :: (d, i);
  }

  lemma NoDefects(codec: Codec, s: Store)
    ensures InvalidManifests(codec, s, {}) == {} && MissingLayers(codec, s, {}) == {}
  {
  }

  lemma DefectsNext(codec: Codec, s: Store, done: set<string>, digest: string)
    requires digest in s.manifests && digest !in done
    ensures |InvalidManifests(codec, s, done + {digest})|
            == |InvalidManifests(codec, s, done)| + if IsInvalid(codec, s, digest) then 1 else 0
    ensures |MissingLayers(codec, s, done + {digest})|
            == |MissingLayers(codec, s, done)| + |MissingFor(codec, s, digest)|
  {
    hide IsInvalid, MissingFor;
    var before, after := InvalidManifests(codec, s, done), InvalidManifests(codec, s, done + {digest});
    assert after == if IsInvalid(codec, s, digest) then before + {digest} else before;
    MissingLayersNext(codec, s, done, digest);
    PairedSize(digest, MissingFor(codec, s, digest));
  }

  lemma MissingLayersNext(codec: Codec, s: Store, done: set<string>, digest: string)
    requires digest !in done
    ensures var more := Paired(digest, MissingFor(codec, s, digest));
            && MissingLayers(codec, s, done + {digest}) == MissingLayers(codec, s, done) + more
            && MissingLayers(codec, s, done) !! more
  {
    hide MissingFor;
  }

  function Paired(digest: string, positions: set<nat>): set<(string, nat)> {
    set i | i in positions :: (digest, i)
  }

  lemma {:induction false} PairedSize(digest: string, positions: set<nat>)
    ensures |Paired(digest, positions)| == |positions|
    decreases |positions|
  {
    if positions != {} {
      var i :| i in positions;
      PairedSize(digest, positions - {i});
      assert Paired(digest, positions) == Paired(digest, positions - {i}) + {(digest, i)};
    }
  }

  /** Re-fetches every container and then checks every manifest, which it reaches if nothing fails
      and every image is served. */
  method Repair(storage: StorageMutable, client: RegistryClient, ghost trees: map<string, LayerContents>,
                ghost claim: Claim)
    returns (result: RepairResult)
    requires storage.Valid() && storage.codec == client.codec && Covers(claim, client.serve)
    modifies storage, client
    ensures storage.Valid() && old(storage.journal) <= storage.journal && storage.lock == old(storage.lock)
    ensures SafeStart(storage.codec, old(storage.disk), claim) ==>
              AllIntact(storage.codec, storage.journal, |old(storage.journal)|, claim)
    ensures storage.disk.containers == old(storage.disk).containers
    ensures KeepsData(storage.codec, old(storage.disk), storage.disk)
    ensures SavedIntact(client.codec, old(storage.disk)) ==> SavedIntact(client.codec, storage.disk)
    ensures storage.Reliable() && old(storage.disk).temporary == map[]
            && AllRepairsServed(client.codec, client.serve, old(storage.disk), trees) ==>
              result.Checked?
    ensures result.Checked? ==> result == DefectCounts(storage.codec, storage.disk)
    ensures result.Checked? ==>
      var codec, manifests, layers := storage.codec, storage.disk.manifests, storage.disk.layers;
      && result.invalidManifests
         == |set d | d in manifests
                     && !(Verifies(codec.hash, manifests[d], d) && codec.parseManifest(manifests[d]).Some?)|
      && result.missingLayers
         == |set d, i: nat | d in manifests && Verifies(codec.hash, manifests[d], d)
                             && codec.parseManifest(manifests[d]).Some?
                             && i < |codec.parseManifest(manifests[d]).value.layers|
                             && codec.parseManifest(manifests[d]).value.layers[i].digest !in layers :: (d, i)|
    ensures result.Checked? && AllRestorable(client.codec, client.serve, old(storage.disk))
            && NoCollisions(client.codec, client.serve, old(storage.disk)) ==>
              AllUsesIntact(client.codec, storage.disk, storage.disk.containers.Keys)
    ensures result.Checked? ==> forall c | old(storage.disk).containers.Keys == {c} ::
              LeftAlone(client.codec, client.serve, old(client.clock), old(storage.disk), storage.disk, c)
  {
    hide AllIntact, SafeStore, NoCollisions, AllRestorable, AllUsesIntact, IntactUse, FollowsProtocol, DefectCounts,
         KeepsData, SavedIntact, SafeStart, AllRepairsServed, RepairIsServed, IsRestorable, FetchedAt, ReadDigest,
         IsCompletedBy, Restores, IsDirect, IsSound, Deliveries, ReadReference, Covers, Verifies;
    ghost var codec, serve := client.codec, client.serve;
    ghost var s, n, first := storage.disk, |storage.journal|, client.clock;
    ghost var done: set<string> := {};
    var remaining := storage.disk.containers.Keys;
    NoneYet(codec, storage.journal, claim);
    StartIsSafeStore(codec, s, claim);
    SameDataIsKept(codec, s, s);
    NoUses(codec, s);
    while remaining != {}
      invariant storage.Valid() && old(storage.journal) <= storage.journal && storage.lock == old(storage.lock)
      invariant storage.disk.containers == s.containers && done + remaining == s.containers.Keys && done !! remaining
      invariant SafeStart(codec, s, claim) ==>
                  SafeStore(codec, storage.disk, claim) && AllIntact(codec, storage.journal, n, claim)
      invariant s.temporary == map[] ==> storage.disk.temporary == map[]
      invariant KeepsData(codec, s, storage.disk)
      invariant NoCollisions(codec, serve, s) ==> NoCollisions(codec, serve, storage.disk)
      invariant SavedIntact(codec, s) ==> SavedIntact(codec, storage.disk)
      invariant AllRestorable(codec, serve, s) && NoCollisions(codec, serve, s) ==>
                  AllUsesIntact(codec, storage.disk, done)
      invariant done == {} ==> storage.disk == s && client.clock == first
      invariant forall c | done == {c} :: LeftAlone(codec, serve, first, s, storage.disk, c)
    {
      var c :| c in remaining;
      remaining := remaining - {c};
      ghost var t, journal, at := storage.disk, storage.journal, client.clock;
      Awaited(codec, serve, s, t, at, c, trees);
      var ok := RepairContainer(storage, client, c, done, trees, claim);
      KeepsMoreData(codec, s, t, storage.disk);
      if SafeStart(codec, s, claim) {
        StillSafeStart(codec, s, t, claim);
        IntactThroughout(codec, journal, storage.journal, n, claim);
      }
      if !ok { return Aborted; }
      if AllRestorable(codec, serve, s) && NoCollisions(codec, serve, s) {
        OneMoreUse(codec, storage.disk, done, c);
      }
      done := done + {c};
    }
    assert done == s.containers.Keys;
    result := CheckManifests(storage);
  }

  /** Of the only container of a store: if the answer comes under another digest, it is intact in the
      end exactly if its own saved manifest is sound and completed. */
  predicate LeftAlone(codec: Codec, serve: Registry, n: nat, s: Store, t: Store, c: string) {
    && ReadDigest(s, c).Some? && ReadReference(s, c).Some?
    && var asked := RepairRequest(s, c);
       var fetched := FetchedAt(codec, serve, n, asked);
       && fetched.Some?
       && (fetched.value.digest != asked.specifier.digest ==>
             (IntactUse(codec, t, c) <==> IsCompletedBy(codec, s, asked.specifier.digest, fetched.value)))
  }

  lemma NoUses(codec: Codec, s: Store)
    ensures AllUsesIntact(codec, s, {})
  {
  }

  /** What is hoped for at the start still holds when the turn of a container comes. */
  lemma Awaited(codec: Codec, serve: Registry, s: Store, t: Store, n: nat, c: string, trees: map<string, LayerContents>)
    requires c in s.containers && t.containers == s.containers && KeepsData(codec, s, t)
    ensures AllRepairsServed(codec, serve, s, trees) ==> RepairIsServed(codec, serve, n, t, c, trees)
    ensures AllRestorable(codec, serve, s) && ReadDigest(t, c).Some? && ReadReference(t, c).Some?
            && FetchedAt(codec, serve, n, RepairRequest(t, c)).Some? ==>
              Restores(codec, t, ReadDigest(t, c).value, FetchedAt(codec, serve, n, RepairRequest(t, c)).value)
  {
    SameRead(s, t, c);
    hide FetchedAt, ReadDigest, Restores, KeepsData, ServesLayers;
    if AllRepairsServed(codec, serve, s, trees) {
      assert RepairIsServed(codec, serve, n, s, c, trees);
    }
    if AllRestorable(codec, serve, s) && ReadDigest(t, c).Some? && ReadReference(t, c).Some?
       && FetchedAt(codec, serve, n, RepairRequest(t, c)).Some?
    {
      assert IsRestorable(codec, serve, n, s, c);
      RestoresLater(codec, s, t, ReadDigest(t, c).value, FetchedAt(codec, serve, n, RepairRequest(t, c)).value);
    }
  }

  lemma OneMoreUse(codec: Codec, s: Store, names: set<string>, c: string)
    requires AllUsesIntact(codec, s, names) && IntactUse(codec, s, c)
    ensures AllUsesIntact(codec, s, names + {c})
  {
  }

  // ----- What repair promises -----

  /** Every defect that repair counts belongs to a manifest that no container uses. */
  lemma DefectsAreUnused(codec: Codec, s: Store, digest: string)
    requires AllUsesIntact(codec, s, s.containers.Keys)
    requires digest in s.manifests && IsDefective(codec, s, digest)
    ensures digest !in UsedManifests(s)
  {
    IntactHasNoDefect(codec, s, digest);
    forall c | c in s.containers ensures ReadDigest(s, c) != Some(digest) {
      assert IntactUse(codec, s, c);
    }
  }

  /** A check counts nothing exactly when no saved manifest is defective. */
  lemma CleanCheck(codec: Codec, s: Store)
    ensures DefectCounts(codec, s) == Checked(0, 0) <==> forall d | d in s.manifests :: !IsDefective(codec, s, d)
  {
    var all := s.manifests.Keys;
    forall d | d in s.manifests
      ensures IsInvalid(codec, s, d) <==> d in InvalidManifests(codec, s, all)
      ensures MissingFor(codec, s, d) != {} <==> exists i :: (d, i) in MissingLayers(codec, s, all)
    {
      if MissingFor(codec, s, d) != {} {
        var i :| i in MissingFor(codec, s, d);
        assert (d, i) in MissingLayers(codec, s, all);
      }
    }
  }

  /** From any state, a repair that reaches its check and a prune that succeeds leave an intact
      store, whether or not the check found defects. */
  lemma RepairThenPrune(codec: Codec, s: Store, t: Store)
    requires AllUsesIntact(codec, s, s.containers.Keys)
    requires Swept(s, t, UsedManifests(s), UsedLayers(codec, s)) && t.manifests.Keys <= UsedManifests(s)
    ensures Intact(codec, t)
  {
    hide Swept, IntactUse;
    SweepRestoresIntact(codec, s, t);
  }

  /** A check without defects needs no hypothesis on the registry. */
  lemma CleanCheckThenPrune(codec: Codec, s: Store, t: Store)
    requires DefectCounts(codec, s) == Checked(0, 0) && Readable(codec, s)
    requires Swept(s, t, UsedManifests(s), UsedLayers(codec, s)) && t.manifests.Keys <= UsedManifests(s)
    ensures Intact(codec, t)
  {
    hide Swept, DefectCounts;
    CleanCheck(codec, s);
    forall c | c in s.containers ensures IntactUse(codec, s, c) {
      assert ManifestOf(codec, s, c).Some?;
      IntactHasNoDefect(codec, s, ReadDigest(s, c).value);
    }
    SweepRestoresIntact(codec, s, t);
  }

  // ----- A repair that leaves a container broken -----

  /** From every store whose only container names the digest of a manifest in capitals, with nothing
      sound saved there: a repair that is answered honestly, in full, and with the usual spelling,
      reaches its check, and the container is left broken. If something is saved there, it is
      counted although it is used; if nothing is, and all that is saved is intact, the check finds
      nothing. */
  method RepairLeavesBroken(codec: Codec, serve: Registry, requestSizes: nat -> seq<nat>, left: Store, c: string,
                            bytes: Bytes, ghost trees: map<string, LayerContents>)
    returns (result: RepairResult, final: Store)
    requires IsCapitalCase(codec, serve, left, c, bytes, trees)
    ensures result.Checked? && !IntactUse(codec, final, c)
    ensures CapitalDigest(codec.hash, bytes) in left.manifests ==>
              && result != Checked(0, 0) && CapitalDigest(codec.hash, bytes) in UsedManifests(final)
              && CapitalDigest(codec.hash, bytes) in final.manifests
              && IsDefective(codec, final, CapitalDigest(codec.hash, bytes))
    ensures CapitalDigest(codec.hash, bytes) !in left.manifests && SavedIntact(codec, left) ==> result == Checked(0, 0)
  {
    hide IsCapitalCase, CapitalDigest, IntactUse, SavedIntact, IsDefective, UsedManifests, DefectCounts, LeftAlone,
         AllRepairsServed, KeepsData, FollowsProtocol, OneOf, AllIntact, SafeStart, AllRestorable, NoCollisions,
         AllUsesIntact, Deliveries;
    var storage := new StorageMutable(codec, n => false, n => {}, left);
    var client := new RegistryClient(codec, serve, requestSizes);
    ghost var s := storage.disk;
    CapitalIsServed(codec, serve, left, s, c, bytes, trees);
    result := Repair(storage, client, trees, IntactOnly);
    final := storage.disk;
    CapitalIsLeft(codec, serve, left, s, final, c, bytes, trees);
  }

  /** The one container is to be repaired by a digest in capitals under which nothing sound is saved,
      and the registry answers honestly. */
  ghost predicate IsCapitalCase(codec: Codec, serve: Registry, left: Store, c: string, bytes: Bytes,
                                trees: map<string, LayerContents>)
  {
    var digest := CapitalDigest(codec.hash, bytes);
    && |codec.hash(Sha256, bytes)| == 32 && digest != CanonicalDigest(codec.hash, bytes)
    && codec.parseManifest(bytes).Some? && codec.parseManifest(bytes).value.schemaVersion == 2
    && left.containers.Keys == {c} && ReadReference(left, c).Some? && ReadDigest(left, c) == Some(digest)
    && !IsSound(codec, left, digest)
    && AnswersHonestly(codec, serve, ReadReference(left, c).value, bytes)
    && ServesLayers(codec, serve, RepairRequest(left, c), codec.parseManifest(bytes).value.layers, trees)
  }

  lemma CapitalIsServed(codec: Codec, serve: Registry, left: Store, s: Store, c: string, bytes: Bytes,
                        trees: map<string, LayerContents>)
    requires IsCapitalCase(codec, serve, left, c, bytes, trees) && s == Core(left)
    ensures s.containers.Keys == {c} && AllRepairsServed(codec, serve, s, trees)
    ensures SavedIntact(codec, left) ==> SavedIntact(codec, s)
  {
    SameRead(left, s, c);
    hide CapitalDigest, CanonicalDigest, ReadDigest, ServesLayers, FetchedAt, AnswersHonestly, IsSound, Verifies;
    forall n: nat ensures RepairIsServed(codec, serve, n, s, c, trees) {
      HonestAnswer(codec, serve, n, ReadReference(left, c).value, bytes);
    }
    if SavedIntact(codec, left) {
      forall digest | digest in s.manifests ensures IntactManifest(codec, s, digest) {
        assert IntactManifest(codec, left, digest);
      }
    }
  }

  lemma CapitalIsLeft(codec: Codec, serve: Registry, left: Store, s: Store, t: Store, c: string, bytes: Bytes,
                      trees: map<string, LayerContents>)
    requires IsCapitalCase(codec, serve, left, c, bytes, trees) && s == Core(left)
    requires LeftAlone(codec, serve, 0, s, t, c) && KeepsData(codec, s, t) && t.containers == s.containers
    ensures !IntactUse(codec, t, c)
    ensures CapitalDigest(codec.hash, bytes) in left.manifests ==>
              && CapitalDigest(codec.hash, bytes) in t.manifests
              && IsDefective(codec, t, CapitalDigest(codec.hash, bytes))
              && CapitalDigest(codec.hash, bytes) in UsedManifests(t) && DefectCounts(codec, t) != Checked(0, 0)
    ensures SavedIntact(codec, t) ==> DefectCounts(codec, t) == Checked(0, 0)
  {
    var digest := CapitalDigest(codec.hash, bytes);
    SameRead(left, s, c);
    SameRead(s, t, c);
    HonestAnswer(codec, serve, 0, ReadReference(left, c).value, bytes);
    CleanCheck(codec, t);
    hide CapitalDigest, CanonicalDigest, ReadDigest, ServesLayers, FetchedAt, AnswersHonestly, Verifies, DefectCounts,
         IntactManifest, IsDefective, MissingFor;
    assert !IsCompletedBy(codec, s, digest, FetchedAt(codec, serve, 0, RepairRequest(s, c)).value);
    if digest in left.manifests {
      IntactHasNoDefect(codec, t, digest);
    }
    if SavedIntact(codec, t) {
      forall d | d in t.manifests ensures !IsDefective(codec, t, d) {
        IntactHasNoDefect(codec, t, d);
      }
    }
  }
}
