/** The commands that change a storage directory, apart from pruning. */
module Commands {
  import opened Wrappers
  import opened Digests
  import opened References
  import opened LayerTree
  import opened Stores
  import opened MutableStorage
  import opened Fetching

  // ----- Safety at every moment -----

  /** What is claimed of a store: that it is intact, or also that its layers are whole extractions
      of what has been received. */
  datatype Claim = IntactOnly | WholeFrom(received: iset<Delivery>)

  /** The claim covers what this registry answers. */
  ghost predicate Covers(claim: Claim, serve: Registry) {
    claim.WholeFrom? ==> Deliveries(serve) <= claim.received
  }

  /** Since `n`, every moment finds the store intact, and, if claimed, its layers whole. */
  ghost predicate AllIntact(codec: Codec, journal: seq<Moment>, n: nat, claim: Claim) {
    forall k | n <= k < |journal| :: SafeStore(codec, StoreAt(journal, k), claim)
  }

  ghost predicate SafeStore(codec: Codec, s: Store, claim: Claim) {
    Intact(codec, s) && (claim.WholeFrom? ==> WholeLayers(codec, claim.received, s))
  }

  /** What a command starts from, for its steps to be safe: temporary files matter for wholeness. */
  ghost predicate SafeStart(codec: Codec, s: Store, claim: Claim) {
    SafeStore(codec, s, claim) && (claim.WholeFrom? ==> s.temporary == map[])
  }

  lemma StartIsSafeStore(codec: Codec, s: Store, claim: Claim)
    ensures SafeStart(codec, s, claim) ==> SafeStore(codec, s, claim)
  {
  }

  lemma StillSafeStart(codec: Codec, s: Store, t: Store, claim: Claim)
    requires SafeStart(codec, s, claim) && SafeStore(codec, t, claim)
    requires s.temporary == map[] ==> t.temporary == map[]
    ensures SafeStart(codec, t, claim)
  {
  }

  lemma NoneYet(codec: Codec, journal: seq<Moment>, claim: Claim)
    ensures AllIntact(codec, journal, |journal|, claim)
  {
  }

  lemma IntactMore(codec: Codec, first: seq<Moment>, second: seq<Moment>, n: nat, a: Store, b: Store, claim: Claim)
    requires n <= |first| && first <= second && AllIntact(codec, first, n, claim)
    requires OneOf(second, |first|, a, b) && SafeStore(codec, a, claim) && SafeStore(codec, b, claim)
    ensures AllIntact(codec, second, n, claim)
  {
    hide Intact, WholeLayers;
    forall k | n <= k < |second| ensures SafeStore(codec, StoreAt(second, k), claim) {
      if k < |first| {
        assert StoreAt(second, k) == StoreAt(first, k);
      } else {
        var t := StoreAt(second, k);
        IntactIsCore(codec, if Core(t) == Core(a) then a else b, t);
      }
    }
  }

  lemma IntactThroughout(codec: Codec, first: seq<Moment>, second: seq<Moment>, n: nat, claim: Claim)
    requires n <= |first| && first <= second
    requires AllIntact(codec, first, n, claim) && AllIntact(codec, second, |first|, claim)
    ensures AllIntact(codec, second, n, claim)
  {
    forall k | n <= k < |second| ensures SafeStore(codec, StoreAt(second, k), claim) {
      if k < |first| {
        assert StoreAt(second, k) == StoreAt(first, k);
      }
    }
  }

  lemma FetchIsSafe(codec: Codec, first: seq<Moment>, second: seq<Moment>, n: nat, s: Store, t: Store,
                    fetched: FetchedManifest, source: Source, claim: Claim)
    requires n <= |first| && first <= second && AllIntact(codec, first, n, claim)
    requires SafeStore(codec, s, claim) && IsVerified(codec, fetched)
    requires claim.WholeFrom? ==> source.clear && source.received <= claim.received
    requires AllFetch(codec, second, |first|, s, fetched, source) && Fetches(codec, s, t, fetched, source)
    ensures AllIntact(codec, second, n, claim) && SafeStore(codec, t, claim)
  {
    hide Intact, WholeLayers, IsVerified, Fetches;
    FetchedIsSafe(codec, s, t, fetched, source, claim);
    forall k | n <= k < |second| ensures SafeStore(codec, StoreAt(second, k), claim) {
      if k < |first| {
        assert StoreAt(second, k) == StoreAt(first, k);
      } else {
        assert Fetches(codec, s, StoreAt(second, k), fetched, source);
        FetchedIsSafe(codec, s, StoreAt(second, k), fetched, source, claim);
      }
    }
  }

  lemma FetchedIsSafe(codec: Codec, s: Store, t: Store, fetched: FetchedManifest, source: Source, claim: Claim)
    requires SafeStore(codec, s, claim) && IsVerified(codec, fetched) && Fetches(codec, s, t, fetched, source)
    requires claim.WholeFrom? ==> source.clear && source.received <= claim.received
    ensures SafeStore(codec, t, claim)
  {
    hide Intact, WholeLayers, IsVerified, Fetches;
    FetchKeepsIntact(codec, s, t, fetched, source, if claim.WholeFrom? then claim.received else iset{});
  }

  lemma PutContainerIsSafe(codec: Codec, s: Store, container: string, c: Container, claim: Claim)
    requires SafeStore(codec, s, claim)
    ensures var t := s.(containers := s.containers[container := c]);
            SafeStore(codec, t, claim) <==> IntactContainer(t, container)
  {
    PutContainerKeepsIntact(codec, s, container, c);
  }

  /** A verified digest reads back as it was written, so it names what is saved under it. */
  lemma VerifiedDigestNames(s: Store, container: string, digest: string)
    requires container in s.containers && s.containers[container].digestFile == Some(digest)
    requires ParseDigest(digest).Ok?
    ensures IntactContainer(s, container) <==> digest in s.manifests
    ensures ReadDigest(s, container) == Some(digest)
  {
    DigestSurvivesTrim(digest);
  }

  lemma VerifiedParses(codec: Codec, fetched: FetchedManifest)
    requires IsVerified(codec, fetched)
    ensures ParseDigest(fetched.digest).Ok?
  {
  }

  // ----- Install -----

  predicate IsAlphanumeric(c: char) {
    'a' <= c <= 'z' || 'A' <= c <= 'Z' || '0' <= c <= '9'
  }

  predicate ValidContainerName(name: string) {
    && name != ""
    && IsAlphanumeric(name[0])
    && forall i | 0 <= i < |name| :: IsAlphanumeric(name[i]) || name[i] in {'.', '_', '-'}
  }

  /** Names are made of ASCII letters, digits, dots, underscores and dashes, begin with a letter or a
      digit, and so never stand for a directory itself or its parent. */
  lemma ContainerNames(name: string)
    ensures ValidContainerName(name) <==>
              && name != "" && name != "." && name != ".."
              && (forall i | 0 <= i < |name| ::
                    'a' <= name[i] <= 'z' || 'A' <= name[i] <= 'Z' || '0' <= name[i] <= '9'
                    || name[i] == '.' || name[i] == '_' || name[i] == '-')
              && ('a' <= name[0] <= 'z' || 'A' <= name[0] <= 'Z' || '0' <= name[0] <= '9')
  {
  }

  /** The part that installing, updating and switching share. */
  method FetchInto(storage: StorageMutable, client: RegistryClient, reference: Reference,
                   ghost trees: map<string, LayerContents>, ghost claim: Claim)
    returns (fetched: Option<FetchedManifest>)
    requires storage.Valid() && storage.codec == client.codec && Covers(claim, client.serve)
    modifies storage, client
    ensures storage.Valid() && old(storage.journal) <= storage.journal && storage.lock == old(storage.lock)
    ensures old(client.clock) <= client.clock
    ensures KeepsData(storage.codec, old(storage.disk), storage.disk)
    ensures SafeStart(storage.codec, old(storage.disk), claim) ==>
              && SafeStore(storage.codec, storage.disk, claim)
              && AllIntact(storage.codec, storage.journal, |old(storage.journal)|, claim)
    ensures storage.disk.containers == old(storage.disk).containers
    ensures AllSameContainers(storage.journal, |old(storage.journal)|, old(storage.disk))
    ensures
      var attempted := FetchedAt(client.codec, client.serve, old(client.clock), reference);
      storage.Reliable() && old(storage.disk).temporary == map[] && attempted.Some?
      && (|| attempted.value.digest in old(storage.disk).manifests
          || ServesLayers(client.codec, client.serve, reference, attempted.value.manifest.layers, trees)) ==>
        fetched.Some? && storage.disk == WithImage(old(storage.disk), attempted.value, trees)
    ensures fetched.Some? ==>
      && old(client.clock) < client.clock
      && fetched == FetchedAt(client.codec, client.serve, old(client.clock), reference)
      && ParseDigest(fetched.value.digest).Ok?
      && (reference.specifier.Digest? ==> ParseDigest(reference.specifier.digest).Ok?)
      && storage.disk.manifests.Keys == old(storage.disk).manifests.Keys + {fetched.value.digest}
      && (old(storage.disk).temporary == map[] ==> storage.disk.temporary == map[])
  {
    hide AllIntact, AllFetch, Fetches, OneOf, SafeStore, Intact, WholeLayers, FetchedAt, IsVerified, FollowsProtocol,
         ParseDigest, WithImage, ServesLayers, AllSameContainers, Deliveries, DigestsOf;
    ghost var codec, s, journal := storage.codec, storage.disk, storage.journal;
    NoneYet(codec, journal, claim);
    NoContainersYet(journal, s);
    ghost var n := client.clock;
    ghost var attempted := FetchedAt(codec, client.serve, n, reference);
    fetched := client.FetchImage(storage, reference, false, trees);
    if attempted.Some? {
      ghost var source := ImageSource(attempted.value, client.serve, s.temporary == map[]);
      FetchFrames(codec, s, storage.disk, attempted.value, source);
      FetchesSpareContainers(codec, storage.journal, |journal|, s, attempted.value, source);
      VerifiedParses(codec, attempted.value);
      if reference.specifier.Digest? {
        RequestedDigestParses(codec, client.serve, n, reference);
      }
      if SafeStart(codec, s, claim) {
        FetchIsSafe(codec, journal, storage.journal, |journal|, s, storage.disk, attempted.value, source, claim);
      }
    }
  }

  /** With nothing failing, a free name, and an image that is saved already or served, succeeds and
      changes exactly what installing should. */
  method Install(storage: StorageMutable, client: RegistryClient, container: string, image: string,
                 ghost trees: map<string, LayerContents>, ghost claim: Claim)
    returns (ok: bool)
    requires storage.Valid() && storage.codec == client.codec && Covers(claim, client.serve)
    modifies storage, client
    ensures storage.Valid() && old(storage.journal) <= storage.journal && storage.lock == old(storage.lock)
    ensures KeepsData(storage.codec, old(storage.disk), storage.disk)
    ensures SafeStart(storage.codec, old(storage.disk), claim) ==>
              AllIntact(storage.codec, storage.journal, |old(storage.journal)|, claim)
    ensures !ok ==> storage.disk.containers == old(storage.disk).containers
    ensures ok ==>
      && ValidContainerName(container) && container !in old(storage.disk).containers && Parse(image).Ok?
      && var fetched := FetchedAt(client.codec, client.serve, old(client.clock), Parse(image).value);
         && fetched.Some? && storage.disk.manifests.Keys == old(storage.disk).manifests.Keys + {fetched.value.digest}
         && storage.disk.containers
            == old(storage.disk).containers[container :=
                 Container(Some(fetched.value.digest), Some(Parse(image).value))]
    ensures storage.Reliable() && old(storage.disk).temporary == map[]
            && ValidContainerName(container) && container !in old(storage.disk).containers && Parse(image).Ok?
            && ImageIsServed(client.codec, client.serve, old(client.clock), old(storage.disk), Parse(image).value,
                             trees) ==>
              && ok
              && var fetched := FetchedAt(client.codec, client.serve, old(client.clock), Parse(image).value).value;
                 storage.disk == WithContainer(WithImage(old(storage.disk), fetched, trees), container, fetched.digest,
                                               Parse(image).value)
  {
    hide AllIntact, OneOf, SafeStore, FetchedAt, FollowsProtocol, Parse, ParseDigest, WithImage, ServesLayers,
         SafeStart, KeepsData;
    ghost var codec, s, journal := storage.codec, storage.disk, storage.journal;
    NoneYet(codec, journal, claim);
    SameDataIsKept(codec, s, s);
    if !ValidContainerName(container) || container in storage.disk.containers { return false; }
    var reference := Parse(image);
    if reference.Err? { return false; }
    var fetched := FetchInto(storage, client, reference.value, trees, claim);
    if fetched.None? { return false; }
    ghost var t, before := storage.disk, storage.journal;
    ok := storage.WriteContainer(container, fetched.value.digest, reference.value);
    SameDataIsKept(codec, t, storage.disk);
    KeepsMoreData(codec, s, t, storage.disk);
    if SafeStart(codec, s, claim) {
      ContainerIsSafe(codec, t, container, fetched.value.digest, Some(reference.value), claim);
      IntactMore(codec, before, storage.journal, |journal|, t,
                 if ok then WithContainer(t, container, fetched.value.digest, reference.value) else t, claim);
    }
  }

  /** The registry leads to a manifest that is saved already, or serves its layers. */
  ghost predicate ImageIsServed(codec: Codec, serve: Registry, n: nat, s: Store, reference: Reference,
                                trees: map<string, LayerContents>)
  {
    var fetched := FetchedAt(codec, serve, n, reference);
    && fetched.Some?
    && (|| fetched.value.digest in s.manifests
        || ServesLayers(codec, serve, reference, fetched.value.manifest.layers, trees))
  }

  predicate AllSameContainers(journal: seq<Moment>, n: nat, s: Store) {
    forall k | n <= k < |journal| :: StoreAt(journal, k).containers == s.containers
  }

  lemma NoContainersYet(journal: seq<Moment>, s: Store)
    ensures AllSameContainers(journal, |journal|, s)
  {
  }

  lemma FetchesSpareContainers(codec: Codec, journal: seq<Moment>, n: nat, s: Store, fetched: FetchedManifest,
                               source: Source)
    requires AllFetch(codec, journal, n, s, fetched, source)
    ensures AllSameContainers(journal, n, s)
  {
    forall k | n <= k < |journal| ensures StoreAt(journal, k).containers == s.containers {
      assert Fetches(codec, s, StoreAt(journal, k), fetched, source);
    }
  }

  lemma FetchFrames(codec: Codec, s: Store, t: Store, fetched: FetchedManifest, source: Source)
    requires Fetches(codec, s, t, fetched, source)
    ensures t.containers == s.containers && t.locks == s.locks && t.nextInode == s.nextInode
    ensures s.manifests.Keys <= t.manifests.Keys <= s.manifests.Keys + {fetched.digest}
  {
  }

  lemma ContainerIsSafe(codec: Codec, s: Store, container: string, digest: string, reference: Option<Reference>,
                        claim: Claim)
    requires SafeStore(codec, s, claim) && ParseDigest(digest).Ok?
    ensures var t := s.(containers := s.containers[container := Container(Some(digest), reference)]);
            SafeStore(codec, t, claim) <==> digest in s.manifests
  {
    PutContainerIsSafe(codec, s, container, Container(Some(digest), reference), claim);
    var t := s.(containers := s.containers[container := Container(Some(digest), reference)]);
    VerifiedDigestNames(t, container, digest);
  }

  // ----- Uninstall -----

  method Uninstall(storage: StorageMutable, container: string, ghost claim: Claim) returns (ok: bool)
    requires storage.Valid()
    modifies storage
    ensures storage.Valid() && old(storage.journal) <= storage.journal && storage.lock == old(storage.lock)
    ensures SafeStart(storage.codec, old(storage.disk), claim) ==>
              AllIntact(storage.codec, storage.journal, |old(storage.journal)|, claim)
    ensures ok ==> storage.disk.containers == old(storage.disk).containers - {container}
    ensures !ok ==> storage.disk.containers == old(storage.disk).containers
                    || storage.disk.containers == old(storage.disk).containers - {container}
    ensures storage.disk.manifests == old(storage.disk).manifests && storage.disk.layers == old(storage.disk).layers
    ensures container !in old(storage.disk).containers ==> !ok
    ensures storage.Reliable() ==> ok == (container in old(storage.disk).containers)
  {
    hide AllIntact, OneOf, Intact, WholeLayers, FollowsProtocol;
    ghost var s, journal := storage.disk, storage.journal;
    NoneYet(storage.codec, journal, claim);
    ok := storage.RemoveContainer(container);
    if SafeStart(storage.codec, s, claim) {
      ghost var removed := s.(containers := s.containers - {container});
      RemoveContainerKeepsIntact(storage.codec, s, container);
      SameLayersWhole(storage.codec, s, removed);
      IntactMore(storage.codec, journal, storage.journal, |journal|, s, removed, claim);
    }
  }

  lemma SameLayersWhole(codec: Codec, s: Store, t: Store)
    requires s.layers == t.layers
    ensures forall received :: WholeLayers(codec, received, s) == WholeLayers(codec, received, t)
  {
  }

  // ----- Switch -----

  lemma RequestedDigestParses(codec: Codec, serve: Registry, n: nat, reference: Reference)
    requires reference.specifier.Digest? && FetchedAt(codec, serve, n, reference).Some?
    ensures ParseDigest(reference.specifier.digest).Ok?
  {
  }

  ghost predicate SwitchIsServed(codec: Codec, serve: Registry, n: nat, s: Store, container: string, digest: string,
                                 trees: map<string, LayerContents>)
  {
    && container in s.containers && ReadReference(s, container).Some?
    && ImageIsServed(codec, serve, n, s, ReadReference(s, container).value.(specifier := Digest(digest)), trees)
  }

  /** Points a container at a digest after fetching it. The manifest is saved under the digest in
      the registry's answer, the container gets the digest as requested, so the result is intact
      exactly when those agree or the requested one was saved before. */
  method Switch(storage: StorageMutable, client: RegistryClient, container: string, digest: string,
                ghost trees: map<string, LayerContents>, ghost claim: Claim)
    returns (ok: bool)
    requires storage.Valid() && storage.codec == client.codec && Covers(claim, client.serve)
    modifies storage, client
    ensures storage.Valid() && old(storage.journal) <= storage.journal && storage.lock == old(storage.lock)
    ensures KeepsData(storage.codec, old(storage.disk), storage.disk)
    ensures storage.Reliable() && old(storage.disk).temporary == map[]
            && SwitchIsServed(client.codec, client.serve, old(client.clock), old(storage.disk), container, digest,
                              trees) ==>
              ok
    ensures !ok ==> storage.disk.containers == old(storage.disk).containers
    ensures SafeStart(storage.codec, old(storage.disk), claim) && !ok ==>
              AllIntact(storage.codec, storage.journal, |old(storage.journal)|, claim)
    ensures ok ==>
      && container in old(storage.disk).containers && ReadReference(old(storage.disk), container).Some?
      && storage.disk.containers == PointTo(old(storage.disk), container, digest).containers
      && var asked := ReadReference(old(storage.disk), container).value.(specifier := Digest(digest));
         var fetched := FetchedAt(client.codec, client.serve, old(client.clock), asked);
         && fetched.Some? && storage.disk.manifests.Keys == old(storage.disk).manifests.Keys + {fetched.value.digest}
         && (SafeStart(storage.codec, old(storage.disk), claim) ==>
               var agrees := fetched.value.digest == digest || digest in old(storage.disk).manifests;
               && (SafeStore(storage.codec, storage.disk, claim) <==> agrees)
               && (AllIntact(storage.codec, storage.journal, |old(storage.journal)|, claim) <==> agrees))
  {
    hide AllIntact, OneOf, SafeStore, FetchedAt, FollowsProtocol, ParseDigest, Core;
    ghost var codec, s, journal := storage.codec, storage.disk, storage.journal;
    NoneYet(codec, journal, claim);
    if container !in storage.disk.containers { return false; }
    var reference := storage.ReadContainerReference(container);
    if reference.None? { return false; }
    var asked := reference.value.(specifier := Digest(digest));
    var fetched := FetchInto(storage, client, asked, trees, claim);
    if fetched.None? { return false; }
    ghost var t, before := storage.disk, storage.journal;
    ok := storage.WriteContainerManifestDigest(container, digest);
    PointedContainers(t, storage.disk, container, digest, ok);
    if SafeStart(codec, s, claim) {
      Switched(codec, before, storage.journal, |journal|, t, storage.disk, container, digest, ok, claim);
    }
  }

  lemma PointedContainers(t: Store, u: Store, container: string, digest: string, ok: bool)
    requires container in t.containers && Core(u) == Core(if ok then PointTo(t, container, digest) else t)
    ensures u.containers == (if ok then PointTo(t, container, digest) else t).containers
    ensures u.manifests == t.manifests && u.layers == t.layers
  {
  }

  lemma Switched(codec: Codec, first: seq<Moment>, second: seq<Moment>, n: nat, t: Store, u: Store,
                 container: string, digest: string, ok: bool, claim: Claim)
    requires n <= |first| <= |second| && first <= second && AllIntact(codec, first, n, claim)
    requires SafeStore(codec, t, claim) && ParseDigest(digest).Ok? && container in t.containers
    requires Core(u) == Core(if ok then PointTo(t, container, digest) else t)
    requires OneOf(second, |first|, t, if ok then PointTo(t, container, digest) else t)
    requires |second| > 0 && StoreAt(second, |second| - 1) == u && (ok ==> |second| > |first|)
    ensures u.containers == (if ok then PointTo(t, container, digest) else t).containers
    ensures !ok ==> AllIntact(codec, second, n, claim)
    ensures ok ==> (SafeStore(codec, u, claim) <==> digest in t.manifests)
    ensures ok ==> (AllIntact(codec, second, n, claim) <==> digest in t.manifests)
  {
    PointedContainers(t, u, container, digest, ok);
    hide Intact, WholeLayers, ParseDigest, OneOf;
    var pointed := PointTo(t, container, digest);
    ContainerIsSafe(codec, t, container, digest, t.containers[container].referenceFile, claim);
    var after := Container(Some(digest), t.containers[container].referenceFile);
    assert pointed == t.(containers := t.containers[container := after]);
    if !ok {
      IntactMore(codec, first, second, n, t, t, claim);
    } else {
      IntactIsCore(codec, u, pointed);
      if digest in t.manifests {
        IntactMore(codec, first, second, n, t, pointed, claim);
      } else {
        assert !SafeStore(codec, StoreAt(second, |second| - 1), claim);
      }
    }
  }

  // ----- A registry that spells digests differently -----

  /** An honest answer to a request for these bytes by their digest in capitals. */
  ghost predicate AnswersHonestly(codec: Codec, serve: Registry, reference: Reference, bytes: Bytes) {
    forall n ::
      serve(n, ManifestRequest(reference.registry, reference.repository, CapitalDigest(codec.hash, bytes), true))
      == Reply(bytes, None, ManifestType, Some(CanonicalDigest(codec.hash, bytes)))
  }

  lemma HonestAnswer(codec: Codec, serve: Registry, n: nat, reference: Reference, bytes: Bytes)
    requires |codec.hash(Sha256, bytes)| == 32 && AnswersHonestly(codec, serve, reference, bytes)
    requires codec.parseManifest(bytes).Some? && codec.parseManifest(bytes).value.schemaVersion == 2
    ensures FetchedAt(codec, serve, n, reference.(specifier := Digest(CapitalDigest(codec.hash, bytes))))
            == Some(FetchedManifest(codec.parseManifest(bytes).value, bytes, CanonicalDigest(codec.hash, bytes)))
  {
    BothSpellingsVerify(codec.hash, bytes);
    hide Verifies, CapitalDigest, CanonicalDigest;
    var asked := reference.(specifier := Digest(CapitalDigest(codec.hash, bytes)));
    var answer := serve(n, ManifestRequest(asked.registry, asked.repository, asked.specifier.Text(), true));
    assert answer == Reply(bytes, None, ManifestType, Some(CanonicalDigest(codec.hash, bytes)));
    assert ManifestBytesAt(codec, serve, n, asked, true)
           == Some(ManifestBytes(bytes, CanonicalDigest(codec.hash, bytes), ManifestType));
  }

  /** From every intact store with an installed container: switching the container to the digest of
      a manifest in capitals succeeds, and leaves the container without a manifest, as soon as the
      digest has a letter and the registry answers with the usual spelling. Both digests verify. */
  method SpellingBreaksSwitch(codec: Codec, serve: Registry, requestSizes: nat -> seq<nat>, left: Store,
                              container: string, bytes: Bytes, ghost trees: map<string, LayerContents>)
    returns (final: Store)
    requires |codec.hash(Sha256, bytes)| == 32
    requires CapitalDigest(codec.hash, bytes) != CanonicalDigest(codec.hash, bytes)
    requires codec.parseManifest(bytes).Some? && codec.parseManifest(bytes).value.schemaVersion == 2
    requires Intact(codec, left) && container in left.containers && ReadReference(left, container).Some?
    requires CapitalDigest(codec.hash, bytes) !in left.manifests
    requires AnswersHonestly(codec, serve, ReadReference(left, container).value, bytes)
    requires CanonicalDigest(codec.hash, bytes) in left.manifests
             || ServesLayers(codec, serve,
                             ReadReference(left, container).value.(specifier :=
                               Digest(CapitalDigest(codec.hash, bytes))),
                             codec.parseManifest(bytes).value.layers, trees)
    ensures final.containers == PointTo(left, container, CapitalDigest(codec.hash, bytes)).containers
    ensures CapitalDigest(codec.hash, bytes) !in final.manifests && !Intact(codec, final)
  {
    hide Intact, CapitalDigest, CanonicalDigest, AnswersHonestly, FetchedAt, ServesLayers, AllIntact, FollowsProtocol,
         OneOf;
    var storage := new StorageMutable(codec, n => false, n => {}, left);
    var client := new RegistryClient(codec, serve, requestSizes);
    var digest := CapitalDigest(codec.hash, bytes);
    HonestAnswer(codec, serve, 0, ReadReference(left, container).value, bytes);
    IntactIsCore(codec, left, Core(left));
    var ok := Switch(storage, client, container, digest, trees, IntactOnly);
    final := storage.disk;
  }
}
