/** Updating installed containers, in whatever order a hash set yields them. */
module Updates {
  import opened Wrappers
  import opened Digests
  import opened LayerTree
  import opened Stores
  import opened MutableStorage
  import opened Fetching
  import opened Commands

  // ----- What an update may do, at every moment -----

  /** The requests that a command has made up to now: those from one number up to another. */
  datatype Requests = Requests(serve: Registry, since: nat, until: nat)

  /** The container is as it was, or points at what one of these requests led to for its reference. */
  ghost predicate OldOrFetched(codec: Codec, asked: Requests, before: Container, after: Container) {
    after == before || exists n: nat :: asked.since <= n < asked.until && IsUpdate(codec, asked.serve, n, before, after)
  }

  predicate IsUpdate(codec: Codec, serve: Registry, n: nat, before: Container, after: Container) {
    && before.referenceFile.Some?
    && FetchedAt(codec, serve, n, before.referenceFile.value).Some?
    && after == before.(digestFile := Some(FetchedAt(codec, serve, n, before.referenceFile.value).value.digest))
  }

  ghost predicate Updating(codec: Codec, asked: Requests, s: Store, t: Store) {
    && t.containers.Keys == s.containers.Keys
    && forall c | c in s.containers :: OldOrFetched(codec, asked, s.containers[c], t.containers[c])
  }

  ghost predicate AllUpdating(codec: Codec, asked: Requests, journal: seq<Moment>, n: nat, s: Store) {
    forall k | n <= k < |journal| :: Updating(codec, asked, s, StoreAt(journal, k))
  }

  lemma UpdatingStarts(codec: Codec, asked: Requests, journal: seq<Moment>, s: Store)
    ensures Updating(codec, asked, s, s) && AllUpdating(codec, asked, journal, |journal|, s)
  {
  }

  /** More requests allow more. */
  lemma UpdatingLonger(codec: Codec, asked: Requests, journal: seq<Moment>, n: nat, s: Store, t: Store, until: nat)
    requires asked.until <= until && Updating(codec, asked, s, t) && AllUpdating(codec, asked, journal, n, s)
    ensures Updating(codec, asked.(until := until), s, t)
    ensures AllUpdating(codec, asked.(until := until), journal, n, s)
  {
    hide IsUpdate;
    forall u | Updating(codec, asked, s, u) ensures Updating(codec, asked.(until := until), s, u) {
      forall c | c in s.containers
        ensures OldOrFetched(codec, asked.(until := until), s.containers[c], u.containers[c])
      {
        assert OldOrFetched(codec, asked, s.containers[c], u.containers[c]);
      }
    }
  }

  lemma StillUpdating(codec: Codec, asked: Requests, first: seq<Moment>, second: seq<Moment>, n: nat, s: Store,
                      t: Store)
    requires n <= |first| && first <= second && AllUpdating(codec, asked, first, n, s)
    requires AllSameContainers(second, |first|, t) && Updating(codec, asked, s, t)
    ensures AllUpdating(codec, asked, second, n, s)
  {
    forall k | n <= k < |second| ensures Updating(codec, asked, s, StoreAt(second, k)) {
      if k < |first| {
        assert StoreAt(second, k) == StoreAt(first, k);
      }
    }
  }

  lemma UpdatingOne(codec: Codec, asked: Requests, first: seq<Moment>, second: seq<Moment>, n: nat, s: Store,
                    t: Store, u: Store, c: string, digest: string, at: nat)
    requires n <= |first| && first <= second && AllUpdating(codec, asked, first, n, s)
    requires Updating(codec, asked, s, t) && c in t.containers && t.containers[c] == s.containers[c]
    requires s.containers[c].referenceFile.Some? && asked.since <= at < asked.until
    requires FetchedAt(codec, asked.serve, at, s.containers[c].referenceFile.value).Some?
    requires digest == FetchedAt(codec, asked.serve, at, s.containers[c].referenceFile.value).value.digest
    requires u.containers == t.containers || u.containers == PointTo(t, c, digest).containers
    requires OneOf(second, |first|, t, u)
    ensures Updating(codec, asked, s, u) && AllUpdating(codec, asked, second, n, s)
  {
    var pointed := PointTo(t, c, digest);
    assert Updating(codec, asked, s, pointed) by {
      hide FetchedAt;
      assert IsUpdate(codec, asked.serve, at, s.containers[c], pointed.containers[c]);
    }
    assert Updating(codec, asked, s, u);
    hide OldOrFetched;
    forall k | n <= k < |second| ensures Updating(codec, asked, s, StoreAt(second, k)) {
      if k < |first| {
        assert StoreAt(second, k) == StoreAt(first, k);
      } else {
        var v := StoreAt(second, k);
        assert v.containers == t.containers || v.containers == u.containers;
      }
    }
  }

  // ----- What a successful update has done -----

  /** The container now has the digest that the registry gave for its reference at some request
      from number `first` up to number `last`, and the manifest is saved. */
  ghost predicate Refreshed(codec: Codec, serve: Registry, first: nat, last: nat, s: Store, t: Store, c: string) {
    exists n: nat :: first <= n < last && IsRefresh(codec, serve, n, s, t, c)
  }

  predicate IsRefresh(codec: Codec, serve: Registry, n: nat, s: Store, t: Store, c: string) {
    && c in s.containers && ReadReference(s, c).Some?
    && var fetched := FetchedAt(codec, serve, n, ReadReference(s, c).value);
       fetched.Some? && ReadDigest(t, c) == Some(fetched.value.digest) && fetched.value.digest in t.manifests
  }

  ghost predicate AllRefreshed(codec: Codec, serve: Registry, first: nat, last: nat, s: Store, t: Store,
                               names: set<string>)
  {
    forall c | c in names :: Refreshed(codec, serve, first, last, s, t, c)
  }

  lemma NoneRefreshed(codec: Codec, serve: Registry, first: nat, last: nat, s: Store, t: Store)
    ensures AllRefreshed(codec, serve, first, last, s, t, {})
  {
  }

  lemma AllAreRefreshed(codec: Codec, serve: Registry, first: nat, last: nat, s: Store, t: Store, names: set<string>)
    requires AllRefreshed(codec, serve, first, last, s, t, names)
    ensures forall c | c in names :: Refreshed(codec, serve, first, last, s, t, c)
  {
    hide Refreshed;
  }

  /** Updating one container leaves the others refreshed. */
  lemma RefreshedNext(codec: Codec, serve: Registry, first: nat, middle: nat, last: nat, s: Store, t: Store, u: Store,
                      done: set<string>, c: string)
    requires first <= middle <= last && AllRefreshed(codec, serve, first, middle, s, t, done) && c !in done
    requires u.containers - {c} == t.containers - {c} && t.manifests.Keys <= u.manifests.Keys
    requires Refreshed(codec, serve, middle, last, s, u, c)
    ensures AllRefreshed(codec, serve, first, last, s, u, done + {c})
  {
    hide FetchedAt;
    OthersUntouched(t, u, c);
    forall other | other in done + {c} ensures Refreshed(codec, serve, first, last, s, u, other) {
      if other == c {
        var n: nat :| middle <= n < last && IsRefresh(codec, serve, n, s, u, c);
      } else {
        assert Refreshed(codec, serve, first, middle, s, t, other);
        var n: nat :| first <= n < middle && IsRefresh(codec, serve, n, s, t, other);
        assert ReadDigest(u, other) == ReadDigest(t, other);
        assert IsRefresh(codec, serve, n, s, u, other);
      }
    }
  }

  // ----- What an update comes to -----

  /** What the first answers of the registry give for a container. */
  function FetchedFor(codec: Codec, serve: Registry, s: Store, c: string): Option<FetchedManifest> {
    match ReadReference(s, c)
    case None => None
    case Some(reference) => FetchedAt(codec, serve, 0, reference)
  }

  /** The registry always gives the same for this container, and gives all of it; manifests and
      layers with the same digest are the same. */
  ghost predicate Coherent(codec: Codec, serve: Registry, s: Store, c: string,
                           documents: map<string, Bytes>, trees: map<string, LayerContents>)
  {
    && ReadDigest(s, c).Some? && ReadReference(s, c).Some? && FetchedFor(codec, serve, s, c).Some?
    && var reference, fetched := ReadReference(s, c).value, FetchedFor(codec, serve, s, c).value;
       && (forall n :: FetchedAt(codec, serve, n, reference) == Some(fetched))
       && fetched.digest in documents && documents[fetched.digest] == fetched.bytes
       && ServesLayers(codec, serve, reference, fetched.manifest.layers, trees)
  }

  function NewDigests(codec: Codec, serve: Registry, s: Store, names: set<string>): set<string> {
    set c | c in names && FetchedFor(codec, serve, s, c).Some? :: FetchedFor(codec, serve, s, c).value.digest
  }

  /** The layers of the manifests that are not saved yet. */
  function NewLayers(codec: Codec, serve: Registry, s: Store, names: set<string>): set<string> {
    set c, digest | c in names && digest in NewLayersFor(codec, serve, s, c) :: digest
  }

  function NewLayersFor(codec: Codec, serve: Registry, s: Store, c: string): set<string> {
    match FetchedFor(codec, serve, s, c)
    case None => {}
    case Some(fetched) => if fetched.digest in s.manifests then {} else DigestsOf(fetched.manifest.layers)
  }

  function NewContainer(codec: Codec, serve: Registry, s: Store, c: string): Container
    requires c in s.containers
  {
    match FetchedFor(codec, serve, s, c)
    case None => s.containers[c]
    case Some(fetched) =>
      if ReadDigest(s, c) == Some(fetched.digest) then s.containers[c]
      else s.containers[c].(digestFile := Some(fetched.digest))
  }

  function NewContainers(codec: Codec, serve: Registry, s: Store, names: set<string>): map<string, Container> {
    map c | c in s.containers :: if c in names then NewContainer(codec, serve, s, c) else s.containers[c]
  }

  function NewManifests(manifests: map<string, Bytes>, digests: set<string>, documents: map<string, Bytes>)
    : map<string, Bytes>
  {
    map d | d in manifests.Keys + digests && (d in manifests || d in documents) ::
      if d in manifests then manifests[d] else documents[d]
  }

  /** The store after these containers have been updated, with no regard to order. */
  function Updated(codec: Codec, serve: Registry, s: Store, names: set<string>,
                   documents: map<string, Bytes>, trees: map<string, LayerContents>): Store
  {
    s.(containers := NewContainers(codec, serve, s, names),
       manifests := NewManifests(s.manifests, NewDigests(codec, serve, s, names), documents),
       layers := CompletedLayers(s.layers, NewLayers(codec, serve, s, names), trees))
  }

  lemma OneMoreName(codec: Codec, serve: Registry, s: Store, names: set<string>, c: string)
    requires FetchedFor(codec, serve, s, c).Some?
    ensures NewDigests(codec, serve, s, names + {c})
            == NewDigests(codec, serve, s, names) + {FetchedFor(codec, serve, s, c).value.digest}
    ensures NewLayers(codec, serve, s, names + {c})
            == NewLayers(codec, serve, s, names) + NewLayersFor(codec, serve, s, c)
  {
  }

  lemma ContainersNext(codec: Codec, serve: Registry, s: Store, names: set<string>, c: string)
    requires c in s.containers && c !in names
    ensures NewContainers(codec, serve, s, names + {c})
            == NewContainers(codec, serve, s, names)[c := NewContainer(codec, serve, s, c)]
  {
  }

  lemma ManifestsNext(manifests: map<string, Bytes>, digests: set<string>, documents: map<string, Bytes>, d: string)
    requires d in documents
    ensures NewManifests(manifests, digests + {d}, documents) ==
            var before := NewManifests(manifests, digests, documents);
            if d in before then before else before[d := documents[d]]
  {
  }

  /** A manifest that an earlier container has brought has brought its layers along. */
  lemma LayersCameAlong(codec: Codec, serve: Registry, s: Store, names: set<string>, c: string,
                        documents: map<string, Bytes>, trees: map<string, LayerContents>)
    requires Coherent(codec, serve, s, c, documents, trees)
    requires forall other | other in names :: Coherent(codec, serve, s, other, documents, trees)
    requires FetchedFor(codec, serve, s, c).value.digest in NewDigests(codec, serve, s, names)
    ensures NewLayersFor(codec, serve, s, c) <= NewLayers(codec, serve, s, names)
  {
    var digest := FetchedFor(codec, serve, s, c).value.digest;
    var other :| other in names && FetchedFor(codec, serve, s, other).Some?
                 && FetchedFor(codec, serve, s, other).value.digest == digest;
    assert Coherent(codec, serve, s, other, documents, trees);
    FetchedIsVerified(codec, serve, 0, ReadReference(s, c).value);
    FetchedIsVerified(codec, serve, 0, ReadReference(s, other).value);
    hide FetchedAt;
    assert NewLayersFor(codec, serve, s, c) == NewLayersFor(codec, serve, s, other);
  }

  lemma LayersNext(codec: Codec, serve: Registry, s: Store, names: set<string>, c: string,
                   documents: map<string, Bytes>, trees: map<string, LayerContents>)
    requires Coherent(codec, serve, s, c, documents, trees)
    requires forall other | other in names :: Coherent(codec, serve, s, other, documents, trees)
    ensures var fetched := FetchedFor(codec, serve, s, c).value;
            var before := CompletedLayers(s.layers, NewLayers(codec, serve, s, names), trees);
            CompletedLayers(s.layers, NewLayers(codec, serve, s, names + {c}), trees) ==
            if fetched.digest in s.manifests || fetched.digest in NewDigests(codec, serve, s, names) then before
            else CompletedLayers(before, DigestsOf(fetched.manifest.layers), trees)
  {
    var fetched := FetchedFor(codec, serve, s, c).value;
    var layers, more := NewLayers(codec, serve, s, names), NewLayersFor(codec, serve, s, c);
    OneMoreName(codec, serve, s, names, c);
    if fetched.digest in NewDigests(codec, serve, s, names) {
      LayersCameAlong(codec, serve, s, names, c, documents, trees);
      assert layers + more == layers;
    } else if fetched.digest in s.manifests {
      assert layers + more == layers;
    } else {
      CompletedMore(s, layers, more, trees);
    }
  }

  /** One more container updated is one more name in the closed form. */
  lemma UpdatedNext(codec: Codec, serve: Registry, s: Store, names: set<string>, c: string,
                    documents: map<string, Bytes>, trees: map<string, LayerContents>)
    requires c !in names && Coherent(codec, serve, s, c, documents, trees)
    requires forall other | other in names :: Coherent(codec, serve, s, other, documents, trees)
    ensures var fetched := FetchedFor(codec, serve, s, c).value;
            var t := Updated(codec, serve, s, names, documents, trees);
            var u := WithImage(t, fetched, trees);
            && c in t.containers && t.containers[c] == s.containers[c] && c in u.containers
            && Updated(codec, serve, s, names + {c}, documents, trees)
               == if ReadDigest(s, c) == Some(fetched.digest) then u else PointTo(u, c, fetched.digest)
  {
    var fetched := FetchedFor(codec, serve, s, c).value;
    OneMoreName(codec, serve, s, names, c);
    ContainersNext(codec, serve, s, names, c);
    ManifestsNext(s.manifests, NewDigests(codec, serve, s, names), documents, fetched.digest);
    LayersNext(codec, serve, s, names, c, documents, trees);
    hide FetchedFor, NewLayers, NewDigests, CompletedLayers, FetchedAt, ServesLayers;
    var t := Updated(codec, serve, s, names, documents, trees);
    assert NewContainers(codec, serve, s, names)[c := s.containers[c]] == NewContainers(codec, serve, s, names);
  }

  // ----- The command -----

  /** Fetches what the registry has for a container that is as it was in `s`. */
  method FetchFor(storage: StorageMutable, client: RegistryClient, c: string, ghost s: Store, ghost n: nat,
                  ghost since: nat,
                  ghost documents: map<string, Bytes>, ghost trees: map<string, LayerContents>, ghost claim: Claim)
    returns (fetched: Option<FetchedManifest>)
    requires storage.Valid() && storage.codec == client.codec && n <= |storage.journal| && Covers(claim, client.serve)
    requires since <= client.clock
    requires Updating(client.codec, Requests(client.serve, since, client.clock), s, storage.disk)
    requires AllUpdating(client.codec, Requests(client.serve, since, client.clock), storage.journal, n, s)
    requires c in storage.disk.containers ==> c in s.containers && storage.disk.containers[c] == s.containers[c]
    modifies storage, client
    ensures storage.Valid() && old(storage.journal) <= storage.journal && storage.lock == old(storage.lock)
    ensures SafeStart(storage.codec, old(storage.disk), claim) ==>
              && SafeStore(storage.codec, storage.disk, claim)
              && AllIntact(storage.codec, storage.journal, |old(storage.journal)|, claim)
    ensures storage.disk.containers == old(storage.disk).containers
    ensures AllUpdating(client.codec, Requests(client.serve, since, client.clock), storage.journal, n, s)
    ensures old(client.clock) <= client.clock && KeepsData(storage.codec, old(storage.disk), storage.disk)
    ensures fetched.Some? ==>
      && c in old(storage.disk).containers && ReadReference(s, c).Some? && old(client.clock) < client.clock
      && fetched == FetchedAt(client.codec, client.serve, old(client.clock), ReadReference(s, c).value)
      && fetched.value.digest in storage.disk.manifests && ParseDigest(fetched.value.digest).Ok?
      && (old(storage.disk).temporary == map[] ==> storage.disk.temporary == map[])
    ensures storage.Reliable() && old(storage.disk).temporary == map[] && c in old(storage.disk).containers
            && Coherent(client.codec, client.serve, s, c, documents, trees) ==>
              && fetched.Some? && fetched == FetchedFor(client.codec, client.serve, s, c)
              && storage.disk == WithImage(old(storage.disk), fetched.value, trees)
  {
    hide AllIntact, SafeStore, FetchedAt, FollowsProtocol, ParseDigest, Updating, AllUpdating, AllSameContainers,
         WithImage, ServesLayers, KeepsData, Coherent, SafeStart, FetchedFor, ReadDigest;
    ghost var codec, serve := client.codec, client.serve;
    ghost var t, journal, at := storage.disk, storage.journal, client.clock;
    SameDataIsKept(codec, t, t);
    NoneYet(codec, journal, claim);
    StartIsSafeStore(codec, t, claim);
    if c !in storage.disk.containers { return None; }
    SameContainerReads(s, t, c);
    if Coherent(codec, serve, s, c, documents, trees) {
      CoherentAt(codec, serve, s, c, documents, trees, client.clock);
    }
    var reference := storage.ReadContainerReference(c);
    if reference.None? { return None; }
    fetched := FetchInto(storage, client, reference.value, trees, claim);
    UpdatingLonger(codec, Requests(serve, since, at), journal, n, s, t, client.clock);
    StillUpdating(codec, Requests(serve, since, client.clock), journal, storage.journal, n, s, t);
  }

  /** Updates one container; `s` is the store that the command started from, at moment `n`. */
  method UpdateOne(storage: StorageMutable, client: RegistryClient, c: string, ghost s: Store, ghost n: nat,
                   ghost since: nat,
                   ghost documents: map<string, Bytes>, ghost trees: map<string, LayerContents>, ghost claim: Claim)
    returns (ok: bool)
    requires storage.Valid() && storage.codec == client.codec && n <= |storage.journal| && Covers(claim, client.serve)
    requires since <= client.clock
    requires Updating(client.codec, Requests(client.serve, since, client.clock), s, storage.disk)
    requires AllUpdating(client.codec, Requests(client.serve, since, client.clock), storage.journal, n, s)
    requires c in storage.disk.containers ==> c in s.containers && storage.disk.containers[c] == s.containers[c]
    modifies storage, client
    ensures storage.Valid() && old(storage.journal) <= storage.journal && storage.lock == old(storage.lock)
    ensures SafeStart(storage.codec, old(storage.disk), claim) ==>
              && SafeStore(storage.codec, storage.disk, claim)
              && AllIntact(storage.codec, storage.journal, |old(storage.journal)|, claim)
    ensures Updating(client.codec, Requests(client.serve, since, client.clock), s, storage.disk)
    ensures AllUpdating(client.codec, Requests(client.serve, since, client.clock), storage.journal, n, s)
    ensures storage.disk.containers - {c} == old(storage.disk).containers - {c}
    ensures ok && old(storage.disk).temporary == map[] ==> storage.disk.temporary == map[]
    ensures old(client.clock) <= client.clock && KeepsData(storage.codec, old(storage.disk), storage.disk)
    ensures ok ==> Refreshed(client.codec, client.serve, old(client.clock), client.clock, s, storage.disk, c)
    ensures storage.Reliable() && old(storage.disk).temporary == map[] && c in old(storage.disk).containers
            && Coherent(client.codec, client.serve, s, c, documents, trees) ==>
              ok && storage.disk == UpdatedOne(client.codec, client.serve, s, old(storage.disk), c, trees)
  {
    hide AllIntact, SafeStore, FetchedAt, FollowsProtocol, ParseDigest, Updating, AllUpdating, WithImage, ReadDigest,
         KeepsData, Refreshed, PointTo, Coherent, UpdatedOne, SafeStart, FetchedFor, Covers, Deliveries, OneOf, Core;
    ghost var codec, serve := client.codec, client.serve;
    ghost var t, at := storage.disk, client.clock;
    ghost var length := |storage.journal|;
    ghost var earlier := storage.journal;
    var fetched := FetchFor(storage, client, c, s, n, since, documents, trees, claim);
    ghost var u, before := storage.disk, storage.journal;
    ghost var asked := Requests(serve, since, client.clock);
    UpdatingLonger(codec, Requests(serve, since, at), earlier, n, s, t, client.clock);
    SameContainersUpdating(codec, asked, s, t, u);
    if fetched.None? { return false; }
    SameContainerReads(s, u, c);
    if Coherent(codec, serve, s, c, documents, trees) {
      CoherentAt(codec, serve, s, c, documents, trees, at);
    }
    ok := Publish(storage, c, fetched.value.digest, s, n, codec, asked, at, claim);
    SameDataIsKept(codec, u, storage.disk);
    KeepsMoreData(codec, t, u, storage.disk);
    if ok {
      RefreshedAt(codec, serve, at, client.clock, s, storage.disk, c);
    }
    if storage.Reliable() && t.temporary == map[] && Coherent(codec, serve, s, c, documents, trees) {
      IsUpdatedOne(codec, serve, s, t, u, c, documents, trees);
    }
    if SafeStart(codec, t, claim) {
      IntactThroughout(codec, before, storage.journal, length, claim);
    }
  }

  lemma RefreshedAt(codec: Codec, serve: Registry, n: nat, last: nat, s: Store, t: Store, c: string)
    requires n < last && c in s.containers && ReadReference(s, c).Some?
    requires FetchedAt(codec, serve, n, ReadReference(s, c).value).Some?
    requires ReadDigest(t, c) == Some(FetchedAt(codec, serve, n, ReadReference(s, c).value).value.digest)
    requires FetchedAt(codec, serve, n, ReadReference(s, c).value).value.digest in t.manifests
    ensures Refreshed(codec, serve, n, last, s, t, c)
  {
    hide FetchedAt, ReadDigest;
    assert IsRefresh(codec, serve, n, s, t, c);
  }

  /** Points the container at what has been fetched for it, unless it is up to date. */
  method Publish(storage: StorageMutable, c: string, digest: string, ghost s: Store, ghost n: nat,
                 ghost codec: Codec, ghost asked: Requests, ghost at: nat, ghost claim: Claim)
    returns (ok: bool)
    requires storage.Valid() && n <= |storage.journal|
    requires Updating(codec, asked, s, storage.disk) && AllUpdating(codec, asked, storage.journal, n, s)
    requires c in s.containers && c in storage.disk.containers && storage.disk.containers[c] == s.containers[c]
    requires s.containers[c].referenceFile.Some? && asked.since <= at < asked.until
    requires FetchedAt(codec, asked.serve, at, s.containers[c].referenceFile.value).Some?
    requires digest == FetchedAt(codec, asked.serve, at, s.containers[c].referenceFile.value).value.digest
    requires digest in storage.disk.manifests && ParseDigest(digest).Ok?
    modifies storage
    ensures storage.Valid() && old(storage.journal) <= storage.journal && storage.lock == old(storage.lock)
    ensures SafeStore(codec, old(storage.disk), claim) ==>
              SafeStore(codec, storage.disk, claim) && AllIntact(codec, storage.journal, |old(storage.journal)|, claim)
    ensures Updating(codec, asked, s, storage.disk) && AllUpdating(codec, asked, storage.journal, n, s)
    ensures storage.disk.containers - {c} == old(storage.disk).containers - {c}
    ensures storage.disk.manifests == old(storage.disk).manifests && storage.disk.layers == old(storage.disk).layers
    ensures ok ==> ReadDigest(storage.disk, c) == Some(digest)
    ensures ok && old(storage.disk).temporary == map[] ==> storage.disk.temporary == map[]
    ensures ok && old(storage.disk).temporary == map[] ==>
              storage.disk == if ReadDigest(old(storage.disk), c) == Some(digest) then old(storage.disk)
                              else PointTo(old(storage.disk), c, digest)
    ensures storage.Reliable() && ReadDigest(old(storage.disk), c).Some? ==> ok
  {
    hide AllIntact, OneOf, SafeStore, FetchedAt, FollowsProtocol, ParseDigest, Updating, AllUpdating, Core,
         ReadDigest, PointTo;
    ghost var u, before := storage.disk, storage.journal;
    NoneYet(codec, before, claim);
    var current := storage.ReadContainerManifestDigest(c);
    if current.None? { return false; }
    if current.value == digest { return true; }
    ok := storage.WriteContainerManifestDigest(c, digest);
    PointedContainers(u, storage.disk, c, digest, ok);
    PointedExactly(u, storage.disk, c, digest, ok);
    if ok {
      PointsThere(u, storage.disk, c, digest);
    }
    ghost var pointed := if ok then PointTo(u, c, digest) else u;
    UpdatingOne(codec, asked, before, storage.journal, n, s, u, pointed, c, digest, at);
    SameContainersUpdating(codec, asked, s, pointed, storage.disk);
    if SafeStore(codec, u, claim) {
      PointedIsSafe(codec, u, c, digest, claim);
      IntactMore(codec, before, storage.journal, |before|, u, pointed, claim);
      SafeIsCore(codec, pointed, storage.disk, claim);
    }
  }

  lemma PointsThere(s: Store, t: Store, c: string, digest: string)
    requires t.containers == PointTo(s, c, digest).containers && ParseDigest(digest).Ok?
    ensures ReadDigest(t, c) == Some(digest)
  {
    hide ParseDigest;
    VerifiedDigestNames(t, c, digest);
  }

  lemma PointedIsSafe(codec: Codec, s: Store, c: string, digest: string, claim: Claim)
    requires SafeStore(codec, s, claim) && c in s.containers && digest in s.manifests && ParseDigest(digest).Ok?
    ensures SafeStore(codec, PointTo(s, c, digest), claim)
  {
    hide SafeStore, ParseDigest;
    ContainerIsSafe(codec, s, c, digest, s.containers[c].referenceFile, claim);
  }

  /** One container updated, from any store that has it as it was. */
  function UpdatedOne(codec: Codec, serve: Registry, s: Store, t: Store, c: string,
                      trees: map<string, LayerContents>): Store
    requires c in t.containers && FetchedFor(codec, serve, s, c).Some?
  {
    var fetched := FetchedFor(codec, serve, s, c).value;
    var u := WithImage(t, fetched, trees);
    if ReadDigest(s, c) == Some(fetched.digest) then u else PointTo(u, c, fetched.digest)
  }

  lemma SameContainerReads(s: Store, t: Store, c: string)
    requires c in s.containers && c in t.containers && s.containers[c] == t.containers[c]
    ensures ReadDigest(s, c) == ReadDigest(t, c) && ReadReference(s, c) == ReadReference(t, c)
  {
  }

  lemma CoherentAt(codec: Codec, serve: Registry, s: Store, c: string,
                   documents: map<string, Bytes>, trees: map<string, LayerContents>, n: nat)
    requires Coherent(codec, serve, s, c, documents, trees)
    ensures ReadDigest(s, c).Some? && ReadReference(s, c).Some? && FetchedFor(codec, serve, s, c).Some?
    ensures FetchedAt(codec, serve, n, ReadReference(s, c).value) == FetchedFor(codec, serve, s, c)
    ensures ServesLayers(codec, serve, ReadReference(s, c).value,
                         FetchedFor(codec, serve, s, c).value.manifest.layers, trees)
  {
  }

  lemma IsUpdatedOne(codec: Codec, serve: Registry, s: Store, t: Store, u: Store, c: string,
                     documents: map<string, Bytes>, trees: map<string, LayerContents>)
    requires Coherent(codec, serve, s, c, documents, trees) && c in t.containers
    requires FetchedFor(codec, serve, s, c).Some?
    requires u == WithImage(t, FetchedFor(codec, serve, s, c).value, trees)
    requires ReadDigest(u, c) == ReadDigest(s, c)
    ensures var digest := FetchedFor(codec, serve, s, c).value.digest;
            UpdatedOne(codec, serve, s, t, c, trees)
            == if ReadDigest(u, c) == Some(digest) then u else PointTo(u, c, digest)
  {
  }

  lemma SameContainersUpdating(codec: Codec, asked: Requests, s: Store, t: Store, u: Store)
    requires Updating(codec, asked, s, t) && u.containers == t.containers
    ensures Updating(codec, asked, s, u) && t.containers.Keys == s.containers.Keys
  {
  }

  lemma PointedExactly(t: Store, u: Store, c: string, digest: string, ok: bool)
    requires c in t.containers && Core(u) == Core(if ok then PointTo(t, c, digest) else t)
    ensures ok && u.temporary == t.temporary - {DIGEST_FILE} && t.temporary == map[] ==> u == PointTo(t, c, digest)
    ensures u.containers - {c} == t.containers - {c}
  {
  }

  lemma SafeIsCore(codec: Codec, s: Store, t: Store, claim: Claim)
    requires Core(s) == Core(t) && SafeStore(codec, s, claim)
    ensures SafeStore(codec, t, claim)
  {
    IntactIsCore(codec, s, t);
  }

  ghost predicate AllCoherent(codec: Codec, serve: Registry, s: Store, names: set<string>,
                              documents: map<string, Bytes>, trees: map<string, LayerContents>)
  {
    forall c | c in names :: c in s.containers && Coherent(codec, serve, s, c, documents, trees)
  }

  /** These containers are taken in any order. */
  method UpdateEach(storage: StorageMutable, client: RegistryClient, names: set<string>,
                    ghost documents: map<string, Bytes>, ghost trees: map<string, LayerContents>, ghost claim: Claim)
    returns (ok: bool)
    requires storage.Valid() && storage.codec == client.codec && Covers(claim, client.serve)
    modifies storage, client
    ensures storage.Valid() && old(storage.journal) <= storage.journal && storage.lock == old(storage.lock)
    ensures SafeStart(storage.codec, old(storage.disk), claim) ==>
              AllIntact(storage.codec, storage.journal, |old(storage.journal)|, claim)
    ensures var asked := Requests(client.serve, old(client.clock), client.clock);
            && Updating(client.codec, asked, old(storage.disk), storage.disk)
            && AllUpdating(client.codec, asked, storage.journal, |old(storage.journal)|, old(storage.disk))
    ensures KeepsData(storage.codec, old(storage.disk), storage.disk)
    ensures SameElsewhere(old(storage.disk), storage.disk, names)
    ensures ok ==> AllRefreshed(client.codec, client.serve, old(client.clock), client.clock, old(storage.disk),
                                storage.disk, names)
    ensures
      storage.Reliable() && old(storage.disk).temporary == map[]
      && AllCoherent(client.codec, client.serve, old(storage.disk), names, documents, trees) ==>
        ok && storage.disk == Updated(client.codec, client.serve, old(storage.disk), names, documents, trees)
  {
    hide AllIntact, SafeStore, FetchedAt, FollowsProtocol, Updating, AllUpdating, Coherent, Updated, UpdatedOne,
         KeepsData, Refreshed, AllRefreshed, SameElsewhere, Covers, ReadDigest, ReadReference, SafeStart, Deliveries;
    ghost var codec, serve := client.codec, client.serve;
    ghost var first := client.clock;
    ghost var s, n := storage.disk, |storage.journal|;
    var remaining := names;
    StartIsSafeStore(codec, s, claim);
    NoneYet(codec, storage.journal, claim);
    UpdatingStarts(codec, Requests(serve, first, first), storage.journal, s);
    NothingUpdated(codec, serve, s, documents, trees);
    SameDataIsKept(codec, s, s);
    NoneRefreshed(codec, serve, first, first, s, s);
    NothingElsewhere(s, names);
    assert names - remaining == {};
    while remaining != {}
      invariant storage.Valid() && old(storage.journal) <= storage.journal && storage.lock == old(storage.lock)
      invariant remaining <= names
      invariant SafeStart(codec, s, claim) ==>
                  SafeStore(codec, storage.disk, claim) && AllIntact(codec, storage.journal, n, claim)
      invariant s.temporary == map[] ==> storage.disk.temporary == map[]
      invariant Updating(codec, Requests(serve, first, client.clock), s, storage.disk)
      invariant AllUpdating(codec, Requests(serve, first, client.clock), storage.journal, n, s)
      invariant KeepsData(codec, s, storage.disk) && first <= client.clock
      invariant SameElsewhere(s, storage.disk, names)
      invariant AllRefreshed(codec, serve, first, client.clock, s, storage.disk, names - remaining)
      invariant forall c | c in remaining && c in storage.disk.containers ::
                  c in s.containers && storage.disk.containers[c] == s.containers[c]
      invariant storage.Reliable() && s.temporary == map[] && AllCoherent(codec, serve, s, names, documents, trees) ==>
                  storage.disk == Updated(codec, serve, s, names - remaining, documents, trees)
    {
      var c :| c in remaining;
      ghost var t, journal := storage.disk, storage.journal;
      ghost var done := names - remaining;
      SameContainersUpdating(codec, Requests(serve, first, client.clock), s, t, t);
      if AllCoherent(codec, serve, s, names, documents, trees) {
        CoherentNext(codec, serve, s, names, done, c, documents, trees);
      }
      ghost var middle := client.clock;
      ok := UpdateOne(storage, client, c, s, n, first, documents, trees, claim);
      KeepsMoreData(codec, s, t, storage.disk);
      ElsewhereNext(s, t, storage.disk, names, c);
      if SafeStart(codec, s, claim) {
        StillSafeStart(codec, s, t, claim);
        IntactThroughout(codec, journal, storage.journal, n, claim);
      }
      if !ok { return; }
      remaining := remaining - {c};
      assert names - remaining == done + {c};
      OthersUntouched(t, storage.disk, c);
      ManifestsKept(codec, t, storage.disk);
      RefreshedNext(codec, serve, first, middle, client.clock, s, t, storage.disk, done, c);
    }
    assert names - {} == names;
    ok := true;
  }

  /** Updates the named containers, or all if none are named, in any order. Every moment is safe and
      finds each container as it was or at what was fetched for it; with a registry that always
      answers alike, the outcome does not depend on the order. */
  method Update(storage: StorageMutable, client: RegistryClient, containers: seq<string>,
                ghost documents: map<string, Bytes>, ghost trees: map<string, LayerContents>, ghost claim: Claim)
    returns (ok: bool)
    requires storage.Valid() && storage.codec == client.codec && Covers(claim, client.serve)
    modifies storage, client
    ensures storage.Valid() && old(storage.journal) <= storage.journal && storage.lock == old(storage.lock)
    ensures SafeStart(storage.codec, old(storage.disk), claim) ==>
              AllIntact(storage.codec, storage.journal, |old(storage.journal)|, claim)
    ensures var asked := Requests(client.serve, old(client.clock), client.clock);
            && Updating(client.codec, asked, old(storage.disk), storage.disk)
            && AllUpdating(client.codec, asked, storage.journal, |old(storage.journal)|, old(storage.disk))
    ensures KeepsData(storage.codec, old(storage.disk), storage.disk)
    ensures ok ==>
              forall c | c in containers || (containers == [] && c in old(storage.disk).containers) ::
                Refreshed(client.codec, client.serve, old(client.clock), client.clock, old(storage.disk),
                          storage.disk, c)
    ensures containers != [] ==>
              forall c | c !in containers && c in old(storage.disk).containers ::
                c in storage.disk.containers && storage.disk.containers[c] == old(storage.disk).containers[c]
    ensures
      var names := if containers == [] then old(storage.disk).containers.Keys else set c | c in containers;
      storage.Reliable() && old(storage.disk).temporary == map[]
      && AllCoherent(client.codec, client.serve, old(storage.disk), names, documents, trees) ==>
        ok && storage.disk == Updated(client.codec, client.serve, old(storage.disk), names, documents, trees)
  {
    hide AllIntact, SafeStore, FetchedAt, FollowsProtocol, Updating, AllUpdating, Coherent, Updated, KeepsData,
         Refreshed, AllRefreshed, SameElsewhere, Covers, SafeStart, Deliveries;
    ghost var s, first := storage.disk, client.clock;
    var names := if containers == [] then storage.disk.containers.Keys else set c | c in containers;
    ok := UpdateEach(storage, client, names, documents, trees, claim);
    OthersAsBefore(s, storage.disk, names);
    if ok {
      AllAreRefreshed(client.codec, client.serve, first, client.clock, s, storage.disk, names);
    }
  }

  /** Containers other than these are untouched. */
  predicate SameElsewhere(s: Store, t: Store, names: set<string>) {
    t.containers - names == s.containers - names
  }

  lemma NothingElsewhere(s: Store, names: set<string>)
    ensures SameElsewhere(s, s, names)
  {
  }

  lemma OthersAsBefore(s: Store, t: Store, names: set<string>)
    requires SameElsewhere(s, t, names)
    ensures forall c | c !in names && c in s.containers :: c in t.containers && t.containers[c] == s.containers[c]
  {
    forall c | c !in names && c in s.containers ensures c in t.containers && t.containers[c] == s.containers[c] {
      assert c in s.containers - names;
      assert (t.containers - names)[c] == (s.containers - names)[c];
    }
  }

  lemma ElsewhereNext(s: Store, t: Store, u: Store, names: set<string>, c: string)
    requires SameElsewhere(s, t, names) && c in names && u.containers - {c} == t.containers - {c}
    ensures SameElsewhere(s, u, names)
  {
    assert names == {c} + names;
    assert u.containers - names == u.containers - {c} - names;
    assert t.containers - names == t.containers - {c} - names;
  }

  lemma ManifestsKept(codec: Codec, s: Store, t: Store)
    requires KeepsData(codec, s, t)
    ensures s.manifests.Keys <= t.manifests.Keys
  {
  }

  lemma OthersUntouched(t: Store, u: Store, c: string)
    requires u.containers - {c} == t.containers - {c}
    ensures forall other | other != c :: other in u.containers <==> other in t.containers
    ensures forall other | other != c && other in t.containers :: u.containers[other] == t.containers[other]
  {
    forall other | other != c
      ensures other in u.containers <==> other in t.containers
      ensures other in t.containers ==> u.containers[other] == t.containers[other]
    {
      assert other in u.containers <==> other in u.containers - {c};
      assert other in t.containers <==> other in t.containers - {c};
    }
  }

  lemma NothingUpdated(codec: Codec, serve: Registry, s: Store,
                       documents: map<string, Bytes>, trees: map<string, LayerContents>)
    ensures Updated(codec, serve, s, {}, documents, trees) == s
  {
    assert NewDigests(codec, serve, s, {}) == {} && NewLayers(codec, serve, s, {}) == {};
    assert NewContainers(codec, serve, s, {}) == s.containers;
    assert NewManifests(s.manifests, {}, documents) == s.manifests;
    assert CompletedLayers(s.layers, {}, trees) == s.layers;
  }

  lemma CoherentNext(codec: Codec, serve: Registry, s: Store, names: set<string>, done: set<string>, c: string,
                     documents: map<string, Bytes>, trees: map<string, LayerContents>)
    requires AllCoherent(codec, serve, s, names, documents, trees) && done <= names && c in names && c !in done
    ensures c in s.containers && Coherent(codec, serve, s, c, documents, trees)
    ensures FetchedFor(codec, serve, s, c).Some? && c in Updated(codec, serve, s, done, documents, trees).containers
    ensures Updated(codec, serve, s, done + {c}, documents, trees)
            == UpdatedOne(codec, serve, s, Updated(codec, serve, s, done, documents, trees), c, trees)
  {
    hide FetchedAt;
    UpdatedNext(codec, serve, s, done, c, documents, trees);
  }
}
