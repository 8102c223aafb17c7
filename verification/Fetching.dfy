/** Fetching images from a registry that may answer anything, into a storage directory. */
module Fetching {
  import opened Wrappers
  import opened Digests
  import opened References
  import opened LayerTree
  import opened Whiteouts
  import opened Stores
  import opened Protocol
  import opened Extraction
  import opened MutableStorage

  datatype MediaType = IndexType | ManifestType | UnknownType

  datatype Request =
    | ManifestRequest(registry: string, repository: string, specifier: string, indexAccepted: bool)
    | BlobRequest(registry: string, repository: string, digest: string, mediaType: string)

  /** The body arrives completely, or breaks off. */
  datatype Response =
    | Failure
    | Reply(body: Bytes, breaksAt: Option<nat>, mediaType: MediaType, contentDigest: Option<string>)

  /** The answer to a request depends on its number, so a registry may change its mind. */
  type Registry = (nat, Request) -> Response

  datatype ManifestBytes = ManifestBytes(bytes: Bytes, digest: string, mediaType: MediaType)

  datatype FetchedManifest = FetchedManifest(manifest: Manifest, bytes: Bytes, digest: string)

  // ----- Manifests -----

  function ManifestBytesAt(codec: Codec, serve: Registry, n: nat, reference: Reference, indexAccepted: bool)
    : Option<ManifestBytes>
  {
    match serve(n, ManifestRequest(reference.registry, reference.repository, reference.specifier.Text(), indexAccepted))
    case Failure => None
    case Reply(body, breaksAt, mediaType, contentDigest) =>
      if contentDigest.None? || breaksAt.Some? || !Verifies(codec.hash, body, contentDigest.value) then None
      else if reference.specifier.Digest? && !Verifies(codec.hash, body, reference.specifier.digest) then None
      else Some(ManifestBytes(body, contentDigest.value, mediaType))
  }

  function ParseFetched(codec: Codec, fetched: ManifestBytes): Option<FetchedManifest> {
    match codec.parseManifest(fetched.bytes)
    case None => None
    case Some(manifest) =>
      if manifest.schemaVersion != 2 then None else Some(FetchedManifest(manifest, fetched.bytes, fetched.digest))
  }

  function FirstForPlatform(descriptors: seq<Descriptor>): Option<Descriptor> {
    if descriptors == [] then None
    else if descriptors[0].matchesPlatform then Some(descriptors[0])
    else FirstForPlatform(descriptors[1..])
  }

  function Select(descriptors: seq<Descriptor>): Option<Descriptor> {
    match FirstForPlatform(descriptors)
    case Some(descriptor) => Some(descriptor)
    case None => if descriptors == [] then None else Some(descriptors[0])
  }

  function SelectedAt(codec: Codec, serve: Registry, n: nat, reference: Reference, index: ManifestBytes)
    : Option<FetchedManifest>
  {
    match codec.parseIndex(index.bytes)
    case None => None
    case Some(descriptors) =>
      match Select(descriptors)
      case None => None
      case Some(descriptor) =>
        match ManifestBytesAt(codec, serve, n, reference.(specifier := Digest(descriptor.digest)), false)
        case None => None
        case Some(fetched) => ParseFetched(codec, fetched)
  }

  /** The manifest that a reference leads to, directly or through an index, from request `n` on. */
  function FetchedAt(codec: Codec, serve: Registry, n: nat, reference: Reference): Option<FetchedManifest> {
    match ManifestBytesAt(codec, serve, n, reference, true)
    case None => None
    case Some(fetched) =>
      match fetched.mediaType
      case IndexType => SelectedAt(codec, serve, n + 1, reference, fetched)
      case ManifestType => ParseFetched(codec, fetched)
      case UnknownType =>
        match ParseFetched(codec, fetched)
        case Some(manifest) => Some(manifest)
        case None => SelectedAt(codec, serve, n + 1, reference, fetched)
  }

  /** Bytes that verify under their digest, and the manifest that they are. */
  predicate IsVerified(codec: Codec, fetched: FetchedManifest) {
    && Verifies(codec.hash, fetched.bytes, fetched.digest)
    && codec.parseManifest(fetched.bytes) == Some(fetched.manifest)
  }

  /** Whatever the registry answers, a manifest that is accepted verifies under its digest. */
  lemma FetchedIsVerified(codec: Codec, serve: Registry, n: nat, reference: Reference)
    requires FetchedAt(codec, serve, n, reference).Some?
    ensures IsVerified(codec, FetchedAt(codec, serve, n, reference).value)
    ensures FetchedAt(codec, serve, n, reference).value.manifest.schemaVersion == 2
  {
  }

  // ----- Which answers a manifest comes from -----

  /** This request was answered with these bytes, completely and under this digest, which verify under
      it, and under the digest that was asked for if one was. */
  predicate IsAnswered(codec: Codec, serve: Registry, n: nat, reference: Reference, indexAccepted: bool,
                       answer: ManifestBytes)
  {
    && serve(n, ManifestRequest(reference.registry, reference.repository, reference.specifier.Text(), indexAccepted))
       == Reply(answer.bytes, None, answer.mediaType, Some(answer.digest))
    && Verifies(codec.hash, answer.bytes, answer.digest)
    && (reference.specifier.Digest? ==> Verifies(codec.hash, answer.bytes, reference.specifier.digest))
  }

  lemma AnswerIsTaken(codec: Codec, serve: Registry, n: nat, reference: Reference, indexAccepted: bool,
                      answer: ManifestBytes)
    ensures IsAnswered(codec, serve, n, reference, indexAccepted, answer)
            <==> ManifestBytesAt(codec, serve, n, reference, indexAccepted) == Some(answer)
  {
    hide Verifies;
  }

  /** The descriptor that is taken from an index: the first for this platform, or else the first. */
  predicate IsChoice(descriptors: seq<Descriptor>, i: nat) {
    && i < |descriptors|
    && (forall j | 0 <= j < i :: !descriptors[j].matchesPlatform)
    && (|| descriptors[i].matchesPlatform
        || (i == 0 && forall j | 0 <= j < |descriptors| :: !descriptors[j].matchesPlatform))
  }

  lemma {:induction false} FirstIsFirst(descriptors: seq<Descriptor>) returns (i: nat)
    ensures match FirstForPlatform(descriptors)
            case None => forall j | 0 <= j < |descriptors| :: !descriptors[j].matchesPlatform
            case Some(descriptor) =>
              && i < |descriptors| && descriptors[i] == descriptor && descriptor.matchesPlatform
              && forall j | 0 <= j < i :: !descriptors[j].matchesPlatform
  {
    i := 0;
    if descriptors != [] && !descriptors[0].matchesPlatform {
      var k := FirstIsFirst(descriptors[1..]);
      i := k + 1;
      assert forall j | 0 < j < |descriptors| :: descriptors[j] == descriptors[1..][j - 1];
    }
  }

  /** A descriptor for this platform wins, wherever it stands. */
  lemma SelectsForPlatform(descriptors: seq<Descriptor>, i: nat)
    requires IsChoice(descriptors, i)
    ensures Select(descriptors) == Some(descriptors[i])
  {
    var k := FirstIsFirst(descriptors);
  }

  lemma SomethingIsSelected(descriptors: seq<Descriptor>) returns (i: nat)
    requires Select(descriptors).Some?
    ensures IsChoice(descriptors, i)
  {
    i := FirstIsFirst(descriptors);
    if FirstForPlatform(descriptors).None? {
      i := 0;
    }
  }

  /** These bytes are a manifest of the version that is understood. */
  predicate IsManifest(codec: Codec, bytes: Bytes, manifest: Manifest) {
    codec.parseManifest(bytes) == Some(manifest) && manifest.schemaVersion == 2
  }

  /** The answer itself is the manifest; it was not declared to be an index. */
  predicate IsFetchedDirectly(codec: Codec, serve: Registry, n: nat, reference: Reference, fetched: FetchedManifest,
                              mediaType: MediaType)
  {
    && IsAnswered(codec, serve, n, reference, true, ManifestBytes(fetched.bytes, fetched.digest, mediaType))
    && mediaType != IndexType && IsManifest(codec, fetched.bytes, fetched.manifest)
  }

  /** The answer is an index, declared or, if it cannot be the manifest, tried as one, and the next
      request was answered with the manifest that the index has for this platform. */
  ghost predicate IsFetchedByIndex(codec: Codec, serve: Registry, n: nat, reference: Reference,
                                   fetched: FetchedManifest, index: ManifestBytes, i: nat, mediaType: MediaType)
  {
    && IsAnswered(codec, serve, n, reference, true, index)
    && (index.mediaType == IndexType
        || (index.mediaType == UnknownType && forall manifest :: !IsManifest(codec, index.bytes, manifest)))
    && codec.parseIndex(index.bytes).Some? && IsChoice(codec.parseIndex(index.bytes).value, i)
    && IsAnswered(codec, serve, n + 1,
                  reference.(specifier := Digest(codec.parseIndex(index.bytes).value[i].digest)), false,
                  ManifestBytes(fetched.bytes, fetched.digest, mediaType))
    && IsManifest(codec, fetched.bytes, fetched.manifest)
  }

  /** What a fetch arrives at is exactly what is answered in one of these two ways. */
  lemma FetchedIsAnswered(codec: Codec, serve: Registry, n: nat, reference: Reference, fetched: FetchedManifest)
    ensures FetchedAt(codec, serve, n, reference) == Some(fetched) <==>
              || (exists mediaType :: IsFetchedDirectly(codec, serve, n, reference, fetched, mediaType))
              || (exists index, i, mediaType ::
                    IsFetchedByIndex(codec, serve, n, reference, fetched, index, i, mediaType))
  {
    hide Verifies, FirstForPlatform, IsAnswered, ManifestBytesAt, Select, IsChoice;
    forall mediaType | IsFetchedDirectly(codec, serve, n, reference, fetched, mediaType)
      ensures FetchedAt(codec, serve, n, reference) == Some(fetched)
    {
      AnswerIsTaken(codec, serve, n, reference, true, ManifestBytes(fetched.bytes, fetched.digest, mediaType));
    }
    forall index, i: nat, mediaType | IsFetchedByIndex(codec, serve, n, reference, fetched, index, i, mediaType)
      ensures FetchedAt(codec, serve, n, reference) == Some(fetched)
    {
      FetchedByIndex(codec, serve, n, reference, fetched, index, i, mediaType);
    }
    if FetchedAt(codec, serve, n, reference) == Some(fetched) {
      AnswersOf(codec, serve, n, reference, fetched);
    }
  }

  lemma FetchedByIndex(codec: Codec, serve: Registry, n: nat, reference: Reference, fetched: FetchedManifest,
                       index: ManifestBytes, i: nat, mediaType: MediaType)
    requires IsFetchedByIndex(codec, serve, n, reference, fetched, index, i, mediaType)
    ensures FetchedAt(codec, serve, n, reference) == Some(fetched)
  {
    hide Verifies, FirstForPlatform, IsAnswered, ManifestBytesAt, Select, IsChoice;
    var descriptors := codec.parseIndex(index.bytes).value;
    AnswerIsTaken(codec, serve, n, reference, true, index);
    SelectsForPlatform(descriptors, i);
    ChoiceExists(descriptors, i);
    AnswerIsTaken(codec, serve, n + 1, reference.(specifier := Digest(descriptors[i].digest)), false,
                  ManifestBytes(fetched.bytes, fetched.digest, mediaType));
    if ParseFetched(codec, index).Some? {
      assert IsManifest(codec, index.bytes, ParseFetched(codec, index).value.manifest);
    }
  }

  lemma AnswersOf(codec: Codec, serve: Registry, n: nat, reference: Reference, fetched: FetchedManifest)
    requires FetchedAt(codec, serve, n, reference) == Some(fetched)
    ensures || (exists mediaType :: IsFetchedDirectly(codec, serve, n, reference, fetched, mediaType))
            || (exists index, i, mediaType ::
                  IsFetchedByIndex(codec, serve, n, reference, fetched, index, i, mediaType))
  {
    hide Verifies, FirstForPlatform, IsAnswered, ManifestBytesAt, Select, IsChoice;
    var first := ManifestBytesAt(codec, serve, n, reference, true).value;
    AnswerIsTaken(codec, serve, n, reference, true, first);
    if first.mediaType != IndexType && ParseFetched(codec, first).Some? {
      assert IsFetchedDirectly(codec, serve, n, reference, fetched, first.mediaType);
    } else {
      var descriptors := codec.parseIndex(first.bytes).value;
      var i := SomethingIsSelected(descriptors);
      ChoiceExists(descriptors, i);
      SelectsForPlatform(descriptors, i);
      var asked := reference.(specifier := Digest(descriptors[i].digest));
      var second := ManifestBytesAt(codec, serve, n + 1, asked, false).value;
      AnswerIsTaken(codec, serve, n + 1, asked, false, second);
      assert IsFetchedByIndex(codec, serve, n, reference, fetched, first, i, second.mediaType);
    }
  }

  lemma ChoiceExists(descriptors: seq<Descriptor>, i: nat)
    requires IsChoice(descriptors, i)
    ensures i < |descriptors|
  {
  }

  // ----- Fetching layers -----

  /** Which layers are fetched, from what, and whether the temporary directory is clear. */
  datatype Source = Source(digests: set<string>, received: iset<Delivery>, clear: bool)

  ghost predicate WasReceived(serve: Registry, delivery: Delivery) {
    exists n, request :: Delivers(serve, n, request, delivery)
  }

  predicate Delivers(serve: Registry, n: nat, request: Request, delivery: Delivery) {
    && request.BlobRequest? && request.digest == delivery.digest
    && FormatOf(request.mediaType) == Some(delivery.format)
    && serve(n, request).Reply? && serve(n, request).body == delivery.body
  }

  /** All that a registry answers to requests for layers. */
  ghost function Deliveries(serve: Registry): iset<Delivery> {
    iset delivery | WasReceived(serve, delivery)
  }

  ghost function ImageSource(fetched: FetchedManifest, serve: Registry, clear: bool): Source {
    Source(DigestsOf(fetched.manifest.layers), Deliveries(serve), clear)
  }

  /** `t` is `s` with more layers, of those that are fetched; each is whole if the temporary
      directory was clear. */
  ghost predicate AddsLayers(codec: Codec, s: Store, t: Store, source: Source) {
    && t.containers == s.containers && t.manifests == s.manifests
    && t.locks == s.locks && t.nextInode == s.nextInode
    && LayersKept(s, t) && t.layers.Keys <= s.layers.Keys + source.digests
    && (source.clear ==> forall digest | digest in t.layers && digest !in s.layers ::
                           WholeLayer(codec, source.received, digest, t.layers[digest]))
  }

  ghost predicate AllAddLayers(codec: Codec, journal: seq<Moment>, n: nat, s: Store, source: Source) {
    forall k | n <= k < |journal| :: AddsLayers(codec, s, StoreAt(journal, k), source)
  }

  /** The layer is what this answer is extracted to, and the answer verifies. */
  ghost predicate ComesFrom(codec: Codec, response: Response, layer: Descriptor, tree: LayerContents) {
    && FormatOf(layer.mediaType).Some? && response.Reply? && Verifies(codec.hash, response.body, layer.digest)
    && Extracts(codec, FormatOf(layer.mediaType).value, EMPTY_TREE, response.body, tree)
  }

  lemma IsFromAnswer(codec: Codec, s: Store, response: Response, layer: Descriptor, tree: LayerContents)
    requires FormatOf(layer.mediaType).Some? && response.Reply? && Verifies(codec.hash, response.body, layer.digest)
    requires Extracts(codec, FormatOf(layer.mediaType).value, Leftover(s, layer.digest), response.body, tree)
    ensures s.temporary == map[] ==> ComesFrom(codec, response, layer, tree)
  {
    hide Verifies, Extracts;
  }

  lemma ExtractedIsWhole(codec: Codec, received: iset<Delivery>, delivery: Delivery, tree: LayerContents)
    requires delivery in received && Verifies(codec.hash, delivery.body, delivery.digest)
    requires Extracts(codec, delivery.format, EMPTY_TREE, delivery.body, tree)
    ensures WholeLayer(codec, received, delivery.digest, tree)
  {
    hide Verifies, ConvertsTo;
    var archive := codec.unpack(delivery.format, EMPTY_TREE, delivery.body).value;
    assert ExtractedFrom(codec, received, delivery.digest, tree, delivery, archive);
  }

  lemma AnswerWasReceived(serve: Registry, n: nat, request: Request, format: LayerFormat)
    requires request.BlobRequest? && FormatOf(request.mediaType) == Some(format) && serve(n, request).Reply?
    ensures Delivery(request.digest, format, serve(n, request).body) in Deliveries(serve)
  {
    assert Delivers(serve, n, request, Delivery(request.digest, format, serve(n, request).body));
  }

  /** The steps of writing one layer keep adding layers. */
  lemma AddedOne(codec: Codec, first: seq<Moment>, second: seq<Moment>, n: nat, s: Store, source: Source,
                 before: Store, after: Store)
    requires n <= |first| && first <= second && AllAddLayers(codec, first, n, s, source)
    requires OneOf(second, |first|, before, after)
    requires AddsLayers(codec, s, before, source) && AddsLayers(codec, s, after, source)
    ensures AllAddLayers(codec, second, n, s, source)
  {
    forall k | n <= k < |second| ensures AddsLayers(codec, s, StoreAt(second, k), source) {
      if k < |first| {
        assert StoreAt(second, k) == StoreAt(first, k);
      } else {
        var between := StoreAt(second, k);
        SameCore(codec, s, if Core(between) == Core(before) then before else after, between, source);
      }
    }
  }

  lemma SameCore(codec: Codec, s: Store, t: Store, t': Store, source: Source)
    requires Core(t) == Core(t')
    ensures AddsLayers(codec, s, t, source) == AddsLayers(codec, s, t', source)
  {
    assert t'.(temporary := t.temporary) == t;
  }

  // ----- What a well-behaved registry leads to -----

  /** The layer that request `n` leads to: whole, well formed and converted. */
  function LayerAt(codec: Codec, serve: Registry, n: nat, reference: Reference, layer: Descriptor): Option<Tree> {
    match FormatOf(layer.mediaType)
    case None => None
    case Some(format) =>
      match serve(n, BlobRequest(reference.registry, reference.repository, layer.digest, layer.mediaType))
      case Failure => None
      case Reply(body, breaksAt, _, _) =>
        var unpacked := codec.unpack(format, EMPTY_TREE, body);
        if breaksAt.Some? || !Verifies(codec.hash, body, layer.digest) || unpacked.None? || !WellFormed(unpacked.value)
        then None else Some(Converted(unpacked.value))
  }

  ghost predicate ServesLayer(codec: Codec, serve: Registry, reference: Reference, layer: Descriptor,
                              trees: map<string, LayerContents>)
  {
    layer.digest in trees && forall n :: LayerAt(codec, serve, n, reference, layer) == Some(trees[layer.digest])
  }

  ghost predicate ServesLayers(codec: Codec, serve: Registry, reference: Reference, layers: seq<Descriptor>,
                               trees: map<string, LayerContents>)
  {
    forall i | 0 <= i < |layers| :: ServesLayer(codec, serve, reference, layers[i], trees)
  }

  function CompletedLayers(layers: map<string, LayerContents>, digests: set<string>, trees: map<string, LayerContents>)
    : map<string, LayerContents>
  {
    map d | d in layers.Keys + digests && (d in layers || d in trees) :: if d in layers then layers[d] else trees[d]
  }

  /** The store with the missing ones of some layers added. */
  function Completed(s: Store, digests: set<string>, trees: map<string, LayerContents>): Store {
    s.(layers := CompletedLayers(s.layers, digests, trees))
  }

  lemma CompletedMore(s: Store, digests: set<string>, more: set<string>, trees: map<string, LayerContents>)
    ensures Completed(Completed(s, digests, trees), more, trees) == Completed(s, digests + more, trees)
  {
    var once := CompletedLayers(s.layers, digests, trees);
    var twice := CompletedLayers(once, more, trees);
    var both := CompletedLayers(s.layers, digests + more, trees);
    hide CompletedLayers;
    forall d
      ensures d in twice <==> d in both
      ensures d in both ==> twice[d] == both[d]
    {
      CompletedLookup(s.layers, digests, trees, d);
      CompletedLookup(once, more, trees, d);
      CompletedLookup(s.layers, digests + more, trees, d);
    }
  }

  lemma CompletedLookup(layers: map<string, LayerContents>, digests: set<string>,
                        trees: map<string, LayerContents>, d: string)
    ensures var completed := CompletedLayers(layers, digests, trees);
            && (d in completed <==> d in layers || (d in digests && d in trees))
            && (d in completed ==> completed[d] == if d in layers then layers[d] else trees[d])
  {
  }

  /** What a fetch of this manifest may have made of a store: layers added, and the manifest saved
      once all its layers are there. */
  ghost predicate Fetches(codec: Codec, s: Store, t: Store, fetched: FetchedManifest, source: Source) {
    && AddsLayers(codec, s, t.(manifests := s.manifests), source)
    && (|| t.manifests == s.manifests
        || (t.manifests == s.manifests[fetched.digest := fetched.bytes] && LayersPresent(t, fetched.manifest)))
  }

  ghost predicate AllFetch(codec: Codec, journal: seq<Moment>, n: nat, s: Store, fetched: FetchedManifest,
                           source: Source)
  {
    forall k | n <= k < |journal| :: Fetches(codec, s, StoreAt(journal, k), fetched, source)
  }

  /** No layer and no manifest goes; layers, and manifests that verify, stay what they are. */
  predicate KeepsData(codec: Codec, s: Store, t: Store) {
    && LayersKept(s, t)
    && s.manifests.Keys <= t.manifests.Keys
    && forall d | d in s.manifests && Verifies(codec.hash, s.manifests[d], d) :: t.manifests[d] == s.manifests[d]
  }

  lemma KeepsMoreData(codec: Codec, s: Store, t: Store, u: Store)
    requires KeepsData(codec, s, t) && KeepsData(codec, t, u)
    ensures KeepsData(codec, s, u)
  {
    hide Verifies;
  }

  lemma SameDataIsKept(codec: Codec, s: Store, t: Store)
    requires t.manifests == s.manifests && t.layers == s.layers
    ensures KeepsData(codec, s, t)
  {
  }

  lemma FetchKeepsData(codec: Codec, s: Store, t: Store, fetched: FetchedManifest, source: Source)
    requires Fetches(codec, s, t, fetched, source)
    requires t.manifests == s.manifests || fetched.digest !in s.manifests
             || !Verifies(codec.hash, s.manifests[fetched.digest], fetched.digest)
    ensures KeepsData(codec, s, t)
  {
    hide Verifies;
  }

  class RegistryClient {
    const codec: Codec
    const serve: Registry
    /** How decoders and buffers split their reads of the answer to a request. */
    const requestSizes: nat -> seq<nat>
    /** The number of the next request. */
    var clock: nat

    constructor (codec: Codec, serve: Registry, requestSizes: nat -> seq<nat>)
      ensures this.codec == codec && this.serve == serve && this.requestSizes == requestSizes && clock == 0
    {
      this.codec, this.serve, this.requestSizes := codec, serve, requestSizes;
      clock := 0;
    }

    /** One request; the bytes must verify under the digest of the answer, and under the one that was
        asked for, if any. */
    method FetchManifestBytes(reference: Reference, indexAccepted: bool) returns (fetched: Option<ManifestBytes>)
      modifies this
      ensures fetched == ManifestBytesAt(codec, serve, old(clock), reference, indexAccepted)
      ensures clock == old(clock) + 1
    {
      var request :=
        ManifestRequest(reference.registry, reference.repository, reference.specifier.Text(), indexAccepted);
      var response := serve(clock, request);
      clock := clock + 1;
      if response.Failure? || response.contentDigest.None? || response.breaksAt.Some? {
        return None;
      }
      var verified := VerifyBytes(codec.hash, response.body, response.contentDigest.value);
      if verified.Err? { return None; }
      if reference.specifier.Digest? {
        verified := VerifyBytes(codec.hash, response.body, reference.specifier.digest);
        if verified.Err? { return None; }
      }
      fetched := Some(ManifestBytes(response.body, response.contentDigest.value, response.mediaType));
    }

    method HandleImageIndex(reference: Reference, index: ManifestBytes) returns (fetched: Option<FetchedManifest>)
      modifies this
      ensures fetched == SelectedAt(codec, serve, old(clock), reference, index) && old(clock) <= clock
    {
      var descriptors := codec.parseIndex(index.bytes);
      if descriptors.None? { return None; }
      var descriptor := Select(descriptors.value);
      if descriptor.None? { return None; }
      var selected := FetchManifestBytes(reference.(specifier := Digest(descriptor.value.digest)), false);
      if selected.None? { return None; }
      fetched := ParseFetched(codec, selected.value);
    }

    /** Fetches a manifest, directly or through an index; what is not declared to be either is tried
        as a manifest first. */
    method FetchImageManifest(reference: Reference) returns (fetched: Option<FetchedManifest>)
      modifies this
      ensures fetched == FetchedAt(codec, serve, old(clock), reference) && old(clock) < clock
    {
      hide ManifestBytesAt, ParseFetched, SelectedAt;
      var first := FetchManifestBytes(reference, true);
      if first.None? { return None; }
      match first.value.mediaType {
        case IndexType => fetched := HandleImageIndex(reference, first.value);
        case ManifestType => fetched := ParseFetched(codec, first.value);
        case UnknownType =>
          fetched := ParseFetched(codec, first.value);
          if fetched.None? {
            fetched := HandleImageIndex(reference, first.value);
          }
      }
    }

    /** Fetches one layer unless it is there. */
    method FetchLayer(storage: StorageMutable, reference: Reference, layer: Descriptor,
                      ghost trees: map<string, LayerContents>)
      returns (ok: bool)
      requires storage.Valid() && storage.codec == codec
      modifies this, storage
      ensures storage.Valid() && old(storage.journal) <= storage.journal && storage.lock == old(storage.lock)
      ensures old(clock) <= clock
      ensures ok ==> layer.digest in storage.disk.layers
      ensures ok && old(storage.disk.temporary) == map[] ==> storage.disk.temporary == map[]
      ensures var source := Source({layer.digest}, Deliveries(serve), old(storage.disk.temporary) == map[]);
              && AddsLayers(codec, old(storage.disk), storage.disk, source)
              && AllAddLayers(codec, storage.journal, |old(storage.journal)|, old(storage.disk), source)
      ensures ok && layer.digest !in old(storage.disk.layers) && old(storage.disk.temporary) == map[] ==>
        var request := BlobRequest(reference.registry, reference.repository, layer.digest, layer.mediaType);
        ComesFrom(codec, serve(old(clock), request), layer, storage.disk.layers[layer.digest])
      ensures storage.Reliable() && old(storage.disk.temporary) == map[]
              && ServesLayer(codec, serve, reference, layer, trees) ==>
                ok && storage.disk == Completed(old(storage.disk), {layer.digest}, trees)
    {
      hide OneOf, AllAddLayers, AddsLayers, ServesLayer, LayerAt, Completed, Core, Extracts, WellFormed, Verifies,
           Deliveries, ComesFrom;
      ghost var s, journal := storage.disk, storage.journal;
      ghost var source := Source({layer.digest}, Deliveries(serve), storage.disk.temporary == map[]);
      NothingAdded(codec, journal, s, source);
      var n := clock;
      if ServesLayer(codec, serve, reference, layer, trees) {
        ServedLayer(codec, serve, n, reference, layer, trees);
      }
      var format := FormatOf(layer.mediaType);
      if format.None? { return false; }
      if layer.digest in storage.disk.layers {
        CompletedPresent(s, layer.digest, trees);
        return true;
      }
      var request := BlobRequest(reference.registry, reference.repository, layer.digest, layer.mediaType);
      var response := serve(clock, request);
      clock := clock + 1;
      if response.Failure? { return false; }
      AnswerWasReceived(serve, n, request, format.value);
      var reader := new Stream(response.body, response.breaksAt);
      ok := storage.WriteLayer(layer.digest, format.value, reader, requestSizes(n));
      if ok {
        IsFromAnswer(codec, s, response, layer, storage.disk.layers[layer.digest]);
        WroteLayer(codec, journal, storage.journal, s, storage.disk, source,
                   Delivery(layer.digest, format.value, response.body));
        if ServesLayer(codec, serve, reference, layer, trees) && source.clear {
          CompletedServed(codec, s, storage.disk, format.value, layer.digest, response.body, trees);
        }
      } else {
        AddedNothing(codec, journal, storage.journal, s, storage.disk, source);
      }
    }
  
    method FetchLayers(storage: StorageMutable, reference: Reference, manifest: Manifest,
                       ghost trees: map<string, LayerContents>)
      returns (ok: bool)
      requires storage.Valid() && storage.codec == codec
      modifies this, storage
      ensures storage.Valid() && old(storage.journal) <= storage.journal && storage.lock == old(storage.lock)
      ensures old(clock) <= clock
      ensures ok ==> LayersPresent(storage.disk, manifest)
      ensures ok && old(storage.disk.temporary) == map[] ==> storage.disk.temporary == map[]
      ensures var clear := old(storage.disk.temporary) == map[];
              var source := Source(DigestsOf(manifest.layers), Deliveries(serve), clear);
              && AddsLayers(codec, old(storage.disk), storage.disk, source)
              && AllAddLayers(codec, storage.journal, |old(storage.journal)|, old(storage.disk), source)
      ensures storage.Reliable() && old(storage.disk.temporary) == map[]
              && ServesLayers(codec, serve, reference, manifest.layers, trees) ==>
                ok && storage.disk == Completed(old(storage.disk), DigestsOf(manifest.layers), trees)
    {
      hide AllAddLayers, AddsLayers, ServesLayer, ServesLayers, LayerAt, Completed, DigestsOf, Deliveries;
      ghost var s, n := storage.disk, |storage.journal|;
      ghost var source := Source(DigestsOf(manifest.layers), Deliveries(serve), storage.disk.temporary == map[]);
      var layers := manifest.layers;
      NothingAdded(codec, storage.journal, s, source);
      CompletedNone(s, layers, trees);
      for i := 0 to |layers|
        invariant old(clock) <= clock
        invariant storage.Valid() && old(storage.journal) <= storage.journal && storage.lock == old(storage.lock)
        invariant DigestsOf(layers[..i]) <= storage.disk.layers.Keys
        invariant source.clear ==> storage.disk.temporary == map[]
        invariant AddsLayers(codec, s, storage.disk, source)
        invariant AllAddLayers(codec, storage.journal, n, s, source)
        invariant storage.Reliable() && source.clear && ServesLayers(codec, serve, reference, layers, trees) ==>
                    storage.disk == Completed(s, DigestsOf(layers[..i]), trees)
      {
        ghost var t, journal := storage.disk, storage.journal;
        ServesEach(codec, serve, reference, layers, trees, i);
        DigestsNext(layers, i);
        CompletedMore(s, DigestsOf(layers[..i]), {layers[i].digest}, trees);
        ok := FetchLayer(storage, reference, layers[i], trees);
        DigestIsNamed(layers, i);
        AddedMore(codec, journal, storage.journal, n, s, t, storage.disk, source,
                  Source({layers[i].digest}, Deliveries(serve), t.temporary == map[]));
        if !ok { return; }
      }
      assert layers[..|layers|] == layers;
      ok := true;
    }

    /** Fetches an image unless its manifest is saved; `repair` distrusts what is saved. */
    method FetchImage(storage: StorageMutable, reference: Reference, repair: bool,
                      ghost trees: map<string, LayerContents>)
      returns (result: Option<FetchedManifest>)
      requires storage.Valid() && storage.codec == codec
      modifies this, storage
      ensures storage.Valid() && old(storage.journal) <= storage.journal && storage.lock == old(storage.lock)
      ensures old(clock) < clock && KeepsData(codec, old(storage.disk), storage.disk)
      ensures var attempted := FetchedAt(codec, serve, old(clock), reference);
              var clear := old(storage.disk.temporary) == map[];
              && (result.Some? ==> result == attempted)
              && (attempted.None? ==> storage.disk == old(storage.disk) && storage.journal == old(storage.journal))
              && (attempted.Some? ==>
                    && IsVerified(codec, attempted.value)
                    && var source := ImageSource(attempted.value, serve, clear);
                       && Fetches(codec, old(storage.disk), storage.disk, attempted.value, source)
                       && AllFetch(codec, storage.journal, |old(storage.journal)|, old(storage.disk),
                                   attempted.value, source))
      ensures result.Some? ==>
        && result.value.digest in storage.disk.manifests
        && (repair ==> Verifies(codec.hash, storage.disk.manifests[result.value.digest], result.value.digest))
        && (repair ==> storage.disk.manifests == RepairedManifests(codec, old(storage.disk.manifests), result.value))
        && (repair || result.value.digest !in old(storage.disk.manifests) ==>
              LayersPresent(storage.disk, result.value.manifest))
        && (result.value.digest !in old(storage.disk.manifests) ==>
              storage.disk.manifests[result.value.digest] == result.value.bytes)
        && (old(storage.disk.temporary) == map[] ==> storage.disk.temporary == map[])
      ensures result.None? ==> storage.disk.manifests == old(storage.disk.manifests)
      ensures var attempted := FetchedAt(codec, serve, old(clock), reference);
              storage.Reliable() && old(storage.disk.temporary) == map[] && !repair && attempted.Some?
              && (|| attempted.value.digest in old(storage.disk.manifests)
                  || ServesLayers(codec, serve, reference, attempted.value.manifest.layers, trees)) ==>
                result.Some? && storage.disk == WithImage(old(storage.disk), attempted.value, trees)
      ensures var attempted := FetchedAt(codec, serve, old(clock), reference);
              storage.Reliable() && old(storage.disk.temporary) == map[] && repair && attempted.Some?
              && ServesLayers(codec, serve, reference, attempted.value.manifest.layers, trees) ==>
                result.Some? && storage.disk == WithRepaired(codec, old(storage.disk), attempted.value, trees)
    {
      hide AllAddLayers, AddsLayers, ServesLayers, Completed, OneOf, AllFetch, FetchedAt, Fetches, LayersPresent, Core,
           KeepsData, Verifies, Deliveries, DigestsOf;
      ghost var s, journal := storage.disk, storage.journal;
      SameDataIsKept(codec, s, s);
      result := FetchImageManifest(reference);
      if result.None? { return; }
      var fetched := result.value;
      ghost var source := ImageSource(fetched, serve, s.temporary == map[]);
      FetchedIsVerified(codec, serve, old(clock), reference);
      NothingFetched(codec, journal, s, fetched, source);
      var saved := fetched.digest in storage.disk.manifests;
      if saved && repair {
        var readable := storage.Attempt();
        if !readable { return None; }
        saved := Verifies(codec.hash, storage.disk.manifests[fetched.digest], fetched.digest);
      }
      if saved && !repair { return; }
      var ok := FetchLayers(storage, reference, fetched.manifest, trees);
      LayersFetched(codec, storage.journal, |journal|, s, storage.disk, fetched, source);
      FetchKeepsData(codec, s, storage.disk, fetched, source);
      if !ok { return None; }
      if !saved {
        ghost var t, before := storage.disk, storage.journal;
        ok := storage.WriteManifest(fetched.digest, fetched.bytes);
        ManifestWritten(codec, before, storage.journal, |journal|, s, t, storage.disk, fetched, source, ok);
        FetchKeepsData(codec, s, storage.disk, fetched, source);
        if !ok { return None; }
      }
    }
  }

  lemma NothingAdded(codec: Codec, journal: seq<Moment>, s: Store, source: Source)
    ensures AddsLayers(codec, s, s, source) && AllAddLayers(codec, journal, |journal|, s, source)
  {
  }

  lemma AddedNothing(codec: Codec, first: seq<Moment>, second: seq<Moment>, s: Store, t: Store, source: Source)
    requires first <= second && OneOf(second, |first|, s, s) && Core(t) == Core(s)
    ensures AddsLayers(codec, s, t, source) && AllAddLayers(codec, second, |first|, s, source)
  {
    NothingAdded(codec, first, s, source);
    AddedOne(codec, first, second, |first|, s, source, s, s);
    SameCore(codec, s, s, t, source);
  }

  lemma WrittenLayerIsAdded(codec: Codec, s: Store, source: Source, delivery: Delivery, tree: LayerContents)
    requires delivery.digest !in s.layers && delivery.digest in source.digests && delivery in source.received
    requires source.clear == (s.temporary == map[])
    requires Verifies(codec.hash, delivery.body, delivery.digest)
    requires Extracts(codec, delivery.format, Leftover(s, delivery.digest), delivery.body, tree)
    ensures AddsLayers(codec, s, WithLayer(s, delivery.digest, tree), source)
  {
    hide Extracts, Verifies, WholeLayer;
    if source.clear {
      ExtractedIsWhole(codec, source.received, delivery, tree);
    }
  }

  lemma WroteLayer(codec: Codec, first: seq<Moment>, second: seq<Moment>, s: Store, t: Store, source: Source,
                   delivery: Delivery)
    requires var digest := delivery.digest;
             first <= second && digest !in s.layers && digest in t.layers && digest in source.digests
             && Core(t) == Core(WithLayer(s, digest, t.layers[digest]))
             && OneOf(second, |first|, s, WithLayer(s, digest, t.layers[digest]))
             && Verifies(codec.hash, delivery.body, digest)
             && Extracts(codec, delivery.format, Leftover(s, digest), delivery.body, t.layers[digest])
    requires delivery in source.received && source.clear == (s.temporary == map[])
    ensures AddsLayers(codec, s, t, source) && AllAddLayers(codec, second, |first|, s, source)
  {
    hide Extracts, Verifies, AddsLayers, AllAddLayers, Core;
    var digest := delivery.digest;
    var written := WithLayer(s, digest, t.layers[digest]);
    WrittenLayerIsAdded(codec, s, source, delivery, t.layers[digest]);
    NothingAdded(codec, first, s, source);
    AddedOne(codec, first, second, |first|, s, source, s, written);
    SameCore(codec, s, written, t, source);
  }

  lemma CompletedPresent(s: Store, digest: string, trees: map<string, LayerContents>)
    requires digest in s.layers
    ensures Completed(s, {digest}, trees) == s
  {
    assert CompletedLayers(s.layers, {digest}, trees) == s.layers;
  }

  lemma CompletedServed(codec: Codec, s: Store, t: Store, format: LayerFormat, digest: string, blob: Bytes,
                        trees: map<string, LayerContents>)
    requires s.temporary == map[] && t.temporary == s.temporary - {digest}
    requires digest !in s.layers && digest in t.layers && Core(t) == Core(WithLayer(s, digest, t.layers[digest]))
    requires Extracts(codec, format, Leftover(s, digest), blob, t.layers[digest])
    requires WellFormed(codec.unpack(format, EMPTY_TREE, blob).value)
    requires digest in trees && trees[digest] == Converted(codec.unpack(format, EMPTY_TREE, blob).value)
    ensures t == Completed(s, {digest}, trees)
  {
    hide WellFormed, Converted, CompletedLayers, Resembles;
    assert t.layers == s.layers[digest := trees[digest]];
    var completed := CompletedLayers(s.layers, {digest}, trees);
    forall d ensures d in completed <==> d in t.layers {
      CompletedLookup(s.layers, {digest}, trees, d);
    }
    forall d | d in completed ensures completed[d] == t.layers[d] {
      CompletedLookup(s.layers, {digest}, trees, d);
    }
    assert completed == t.layers;
    assert t == Core(t);
  }

  lemma ServedLayer(codec: Codec, serve: Registry, n: nat, reference: Reference, layer: Descriptor,
                    trees: map<string, LayerContents>)
    requires ServesLayer(codec, serve, reference, layer, trees)
    ensures layer.digest in trees && FormatOf(layer.mediaType).Some?
    ensures var response :=
              serve(n, BlobRequest(reference.registry, reference.repository, layer.digest, layer.mediaType));
            var format := FormatOf(layer.mediaType).value;
            && response.Reply? && response.breaksAt.None? && Verifies(codec.hash, response.body, layer.digest)
            && codec.unpack(format, EMPTY_TREE, response.body).Some?
            && WellFormed(codec.unpack(format, EMPTY_TREE, response.body).value)
            && trees[layer.digest] == Converted(codec.unpack(format, EMPTY_TREE, response.body).value)
  {
    assert LayerAt(codec, serve, n, reference, layer) == Some(trees[layer.digest]);
  }

  // ----- Proof steps of a fetch -----

  lemma CompletedNone(s: Store, layers: seq<Descriptor>, trees: map<string, LayerContents>)
    ensures DigestsOf(layers[..0]) == {} && Completed(s, DigestsOf(layers[..0]), trees) == s
  {
    assert CompletedLayers(s.layers, {}, trees) == s.layers;
  }

  lemma ServesEach(codec: Codec, serve: Registry, reference: Reference, layers: seq<Descriptor>,
                   trees: map<string, LayerContents>, i: nat)
    requires i < |layers|
    ensures ServesLayers(codec, serve, reference, layers, trees) ==>
              ServesLayer(codec, serve, reference, layers[i], trees)
  {
  }

  lemma DigestsNext(layers: seq<Descriptor>, i: nat)
    requires i < |layers|
    ensures DigestsOf(layers[..i + 1]) == DigestsOf(layers[..i]) + {layers[i].digest}
  {
    var shorter, longer := layers[..i], layers[..i + 1];
    assert longer[i] == layers[i];
    forall j | 0 <= j < i ensures longer[j] == shorter[j] {
    }
    forall d | d in DigestsOf(shorter) ensures d in DigestsOf(longer) {
      var j :| 0 <= j < |shorter| && shorter[j].digest == d;
      assert longer[j].digest == d;
    }
  }

  lemma AddedMore(codec: Codec, first: seq<Moment>, second: seq<Moment>, n: nat, s: Store, t: Store, u: Store,
                  source: Source, sourceThen: Source)
    requires n <= |first| && first <= second && AllAddLayers(codec, first, n, s, source)
    requires AddsLayers(codec, s, t, source) && AddsLayers(codec, t, u, sourceThen)
    requires AllAddLayers(codec, second, |first|, t, sourceThen) && Within(sourceThen, source)
    ensures AddsLayers(codec, s, u, source) && AllAddLayers(codec, second, n, s, source)
    ensures t.layers.Keys <= u.layers.Keys
  {
    AddsTransitively(codec, s, t, u, source, sourceThen);
    forall k | n <= k < |second| ensures AddsLayers(codec, s, StoreAt(second, k), source) {
      if k < |first| {
        assert StoreAt(second, k) == StoreAt(first, k);
      } else {
        AddsTransitively(codec, s, t, StoreAt(second, k), source, sourceThen);
      }
    }
  }

  lemma AddsTransitively(codec: Codec, s: Store, t: Store, u: Store, source: Source, sourceThen: Source)
    requires AddsLayers(codec, s, t, source) && AddsLayers(codec, t, u, sourceThen) && Within(sourceThen, source)
    ensures AddsLayers(codec, s, u, source)
  {
    hide WholeLayer;
    if source.clear {
      forall digest | digest in u.layers && digest !in s.layers
        ensures WholeLayer(codec, source.received, digest, u.layers[digest])
      {
        if digest !in t.layers {
          MoreReceived(codec, sourceThen.received, source.received, digest, u.layers[digest]);
        }
      }
    }
  }

  /** A source that brings no more than another, and nothing worse. */
  predicate Within(part: Source, whole: Source) {
    part.digests <= whole.digests && part.received <= whole.received && (whole.clear ==> part.clear)
  }

  lemma DigestIsNamed(layers: seq<Descriptor>, i: nat)
    requires i < |layers|
    ensures layers[i].digest in DigestsOf(layers)
  {
  }

  lemma NothingFetched(codec: Codec, journal: seq<Moment>, s: Store, fetched: FetchedManifest, source: Source)
    ensures Fetches(codec, s, s, fetched, source) && AllFetch(codec, journal, |journal|, s, fetched, source)
  {
  }

  lemma LayersFetched(codec: Codec, journal: seq<Moment>, n: nat, s: Store, t: Store, fetched: FetchedManifest,
                      source: Source)
    requires AllAddLayers(codec, journal, n, s, source) && AddsLayers(codec, s, t, source)
    ensures Fetches(codec, s, t, fetched, source) && AllFetch(codec, journal, n, s, fetched, source)
    ensures t.manifests == s.manifests
  {
    forall u | AddsLayers(codec, s, u, source) ensures Fetches(codec, s, u, fetched, source) {
      assert u.(manifests := s.manifests) == u;
    }
    assert AddsLayers(codec, s, t, source);
  }

  lemma FetchesSameCore(codec: Codec, s: Store, t: Store, t': Store, fetched: FetchedManifest, source: Source)
    requires Core(t) == Core(t') && Fetches(codec, s, t, fetched, source)
    ensures Fetches(codec, s, t', fetched, source)
  {
    SameCore(codec, s, t.(manifests := s.manifests), t'.(manifests := s.manifests), source);
  }

  lemma ManifestWritten(codec: Codec, first: seq<Moment>, second: seq<Moment>, n: nat, s: Store, t: Store, u: Store,
                        fetched: FetchedManifest, source: Source, ok: bool)
    requires n <= |first| && first <= second && AllFetch(codec, first, n, s, fetched, source)
    requires AddsLayers(codec, s, t, source) && LayersPresent(t, fetched.manifest)
    requires var written := t.(manifests := t.manifests[fetched.digest := fetched.bytes]);
             OneOf(second, |first|, t, if ok then written else t) && Core(u) == Core(if ok then written else t)
    ensures Fetches(codec, s, u, fetched, source) && AllFetch(codec, second, n, s, fetched, source)
    ensures LayersPresent(u, fetched.manifest)
    ensures u.manifests == if ok then t.manifests[fetched.digest := fetched.bytes] else s.manifests
    ensures ok && u.temporary == t.temporary ==> u == t.(manifests := t.manifests[fetched.digest := fetched.bytes])
  {
    var written := t.(manifests := t.manifests[fetched.digest := fetched.bytes]);
    assert u.layers == t.layers && u == (if ok then written else t).(temporary := u.temporary);
    assert t.(manifests := s.manifests) == t && written.(manifests := s.manifests) == t;
    assert Fetches(codec, s, t, fetched, source) && Fetches(codec, s, written, fetched, source);
    hide Fetches, AddsLayers, LayersPresent;
    forall v | Core(v) == Core(t) || Core(v) == Core(written) ensures Fetches(codec, s, v, fetched, source) {
      FetchesSameCore(codec, s, if Core(v) == Core(t) then t else written, v, fetched, source);
    }
    forall k | n <= k < |second| ensures Fetches(codec, s, StoreAt(second, k), fetched, source) {
      if k < |first| {
        assert StoreAt(second, k) == StoreAt(first, k);
      }
    }
  }

  /** The store after an image has been fetched from a registry that serves these layers. */
  function WithImage(s: Store, fetched: FetchedManifest, trees: map<string, LayerContents>): Store {
    if fetched.digest in s.manifests then s
    else Completed(s, DigestsOf(fetched.manifest.layers), trees)
         .(manifests := s.manifests[fetched.digest := fetched.bytes])
  }

  /** A saved manifest that verifies is kept, any other one replaced. */
  function RepairedManifests(codec: Codec, manifests: map<string, Bytes>, fetched: FetchedManifest)
    : map<string, Bytes>
  {
    if fetched.digest in manifests && Verifies(codec.hash, manifests[fetched.digest], fetched.digest) then manifests
    else manifests[fetched.digest := fetched.bytes]
  }

  /** The store after an image has been repaired from a registry that serves these layers. */
  function WithRepaired(codec: Codec, s: Store, fetched: FetchedManifest, trees: map<string, LayerContents>): Store {
    Completed(s, DigestsOf(fetched.manifest.layers), trees)
    .(manifests := RepairedManifests(codec, s.manifests, fetched))
  }

  /** Whenever a fetch stops, an intact store is still intact, and whole layers are still whole. */
  lemma FetchKeepsIntact(codec: Codec, s: Store, t: Store, fetched: FetchedManifest, source: Source,
                         received: iset<Delivery>)
    requires Fetches(codec, s, t, fetched, source) && IsVerified(codec, fetched)
    ensures Intact(codec, s) ==> Intact(codec, t)
    ensures WholeLayers(codec, received, s) && source.clear && source.received <= received ==>
              WholeLayers(codec, received, t)
  {
    hide Intact, IntactManifest, Verifies, LayersPresent, WholeLayer;
    var u := t.(manifests := s.manifests);
    if Intact(codec, s) {
      AddingLayersKeepsIntact(codec, s, u);
      if t.manifests != s.manifests {
        SameLayersPresent(t, u, fetched.manifest);
        WriteManifestKeepsIntact(codec, u, fetched.digest, fetched.bytes);
        assert t == u.(manifests := u.manifests[fetched.digest := fetched.bytes]);
      } else {
        assert t == u;
      }
    }
    if WholeLayers(codec, received, s) && source.clear && source.received <= received {
      forall digest | digest in t.layers ensures WholeLayer(codec, received, digest, t.layers[digest]) {
        if digest !in s.layers {
          MoreReceived(codec, source.received, received, digest, t.layers[digest]);
        }
      }
    }
  }

  lemma SameLayersPresent(s: Store, t: Store, manifest: Manifest)
    requires t.layers == s.layers
    ensures LayersPresent(t, manifest) == LayersPresent(s, manifest)
  {
  }
}
