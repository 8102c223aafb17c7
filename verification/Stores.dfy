/** The contents of a storage directory, and what it means for them to be intact. */
module Stores {
  import opened Wrappers
  import opened Digests
  import opened References
  import opened LayerTree
  import opened Whiteouts

  datatype LayerFormat = Tar | Gzip | Zstd

  function FormatOf(mediaType: string): Option<LayerFormat> {
    if mediaType == "application/vnd.oci.image.layer.v1.tar+zstd" then Some(Zstd)
    else if mediaType == "application/vnd.oci.image.layer.v1.tar+gzip"
         || mediaType == "application/vnd.docker.image.rootfs.diff.tar.gzip" then Some(Gzip)
    else if mediaType == "application/vnd.oci.image.layer.v1.tar"
         || mediaType == "application/vnd.docker.image.rootfs.diff.tar" then Some(Tar)
    else None
  }

  /** The media types by name. */
  lemma FormatsByName(mediaType: string)
    ensures FormatOf(mediaType) == Some(Tar) <==>
              mediaType in {"application/vnd.oci.image.layer.v1.tar",
                            "application/vnd.docker.image.rootfs.diff.tar"}
    ensures FormatOf(mediaType) == Some(Gzip) <==>
              mediaType in {"application/vnd.oci.image.layer.v1.tar+gzip",
                            "application/vnd.docker.image.rootfs.diff.tar.gzip"}
    ensures FormatOf(mediaType) == Some(Zstd) <==> mediaType == "application/vnd.oci.image.layer.v1.tar+zstd"
  {
  }

  datatype Descriptor = Descriptor(digest: string, mediaType: string, size: nat, matchesPlatform: bool)

  datatype Manifest = Manifest(schemaVersion: nat, layers: seq<Descriptor>)

  /** Hashing, JSON decoding, and unpacking of an archive over a directory are parameters. */
  datatype Codec = Codec(
    hash: Hash,
    parseManifest: Bytes -> Option<Manifest>,
    parseIndex: Bytes -> Option<seq<Descriptor>>,
    unpack: (LayerFormat, LayerContents, Bytes) -> Option<LayerContents>)

  /** The two files of a container directory; either may be missing or unreadable. */
  datatype Container = Container(digestFile: Option<string>, referenceFile: Option<Reference>)

  /** What may lie in the directory for temporary files. */
  datatype Slot =
    | ManifestSlot(bytes: Bytes)
    | TextSlot(text: string)
    | LayerSlot(contents: LayerContents)
    | ContainerSlot(container: Container)

  /** The identity of a lock file, as opposed to its name. */
  type Inode = nat

  datatype Store = Store(
    containers: map<string, Container>,
    manifests: map<string, Bytes>,
    layers: map<string, LayerContents>,
    temporary: map<string, Slot>,
    locks: map<string, Inode>,
    nextInode: Inode)

  const EMPTY_STORE: Store := Store(map[], map[], map[], map[], map[], 0)

  /** The stores differ in lock files and temporary files only. */
  predicate SameData(s: Store, t: Store) {
    s.containers == t.containers && s.manifests == t.manifests && s.layers == t.layers
  }

  /** A store without its temporary files. */
  function Core(s: Store): Store {
    s.(temporary := map[])
  }

  function ReadDigest(s: Store, container: string): Option<string> {
    if container in s.containers && s.containers[container].digestFile.Some? then
      var digest := Trim(s.containers[container].digestFile.value);
      if digest == "" then None else Some(digest)
    else None
  }

  function ReadReference(s: Store, container: string): Option<Reference> {
    if container in s.containers then s.containers[container].referenceFile else None
  }

  function ReadManifest(codec: Codec, s: Store, digest: string): Option<Manifest> {
    if digest in s.manifests then codec.parseManifest(s.manifests[digest]) else None
  }

  function ManifestOf(codec: Codec, s: Store, container: string): Option<Manifest> {
    match ReadDigest(s, container)
    case None => None
    case Some(digest) => ReadManifest(codec, s, digest)
  }

  /** The digest file of a container: a blank or missing one is an error; white space around a digest
      does not matter. */
  lemma DigestFileIsRead(s: Store, container: string, before: string, digest: string, after: string)
    requires container in s.containers
    requires forall i | 0 <= i < |before| :: before[i] in {' ', '\t', '\n', '\r'}
    requires forall i | 0 <= i < |after| :: after[i] in {' ', '\t', '\n', '\r'}
    ensures s.containers[container].digestFile == None ==> ReadDigest(s, container) == None
    ensures s.containers[container].digestFile == Some(before) ==> ReadDigest(s, container) == None
    ensures s.containers[container].digestFile == Some(before + digest + after) && ParseDigest(digest).Ok? ==>
              ReadDigest(s, container) == Some(digest)
  {
    assert before + "" == before;
    TrimmedStart(before, "");
    if ParseDigest(digest).Ok? {
      WhitespaceIsTrimmed(before, digest, after);
      DigestSurvivesTrim(digest);
    }
  }

  function DigestsOf(layers: seq<Descriptor>): set<string> {
    set i | 0 <= i < |layers| :: layers[i].digest
  }

  /** Opening a lock file creates it when its name is free. */
  function WithLock(s: Store, digest: string): Store {
    if digest in s.locks then s else s.(locks := s.locks[digest := s.nextInode], nextInode := s.nextInode + 1)
  }

  // ----- Integrity -----

  predicate LayersPresent(s: Store, manifest: Manifest) {
    DigestsOf(manifest.layers) <= s.layers.Keys
  }

  predicate IntactManifest(codec: Codec, s: Store, digest: string)
    requires digest in s.manifests
  {
    && Verifies(codec.hash, s.manifests[digest], digest)
    && codec.parseManifest(s.manifests[digest]).Some?
    && LayersPresent(s, codec.parseManifest(s.manifests[digest]).value)
  }

  predicate IntactContainer(s: Store, container: string) {
    ReadDigest(s, container).Some? && ReadDigest(s, container).value in s.manifests
  }

  /** Every saved manifest verifies and parses, and has its layers; every container names one. */
  predicate Intact(codec: Codec, s: Store) {
    && (forall digest | digest in s.manifests :: IntactManifest(codec, s, digest))
    && (forall container | container in s.containers :: IntactContainer(s, container))
  }

  /** What a registry has answered to a request for a layer. */
  datatype Delivery = Delivery(digest: string, format: LayerFormat, body: Bytes)

  /** The delivery verifies, and this is what it unpacks to in an empty directory. */
  predicate IsArchive(codec: Codec, delivery: Delivery, archive: Tree) {
    && Verifies(codec.hash, delivery.body, delivery.digest)
    && codec.unpack(delivery.format, EMPTY_TREE, delivery.body) == Some(archive)
  }

  /** The layer has been extracted from something that was received for it. */
  ghost predicate WholeLayer(codec: Codec, received: iset<Delivery>, digest: string, tree: Tree) {
    exists delivery, archive :: ExtractedFrom(codec, received, digest, tree, delivery, archive)
  }

  ghost predicate ExtractedFrom(codec: Codec, received: iset<Delivery>, digest: string, tree: Tree,
                                delivery: Delivery, archive: Tree)
  {
    && delivery in received && delivery.digest == digest
    && IsArchive(codec, delivery, archive) && ConvertsTo(archive, tree)
  }

  ghost predicate WholeLayers(codec: Codec, received: iset<Delivery>, s: Store) {
    forall digest | digest in s.layers :: WholeLayer(codec, received, digest, s.layers[digest])
  }

  lemma MoreReceived(codec: Codec, received: iset<Delivery>, more: iset<Delivery>, digest: string, tree: Tree)
    requires received <= more && WholeLayer(codec, received, digest, tree)
    ensures WholeLayer(codec, more, digest, tree)
  {
    var delivery, archive :| ExtractedFrom(codec, received, digest, tree, delivery, archive);
    assert ExtractedFrom(codec, more, digest, tree, delivery, archive);
  }

  lemma IntactIsCore(codec: Codec, s: Store, t: Store)
    requires Core(s) == Core(t)
    ensures Intact(codec, s) <==> Intact(codec, t)
    ensures forall received :: WholeLayers(codec, received, s) <==> WholeLayers(codec, received, t)
  {
    assert s == t.(temporary := s.temporary);
    forall digest | digest in s.manifests
      ensures IntactManifest(codec, s, digest) == IntactManifest(codec, t, digest)
    {
    }
    forall container ensures IntactContainer(s, container) == IntactContainer(t, container) {
    }
  }

  // ----- What each change must respect -----

  lemma AddingLayersKeepsIntact(codec: Codec, s: Store, t: Store)
    requires Intact(codec, s)
    requires t.containers == s.containers && t.manifests == s.manifests && s.layers.Keys <= t.layers.Keys
    ensures Intact(codec, t)
  {
    hide Verifies, ReadDigest;
    forall d | d in t.manifests ensures IntactManifest(codec, t, d) {
      assert IntactManifest(codec, s, d);
    }
    forall container | container in t.containers ensures IntactContainer(t, container) {
      assert IntactContainer(s, container);
      SameRead(s, t, container);
    }
  }

  lemma SameRead(s: Store, t: Store, container: string)
    requires t.containers == s.containers
    ensures ReadDigest(t, container) == ReadDigest(s, container)
  {
  }

  lemma WriteManifestKeepsIntact(codec: Codec, s: Store, digest: string, bytes: Bytes)
    requires Intact(codec, s)
    requires Verifies(codec.hash, bytes, digest) && codec.parseManifest(bytes).Some?
    requires LayersPresent(s, codec.parseManifest(bytes).value)
    ensures Intact(codec, s.(manifests := s.manifests[digest := bytes]))
  {
    var t := s.(manifests := s.manifests[digest := bytes]);
    forall d | d in t.manifests ensures IntactManifest(codec, t, d) {
      if d != digest {
        assert IntactManifest(codec, s, d);
      }
    }
    forall container | container in t.containers ensures IntactContainer(t, container) {
      assert IntactContainer(s, container);
    }
  }

  /** Pointing a container elsewhere is safe exactly when the new digest is saved. */
  lemma PutContainerKeepsIntact(codec: Codec, s: Store, container: string, c: Container)
    requires Intact(codec, s)
    ensures var t := s.(containers := s.containers[container := c]);
            Intact(codec, t) <==> IntactContainer(t, container)
  {
    var t := s.(containers := s.containers[container := c]);
    forall d | d in t.manifests ensures IntactManifest(codec, t, d) {
      assert IntactManifest(codec, s, d);
    }
    forall other | other in t.containers && other != container ensures IntactContainer(t, other) {
      assert IntactContainer(s, other);
    }
  }

  lemma RemoveContainerKeepsIntact(codec: Codec, s: Store, container: string)
    requires Intact(codec, s)
    ensures Intact(codec, s.(containers := s.containers - {container}))
  {
    var t := s.(containers := s.containers - {container});
    forall d | d in t.manifests ensures IntactManifest(codec, t, d) {
      assert IntactManifest(codec, s, d);
    }
    forall other | other in t.containers ensures IntactContainer(t, other) {
      assert IntactContainer(s, other);
    }
  }
}
