/** Unpacking a layer archive from a stream that is verified on the way. */
module Extraction {
  import opened Wrappers
  import opened Digests
  import opened LayerTree
  import opened Whiteouts
  import opened Stores

  /** What extracting a blob over the contents of a directory should leave there. */
  ghost predicate Extracts(codec: Codec, format: LayerFormat, existing: LayerContents, blob: Bytes, tree: Tree) {
    var unpacked := codec.unpack(format, existing, blob);
    unpacked.Some? && ConvertsTo(unpacked.value, tree)
  }

  /** The stream delivers a blob with this digest that unpacks to a well-formed layer. */
  ghost predicate Extractable(codec: Codec, format: LayerFormat, existing: LayerContents, reader: Stream,
                              digest: string)
  {
    && reader.breaksAt.None? && Verifies(codec.hash, reader.data, digest)
    && codec.unpack(format, existing, reader.data).Some?
    && WellFormed(codec.unpack(format, existing, reader.data).value)
  }

  /** The decoder reads the blob in requests of the given sizes and may stop before its end; the
      rest is drained, so the digest that is checked is that of the whole stream. */
  method ExtractLayer(codec: Codec, reader: Stream, digest: string, format: LayerFormat,
                      existing: LayerContents, requests: seq<nat>)
    returns (tree: Option<LayerContents>)
    requires reader.position == 0
    modifies reader
    ensures tree.Some? ==>
              Verifies(codec.hash, reader.data, digest) && Extracts(codec, format, existing, reader.data, tree.value)
    ensures Extractable(codec, format, existing, reader, digest) ==> tree.Some?
  {
    var parsed := ParseDigest(digest);
    if parsed.Err? {
      return None;
    }
    var verifier := new DigestVerifier(reader, parsed.value.0, parsed.value.1);
    var ok := verifier.Consume(requests);
    if !ok {
      return None;
    }
    var unpacked := codec.unpack(format, existing, reader.data);
    if unpacked.None? {
      return None;
    }
    var directory := new LayerDirectory(unpacked.value);
    ok := directory.ConvertWhiteouts();
    if !ok {
      return None;
    }
    ok := verifier.Drain(COPY_BUFFER_SIZE);
    if !ok {
      return None;
    }
    ok := verifier.Verify(codec.hash);
    tree := if ok then Some(directory.nodes) else None;
  }
}
