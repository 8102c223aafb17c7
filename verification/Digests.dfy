/** Digest strings of the form `<algorithm>:<hex>`, and verification of bytes as they stream by. */
module Digests {
  import opened Wrappers

  datatype Algorithm = Sha256 | Sha384 | Sha512 {
    function OutputLength(): nat {
      match this
      case Sha256 => 32
      case Sha384 => 48
      case Sha512 => 64
    }
  }

  datatype DigestError = InvalidFormat | UnsupportedAlgorithm | InvalidHex | VerificationFailed

  /** The hash functions are parameters of the model. */
  type Hash = (Algorithm, Bytes) -> Bytes

  function AlgorithmNamed(name: string): Option<Algorithm> {
    if name == "sha256" then Some(Sha256)
    else if name == "sha384" then Some(Sha384)
    else if name == "sha512" then Some(Sha512)
    else None
  }

  function SplitOnce(s: string, separator: char): Option<(string, string)> {
    if s == "" then None
    else if s[0] == separator then Some(("", s[1..]))
    else match SplitOnce(s[1..], separator)
      case None => None
      case Some(parts) => Some(([s[0]] + parts.0, parts.1))
  }

  function HexDigit(c: char): Option<nat> {
    if '0' <= c <= '9' then Some((c - '0') as nat)
    else if 'a' <= c <= 'f' then Some((c - 'a') as nat + 10)
    else if 'A' <= c <= 'F' then Some((c - 'A') as nat + 10)
    else None
  }

  /** Two characters as an unsigned number in base 16; a leading plus sign is accepted. */
  function HexByte(high: char, low: char): Option<byte> {
    match (HexDigit(high), HexDigit(low))
    case (Some(h), Some(l)) => HexRange(high); HexRange(low); Some((16 * h + l) as byte)
    case (None, Some(l)) => if high == '+' then HexRange(low); Some(l as byte) else None
    case (_, None) => None
  }

  lemma HexRange(c: char)
    ensures HexDigit(c).Some? ==> HexDigit(c).value < 16
  {
  }

  function DecodeHex(hex: string): Option<Bytes> {
    if hex == "" then Some([])
    else if |hex| == 1 then None
    else match (HexByte(hex[0], hex[1]), DecodeHex(hex[2..]))
      case (Some(b), Some(rest)) => Some([b] + rest)
      case (None, _) => None
      case (_, None) => None
  }

  function ParseDigest(digest: string): Result<(Algorithm, Bytes), DigestError> {
    match SplitOnce(digest, ':')
    case None => Err(InvalidFormat)
    case Some((name, hex)) =>
      match AlgorithmNamed(name)
      case None => Err(UnsupportedAlgorithm)
      case Some(algorithm) =>
        match DecodeHex(hex)
        case None => Err(InvalidHex)
        case Some(bytes) => if |bytes| == algorithm.OutputLength() then Ok((algorithm, bytes)) else Err(InvalidHex)
  }

  predicate Verifies(hash: Hash, bytes: Bytes, digest: string) {
    match ParseDigest(digest)
    case Err(_) => false
    case Ok((algorithm, expected)) => hash(algorithm, bytes) == expected
  }

  // ----- Streams -----

  /** A source of bytes that may return less than asked for, and may break at some point. */
  class Stream {
    const data: Bytes
    const breaksAt: Option<nat>
    var position: nat

    constructor (data: Bytes, breaksAt: Option<nat>)
      ensures this.data == data && this.breaksAt == breaksAt && position == 0
    {
      this.data := data;
      this.breaksAt := breaksAt;
      position := 0;
    }

    ghost predicate Valid()
      reads this
    {
      position <= |data|
    }

    /** Fills at most `limit` bytes; none at the end only. */
    method Read(limit: nat) returns (chunk: Option<Bytes>)
      requires Valid()
      modifies this
      ensures Valid() && old(position) <= position
      ensures chunk.Some? ==> chunk.value == data[old(position)..position] && |chunk.value| <= limit
      ensures chunk.Some? && limit > 0 && old(position) < |data| ==> old(position) < position
      ensures chunk.None? ==> breaksAt.Some? && position == old(position)
    {
      if breaksAt.Some? && position >= breaksAt.value {
        return None;
      }
      var most := if limit <= |data| - position then limit else |data| - position;
      var count: nat := 0;
      if most > 0 {
        count :| 1 <= count <= most;
      }
      chunk := Some(data[position..position + count]);
      position := position + count;
    }
  }

  /** Hashes every byte that is read through it. */
  class DigestVerifier {
    const reader: Stream
    const algorithm: Algorithm
    const expected: Bytes
    /** The bytes that the hash context has been updated with. */
    var context: Bytes

    ghost predicate Valid()
      reads this, reader
    {
      reader.Valid() && context == reader.data[..reader.position]
    }

    constructor (reader: Stream, algorithm: Algorithm, expected: Bytes)
      requires reader.position == 0
      ensures Valid() && this.reader == reader
      ensures this.algorithm == algorithm && this.expected == expected
    {
      this.reader := reader;
      this.algorithm := algorithm;
      this.expected := expected;
      context := [];
    }

    method Read(limit: nat) returns (chunk: Option<Bytes>)
      requires Valid()
      modifies this, reader
      ensures Valid() && old(reader.position) <= reader.position
      ensures chunk.Some? ==> |chunk.value| == reader.position - old(reader.position)
      ensures chunk.Some? && chunk.value == [] && limit > 0 ==> reader.position == |reader.data|
      ensures chunk.None? ==> reader.breaksAt.Some?
    {
      chunk := reader.Read(limit);
      if chunk.Some? && |chunk.value| > 0 {
        context := context + chunk.value;
      }
    }

    /** What a decoder does: some reads of some sizes, possibly short of the end. */
    method Consume(limits: seq<nat>) returns (ok: bool)
      requires Valid()
      modifies this, reader
      ensures Valid()
      ensures !ok ==> reader.breaksAt.Some?
    {
      for i := 0 to |limits|
        invariant Valid()
      {
        var chunk := Read(limits[i]);
        if chunk.None? { return false; }
      }
      ok := true;
    }

    /** Reads to the end, discarding what it reads. */
    method Drain(bufferSize: nat) returns (ok: bool)
      requires Valid() && bufferSize > 0
      modifies this, reader
      ensures Valid()
      ensures ok ==> reader.position == |reader.data|
      ensures !ok ==> reader.breaksAt.Some?
    {
      while true
        invariant Valid()
        decreases |reader.data| - reader.position
      {
        var chunk := Read(bufferSize);
        if chunk.None? { return false; }
        if chunk.value == [] { return true; }
      }
    }

    /** Once the stream has been drained, this is about all of it, however it was read. */
    method Verify(hash: Hash) returns (ok: bool)
      requires Valid() && reader.position == |reader.data|
      ensures ok <==> hash(algorithm, reader.data) == expected
    {
      assert reader.data[..|reader.data|] == reader.data;
      ok := hash(algorithm, context) == expected;
    }
  }

  const COPY_BUFFER_SIZE: nat := 8192

  method VerifyBytes(hash: Hash, bytes: Bytes, digest: string) returns (result: Result<(), DigestError>)
    ensures result.Ok? <==> Verifies(hash, bytes, digest)
    ensures result.Err? && ParseDigest(digest).Err? ==> result.error == ParseDigest(digest).error
    ensures result.Err? && ParseDigest(digest).Ok? ==> result.error == VerificationFailed
  {
    match ParseDigest(digest) {
      case Err(error) => result := Err(error);
      case Ok((algorithm, expected)) =>
        var reader := new Stream(bytes, None);
        var verifier := new DigestVerifier(reader, algorithm, expected);
        var copied := verifier.Drain(COPY_BUFFER_SIZE);
        var ok := verifier.Verify(hash);
        result := if ok then Ok(()) else Err(VerificationFailed);
    }
  }

  // ----- Digest strings survive being written and read back -----

  predicate IsWhitespace(c: char) {
    || '\U{0009}' <= c <= '\U{000D}'
    || c in {' ', '\U{0085}', '\U{00A0}', '\U{1680}', '\U{2028}', '\U{2029}', '\U{202F}', '\U{205F}', '\U{3000}'}
    || '\U{2000}' <= c <= '\U{200A}'
  }

  function TrimStart(s: string): string {
    if s != "" && IsWhitespace(s[0]) then TrimStart(s[1..]) else s
  }

  function TrimEnd(s: string): string {
    if s != "" && IsWhitespace(s[|s| - 1]) then TrimEnd(s[..|s| - 1]) else s
  }

  function Trim(s: string): string {
    TrimEnd(TrimStart(s))
  }

  lemma {:induction false} SplitOnceJoins(s: string, separator: char)
    requires SplitOnce(s, separator).Some?
    ensures var (before, after) := SplitOnce(s, separator).value; s == before + [separator] + after
    ensures separator !in SplitOnce(s, separator).value.0
  {
    if s[0] != separator {
      SplitOnceJoins(s[1..], separator);
      assert s == [s[0]] + s[1..];
    }
  }

  lemma {:induction false} LastHexIsVisible(hex: string)
    requires DecodeHex(hex).Some? && hex != ""
    ensures !IsWhitespace(hex[|hex| - 1])
  {
    if |hex| > 2 {
      LastHexIsVisible(hex[2..]);
    }
  }

  /** A digest that parses reads back from its file as it was written. */
  lemma DigestSurvivesTrim(digest: string)
    requires ParseDigest(digest).Ok?
    ensures Trim(digest) == digest && digest != ""
  {
    SplitOnceJoins(digest, ':');
    var (name, hex) := SplitOnce(digest, ':').value;
    assert digest[0] == name[0] == 's';
    assert hex != "";
    LastHexIsVisible(hex);
    assert digest[|digest| - 1] == hex[|hex| - 1];
  }

  // ----- One digest, several spellings -----

  function UpperCase(s: string): string {
    seq(|s|, i requires 0 <= i < |s| => if 'a' <= s[i] <= 'f' then s[i] - 'a' + 'A' else s[i])
  }

  lemma {:induction false} HexIgnoresCase(hex: string)
    ensures DecodeHex(UpperCase(hex)) == DecodeHex(hex)
    decreases |hex|
  {
    if |hex| >= 2 {
      HexIgnoresCase(hex[2..]);
      assert UpperCase(hex)[2..] == UpperCase(hex[2..]);
    }
  }

  function HexChar(n: nat): char
    requires n < 16
  {
    if n < 10 then '0' + n as char else 'a' + (n - 10) as char
  }

  function EncodeHex(bytes: Bytes): string {
    if bytes == [] then ""
    else [HexChar(bytes[0] as nat / 16), HexChar(bytes[0] as nat % 16)] + EncodeHex(bytes[1..])
  }

  lemma HexCharDecodes(n: nat)
    requires n < 16
    ensures HexDigit(HexChar(n)) == Some(n)
  {
  }

  lemma {:induction false} HexRoundTrip(bytes: Bytes)
    ensures DecodeHex(EncodeHex(bytes)) == Some(bytes)
  {
    if bytes != [] {
      HexRoundTrip(bytes[1..]);
      var high, low := bytes[0] as nat / 16, bytes[0] as nat % 16;
      HexCharDecodes(high);
      HexCharDecodes(low);
      assert HexByte(HexChar(high), HexChar(low)) == Some(bytes[0]);
      var hex := EncodeHex(bytes);
      assert hex[0] == HexChar(high) && hex[1] == HexChar(low) && hex[2..] == EncodeHex(bytes[1..]);
      assert bytes == [bytes[0]] + bytes[1..];
    }
  }

  /** The digest string that registries use for some bytes. */
  function CanonicalDigest(hash: Hash, bytes: Bytes): string {
    "sha256:" + EncodeHex(hash(Sha256, bytes))
  }

  /** The same digest with its hex in capitals. */
  function CapitalDigest(hash: Hash, bytes: Bytes): string {
    "sha256:" + UpperCase(EncodeHex(hash(Sha256, bytes)))
  }

  /** Bytes verify under both spellings of their digest. */
  lemma BothSpellingsVerify(hash: Hash, bytes: Bytes)
    requires |hash(Sha256, bytes)| == Sha256.OutputLength()
    ensures Verifies(hash, bytes, CanonicalDigest(hash, bytes)) && Verifies(hash, bytes, CapitalDigest(hash, bytes))
  {
    var hex := EncodeHex(hash(Sha256, bytes));
    HexRoundTrip(hash(Sha256, bytes));
    assert "sha256" + [':'] + hex == "sha256:" + hex;
    SplitOnceFirst("sha256", ':', hex);
    hide DecodeHex, EncodeHex, UpperCase, SplitOnce;
    assert Verifies(hash, bytes, CanonicalDigest(hash, bytes));
    assert "sha256" + ":" + hex == "sha256:" + hex;
    assert "sha256" + ":" + UpperCase(hex) == "sha256:" + UpperCase(hex);
    SpellingsAgree(hash, bytes, "sha256", hex);
  }

  lemma {:induction false} SplitOnceFirst(before: string, separator: char, after: string)
    requires separator !in before
    ensures SplitOnce(before + [separator] + after, separator) == Some((before, after))
  {
    var s := before + [separator] + after;
    if before != "" {
      SplitOnceFirst(before[1..], separator, after);
      assert s[1..] == before[1..] + [separator] + after;
      assert before == [before[0]] + before[1..];
    } else {
      assert s[1..] == after;
    }
  }

  // ----- What the strings stand for -----

  /** The three algorithms by their names, each with the length of its output. */
  lemma AlgorithmsByName(hex: string)
    ensures var bytes := DecodeHex(hex);
            && ParseDigest("sha256:" + hex)
               == (if bytes.Some? && |bytes.value| == 32 then Ok((Sha256, bytes.value)) else Err(InvalidHex))
            && ParseDigest("sha384:" + hex)
               == (if bytes.Some? && |bytes.value| == 48 then Ok((Sha384, bytes.value)) else Err(InvalidHex))
            && ParseDigest("sha512:" + hex)
               == (if bytes.Some? && |bytes.value| == 64 then Ok((Sha512, bytes.value)) else Err(InvalidHex))
  {
    hide DecodeHex, SplitOnce;
    SplitOnceFirst("sha256", ':', hex);
    SplitOnceFirst("sha384", ':', hex);
    SplitOnceFirst("sha512", ':', hex);
    assert "sha256" + [':'] + hex == "sha256:" + hex;
    assert "sha384" + [':'] + hex == "sha384:" + hex;
    assert "sha512" + [':'] + hex == "sha512:" + hex;
  }

  /** Other strings are refused, with the error that says why. */
  lemma OtherDigestsAreRefused(digest: string)
    requires !("sha256:" <= digest) && !("sha384:" <= digest) && !("sha512:" <= digest)
    ensures ParseDigest(digest) == Err(if ':' in digest then UnsupportedAlgorithm else InvalidFormat)
  {
    NoneToSplit(digest, ':');
    if ':' in digest {
      SplitOnceJoins(digest, ':');
      var (name, hex) := SplitOnce(digest, ':').value;
      assert name == "sha256" ==> digest == "sha256:" + hex;
      assert name == "sha384" ==> digest == "sha384:" + hex;
      assert name == "sha512" ==> digest == "sha512:" + hex;
    }
  }

  lemma {:induction false} NoneToSplit(s: string, separator: char)
    ensures SplitOnce(s, separator).None? <==> separator !in s
  {
    if s != "" && s[0] != separator {
      NoneToSplit(s[1..], separator);
      assert s == [s[0]] + s[1..];
    }
  }

  /** Bytes verify under a digest exactly if it is the hash of the bytes by the algorithm it names. */
  lemma DigestsNameHashes(hash: Hash, bytes: Bytes, expected: Bytes)
    ensures Verifies(hash, bytes, "sha256:" + EncodeHex(expected))
            <==> |expected| == 32 && hash(Sha256, bytes) == expected
    ensures Verifies(hash, bytes, "sha384:" + EncodeHex(expected))
            <==> |expected| == 48 && hash(Sha384, bytes) == expected
    ensures Verifies(hash, bytes, "sha512:" + EncodeHex(expected))
            <==> |expected| == 64 && hash(Sha512, bytes) == expected
  {
    HexRoundTrip(expected);
    AlgorithmsByName(EncodeHex(expected));
    hide ParseDigest, DecodeHex, EncodeHex;
  }

  /** Hex digits in their order, small and capital, and the sign that the conversion accepts; an odd
      number or any other character is refused. */
  lemma HexDigits()
    ensures EncodeHex([0x01, 0x23, 0x45, 0x67, 0x89]) == "0123456789" && EncodeHex([0xab, 0xcd, 0xef]) == "abcdef"
    ensures DecodeHex("ABCDEF") == Some([0xab, 0xcd, 0xef]) && UpperCase("0189abcdef") == "0189ABCDEF"
    ensures DecodeHex("+f") == Some([0x0f])
    ensures DecodeHex("0") == None && DecodeHex("0g") == None && DecodeHex("g0") == None
  {
    EncodedDigits();
    EncodedLetters();
    CapitalDigits();
    PlusIsIgnored();
    OthersAreNoHex();
    hide DecodeHex, EncodeHex;
    assert UpperCase("0189abcdef") == "0189ABCDEF";
  }

  lemma OthersAreNoHex()
    ensures DecodeHex("0") == None && DecodeHex("0g") == None && DecodeHex("g0") == None
  {
    assert HexDigit('g') == None;
    assert HexByte('0', 'g') == None && HexByte('g', '0') == None;
  }

  lemma PlusIsIgnored()
    ensures DecodeHex("+f") == Some([0x0f])
  {
    assert "+f"[2..] == "" && DecodeHex("") == Some([]);
    assert HexDigit('+') == None && HexDigit('f') == Some(15);
    assert HexByte('+', 'f') == Some(0x0f);
    assert [0x0f] + [] == [0x0f];
  }

  lemma EncodedLetters()
    ensures EncodeHex([0xab, 0xcd, 0xef]) == "abcdef"
  {
    OneByte(0xef, []);
    OneByte(0xcd, [0xef]);
    OneByte(0xab, [0xcd, 0xef]);
    assert EncodeHex([]) == "";
    hide EncodeHex;
    assert [0xef] + [] == [0xef] && [0xcd] + [0xef] == [0xcd, 0xef];
    assert [0xab] + [0xcd, 0xef] == [0xab, 0xcd, 0xef];
  }

  lemma EncodedDigits()
    ensures EncodeHex([0x01, 0x23, 0x45, 0x67, 0x89]) == "0123456789"
  {
    OneByte(0x89, []);
    OneByte(0x67, [0x89]);
    OneByte(0x45, [0x67, 0x89]);
    OneByte(0x23, [0x45, 0x67, 0x89]);
    OneByte(0x01, [0x23, 0x45, 0x67, 0x89]);
    assert EncodeHex([]) == "";
    hide EncodeHex;
    assert [0x89] + [] == [0x89] && [0x67] + [0x89] == [0x67, 0x89];
    assert [0x45] + [0x67, 0x89] == [0x45, 0x67, 0x89];
    assert EncodeHex([0x45, 0x67, 0x89]) == "456789";
    assert [0x23] + [0x45, 0x67, 0x89] == [0x23, 0x45, 0x67, 0x89];
    assert [0x01] + [0x23, 0x45, 0x67, 0x89] == [0x01, 0x23, 0x45, 0x67, 0x89];
  }

  lemma OneByte(b: byte, rest: Bytes)
    ensures EncodeHex([b] + rest) == [HexChar(b as nat / 16), HexChar(b as nat % 16)] + EncodeHex(rest)
  {
    assert ([b] + rest)[1..] == rest;
  }

  lemma CapitalDigits()
    ensures DecodeHex("ABCDEF") == Some([0xab, 0xcd, 0xef])
  {
    EncodedLetters();
    HexRoundTrip([0xab, 0xcd, 0xef]);
    HexIgnoresCase("abcdef");
    hide DecodeHex, EncodeHex;
    assert UpperCase("abcdef") == "ABCDEF";
  }

  /** White space around a digest in its file does not matter. */
  lemma WhitespaceIsTrimmed(before: string, digest: string, after: string)
    requires ParseDigest(digest).Ok?
    requires forall i | 0 <= i < |before| :: before[i] in {' ', '\t', '\n', '\r'}
    requires forall i | 0 <= i < |after| :: after[i] in {' ', '\t', '\n', '\r'}
    ensures Trim(before + digest + after) == digest
  {
    DigestSurvivesTrim(digest);
    hide ParseDigest;
    TrimmedStart(before, digest + after);
    assert before + digest + after == before + (digest + after);
    StartOfDigest(digest);
    assert digest[0] == (digest + after)[0];
    TrimmedEnd(digest, after);
  }

  lemma StartOfDigest(digest: string)
    requires Trim(digest) == digest && digest != ""
    ensures !IsWhitespace(digest[0]) && TrimEnd(digest) == digest
  {
    TrimShortens(digest);
    if IsWhitespace(digest[0]) {
      TrimShortens(digest[1..]);
      TrimShortens(TrimStart(digest[1..]));
    }
  }

  lemma {:induction false} TrimShortens(s: string)
    ensures |TrimStart(s)| <= |s| && |TrimEnd(s)| <= |s|
    decreases |s|
  {
    if s != "" {
      TrimShortens(s[1..]);
      TrimShortens(s[..|s| - 1]);
    }
  }

  lemma {:induction false} TrimmedStart(before: string, s: string)
    requires forall i | 0 <= i < |before| :: before[i] in {' ', '\t', '\n', '\r'}
    ensures TrimStart(before + s) == TrimStart(s)
    decreases |before|
  {
    if before == "" {
      assert before + s == s;
    } else {
      assert (before + s)[1..] == before[1..] + s;
      TrimmedStart(before[1..], s);
    }
  }

  lemma {:induction false} TrimmedEnd(s: string, after: string)
    requires forall i | 0 <= i < |after| :: after[i] in {' ', '\t', '\n', '\r'}
    ensures TrimEnd(s + after) == TrimEnd(s)
    decreases |after|
  {
    if after == "" {
      assert s + after == s;
    } else {
      var front := after[..|after| - 1];
      assert (s + after)[..|s + after| - 1] == s + front;
      TrimmedEnd(s, front);
    }
  }

  // ----- Other spellings -----

  /** Two digest strings that differ in letter case verify the same bytes. */
  lemma SpellingsAgree(hash: Hash, bytes: Bytes, name: string, hex: string)
    requires ':' !in name
    ensures Verifies(hash, bytes, name + ":" + UpperCase(hex)) <==> Verifies(hash, bytes, name + ":" + hex)
  {
    HexIgnoresCase(hex);
    SplitOnceFirst(name, ':', hex);
    SplitOnceFirst(name, ':', UpperCase(hex));
  }
}
