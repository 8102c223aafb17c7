/** Image references: the parser and the printer of `registry/repository:tag` and `...@digest`. */
module References {
  import opened Wrappers

  datatype Specifier = Digest(digest: string) | Tag(tag: string) {
    function Text(): string {
      match this
      case Digest(digest) => digest
      case Tag(tag) => tag
    }
  }

  datatype Reference = Reference(registry: string, repository: string, specifier: Specifier)

  datatype ReferenceError = RegistryMissing | RepositoryMissing

  /** Splits at the last separator. */
  function SplitLast(s: string, separator: char): Option<(string, string)> {
    if s == "" then None
    else if s[|s| - 1] == separator then Some((s[..|s| - 1], ""))
    else match SplitLast(s[..|s| - 1], separator)
      case None => None
      case Some(parts) => Some((parts.0, parts.1 + [s[|s| - 1]]))
  }

  /** The part before the first separator, and the parts after it joined again. */
  function SplitFirst(s: string, separator: char): (string, string) {
    if s == "" then ("", "")
    else if s[0] == separator then ("", s[1..])
    else var (before, after) := SplitFirst(s[1..], separator); ([s[0]] + before, after)
  }

  function NameAndDigest(input: string): (string, Option<string>) {
    match SplitLast(input, '@')
    case Some((name, digest)) => (name, Some(digest))
    case None => (input, None)
  }

  function NameAndTag(name: string): (string, Option<string>) {
    match SplitLast(name, ':')
    case Some((untagged, tag)) => (untagged, Some(tag))
    case None => (name, None)
  }

  function ParseName(name: string, specifier: Specifier): Result<Reference, ReferenceError> {
    var (registry, repository) := SplitFirst(name, '/');
    if '.' !in registry && ':' !in registry && registry != "localhost" then Err(RegistryMissing)
    else if repository == "" then Err(RepositoryMissing)
    else Ok(Reference(registry, repository, specifier))
  }

  function Parse(input: string): Result<Reference, ReferenceError> {
    var (name, digest) := NameAndDigest(input);
    var (untagged, tag) := NameAndTag(name);
    ParseName(untagged,
              match digest
              case Some(d) => Digest(d)
              case None => Tag(match tag case Some(t) => t case None => "latest"))
  }

  function Name(r: Reference): string {
    r.registry + "/" + r.repository
  }

  function Print(r: Reference): string {
    Name(r) + match r.specifier
              case Digest(digest) => "@" + digest
              case Tag(tag) => ":" + tag
  }

  lemma {:induction false} SplitLastJoins(s: string, separator: char)
    ensures match SplitLast(s, separator)
            case None => separator !in s
            case Some((before, after)) => s == before + [separator] + after && separator !in after
  {
    if s != "" && s[|s| - 1] != separator {
      var front := s[..|s| - 1];
      SplitLastJoins(front, separator);
      assert s == front + [s[|s| - 1]];
    }
  }

  lemma {:induction false} SplitLastOf(before: string, separator: char, after: string)
    requires separator !in after
    ensures SplitLast(before + [separator] + after, separator) == Some((before, after))
    decreases |after|
  {
    var s := before + [separator] + after;
    if after == "" {
      assert s[..|s| - 1] == before;
    } else {
      var front := after[..|after| - 1];
      SplitLastOf(before, separator, front);
      assert s[..|s| - 1] == before + [separator] + front;
      assert after == front + [after[|after| - 1]];
    }
  }

  lemma {:induction false} SplitFirstJoins(s: string, separator: char)
    ensures var (before, after) := SplitFirst(s, separator);
            && separator !in before
            && (if separator in s then s == before + [separator] + after else s == before && after == "")
  {
    if s != "" && s[0] != separator {
      SplitFirstJoins(s[1..], separator);
      assert s == [s[0]] + s[1..];
    }
  }

  lemma {:induction false} SplitFirstOf(before: string, separator: char, after: string)
    requires separator !in before
    ensures SplitFirst(before + [separator] + after, separator) == (before, after)
    decreases |before|
  {
    var s := before + [separator] + after;
    if before == "" {
      assert s[1..] == after;
    } else {
      SplitFirstOf(before[1..], separator, after);
      assert s[1..] == before[1..] + [separator] + after;
      assert before == [before[0]] + before[1..];
    }
  }

  /** What a parsed reference is made of. */
  lemma ParsedParts(input: string)
    requires Parse(input).Ok?
    ensures var r := Parse(input).value;
            && '/' !in r.registry && r.repository != ""
            && ('.' in r.registry || ':' in r.registry || r.registry == "localhost")
            && (r.specifier.Digest? ==> '@' !in r.specifier.digest)
            && (r.specifier.Tag? ==> '@' !in Print(r) && ':' !in r.specifier.tag)
  {
    hide SplitLast, SplitFirst;
    SplitLastJoins(input, '@');
    var (name, digest) := NameAndDigest(input);
    SplitLastJoins(name, ':');
    var (untagged, tag) := NameAndTag(name);
    SplitFirstJoins(untagged, '/');
    if digest.None? {
      assert '@' !in input && '@' !in untagged;
    }
  }

  lemma ParseNameOf(r: Reference, specifier: Specifier)
    requires '/' !in r.registry && r.repository != ""
    requires '.' in r.registry || ':' in r.registry || r.registry == "localhost"
    ensures ParseName(Name(r), specifier) == Ok(Reference(r.registry, r.repository, specifier))
  {
    SplitFirstOf(r.registry, '/', r.repository);
  }

  lemma {:induction false} NoSplit(s: string, separator: char)
    requires separator !in s
    ensures SplitLast(s, separator) == None
  {
    SplitLastJoins(s, separator);
  }

  /** A tag is kept as it is given, for every registry and repository. */
  lemma ParsesTag(registry: string, repository: string, tag: string)
    requires '/' !in registry && ('.' in registry || ':' in registry || registry == "localhost") && repository != ""
    requires '@' !in registry && '@' !in repository && '@' !in tag && ':' !in tag
    ensures Parse(registry + "/" + repository + ":" + tag) == Ok(Reference(registry, repository, Tag(tag)))
  {
    var name := registry + "/" + repository;
    var input := name + ":" + tag;
    NoSplit(input, '@');
    assert input == name + [':'] + tag;
    SplitLastOf(name, ':', tag);
    SplitFirstOf(registry, '/', repository);
  }

  /** Without a tag it is the latest. */
  lemma ParsesNoTag(registry: string, repository: string)
    requires '/' !in registry && ('.' in registry || registry == "localhost") && repository != ""
    requires '@' !in registry + repository && ':' !in registry + repository
    ensures Parse(registry + "/" + repository) == Ok(Reference(registry, repository, Tag("latest")))
  {
    var input := registry + "/" + repository;
    NoSplit(input, '@');
    NoSplit(input, ':');
    SplitFirstOf(registry, '/', repository);
  }

  lemma ParsesDigest(registry: string, repository: string, digest: string)
    requires '/' !in registry && ('.' in registry || registry == "localhost") && repository != ""
    requires ':' !in registry + repository && '@' !in digest
    ensures Parse(registry + "/" + repository + "@" + digest) == Ok(Reference(registry, repository, Digest(digest)))
  {
    var name := registry + "/" + repository;
    assert name + "@" + digest == name + ['@'] + digest;
    SplitLastOf(name, '@', digest);
    NoSplit(name, ':');
    SplitFirstOf(registry, '/', repository);
  }

  /** Whatever is parsed was written in one of these forms. */
  lemma ParsedSpelling(input: string)
    requires Parse(input).Ok?
    ensures var r := Parse(input).value;
            var name := r.registry + "/" + r.repository;
            match r.specifier
            case Tag(tag) => input == name + ":" + tag || (input == name && tag == "latest")
            case Digest(digest) =>
              || input == name + "@" + digest
              || exists tag :: ':' !in tag && input == name + ":" + tag + "@" + digest
  {
    hide SplitLast, SplitFirst;
    var (name, digest) := NameAndDigest(input);
    SplitLastJoins(input, '@');
    SplitLastJoins(name, ':');
    var (untagged, tag) := NameAndTag(name);
    SplitFirstJoins(untagged, '/');
    var r := Parse(input).value;
    assert untagged == Name(r);
    if digest.Some? && tag.Some? {
      assert input == Name(r) + ":" + tag.value + "@" + digest.value;
    }
  }

  /** The first word must be an explicit registry. */
  lemma RejectsImplicitRegistry(word: string, rest: string)
    requires '.' !in word && ':' !in word && '/' !in word && '@' !in word && word != "localhost"
    ensures Parse(word) == Err(RegistryMissing) && Parse(word + "/" + rest) == Err(RegistryMissing)
  {
    NoSplit(word, '@');
    NoSplit(word, ':');
    SplitFirstJoins(word, '/');
    var input := word + "/" + rest;
    SplitLastJoins(input, '@');
    var (name, digest) := NameAndDigest(input);
    FirstWordStays(word, rest, '@', name);
    SplitLastJoins(name, ':');
    var (untagged, tag) := NameAndTag(name);
    FirstWordStays(word, name[|word| + 1..], ':', untagged);
    SplitFirstOf(word, '/', untagged[|word| + 1..]);
    assert untagged == word + ['/'] + untagged[|word| + 1..];
  }

  lemma FirstWordStays(word: string, rest: string, separator: char, before: string)
    requires separator !in word && separator != '/'
    requires before == word + "/" + rest || exists after :: before + [separator] + after == word + "/" + rest
    ensures word + "/" <= before
  {
    var input := word + "/" + rest;
    if before != input {
      var after :| before + [separator] + after == input;
      assert input[|before|] == separator;
      assert forall i | 0 <= i <= |word| :: input[i] == (word + "/")[i];
    }
  }

  lemma RejectsNoRepository(registry: string)
    requires '@' !in registry && ':' !in registry && '/' !in registry && ('.' in registry || registry == "localhost")
    ensures Parse(registry) == Err(RepositoryMissing) && Parse(registry + "/") == Err(RepositoryMissing)
  {
    NoSplit(registry, '@');
    NoSplit(registry, ':');
    SplitFirstJoins(registry, '/');
    NoSplit(registry + "/", '@');
    NoSplit(registry + "/", ':');
    assert registry + "/" == registry + ['/'] + "";
    SplitFirstOf(registry, '/', "");
  }

  lemma TaggedRoundTrip(input: string)
    requires Parse(input).Ok? && Parse(input).value.specifier.Tag?
    ensures Parse(Print(Parse(input).value)) == Parse(input)
  {
    var r := Parse(input).value;
    ParsedParts(input);
    NoSplit(Print(r), '@');
    assert Print(r) == Name(r) + [':'] + r.specifier.tag;
    SplitLastOf(Name(r), ':', r.specifier.tag);
    ParseNameOf(r, r.specifier);
  }

  lemma DigestRoundTrip(input: string)
    requires Parse(input).Ok? && Parse(input).value.specifier.Digest?
    ensures var r := Parse(input).value;
            Parse(Print(r)) == Ok(r) <==> ':' !in Name(r)
  {
    var r := Parse(input).value;
    ParsedParts(input);
    SplitLastOf(Name(r), '@', r.specifier.digest);
    assert Print(r) == Name(r) + ['@'] + r.specifier.digest;
    assert NameAndDigest(Print(r)) == (Name(r), Some(r.specifier.digest));
    if ':' !in Name(r) {
      NoSplit(Name(r), ':');
      ParseNameOf(r, r.specifier);
    } else {
      SplitLastJoins(Name(r), ':');
      var (untagged, tag) := NameAndTag(Name(r));
      SplitFirstJoins(untagged, '/');
      assert |untagged| < |Name(r)|;
    }
  }

  /** Printing loses nothing of a parsed reference, except that a digest reference whose registry
      or repository contains a colon does not parse back to itself. */
  lemma RoundTrip(input: string)
    requires Parse(input).Ok?
    ensures var r := Parse(input).value;
            Parse(Print(r)) == Ok(r) <==> r.specifier.Tag? || ':' !in Name(r)
  {
    if Parse(input).value.specifier.Tag? {
      TaggedRoundTrip(input);
    } else {
      DigestRoundTrip(input);
    }
  }

  lemma DigestAlone(name: string, tag: string, digest: string)
    requires '@' !in digest && ':' !in tag
    ensures Parse(name + ":" + tag + "@" + digest) == ParseName(name, Digest(digest))
  {
    SplitLastOf(name + ":" + tag, '@', digest);
    assert name + ":" + tag + "@" + digest == name + ":" + tag + ['@'] + digest;
    SplitLastOf(name, ':', tag);
    assert name + ":" + tag == name + [':'] + tag;
  }

  /** A tag beside a digest is dropped by parsing, whatever the name; the outcome is that of the
      name alone. From then on printing is stable unless the name has a colon. */
  lemma TagBesideDigestIsDropped(name: string, tag: string, digest: string)
    requires '@' !in digest && ':' !in tag
    ensures var input := name + ":" + tag + "@" + digest;
            && Parse(input) == ParseName(name, Digest(digest))
            && (Parse(input).Ok? ==>
                  && Print(Parse(input).value) == name + "@" + digest
                  && (Parse(Print(Parse(input).value)) == Parse(input) <==> ':' !in name))
  {
    var input := name + ":" + tag + "@" + digest;
    DigestAlone(name, tag, digest);
    if Parse(input).Ok? {
      SplitFirstJoins(name, '/');
      assert Name(Parse(input).value) == name;
      RoundTrip(input);
    }
  }

  /** A registry with a port, a tag and a digest: the reference parses, and what it prints as does
      not. */
  lemma PortBreaksRoundTrip()
    ensures Parse("localhost:5000/image:1@sha256:aa")
            == Ok(Reference("localhost:5000", "image", Digest("sha256:aa")))
    ensures Print(Reference("localhost:5000", "image", Digest("sha256:aa"))) == "localhost:5000/image@sha256:aa"
    ensures Parse("localhost:5000/image@sha256:aa") == Err(RepositoryMissing)
  {
    hide Parse, ParseName, SplitLast, SplitFirst;
    ParsesWithTag();
    FailsWithoutTag();
    Prints();
  }

  lemma ParsesWithTag()
    ensures Parse("localhost:5000/image:1@sha256:aa") == Ok(Reference("localhost:5000", "image", Digest("sha256:aa")))
  {
    hide Parse, ParseName, SplitLast, SplitFirst, Print;
    WithPort();
    DigestAlone("localhost:5000/image", "1", "sha256:aa");
    assert "localhost:5000/image" + ":" + "1" + "@" + "sha256:aa" == "localhost:5000/image:1@sha256:aa";
  }

  lemma FailsWithoutTag()
    ensures Parse("localhost:5000/image@sha256:aa") == Err(RepositoryMissing)
  {
    hide Parse, ParseName, SplitLast, SplitFirst, Print;
    WithoutPort();
    DigestAlone("localhost", "5000/image", "sha256:aa");
    assert "localhost" + ":" + "5000/image" + "@" + "sha256:aa" == "localhost:5000/image@sha256:aa";
  }

  lemma Prints()
    ensures Print(Reference("localhost:5000", "image", Digest("sha256:aa"))) == "localhost:5000/image@sha256:aa"
  {
  }

  lemma WithPort()
    ensures ParseName("localhost:5000/image", Digest("sha256:aa"))
            == Ok(Reference("localhost:5000", "image", Digest("sha256:aa")))
  {
    SplitFirstOf("localhost:5000", '/', "image");
    hide SplitFirst;
    assert "localhost:5000" + ['/'] + "image" == "localhost:5000/image";
    assert "localhost:5000"[9] == ':';
  }

  lemma WithoutPort()
    ensures ParseName("localhost", Digest("sha256:aa")) == Err(RepositoryMissing)
  {
    SplitFirstJoins("localhost", '/');
    hide SplitFirst;
  }
}
