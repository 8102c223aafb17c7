/**
  Conversion of an extracted layer from OCI whiteout markers to overlayfs attributes: the
  worklist loop that rewrites the directory in place, and the pure per-layer specification
  that it meets whatever order directories list their entries in.
 */
module Whiteouts {
  import opened Wrappers
  import opened LayerTree

  function TargetPath(m: Path): Path
    requires IsMarkerPath(m)
  {
    Parent(m) + [WhiteoutTargetName(Leaf(m)).value]
  }

  /** The paths that the whiteout markers of `t` aim at. */
  function Targets(t: Tree): set<Path> {
    set m | m in t && IsMarkerPath(m) :: TargetPath(m)
  }

  /** The overlayfs form of a layer: markers are gone, a whiteout without a replacement is an
      explicit whiteout file, and a directory that hides lower content is flagged. */
  function Converted(t: Tree): Tree {
    map p | p in t.Keys + Targets(t) && !IsMarkerPath(p) && (p in t || HasEffectiveWhiteout(t, p)) ::
      ConvertedNode(t, p)
  }

  function ConvertedNode(t: Tree, p: Path): Node {
    if p !in t then File([], true)
    else match t[p]
      case Directory(hidesLower) =>
        Directory(hidesLower || HasOpaqueMarker(t, p) || HasEffectiveWhiteout(t, p))
      case File(_, _) => t[p]
      case Symlink(_) => t[p]
  }

  // ----- States of the conversion in progress -----

  predicate Present(t: Tree, done: set<Path>, p: Path) {
    if p in t then p !in done else HasEffectiveWhiteout(t, p) && MarkerFor(p) in done
  }

  function NodeAt(t: Tree, visited: set<Path>, done: set<Path>, p: Path): Node {
    if p !in t then File([], true)
    else match t[p]
      case Directory(hidesLower) =>
        Directory(hidesLower || (HasOpaqueMarker(t, p) && p in visited)
                  || (HasEffectiveWhiteout(t, p) && MarkerFor(p) in done))
      case File(_, _) => t[p]
      case Symlink(_) => t[p]
  }

  /** The layer once the directories `visited` are marked and the markers `done` are consumed. */
  function ConvertedUpTo(t: Tree, visited: set<Path>, done: set<Path>): Tree {
    map p | p in t.Keys + Targets(t) && Present(t, done, p) :: NodeAt(t, visited, done, p)
  }

  function MarkersIn(t: Tree, visited: set<Path>): set<Path> {
    set m | m in t && IsMarkerPath(m) && Parent(m) in visited
  }

  function Directories(t: Tree): set<Path> {
    set p | p in t && t[p].Directory?
  }

  function Entries(t: Tree, directory: Path): set<Name> {
    set p | p in t && p != [] && Parent(p) == directory :: Leaf(p)
  }

  lemma WhiteoutIsTarget(t: Tree, p: Path)
    requires HasWhiteout(t, p)
    ensures p in Targets(t)
  {
    MarkerTargets(p);
    var m := MarkerFor(p);
    assert p == TargetPath(m);
  }

  lemma UpToLookup(t: Tree, visited: set<Path>, done: set<Path>, p: Path)
    ensures p in ConvertedUpTo(t, visited, done) <==> Present(t, done, p)
    ensures p in ConvertedUpTo(t, visited, done) ==> ConvertedUpTo(t, visited, done)[p] == NodeAt(t, visited, done, p)
  {
    if Present(t, done, p) && p !in t {
      WhiteoutIsTarget(t, p);
    }
  }

  lemma EntryLookup(t: Tree, directory: Path, name: Name)
    ensures name in Entries(t, directory) <==> directory + [name] in t
  {
    var p := directory + [name];
    assert Parent(p) == directory && Leaf(p) == name;
    forall q | q != [] && Parent(q) == directory && Leaf(q) == name ensures q == p {
      assert q == Parent(q) + [Leaf(q)];
    }
  }

  lemma NothingDone(t: Tree)
    ensures ConvertedUpTo(t, {}, {}) == t
  {
  }

  lemma MarkerForInjective(p: Path, m: Path)
    requires p != [] && Leaf(p) != "" && IsMarkerPath(m)
    ensures MarkerFor(p) == m <==> p == TargetPath(m)
  {
    MarkerTargets(p);
    TargetOfMarker(Parent(m), Leaf(m));
    assert m == Parent(m) + [Leaf(m)];
    assert p == Parent(p) + [Leaf(p)];
  }

  lemma EffectiveTargetIsNoMarker(t: Tree, p: Path)
    requires WellFormed(t) && HasEffectiveWhiteout(t, p)
    ensures !IsMarkerPath(p)
  {
    MarkerTargets(p);
    var m := MarkerFor(p);
    assert m == Parent(p) + [Leaf(m)];
    assert WellFormedMarker(t[m], Leaf(m));
  }

  lemma ConvertedLookup(t: Tree, p: Path)
    ensures p in Converted(t) <==> !IsMarkerPath(p) && (p in t || HasEffectiveWhiteout(t, p))
    ensures p in Converted(t) ==> Converted(t)[p] == ConvertedNode(t, p)
  {
    if HasWhiteout(t, p) {
      WhiteoutIsTarget(t, p);
    }
  }

  lemma EverythingDoneAt(t: Tree, p: Path)
    requires WellFormed(t)
    ensures var done := MarkersIn(t, Directories(t));
            && (Present(t, done, p) <==> !IsMarkerPath(p) && (p in t || HasEffectiveWhiteout(t, p)))
            && (Present(t, done, p) ==> NodeAt(t, Directories(t), done, p) == ConvertedNode(t, p))
  {
    if HasEffectiveWhiteout(t, p) {
      MarkerTargets(p);
      EffectiveTargetIsNoMarker(t, p);
    }
  }

  /** Once everything is visited, the state in progress is the specification. */
  lemma EverythingDone(t: Tree)
    requires WellFormed(t)
    ensures ConvertedUpTo(t, Directories(t), MarkersIn(t, Directories(t))) == Converted(t)
  {
    var visited, done := Directories(t), MarkersIn(t, Directories(t));
    var upTo, converted := ConvertedUpTo(t, visited, done), Converted(t);
    forall p
      ensures p in upTo <==> p in converted
      ensures p in upTo ==> upTo[p] == converted[p]
    {
      UpToLookup(t, visited, done, p);
      ConvertedLookup(t, p);
      EverythingDoneAt(t, p);
    }
  }

  /** A converted layer holds no markers, and every entry but markers and whiteouts is where it
      was, with its content; every new entry is the whiteout that some marker asked for. */
  lemma ConversionIsClean(t: Tree, p: Path)
    requires WellFormed(t)
    ensures IsMarkerPath(p) ==> p !in Converted(t)
    ensures p in t && !IsMarkerPath(p) ==>
              && p in Converted(t)
              && (!t[p].Directory? ==> Converted(t)[p] == t[p])
              && (t[p].Directory? ==> Converted(t)[p].Directory?)
    ensures p in Converted(t) && p !in t ==>
              && Converted(t)[p] == File([], true)
              && exists m :: m in t && IsMarkerPath(m) && Leaf(m) != OPAQUE_MARKER && TargetPath(m) == p
  {
    ConvertedLookup(t, p);
    if HasEffectiveWhiteout(t, p) {
      MarkerTargets(p);
      EffectiveTargetIsNoMarker(t, p);
      var m := MarkerFor(p);
      assert m in t && IsMarkerPath(m) && Leaf(m) != OPAQUE_MARKER && TargetPath(m) == p;
    }
  }

  /** What conversion makes of an opaque marker, by the name that it has. */
  lemma OpaqueMarkerIsConverted(t: Tree, directory: Path)
    requires WellFormed(t) && directory + [".wh..wh..opq"] in t
    ensures directory in Converted(t) && Converted(t)[directory] == Directory(true)
    ensures directory + [".wh..wh..opq"] !in Converted(t)
  {
    var m := directory + [".wh..wh..opq"];
    assert m == OpaqueMarkerIn(directory) && Parent(m) == directory && Leaf(m) == OPAQUE_MARKER;
    assert WhiteoutTargetName(OPAQUE_MARKER).Some?;
    ConvertedLookup(t, directory);
    ConvertedLookup(t, m);
  }

  /** Every directory with an opaque marker is flagged instead. */
  ghost predicate OpaqueMarkersAreFlags(t: Tree, nodes: Tree) {
    forall directory | directory + [".wh..wh..opq"] in t ::
      && directory in nodes && nodes[directory] == Directory(true)
      && directory + [".wh..wh..opq"] !in nodes
  }

  lemma OpaqueMarkersAreConverted(t: Tree)
    requires WellFormed(t)
    ensures OpaqueMarkersAreFlags(t, Converted(t))
  {
    hide Converted;
    forall directory | directory + [".wh..wh..opq"] in t
      ensures directory in Converted(t) && Converted(t)[directory] == Directory(true)
      ensures directory + [".wh..wh..opq"] !in Converted(t)
    {
      OpaqueMarkerIsConverted(t, directory);
    }
  }

  /** And of a whiteout: a missing target becomes a whiteout file unless the directory is opaque, a
      directory becomes opaque, and a file or link stays. */
  lemma WhiteoutIsConverted(t: Tree, directory: Path, name: Name)
    requires WellFormed(t) && name != "" && name != ".wh..opq" && directory + [".wh." + name] in t
    ensures directory + [".wh." + name] !in Converted(t)
    ensures var p, isOpaque := directory + [name], directory + [".wh..wh..opq"] in t;
            if p in t then
              && p in Converted(t)
              && (t[p].Directory? ==>
                    Converted(t)[p].Directory? && (!isOpaque ==> Converted(t)[p] == Directory(true)))
              && (!t[p].Directory? ==> Converted(t)[p] == t[p])
            else if isOpaque then p !in Converted(t)
            else p in Converted(t) && Converted(t)[p] == File([], true)
  {
    var p, m := directory + [name], directory + [".wh." + name];
    assert Parent(p) == directory && Leaf(p) == name && Parent(m) == directory && Leaf(m) == ".wh." + name;
    ReservedNames(name);
    assert MarkerFor(p) == m && OpaqueMarkerIn(directory) == directory + [".wh..wh..opq"];
    assert (".wh." + name)[4..] == name && OPAQUE_MARKER[4..] == ".wh..opq";
    assert WellFormedMarker(t[m], Leaf(m));
    ConvertedLookup(t, p);
    ConvertedLookup(t, m);
  }

  // ----- One marker at a time -----

  lemma OpaqueIsSet(t: Tree, visited: set<Path>, done: set<Path>, directory: Path)
    requires directory in t && t[directory].Directory? && directory !in done
    requires HasOpaqueMarker(t, directory)
    ensures ConvertedUpTo(t, visited + {directory}, done)
            == ConvertedUpTo(t, visited, done)[directory := Directory(true)]
  {
  }

  lemma NoOpaqueToSet(t: Tree, visited: set<Path>, done: set<Path>, directory: Path)
    requires !HasOpaqueMarker(t, directory)
    ensures ConvertedUpTo(t, visited + {directory}, done) == ConvertedUpTo(t, visited, done)
  {
    assert forall p :: NodeAt(t, visited + {directory}, done, p) == NodeAt(t, visited, done, p);
  }

  lemma MarkerIsRemoved(t: Tree, visited: set<Path>, done: set<Path>, m: Path)
    requires m in t && IsMarkerPath(m) && HasOpaqueMarker(t, Parent(m))
    ensures ConvertedUpTo(t, visited, done + {m}) == ConvertedUpTo(t, visited, done) - {m}
  {
    forall p | HasEffectiveWhiteout(t, p) ensures MarkerFor(p) != m {
      MarkerTargets(p);
    }
  }

  /** What consuming a whiteout marker does to the node at its target. */
  function Whiteout(nodes: Tree, target: Path): Tree {
    if target !in nodes then nodes[target := File([], true)]
    else if nodes[target].Directory? then nodes[target := Directory(true)]
    else nodes
  }

  /** What consuming a whiteout marker does in a directory without an opaque marker; a target of
      `..` in the root lies outside the layer. */
  function Consume(nodes: Tree, m: Path): Tree
    requires IsMarkerPath(m)
  {
    (match Join(Parent(m), WhiteoutTargetName(Leaf(m)).value)
     case Some(target) => Whiteout(nodes, target)
     case None => nodes) - {m}
  }

  /** Markers that aim at markers must be excluded. Whatever else such a layer holds: whether the
      directory lists the inner marker or the outer one first decides whether the name of the inner
      one is still there when both have been consumed. */
  lemma NestedMarkersDependOnOrder(nodes: Tree, inner: Path, outer: Path)
    requires IsMarkerPath(inner) && IsMarkerPath(outer) && TargetPath(outer) == inner && Leaf(outer) != OPAQUE_MARKER
    requires inner in nodes && outer in nodes && !nodes[inner].Directory? && !nodes[outer].Directory?
    requires WhiteoutTargetName(Leaf(inner)).value !in {".", ".."}
    ensures inner in Consume(Consume(nodes, inner), outer)
    ensures inner !in Consume(Consume(nodes, outer), inner)
    ensures !WellFormed(nodes)
  {
    TargetOfMarker(Parent(outer), Leaf(outer));
    TargetOfMarker(Parent(inner), Leaf(inner));
    assert |Leaf(outer)| == |Leaf(inner)| + |WHITEOUT_PREFIX|;
    assert inner == Parent(outer) + [Leaf(inner)] && inner != outer;
    assert TargetPath(inner) != inner && TargetPath(inner) != outer;
    assert !WellFormedMarker(nodes[outer], Leaf(outer));
  }

  lemma TargetOfWellFormedMarker(t: Tree, m: Path)
    requires WellFormed(t) && m in t && IsMarkerPath(m) && Leaf(m) != OPAQUE_MARKER
    ensures var target := TargetPath(m);
            target != [] && Leaf(target) != "" && !IsMarkerPath(target) && MarkerFor(target) == m
  {
    TargetOfMarker(Parent(m), Leaf(m));
    assert m == Parent(m) + [Leaf(m)];
    assert WellFormedMarker(t[m], Leaf(m));
  }

  /** Consuming a whiteout marker shows only at the marker and at its target. */
  lemma OnlyTargetChanges(t: Tree, visited: set<Path>, done: set<Path>, m: Path, p: Path)
    requires IsMarkerPath(m) && p != m && p != TargetPath(m)
    ensures Present(t, done + {m}, p) == Present(t, done, p)
    ensures NodeAt(t, visited, done + {m}, p) == NodeAt(t, visited, done, p)
  {
    if HasWhiteout(t, p) {
      MarkerForInjective(p, m);
    }
  }

  lemma TargetChanges(t: Tree, visited: set<Path>, done: set<Path>, m: Path)
    requires WellFormed(t) && m in t && IsMarkerPath(m) && Leaf(m) != OPAQUE_MARKER
    requires !HasOpaqueMarker(t, Parent(m)) && m !in done
    requires forall q | q in done :: IsMarkerPath(q)
    ensures var target := TargetPath(m);
            var before := ConvertedUpTo(t, visited, done);
            && target != m && target in ConvertedUpTo(t, visited, done + {m})
            && ConvertedUpTo(t, visited, done + {m})[target] == Whiteout(before, target)[target]
  {
    var target := TargetPath(m);
    TargetOfWellFormedMarker(t, m);
    UpToLookup(t, visited, done, target);
    UpToLookup(t, visited, done + {m}, target);
  }

  lemma MarkerIsConvertedAt(t: Tree, visited: set<Path>, done: set<Path>, m: Path, p: Path)
    requires WellFormed(t) && m in t && IsMarkerPath(m) && Leaf(m) != OPAQUE_MARKER
    requires !HasOpaqueMarker(t, Parent(m)) && m !in done
    requires forall q | q in done :: IsMarkerPath(q)
    ensures var after := ConvertedUpTo(t, visited, done + {m});
            var expected := Whiteout(ConvertedUpTo(t, visited, done), TargetPath(m)) - {m};
            && (p in after <==> p in expected)
            && (p in after ==> after[p] == expected[p])
  {
    TargetChanges(t, visited, done, m);
    if p == m {
      UpToLookup(t, visited, done + {m}, m);
    } else if p != TargetPath(m) {
      OnlyTargetChanges(t, visited, done, m, p);
      UpToLookup(t, visited, done, p);
      UpToLookup(t, visited, done + {m}, p);
    }
  }

  lemma MarkerIsConverted(t: Tree, visited: set<Path>, done: set<Path>, m: Path)
    requires WellFormed(t) && m in t && IsMarkerPath(m) && Leaf(m) != OPAQUE_MARKER
    requires !HasOpaqueMarker(t, Parent(m)) && m !in done
    requires forall q | q in done :: IsMarkerPath(q)
    ensures ConvertedUpTo(t, visited, done + {m})
            == Whiteout(ConvertedUpTo(t, visited, done), TargetPath(m)) - {m}
  {
    hide ConvertedUpTo, Whiteout, WellFormed, IsMarkerPath, TargetPath, HasOpaqueMarker;
    var after := ConvertedUpTo(t, visited, done + {m});
    var expected := Whiteout(ConvertedUpTo(t, visited, done), TargetPath(m)) - {m};
    forall p
      ensures p in after <==> p in expected
      ensures p in after ==> after[p] == expected[p]
    {
      MarkerIsConvertedAt(t, visited, done, m, p);
    }
  }

  // ----- The loop -----

  ghost predicate SameDirectories(s: Tree, t: Tree) {
    forall p :: p in s && s[p].Directory? <==> p in t && t[p].Directory?
  }

  /** Where `directory/name` leads; nowhere when it leaves the layer. */
  function Join(directory: Path, name: Name): Option<Path> {
    if name == "." then Some(directory)
    else if name == ".." then (if directory == [] then None else Some(Parent(directory)))
    else Some(directory + [name])
  }

  /** What becomes of a layer in progress when the marker for a name is consumed, whatever the name. */
  lemma MarkerIsConsumed(nodes: Tree, directory: Path, name: Name)
    requires ValidTree(nodes) && name != "" && directory + [".wh." + name] in nodes
    ensures var m, p := directory + [".wh." + name], directory + [name];
            && IsMarkerPath(m)
            && Consume(nodes, m)
               == (if name == "." then nodes[directory := Directory(true)]
                   else if name == ".." then
                     if directory == [] then nodes else nodes[Parent(directory) := Directory(true)]
                   else if p !in nodes then nodes[p := File([], true)]
                   else if nodes[p].Directory? then nodes[p := Directory(true)]
                   else nodes) - {m}
  {
    var m := directory + [".wh." + name];
    assert Parent(m) == directory && Leaf(m) == ".wh." + name;
    ReservedNames(name);
    if name == ".." && directory != [] {
      AncestorIsDirectory(nodes, directory, |directory| - 1);
    }
  }

  /** The worklist below `root`: `visited` directories are converted, `pending` ones are due. */
  ghost predicate Traversal(t: Tree, pending: seq<Path>, visited: set<Path>) {
    && visited <= Directories(t)
    && (forall i | 0 <= i < |pending| :: pending[i] in Directories(t) && pending[i] !in visited)
    && (forall i, j | 0 <= i < j < |pending| :: pending[i] != pending[j])
    && ([] in visited || pending == [[]])
    && (forall p | p != [] && (p in visited || p in pending) :: Parent(p) in visited)
    && (forall p | p != [] && p in Directories(t) && Parent(p) in visited :: p in visited || p in pending)
  }

  lemma {:induction false} TraversalIsComplete(t: Tree, visited: set<Path>, p: Path)
    requires ValidTree(t) && Traversal(t, [], visited) && p in Directories(t)
    ensures p in visited
    decreases |p|
  {
    if p != [] {
      TraversalIsComplete(t, visited, Parent(p));
    }
  }

  lemma FinishedConversion(t: Tree, nodes: Tree, visited: set<Path>)
    requires WellFormed(t) && Traversal(t, [], visited)
    requires nodes == ConvertedUpTo(t, visited, MarkersIn(t, visited))
    ensures nodes == Converted(t) && OpaqueMarkersAreFlags(t, nodes)
  {
    forall p | p in Directories(t) ensures p in visited {
      TraversalIsComplete(t, visited, p);
    }
    assert visited == Directories(t);
    EverythingDone(t);
    OpaqueMarkersAreConverted(t);
    hide Converted, ConvertedUpTo, OpaqueMarkersAreFlags;
  }

  lemma ConversionEnds(t: Tree, nodes: Tree, visited: set<Path>)
    requires Traversal(t, [], visited) && Resembling(t, nodes, visited)
    requires WellFormed(t) ==> nodes == ConvertedUpTo(t, visited, MarkersIn(t, visited))
    ensures ConvertsTo(t, nodes) && (WellFormed(t) ==> OpaqueMarkersAreFlags(t, nodes))
  {
    if WellFormed(t) {
      FinishedConversion(t, nodes, visited);
    }
    hide Traversal, WellFormed, ConvertedUpTo, Converted, OpaqueMarkersAreFlags;
  }

  lemma TraversalStarts(t: Tree)
    requires ValidTree(t)
    ensures Traversal(t, [[]], {}) && SameDirectories(t, t)
    ensures ConvertedUpTo(t, {}, MarkersIn(t, {})) == t
  {
    NothingDone(t);
    assert MarkersIn(t, {}) == {};
  }

  lemma NextDirectory(t: Tree, nodes: Tree, pending: seq<Path>, visited: set<Path>)
    requires Traversal(t, pending, visited) && SameDirectories(t, nodes) && pending != []
    ensures var directory := pending[|pending| - 1];
            directory in nodes && nodes[directory].Directory? && directory !in visited && directory in Directories(t)
  {
  }

  lemma TraversalContinues(t: Tree, pending: seq<Path>, visited: set<Path>, directory: Path, found: seq<Path>)
    requires Traversal(t, pending + [directory], visited)
    requires Found(t, directory, {}, found)
    ensures Traversal(t, pending + found, visited + {directory})
  {
    var before := pending + [directory];
    assert before[|pending|] == directory;
    assert forall p | p in pending :: p in before;
    assert directory !in visited && forall p | p in found :: Parent(p) !in visited;
    assert forall i | 0 <= i < |pending| :: before[i] == pending[i];
    var after := pending + found;
    forall i, j | 0 <= i < j < |after| ensures after[i] != after[j] {
      if j >= |pending| && i < |pending| {
        assert after[j] in found && after[i] in before;
      }
    }
  }

  // ----- Inside one directory -----

  ghost function Paths(directory: Path, names: set<Name>): set<Path> {
    set name | name in names :: directory + [name]
  }

  /** `found` lists, once each, the subdirectories of `directory` whose names are not `remaining`. */
  ghost predicate Found(t: Tree, directory: Path, remaining: set<Name>, found: seq<Path>) {
    && (forall p | p in found :: p != [] && Parent(p) == directory && Leaf(p) !in remaining && p in Directories(t))
    && (forall p | p != [] && Parent(p) == directory && p in Directories(t) :: p in found || Leaf(p) in remaining)
    && (forall i, j | 0 <= i < j < |found| :: found[i] != found[j])
  }

  lemma PathsNext(directory: Path, remaining: set<Name>, name: Name)
    requires name !in remaining
    ensures Paths(directory, remaining + {name}) == Paths(directory, remaining) + {directory + [name]}
    ensures directory + [name] !in Paths(directory, remaining)
    ensures Parent(directory + [name]) == directory && Leaf(directory + [name]) == name
  {
    assert Leaf(directory + [name]) == name;
    forall other | other in remaining ensures directory + [other] != directory + [name] {
      assert Leaf(directory + [other]) == other;
    }
  }

  lemma FoundNext(t: Tree, directory: Path, remaining: set<Name>, found: seq<Path>, name: Name)
    requires name !in remaining && Found(t, directory, remaining + {name}, found)
    ensures if directory + [name] in Directories(t) then Found(t, directory, remaining, found + [directory + [name]])
            else Found(t, directory, remaining, found)
  {
    var path := directory + [name];
    assert Parent(path) == directory && Leaf(path) == name;
    forall p | p != [] && Parent(p) == directory && Leaf(p) == name ensures p == path {
      assert p == Parent(p) + [Leaf(p)];
    }
  }

  lemma MarkersNext(t: Tree, directory: Path, seen: set<Path>, remaining: set<Name>, name: Name)
    requires name !in remaining && directory in seen && directory + [name] in t
    ensures IsMarkerPath(directory + [name]) == IsMarker(name)
    ensures var path := directory + [name];
            var done := MarkersIn(t, seen) - Paths(directory, remaining + {name});
            && path !in done && (forall m | m in done :: IsMarkerPath(m))
            && MarkersIn(t, seen) - Paths(directory, remaining) == if IsMarker(name) then done + {path} else done
  {
    PathsNext(directory, remaining, name);
  }

  lemma EntriesToConvert(t: Tree, nodes: Tree, directory: Path)
    requires SameDirectories(t, nodes)
    ensures forall name :: name in Entries(nodes, directory) <==> directory + [name] in nodes
    ensures Paths(directory, Entries(nodes, directory)) <= nodes.Keys
    ensures Found(t, directory, Entries(nodes, directory), [])
  {
    forall name ensures name in Entries(nodes, directory) <==> directory + [name] in nodes {
      EntryLookup(nodes, directory, name);
    }
  }

  lemma UnvisitedEntry(t: Tree, directory: Path, visited: set<Path>, p: Path)
    requires p != [] && Parent(p) == directory && directory !in visited
    ensures p in ConvertedUpTo(t, visited, MarkersIn(t, visited)) <==> p in t
  {
    UpToLookup(t, visited, MarkersIn(t, visited), p);
    if HasWhiteout(t, p) {
      MarkerTargets(p);
    }
  }

  lemma MarkersToConvert(t: Tree, directory: Path, visited: set<Path>, names: set<Name>)
    requires directory !in visited
    requires forall name :: name in names <==> directory + [name] in ConvertedUpTo(t, visited, MarkersIn(t, visited))
    ensures Paths(directory, names) <= t.Keys
    ensures OPAQUE_MARKER in names <==> HasOpaqueMarker(t, directory)
    ensures MarkersIn(t, visited) == MarkersIn(t, visited + {directory}) - Paths(directory, names)
  {
    forall name ensures name in names <==> directory + [name] in t {
      assert Parent(directory + [name]) == directory;
      UnvisitedEntry(t, directory, visited, directory + [name]);
    }
    assert HasOpaqueMarker(t, directory) <==> directory + [OPAQUE_MARKER] in t;
    forall m | m in MarkersIn(t, visited + {directory}) && Parent(m) == directory
      ensures m in Paths(directory, names)
    {
      assert m == directory + [Leaf(m)];
    }
    forall m | m in Paths(directory, names) ensures m !in MarkersIn(t, visited) {
      var name :| name in names && m == directory + [name];
      assert Parent(m) == directory;
    }
  }

  lemma MarkedDirectory(t: Tree, nodes: Tree, directory: Path)
    requires ValidTree(nodes) && SameDirectories(t, nodes) && directory in nodes && nodes[directory].Directory?
    ensures directory in t && t[directory].Directory?
    ensures var marked := nodes[directory := Directory(true)];
            ValidTree(marked) && SameDirectories(t, marked) && marked.Keys == nodes.Keys
  {
  }

  lemma ConvertedDirectory(t: Tree, visited: set<Path>, directory: Path)
    requires WellFormed(t) && directory in t && t[directory].Directory?
    ensures var done := MarkersIn(t, visited);
            ConvertedUpTo(t, visited + {directory}, done) ==
            if HasOpaqueMarker(t, directory) then ConvertedUpTo(t, visited, done)[directory := Directory(true)]
            else ConvertedUpTo(t, visited, done)
  {
    var done := MarkersIn(t, visited);
    if HasOpaqueMarker(t, directory) {
      assert !IsMarkerPath(directory);
      OpaqueIsSet(t, visited, done, directory);
    } else {
      NoOpaqueToSet(t, visited, done, directory);
    }
  }

  /** A listed marker, about to be treated. */
  lemma MarkedEntry(t: Tree, nodes: Tree, seen: set<Path>, directory: Path, name: Name, remaining: set<Name>)
    requires IsMarker(name) && directory in seen && ValidTree(nodes) && Resembling(t, nodes, seen)
    requires Paths(directory, remaining + {name}) <= t.Keys && Paths(directory, remaining + {name}) <= nodes.Keys
    ensures IsMarkerPath(directory + [name])
    ensures Resembling(t, nodes - {directory + [name]}, seen)
    ensures Resembling(t, Consume(nodes, directory + [name]), seen)
  {
    var m := directory + [name];
    assert Parent(m) == directory && Leaf(m) == name;
    assert m in Paths(directory, remaining + {name});
    hide Resembling;
    RemovalResembles(t, nodes, seen, m);
    ConsumptionResembles(t, nodes, seen, m);
  }

  /** One consumed marker is one step of the specification. */
  lemma ConvertedEntry(t: Tree, visited: set<Path>, done: set<Path>, m: Path)
    requires WellFormed(t) && m in t && IsMarkerPath(m) && m !in done
    requires forall q | q in done :: IsMarkerPath(q)
    ensures !t[m].Directory? && m in ConvertedUpTo(t, visited, done)
            && ConvertedUpTo(t, visited, done)[m] == t[m]
    ensures ConvertedUpTo(t, visited, done + {m}) ==
            if HasOpaqueMarker(t, Parent(m)) then ConvertedUpTo(t, visited, done) - {m}
            else Whiteout(ConvertedUpTo(t, visited, done), TargetPath(m)) - {m}
    ensures Leaf(m) == OPAQUE_MARKER ==> HasOpaqueMarker(t, Parent(m))
    ensures Leaf(m) != OPAQUE_MARKER ==>
              WhiteoutTargetName(Leaf(m)).value != "." && WhiteoutTargetName(Leaf(m)).value != ".."
  {
    assert m == Parent(m) + [Leaf(m)];
    assert WellFormedMarker(t[m], Leaf(m));
    UpToLookup(t, visited, done, m);
    if HasOpaqueMarker(t, Parent(m)) {
      MarkerIsRemoved(t, visited, done, m);
    } else {
      MarkerIsConverted(t, visited, done, m);
    }
  }

  // ----- What conversion leaves of any layer -----

  /** Some whiteout marker of the layer aims at the path. */
  ghost predicate AimedAt(t: Tree, p: Path) {
    exists m :: m in t && Aims(m, p)
  }

  predicate Aims(m: Path, p: Path) {
    IsMarkerPath(m) && Join(Parent(m), WhiteoutTargetName(Leaf(m)).value) == Some(p)
  }

  /** Whatever the layer: every entry but markers stays what it is, except that a directory with an
      opaque marker, or at which a whiteout aims, may be flagged; and every entry at a new path is
      the whiteout that some marker asked for. */
  ghost predicate Resembles(t: Tree, nodes: Tree) {
    && (forall p | p in t && !IsMarkerPath(p) :: KeptAt(t, nodes, p))
    && (forall p | p in nodes && p !in t :: nodes[p] == File([], true) && AimedAt(t, p))
  }

  ghost predicate KeptAt(t: Tree, nodes: Tree, p: Path)
    requires p in t
  {
    && p in nodes
    && (nodes[p] == t[p]
        || (t[p].Directory? && nodes[p] == Directory(true) && (HasOpaqueMarker(t, p) || AimedAt(t, p))))
  }

  /** What conversion may leave of a layer: exactly the specification, if it is well formed. */
  ghost predicate ConvertsTo(t: Tree, nodes: Tree) {
    Resembles(t, nodes) && (WellFormed(t) ==> nodes == Converted(t))
  }

  /** New entries lie in visited directories only. */
  ghost predicate Resembling(t: Tree, nodes: Tree, visited: set<Path>) {
    Resembles(t, nodes) && forall p | p in nodes && p !in t :: p != [] && Parent(p) in visited
  }

  lemma ResemblesItself(t: Tree)
    ensures Resembling(t, t, {})
  {
  }

  /** What a directory lists when its turn comes was there from the start. */
  lemma ListedAreOriginal(t: Tree, nodes: Tree, visited: set<Path>, directory: Path)
    requires Resembling(t, nodes, visited) && directory !in visited
    requires directory in t && t[directory].Directory? && directory in nodes && nodes[directory].Directory?
    ensures Paths(directory, Entries(nodes, directory)) <= t.Keys
    ensures Resembling(t, nodes, visited + {directory})
    ensures OPAQUE_MARKER in Entries(nodes, directory) ==>
              Resembling(t, nodes[directory := Directory(true)], visited + {directory})
  {
    forall name | name in Entries(nodes, directory) ensures directory + [name] in t {
      EntryLookup(nodes, directory, name);
      assert Parent(directory + [name]) == directory;
    }
    if OPAQUE_MARKER in Entries(nodes, directory) {
      var marked := nodes[directory := Directory(true)];
      assert HasOpaqueMarker(t, directory);
      forall p | p in t && !IsMarkerPath(p) ensures KeptAt(t, marked, p) {
        assert KeptAt(t, nodes, p);
      }
    }
  }

  lemma RemovalResembles(t: Tree, nodes: Tree, visited: set<Path>, m: Path)
    requires Resembling(t, nodes, visited) && m in t && IsMarkerPath(m)
    ensures Resembling(t, nodes - {m}, visited)
  {
    forall p | p in t && !IsMarkerPath(p) ensures KeptAt(t, nodes - {m}, p) {
      assert KeptAt(t, nodes, p);
    }
  }

  /** Consuming a marker of the layer changes nothing but what it aims at. */
  lemma ConsumptionResembles(t: Tree, nodes: Tree, visited: set<Path>, m: Path)
    requires Resembling(t, nodes, visited) && m in t && IsMarkerPath(m) && Parent(m) in visited
    requires ValidTree(nodes) && Parent(m) in nodes && nodes[Parent(m)].Directory?
    ensures Resembling(t, Consume(nodes, m), visited)
  {
    match Join(Parent(m), WhiteoutTargetName(Leaf(m)).value)
    case None => RemovalResembles(t, nodes, visited, m);
    case Some(target) =>
      assert Aims(m, target) && AimedAt(t, target);
      assert target !in nodes ==> target != [] && Parent(target) == Parent(m) by {
        if WhiteoutTargetName(Leaf(m)).value == ".." {
          AncestorIsThere(nodes, Parent(m));
        }
      }
      var after := Whiteout(nodes, target);
      forall p | p in t && !IsMarkerPath(p) ensures KeptAt(t, after, p) {
        assert KeptAt(t, nodes, p);
      }
      assert Resembling(t, after, visited);
      RemovalResembles(t, after, visited, m);
  }

  lemma AncestorIsThere(t: Tree, p: Path)
    requires ValidTree(t) && p in t
    ensures p != [] ==> Parent(p) in t
  {
  }

  /** An extracted layer that is rewritten in place. */
  class LayerDirectory {
    var nodes: Tree

    constructor (contents: LayerContents)
      ensures nodes == contents
    {
      nodes := contents;
    }

    /** Fails on a directory, as unlinking one does. */
    method RemoveMarker(marker: Path) returns (ok: bool)
      requires ValidTree(nodes) && marker in nodes && marker != []
      modifies this
      ensures ok == !old(nodes[marker].Directory?)
      ensures nodes == if ok then old(nodes) - {marker} else old(nodes)
      ensures ValidTree(nodes)
    {
      ok := !nodes[marker].Directory?;
      if ok {
        nodes := nodes - {marker};
      }
    }

    method ConvertMarker(directory: Path, name: Name) returns (ok: bool)
      requires ValidTree(nodes) && directory + [name] in nodes && IsMarker(name)
      modifies this
      ensures ValidTree(nodes) && SameDirectories(old(nodes), nodes)
      ensures ok == !old(nodes[directory + [name]].Directory?)
      ensures forall p | p in old(nodes) && p != directory + [name] :: p in nodes
      ensures IsMarkerPath(directory + [name])
      ensures ok ==> nodes == Consume(old(nodes), directory + [name])
    {
      var marker := directory + [name];
      assert Parent(marker) == directory;
      var target := WhiteoutTargetName(name).value;
      match Join(directory, target) {
        case Some(path) =>
          if path !in nodes {
            assert Parent(path) == directory;
            nodes := nodes[path := File([], true)];
          } else if nodes[path].Directory? {
            nodes := nodes[path := Directory(true)];
          }
        case None =>
          // The attribute lands on a directory outside the layer.
      }
      ok := RemoveMarker(marker);
    }

    /** The directory is half converted: the entries named `remaining` are still due. */
    ghost predicate Converting(t: Tree, seen: set<Path>, directory: Path, isOpaque: bool, remaining: set<Name>)
      reads this
    {
      && ValidTree(nodes) && SameDirectories(t, nodes) && Paths(directory, remaining) <= nodes.Keys
      && Resembling(t, nodes, seen) && Paths(directory, remaining) <= t.Keys
      && (WellFormed(t) ==>
            && isOpaque == HasOpaqueMarker(t, directory)
            && nodes == ConvertedUpTo(t, seen, MarkersIn(t, seen) - Paths(directory, remaining)))
    }

    /** Treats one listed entry: a marker is consumed, a subdirectory reported. */
    method ConvertEntry(directory: Path, name: Name, isOpaque: bool,
                        ghost t: Tree, ghost seen: set<Path>, ghost remaining: set<Name>)
      returns (ok: bool, isDirectory: bool)
      requires Converting(t, seen, directory, isOpaque, remaining + {name})
      requires name !in remaining && directory in seen
      modifies this
      ensures ValidTree(nodes) && SameDirectories(t, nodes)
      ensures WellFormed(t) ==> ok
      ensures ok ==> Converting(t, seen, directory, isOpaque, remaining)
      ensures ok ==> isDirectory == (directory + [name] in Directories(t))
    {
      var path := directory + [name];
      ghost var before := nodes;
      PathsNext(directory, remaining, name);
      if WellFormed(t) {
        MarkersNext(t, directory, seen, remaining, name);
      }
      isDirectory := false;
      if IsMarker(name) {
        if WellFormed(t) {
          ConvertedEntry(t, seen, MarkersIn(t, seen) - Paths(directory, remaining + {name}), path);
        }
        MarkedEntry(t, before, seen, directory, name, remaining);
        if name == OPAQUE_MARKER || isOpaque {
          ok := RemoveMarker(path);
        } else {
          ok := ConvertMarker(directory, name);
        }
      } else {
        isDirectory := nodes[path].Directory?;
        ok := true;
      }
    }

    /** Lists a directory, and marks it when the listing holds an opaque marker. */
    method ListAndMark(directory: Path, ghost t: Tree, ghost visited: set<Path>)
      returns (names: set<Name>, isOpaque: bool)
      requires ValidTree(nodes) && SameDirectories(t, nodes)
      requires directory in nodes && nodes[directory].Directory? && directory !in visited
      requires WellFormed(t) ==> nodes == ConvertedUpTo(t, visited, MarkersIn(t, visited))
      requires Resembling(t, nodes, visited)
      modifies this
      ensures Converting(t, visited + {directory}, directory, isOpaque, names)
      ensures Found(t, directory, names, [])
    {
      hide ValidTree, SameDirectories, Found, MarkersIn, ConvertedUpTo, Entries, Paths, WellFormed, HasOpaqueMarker,
           Resembling;
      MarkedDirectory(t, nodes, directory);
      ListedAreOriginal(t, nodes, visited, directory);
      names := Entries(nodes, directory);
      isOpaque := OPAQUE_MARKER in names;
      EntriesToConvert(t, nodes, directory);
      if WellFormed(t) {
        MarkersToConvert(t, directory, visited, names);
        ConvertedDirectory(t, visited, directory);
      }
      if isOpaque {
        nodes := nodes[directory := Directory(true)];
      }
    }

    /** The body of the worklist loop; entries come in any order. */
    method ConvertDirectory(directory: Path, ghost t: Tree, ghost visited: set<Path>)
      returns (ok: bool, found: seq<Path>)
      requires ValidTree(nodes) && SameDirectories(t, nodes)
      requires directory in nodes && nodes[directory].Directory? && directory !in visited
      requires WellFormed(t) ==> nodes == ConvertedUpTo(t, visited, MarkersIn(t, visited))
      requires Resembling(t, nodes, visited)
      modifies this
      ensures ValidTree(nodes) && SameDirectories(t, nodes)
      ensures ok ==> Found(t, directory, {}, found) && Resembling(t, nodes, visited + {directory})
      ensures WellFormed(t) ==>
        var seen := visited + {directory};
        ok && nodes == ConvertedUpTo(t, seen, MarkersIn(t, seen))
    {
      hide ValidTree, WellFormed, ConvertedUpTo, MarkersIn, Found, SameDirectories, Resembling;
      var remaining, isOpaque := ListAndMark(directory, t, visited);
      ghost var seen := visited + {directory};
      found := [];
      while remaining != {}
        invariant Converting(t, seen, directory, isOpaque, remaining)
        invariant Found(t, directory, remaining, found)
      {
        var name :| name in remaining;
        assert remaining == remaining - {name} + {name};
        remaining := remaining - {name};
        var isDirectory;
        ok, isDirectory := ConvertEntry(directory, name, isOpaque, t, seen, remaining);
        if !ok { return; }
        FoundNext(t, directory, remaining, found, name);
        if isDirectory {
          found := found + [directory + [name]];
        }
      }
      assert MarkersIn(t, seen) - Paths(directory, {}) == MarkersIn(t, seen);
      ok := true;
    }

    /** Pops directories off a stack until all are converted. */
    method ConvertWhiteouts() returns (ok: bool)
      requires ValidTree(nodes)
      modifies this
      ensures ValidTree(nodes)
      ensures WellFormed(old(nodes)) ==> ok
      ensures ok ==> ConvertsTo(old(nodes), nodes)
      ensures WellFormed(old(nodes)) ==> OpaqueMarkersAreFlags(old(nodes), nodes)
    {
      hide Traversal, Found, ConvertedUpTo, MarkersIn, WellFormed, SameDirectories, ValidTree, Resembling, ConvertsTo,
           OpaqueMarkersAreFlags, Directories;
      ghost var t := nodes;
      ghost var visited: set<Path> := {};
      var pending: seq<Path> := [[]];
      TraversalStarts(t);
      ResemblesItself(t);
      while pending != []
        invariant ValidTree(nodes) && SameDirectories(t, nodes)
        invariant Traversal(t, pending, visited) && Resembling(t, nodes, visited)
        invariant WellFormed(t) ==> nodes == ConvertedUpTo(t, visited, MarkersIn(t, visited))
        decreases Directories(t) - visited
      {
        NextDirectory(t, nodes, pending, visited);
        var directory := pending[|pending| - 1];
        assert pending == pending[..|pending| - 1] + [directory];
        pending := pending[..|pending| - 1];
        var found;
        ok, found := ConvertDirectory(directory, t, visited);
        if !ok { return; }
        TraversalContinues(t, pending, visited, directory, found);
        visited := visited + {directory};
        pending := pending + found;
      }
      ConversionEnds(t, nodes, visited);
      ok := true;
    }
  }
}
