/**
  The contents of one layer directory: a prefix-closed map from paths to nodes, together with
  the names that the OCI image format reserves for whiteout markers.
 */
module LayerTree {
  import opened Wrappers

  type Name = string
  type Path = seq<Name>

  /** `whiteout` and `hidesLower` stand for the extended attributes `user.overlay.whiteout` and
      `user.overlay.opaque`. */
  datatype Node =
    | File(content: Bytes, whiteout: bool)
    | Symlink(target: string)
    | Directory(hidesLower: bool)

  type Tree = map<Path, Node>

  const EMPTY_TREE: Tree := map[[] := Directory(false)]

  function Parent(p: Path): Path
    requires p != []
  {
    p[..|p| - 1]
  }

  function Leaf(p: Path): Name
    requires p != []
  {
    p[|p| - 1]
  }

  /** Every entry lies in a directory, and the root is a directory. */
  predicate ValidTree(t: Tree) {
    && [] in t && t[[]].Directory?
    && forall p | p in t && p != [] :: Parent(p) in t && t[Parent(p)].Directory?
  }

  type LayerContents = t: Tree | ValidTree(t) witness EMPTY_TREE

  lemma {:induction false} AncestorIsDirectory(t: Tree, p: Path, n: nat)
    requires ValidTree(t) && p in t && n < |p|
    ensures p[..n] in t && t[p[..n]].Directory?
    decreases |p|
  {
    assert p != [];
    if n < |p| - 1 {
      assert Parent(p)[..n] == p[..n];
      AncestorIsDirectory(t, Parent(p), n);
    }
  }

  const WHITEOUT_PREFIX: Name := ".wh."
  const OPAQUE_MARKER: Name := ".wh..wh..opq"

  /** The target that a marker name whites out; a bare prefix is an ordinary name. */
  function WhiteoutTargetName(name: Name): Option<Name> {
    if WHITEOUT_PREFIX <= name && |name| > |WHITEOUT_PREFIX| then Some(name[|WHITEOUT_PREFIX|..]) else None
  }

  predicate IsMarker(name: Name) {
    WhiteoutTargetName(name).Some?
  }

  predicate IsMarkerPath(p: Path) {
    p != [] && IsMarker(Leaf(p))
  }

  /** The marker that whites out `p`. */
  function MarkerFor(p: Path): Path
    requires p != []
  {
    Parent(p) + [WHITEOUT_PREFIX + Leaf(p)]
  }

  function OpaqueMarkerIn(directory: Path): Path {
    directory + [OPAQUE_MARKER]
  }

  predicate HasWhiteout(t: Tree, p: Path) {
    p != [] && Leaf(p) != "" && MarkerFor(p) in t
  }

  predicate HasOpaqueMarker(t: Tree, directory: Path) {
    OpaqueMarkerIn(directory) in t
  }

  /** A whiteout that counts: one next to an opaque marker is redundant. */
  predicate HasEffectiveWhiteout(t: Tree, p: Path) {
    HasWhiteout(t, p) && !HasOpaqueMarker(t, Parent(p))
  }

  /** Markers are not directories, and no whiteout aims at `.`, `..` or another marker. */
  predicate WellFormed(t: Tree) {
    && ValidTree(t)
    && forall p | p in t && IsMarkerPath(p) :: WellFormedMarker(t[p], Leaf(p))
  }

  predicate WellFormedMarker(node: Node, name: Name)
    requires IsMarker(name)
  {
    && !node.Directory?
    && (name != OPAQUE_MARKER ==>
          var target := WhiteoutTargetName(name).value;
          target != "." && target != ".." && !IsMarker(target))
  }

  /** What unpacking an archive leaves: a well-formed tree without overlay attributes. */
  predicate PlainLayer(t: Tree) {
    && WellFormed(t)
    && forall p | p in t :: PlainNode(t[p])
  }

  predicate PlainNode(node: Node) {
    match node
    case File(_, whiteout) => !whiteout
    case Symlink(_) => true
    case Directory(hidesLower) => !hidesLower
  }

  /** The names that the format reserves: a whiteout is `.wh.` before the name that it removes. */
  lemma ReservedNames(name: Name)
    ensures WhiteoutTargetName(".wh." + name) == if name == "" then None else Some(name)
    ensures !(".wh." <= name) ==> WhiteoutTargetName(name) == None
    ensures OpaqueMarkerIn([name]) == [name, ".wh..wh..opq"]
  {
    assert (".wh." + name)[4..] == name;
  }

  /** What is asked of a layer, by the names as they are spelled. */
  lemma WellFormedNames(t: Tree)
    ensures WellFormed(t) <==>
              && ValidTree(t)
              && forall p | p in t && p != [] && ".wh." <= Leaf(p) && Leaf(p) != ".wh." ::
                   && !t[p].Directory?
                   && (Leaf(p) == ".wh..wh..opq"
                       || (Leaf(p) != ".wh.." && Leaf(p) != ".wh..."
                           && (!(".wh..wh." <= Leaf(p)) || Leaf(p) == ".wh..wh.")))
  {
    forall p | p in t && p != []
      ensures IsMarkerPath(p) <==> ".wh." <= Leaf(p) && Leaf(p) != ".wh."
      ensures IsMarkerPath(p) ==>
                (WellFormedMarker(t[p], Leaf(p)) <==>
                   && !t[p].Directory?
                   && (Leaf(p) == ".wh..wh..opq"
                       || (Leaf(p) != ".wh.." && Leaf(p) != ".wh..."
                           && (!(".wh..wh." <= Leaf(p)) || Leaf(p) == ".wh..wh."))))
    {
      if IsMarkerPath(p) {
        SpelledMarker(Leaf(p));
      }
    }
  }

  lemma SpelledMarker(name: Name)
    requires IsMarker(name)
    ensures var target := WhiteoutTargetName(name).value;
            && (target == "." <==> name == ".wh..") && (target == ".." <==> name == ".wh...")
            && (IsMarker(target) <==> ".wh..wh." <= name && name != ".wh..wh.")
    ensures name != ".wh."
  {
    var target := WhiteoutTargetName(name).value;
    assert name == ".wh." + target;
    assert ".wh." + "." == ".wh.." && ".wh." + ".." == ".wh...";
    if ".wh." <= target {
      assert target == ".wh." + target[4..];
      assert name == ".wh..wh." + target[4..];
    }
    if ".wh..wh." <= name {
      assert target == name[4..] && name == ".wh..wh." + name[8..];
      assert target == ".wh." + name[8..];
    }
  }

  /** `MarkerFor` and `WhiteoutTargetName` undo each other. */
  lemma MarkerTargets(p: Path)
    requires p != [] && Leaf(p) != ""
    ensures IsMarkerPath(MarkerFor(p)) && Parent(MarkerFor(p)) == Parent(p)
    ensures WhiteoutTargetName(Leaf(MarkerFor(p))) == Some(Leaf(p))
    ensures !IsMarkerPath(p) ==> Leaf(MarkerFor(p)) != OPAQUE_MARKER
  {
    var m := WHITEOUT_PREFIX + Leaf(p);
    assert m[|WHITEOUT_PREFIX|..] == Leaf(p);
    if m == OPAQUE_MARKER {
      assert Leaf(p) == OPAQUE_MARKER[|WHITEOUT_PREFIX|..] == ".wh..opq";
      assert Leaf(p)[..4] == ".wh.";
    }
  }

  lemma TargetOfMarker(directory: Path, name: Name)
    requires IsMarker(name)
    ensures var p := directory + [WhiteoutTargetName(name).value];
            p != [] && Leaf(p) != "" && Parent(p) == directory && MarkerFor(p) == directory + [name]
  {
    var target := WhiteoutTargetName(name).value;
    assert WHITEOUT_PREFIX + target == name;
    assert Parent(directory + [target]) == directory;
  }
}
