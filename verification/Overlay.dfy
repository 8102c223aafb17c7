/**
  Stacking converted layers: the root file system that the OCI image format specification
  defines for a list of layers ("Applying Changesets", "Whiteouts" and "Opaque Whiteout" in
  layer.md) is what overlayfs lookup finds in the converted layers ("whiteouts and opaque
  directories" in the Linux overlayfs documentation).
 */
module Overlay {
  import opened Wrappers
  import opened LayerTree
  import opened Whiteouts

  // ----- OCI changesets -----

  /** At depth `n` of `p`, the layer whites out, hides the siblings of, or replaces what is below. */
  predicate HidesAt(layer: Tree, p: Path, n: nat)
    requires 1 <= n <= |p|
  {
    || HasWhiteout(layer, p[..n])
    || HasOpaqueMarker(layer, p[..n - 1])
    || (p[..n] in layer && !IsMarkerPath(p[..n]) && !layer[p[..n]].Directory?)
  }

  predicate HidesLower(layer: Tree, p: Path) {
    exists n :: 1 <= n <= |p| && HidesAt(layer, p, n)
  }

  /** Applies one changeset: lower entries go where the layer hides them, then its own are put. */
  function Apply(rootfs: Tree, layer: Tree): Tree {
    (map p | p in rootfs && !HidesLower(layer, p) :: rootfs[p])
    + (map p | p in layer && !IsMarkerPath(p) :: layer[p])
  }

  function OciRootfs(layers: seq<Tree>): Tree {
    if layers == [] then EMPTY_TREE
    else Apply(OciRootfs(layers[..|layers| - 1]), layers[|layers| - 1])
  }

  function Lookup(t: Tree, p: Path): Option<Node> {
    if p in t then Some(t[p]) else None
  }

  // ----- Overlayfs lookup -----

  /** What a path resolves to; a directory carries the layers it merges, topmost first. */
  datatype Resolved = Missing | Entry(node: Node) | Merged(members: seq<Tree>)

  /** Lookup goes on below this directory. `rootFlag` tells whether overlayfs honours the opaque
      flag on the root of a layer. */
  predicate IsTransparent(t: Tree, p: Path, rootFlag: bool) {
    p in t && t[p].Directory? && (t[p].hidesLower ==> p == [] && !rootFlag)
  }

  /** The layers whose directories at `p` merge: down to an opaque one, or to a file. */
  function Merge(layers: seq<Tree>, p: Path, rootFlag: bool): seq<Tree> {
    if layers == [] then []
    else if p !in layers[0] then Merge(layers[1..], p, rootFlag)
    else if !layers[0][p].Directory? then []
    else if IsTransparent(layers[0], p, rootFlag) then [layers[0]] + Merge(layers[1..], p, rootFlag)
    else [layers[0]]
  }

  /** Looks `p` up in the layers that its parent directory merges. */
  function LookupIn(layers: seq<Tree>, p: Path, rootFlag: bool): Resolved {
    if layers == [] then Missing
    else if p !in layers[0] then LookupIn(layers[1..], p, rootFlag)
    else match layers[0][p]
      case File(_, whiteout) => if whiteout then Missing else Entry(layers[0][p])
      case Symlink(_) => Entry(layers[0][p])
      case Directory(_) => Merged(Merge(layers, p, rootFlag))
  }

  function TopFirst(layers: seq<Tree>): seq<Tree> {
    if layers == [] then [] else [layers[|layers| - 1]] + TopFirst(layers[..|layers| - 1])
  }

  /** Resolves a path from the root, one component at a time; `layers` are bottom first. */
  function Walk(layers: seq<Tree>, p: Path, rootFlag: bool): Resolved
    decreases |p|
  {
    if p == [] then Merged(Merge(TopFirst(layers), p, rootFlag))
    else
      match Walk(layers, Parent(p), rootFlag)
      case Merged(members) => LookupIn(members, p, rootFlag)
      case Missing => Missing
      case Entry(_) => Missing
  }

  function Visible(resolved: Resolved): Option<Node> {
    match resolved
    case Missing => None
    case Entry(node) => Some(node)
    case Merged(_) => Some(Directory(false))
  }

  // ----- Adding a layer on top -----

  /** Some directory above `p` stops lookup at this layer. */
  ghost predicate Cuts(t: Tree, p: Path, rootFlag: bool) {
    exists n :: 0 <= n < |p| && CutsAt(t, p, n, rootFlag)
  }

  predicate CutsAt(t: Tree, p: Path, n: nat, rootFlag: bool)
    requires n <= |p|
  {
    p[..n] in t && !IsTransparent(t, p[..n], rootFlag)
  }

  lemma CutsAtParent(t: Tree, p: Path, rootFlag: bool)
    requires p != []
    ensures Cuts(t, p, rootFlag) <==>
            Cuts(t, Parent(p), rootFlag) || (Parent(p) in t && !IsTransparent(t, Parent(p), rootFlag))
  {
    var q := Parent(p);
    forall n | 0 <= n < |p| ensures n < |q| ==> CutsAt(t, p, n, rootFlag) == CutsAt(t, q, n, rootFlag) {
      if n < |q| {
        assert p[..n] == q[..n];
      }
    }
    if q in t && !IsTransparent(t, q, rootFlag) {
      assert CutsAt(t, p, |q|, rootFlag);
    }
  }

  lemma {:induction false} MergeIsLookup(layers: seq<Tree>, p: Path, rootFlag: bool)
    ensures var resolved := LookupIn(layers, p, rootFlag);
            Merge(layers, p, rootFlag) == if resolved.Merged? then resolved.members else []
  {
    if layers != [] {
      MergeIsLookup(layers[1..], p, rootFlag);
    }
  }

  /** What the stack resolves `p` to, given what the layers below the top resolve it to. */
  ghost function OnTop(lower: Resolved, top: Tree, p: Path, rootFlag: bool): Resolved {
    if p in top then
      match top[p]
      case File(_, whiteout) => if whiteout then Missing else Entry(top[p])
      case Symlink(_) => Entry(top[p])
      case Directory(_) =>
        if IsTransparent(top, p, rootFlag) && !Cuts(top, p, rootFlag) && lower.Merged?
        then Merged([top] + lower.members) else Merged([top])
    else if Cuts(top, p, rootFlag) then Missing
    else lower
  }

  lemma LookupFromTop(members: seq<Tree>, top: Tree, p: Path, rootFlag: bool)
    ensures !Cuts(top, p, rootFlag) ==>
              LookupIn([top] + members, p, rootFlag) == OnTop(LookupIn(members, p, rootFlag), top, p, rootFlag)
    ensures Cuts(top, p, rootFlag) ==>
              forall lower :: LookupIn([top], p, rootFlag) == OnTop(lower, top, p, rootFlag)
  {
    assert ([top] + members)[1..] == members;
    MergeIsLookup(members, p, rootFlag);
    assert [top][1..] == [];
    assert p in top && top[p].Directory? ==> Merge([top], p, rootFlag) == [top];
  }

  /** Lookup in a stack is lookup in its top layer merged over lookup in the rest. */
  lemma {:induction false} WalkOnTop(layers: seq<Tree>, top: Tree, p: Path, rootFlag: bool)
    requires ValidTree(top)
    ensures Walk(layers + [top], p, rootFlag) == OnTop(Walk(layers, p, rootFlag), top, p, rootFlag)
    decreases |p|
  {
    if p == [] {
      assert (layers + [top])[..|layers|] == layers;
      assert TopFirst(layers + [top]) == [top] + TopFirst(layers);
    } else {
      var q := Parent(p);
      var lower := Walk(layers, q, rootFlag);
      WalkOnTop(layers, top, q, rootFlag);
      CutsAtParent(top, p, rootFlag);
      LookupFromTop(if lower.Merged? then lower.members else [], top, p, rootFlag);
      assert [top] + [] == [top];
    }
  }

  // ----- One converted layer -----

  /** A root file system: no markers and no overlay attributes. */
  predicate IsRootfs(t: Tree) {
    ValidTree(t) && forall p | p in t :: PlainNode(t[p]) && !IsMarkerPath(p)
  }

  lemma ConvertedIsValid(t: Tree)
    requires WellFormed(t)
    ensures ValidTree(Converted(t))
    ensures forall p | p in Converted(t) :: !IsMarkerPath(p)
  {
    ConvertedLookup(t, []);
    forall p | p in Converted(t) && p != []
      ensures Parent(p) in Converted(t) && Converted(t)[Parent(p)].Directory?
    {
      var q := Parent(p);
      ConvertedLookup(t, p);
      if p !in t {
        MarkerTargets(p);
      }
      assert q in t && t[q].Directory? && !IsMarkerPath(q);
      ConvertedLookup(t, q);
    }
    forall p | p in Converted(t) ensures !IsMarkerPath(p) {
      ConvertedLookup(t, p);
    }
  }

  lemma CutWherePresent(t: Tree, p: Path, n: nat, rootFlag: bool)
    requires n < |p| && p[..n] in Converted(t)
    requires !Converted(t)[p[..n]].Directory? || (Converted(t)[p[..n]].hidesLower && (n > 0 || rootFlag))
    ensures Cuts(Converted(t), p, rootFlag)
  {
    assert CutsAt(Converted(t), p, n, rootFlag);
  }

  /** An opaque marker in a directory above `p` cuts lookup there. */
  lemma OpaqueCuts(t: Tree, p: Path, n: nat, rootFlag: bool)
    requires WellFormed(t) && n < |p| && HasOpaqueMarker(t, p[..n])
    requires rootFlag || !HasOpaqueMarker(t, [])
    ensures Cuts(Converted(t), p, rootFlag)
  {
    var q := p[..n];
    assert Parent(OpaqueMarkerIn(q)) == q;
    assert q in t && t[q].Directory? && !IsMarkerPath(q);
    ConvertedLookup(t, q);
    CutWherePresent(t, p, n, rootFlag);
  }

  lemma HiddenIsCut(t: Tree, p: Path, n: nat, rootFlag: bool)
    requires WellFormed(t) && 1 <= n <= |p| && HidesAt(t, p, n)
    requires p !in Converted(t) && !IsMarkerPath(p)
    requires rootFlag || !HasOpaqueMarker(t, [])
    ensures Cuts(Converted(t), p, rootFlag)
  {
    hide Converted, Cuts, WellFormed, HasOpaqueMarker;
    if HasOpaqueMarker(t, p[..n - 1]) {
      OpaqueCuts(t, p, n - 1, rootFlag);
    } else {
      HiddenStopsLookup(t, p, n);
      assert p[..|p|] == p;
      CutWherePresent(t, p, n, rootFlag);
    }
  }

  /** What a layer hides at `p[..n]`, other than by an opaque marker beside it, hides lower layers once converted. */
  lemma HiddenStopsLookup(t: Tree, p: Path, n: nat)
    requires WellFormed(t) && 1 <= n <= |p| && HidesAt(t, p, n) && !HasOpaqueMarker(t, p[..n - 1])
    ensures p[..n] in Converted(t)
    ensures Converted(t)[p[..n]].Directory? ==> Converted(t)[p[..n]].hidesLower
  {
    hide Converted;
    var q := p[..n];
    ConvertedLookup(t, q);
    assert Parent(q) == p[..n - 1];
    if HasWhiteout(t, q) {
      EffectiveTargetIsNoMarker(t, q);
    }
  }

  lemma CutIsHidden(t: Tree, p: Path, rootFlag: bool)
    requires WellFormed(t) && PlainLayer(t) && Cuts(Converted(t), p, rootFlag)
    ensures HidesLower(t, p)
  {
    var n :| 0 <= n < |p| && CutsAt(Converted(t), p, n, rootFlag);
    var q := p[..n];
    ConvertedLookup(t, q);
    if q in t && t[q].Directory? {
      assert PlainNode(t[q]);
      if HasOpaqueMarker(t, q) {
        assert HidesAt(t, p, n + 1);
      } else {
        assert HidesAt(t, p, n);
      }
    } else {
      assert n > 0 && HidesAt(t, p, n);
    }
  }

  lemma ApplyLookup(rootfs: Tree, layer: Tree, p: Path)
    ensures Lookup(Apply(rootfs, layer), p) ==
            if p in layer && !IsMarkerPath(p) then Some(layer[p])
            else if HidesLower(layer, p) then None else Lookup(rootfs, p)
  {
  }

  lemma LowerIsCut(rootfs: Tree, layer: Tree, p: Path, rootFlag: bool)
    requires IsRootfs(rootfs) && PlainLayer(layer) && p in rootfs && p !in Converted(layer)
    requires rootFlag || !HasOpaqueMarker(layer, []) || rootfs == EMPTY_TREE
    ensures Cuts(Converted(layer), p, rootFlag) <==> HidesLower(layer, p)
  {
    ConvertedLookup(layer, p);
    if Cuts(Converted(layer), p, rootFlag) {
      CutIsHidden(layer, p, rootFlag);
    }
    if HidesLower(layer, p) {
      var n :| 1 <= n <= |p| && HidesAt(layer, p, n);
      HiddenIsCut(layer, p, n, rootFlag);
    }
  }

  lemma OwnEntryOnTop(layer: Tree, lower: Resolved, p: Path, rootFlag: bool)
    requires PlainLayer(layer) && p in Converted(layer)
    ensures Visible(OnTop(lower, Converted(layer), p, rootFlag)) == Lookup(layer, p)
  {
    hide Cuts, IsTransparent, HasEffectiveWhiteout, HasOpaqueMarker, IsMarkerPath, Converted, WellFormed;
    ConvertedLookup(layer, p);
    if p in layer {
      assert PlainNode(layer[p]);
    }
  }

  lemma WhiteoutHides(layer: Tree, p: Path)
    requires p in Converted(layer) && p !in layer
    ensures HidesLower(layer, p)
  {
    ConvertedLookup(layer, p);
    assert p[..|p|] == p;
    assert HidesAt(layer, p, |p|);
  }

  /** Merging a converted layer over a root file system is applying the changeset to it. */
  lemma OnTopIsApply(rootfs: Tree, layer: Tree, lower: Resolved, p: Path, rootFlag: bool)
    requires IsRootfs(rootfs) && PlainLayer(layer) && Visible(lower) == Lookup(rootfs, p)
    requires rootFlag || !HasOpaqueMarker(layer, []) || rootfs == EMPTY_TREE
    ensures Visible(OnTop(lower, Converted(layer), p, rootFlag)) == Lookup(Apply(rootfs, layer), p)
  {
    ApplyLookup(rootfs, layer, p);
    ConvertedLookup(layer, p);
    if p in rootfs {
      assert !IsMarkerPath(p);
    }
    if p in Converted(layer) {
      OwnEntryOnTop(layer, lower, p, rootFlag);
      if p !in layer {
        WhiteoutHides(layer, p);
      }
    } else if p in rootfs {
      LowerIsCut(rootfs, layer, p, rootFlag);
    }
    hide Apply, Converted, HidesLower, Cuts, IsRootfs, PlainLayer, HasOpaqueMarker, HasEffectiveWhiteout;
  }

  lemma ApplyIsRootfs(rootfs: Tree, layer: Tree)
    requires IsRootfs(rootfs) && PlainLayer(layer)
    ensures IsRootfs(Apply(rootfs, layer))
  {
    var applied := Apply(rootfs, layer);
    forall p | p in applied && p != []
      ensures Parent(p) in applied && applied[Parent(p)].Directory?
    {
      ParentIsApplied(rootfs, layer, p);
    }
    assert [] in layer && layer[[]].Directory?;
  }

  lemma ParentIsApplied(rootfs: Tree, layer: Tree, p: Path)
    requires IsRootfs(rootfs) && PlainLayer(layer) && p in Apply(rootfs, layer) && p != []
    ensures var q := Parent(p);
            q in Apply(rootfs, layer) && Apply(rootfs, layer)[q].Directory?
  {
    var q := Parent(p);
    ApplyLookup(rootfs, layer, p);
    ApplyLookup(rootfs, layer, q);
    if p in layer && !IsMarkerPath(p) {
      assert q in layer && layer[q].Directory?;
      assert !IsMarkerPath(q);
    } else {
      assert !IsMarkerPath(q);
      forall n | 1 <= n <= |q| ensures !HidesAt(layer, q, n) {
        assert p[..n] == q[..n] && p[..n - 1] == q[..n - 1];
        assert !HidesAt(layer, p, n);
      }
      if q != [] {
        assert !HidesAt(layer, p, |q|);
      }
    }
  }

  // ----- The main theorem -----

  function ConvertAll(layers: seq<Tree>): seq<Tree> {
    seq(|layers|, i requires 0 <= i < |layers| => Converted(layers[i]))
  }

  /** Overlayfs honours the opaque flag on a layer's root, or no upper layer relies on that. */
  predicate RootMarkersWork(layers: seq<Tree>, rootFlag: bool) {
    rootFlag || forall i | 0 < i < |layers| :: !HasOpaqueMarker(layers[i], [])
  }

  predicate PlainLayers(layers: seq<Tree>) {
    forall i | 0 <= i < |layers| :: PlainLayer(layers[i])
  }

  lemma {:induction false} RootfsIsRootfs(layers: seq<Tree>)
    requires PlainLayers(layers)
    ensures IsRootfs(OciRootfs(layers))
  {
    if layers != [] {
      var below := layers[..|layers| - 1];
      RootfsIsRootfs(below);
      ApplyIsRootfs(OciRootfs(below), layers[|layers| - 1]);
    }
  }

  lemma ConvertAllAppends(below: seq<Tree>, top: Tree)
    ensures ConvertAll(below + [top]) == ConvertAll(below) + [Converted(top)]
  {
  }

  /** At every path, the overlay of the converted layers shows what the changesets give. */
  lemma {:induction false} OverlayIsRootfs(layers: seq<Tree>, p: Path, rootFlag: bool)
    requires PlainLayers(layers) && RootMarkersWork(layers, rootFlag)
    ensures Visible(Walk(ConvertAll(layers), p, rootFlag)) == Lookup(OciRootfs(layers), p)
    decreases |layers|
  {
    if layers == [] {
      EmptyOverlay(p, rootFlag);
      assert ConvertAll(layers) == [];
    } else {
      hide Walk, OnTop, Visible, Lookup, Converted, ConvertAll, IsRootfs, Apply, ValidTree, HasOpaqueMarker;
      var n := |layers| - 1;
      var below, top := layers[..n], layers[n];
      assert layers == below + [top];
      OverlayIsRootfs(below, p, rootFlag);
      RootfsIsRootfs(below);
      ConvertedIsValid(top);
      WalkOnTop(ConvertAll(below), Converted(top), p, rootFlag);
      OnTopIsApply(OciRootfs(below), top, Walk(ConvertAll(below), p, rootFlag), p, rootFlag);
      ConvertAllAppends(below, top);
    }
  }

  /** What an opaque marker is for, by the name that it has: of what is below its directory, nothing
      is seen that the layer does not have. */
  lemma OpaqueMarkerHidesLower(layers: seq<Tree>, directory: Path, p: Path, rootFlag: bool)
    requires layers != [] && PlainLayers(layers) && RootMarkersWork(layers, rootFlag)
    requires var top := layers[|layers| - 1];
             directory + [".wh..wh..opq"] in top && directory < p && p !in top
    ensures Visible(Walk(ConvertAll(layers), p, rootFlag)) == None
  {
    var top := layers[|layers| - 1];
    assert p[..|directory|] == directory && OpaqueMarkerIn(directory) == directory + [".wh..wh..opq"];
    assert HidesAt(top, p, |directory| + 1);
    HiddenIsNotSeen(layers, p, rootFlag);
  }

  /** And what a whiteout is for: its target is not seen, nor what is below that, unless the layer
      has it. */
  lemma WhiteoutHidesLower(layers: seq<Tree>, directory: Path, name: Name, p: Path, rootFlag: bool)
    requires layers != [] && PlainLayers(layers) && RootMarkersWork(layers, rootFlag) && name != ""
    requires var top := layers[|layers| - 1];
             directory + [".wh." + name] in top && directory + [name] <= p && p !in top
    ensures Visible(Walk(ConvertAll(layers), p, rootFlag)) == None
  {
    var top, target := layers[|layers| - 1], directory + [name];
    assert p[..|target|] == target && Parent(target) == directory && Leaf(target) == name;
    assert MarkerFor(target) == directory + [".wh." + name];
    assert HidesAt(top, p, |target|);
    HiddenIsNotSeen(layers, p, rootFlag);
  }

  lemma HiddenIsNotSeen(layers: seq<Tree>, p: Path, rootFlag: bool)
    requires layers != [] && PlainLayers(layers) && RootMarkersWork(layers, rootFlag)
    requires p !in layers[|layers| - 1] && HidesLower(layers[|layers| - 1], p)
    ensures Visible(Walk(ConvertAll(layers), p, rootFlag)) == None
  {
    OverlayIsRootfs(layers, p, rootFlag);
    ApplyLookup(OciRootfs(layers[..|layers| - 1]), layers[|layers| - 1], p);
  }

  lemma {:induction false} EmptyOverlay(p: Path, rootFlag: bool)
    ensures Walk([], p, rootFlag) == if p == [] then Merged([]) else Missing
    decreases |p|
  {
    if p != [] {
      EmptyOverlay(Parent(p), rootFlag);
    }
  }

  // ----- What the sandbox sees -----

  /** A plain mount shows a whiteout file as the empty file that it is. */
  function BindView(t: Tree, p: Path): Option<Node> {
    if p !in t then None
    else match t[p]
      case File(content, _) => Some(File(content, false))
      case Symlink(_) => Some(t[p])
      case Directory(_) => Some(Directory(false))
  }

  /** One layer is mounted as it is, several are stacked. */
  function SandboxView(converted: seq<Tree>, p: Path, rootFlag: bool): Option<Node> {
    if |converted| == 1 then BindView(converted[0], p) else Visible(Walk(converted, p, rootFlag))
  }

  predicate CreatesWhiteoutAt(layer: Tree, p: Path) {
    HasEffectiveWhiteout(layer, p) && p !in layer
  }

  /** Some whiteout of the layer names nothing in the layer itself. */
  predicate CreatesWhiteout(layer: Tree) {
    exists p :: p in Targets(layer) && CreatesWhiteoutAt(layer, p)
  }

  lemma SingleLayerRootfs(layer: Tree, p: Path)
    requires PlainLayer(layer)
    ensures Lookup(OciRootfs([layer]), p) == if IsMarkerPath(p) then None else Lookup(layer, p)
  {
    assert [layer][..0] == [];
    assert OciRootfs([layer]) == Apply(EMPTY_TREE, layer);
    hide HidesLower, Apply;
    ApplyLookup(EMPTY_TREE, layer, p);
  }

  lemma BindLookup(layer: Tree, p: Path)
    requires PlainLayer(layer)
    ensures BindView(Converted(layer), p) ==
            if IsMarkerPath(p) then None
            else if CreatesWhiteoutAt(layer, p) then Some(File([], false))
            else Lookup(layer, p)
  {
    hide Converted, HasEffectiveWhiteout, HasOpaqueMarker, IsMarkerPath, WellFormed;
    ConvertedLookup(layer, p);
    if p in layer {
      assert PlainNode(layer[p]);
    }
  }

  /** The single-layer mount is right exactly for layers whose conversion creates no whiteout. */
  lemma BindIsRootfs(layer: Tree)
    requires PlainLayer(layer)
    ensures (forall p :: BindView(Converted(layer), p) == Lookup(OciRootfs([layer]), p))
            <==> !CreatesWhiteout(layer)
  {
    forall p
      ensures BindView(Converted(layer), p) == Lookup(OciRootfs([layer]), p) <==> !CreatesWhiteoutAt(layer, p)
    {
      SingleLayerRootfs(layer, p);
      BindLookup(layer, p);
      if CreatesWhiteoutAt(layer, p) {
        EffectiveTargetIsNoMarker(layer, p);
      }
    }
    forall p | CreatesWhiteoutAt(layer, p) ensures p in Targets(layer) {
      WhiteoutIsTarget(layer, p);
    }
  }

  /** What a sandbox sees at every path is the root file system of its layers. */
  lemma SandboxIsRootfs(layers: seq<Tree>, p: Path, rootFlag: bool)
    requires layers != [] && PlainLayers(layers) && RootMarkersWork(layers, rootFlag)
    requires |layers| == 1 ==> !CreatesWhiteout(layers[0])
    ensures SandboxView(ConvertAll(layers), p, rootFlag) == Lookup(OciRootfs(layers), p)
  {
    if |layers| == 1 {
      assert layers == [layers[0]];
      BindIsRootfs(layers[0]);
      assert BindView(Converted(layers[0]), p) == Lookup(OciRootfs([layers[0]]), p);
    } else {
      OverlayIsRootfs(layers, p, rootFlag);
    }
  }

  // ----- Repeated layers -----

  /** Applying a changeset again changes nothing. */
  lemma ApplyTwice(rootfs: Tree, layer: Tree)
    ensures Apply(Apply(rootfs, layer), layer) == Apply(rootfs, layer)
  {
    var once := Apply(rootfs, layer);
    forall p ensures Lookup(Apply(once, layer), p) == Lookup(once, p) {
      ApplyLookup(rootfs, layer, p);
      ApplyLookup(once, layer, p);
    }
    hide Apply;
    SameLookups(Apply(once, layer), once);
  }

  lemma SameLookups(s: Tree, t: Tree)
    requires forall p :: Lookup(s, p) == Lookup(t, p)
    ensures s == t
  {
    assert forall p | p in s :: Lookup(t, p).Some?;
    assert forall p | p in t :: Lookup(s, p).Some?;
  }

  const BASE: LayerContents := map[[] := Directory(false), ["a"] := File([], false)]
  const REMOVING_A: LayerContents := map[[] := Directory(false), [".wh.a"] := File([], false)]
  const REMOVED_A: LayerContents := map[[] := Directory(false), ["a"] := File([], true)]

  const LOWER_D: Tree := map[[] := Directory(false), ["d"] := Directory(false), ["d", "x"] := File([], false)]
  const OPAQUE_D: Tree :=
    map[[] := Directory(false), ["d"] := Directory(false), ["d", ".wh..wh..opq"] := File([], false)]
  const FLAGGED_D: Tree := map[[] := Directory(false), ["d"] := Directory(true)]

  lemma LowerIsPlain()
    ensures PlainLayer(LOWER_D)
  {
    assert WhiteoutTargetName("d") == None && WhiteoutTargetName("x") == None;
    assert Parent(["d"]) == [] && Parent(["d", "x"]) == ["d"];
  }

  lemma OpaqueExampleIsPlain()
    ensures PlainLayer(OPAQUE_D)
    ensures forall p | p in OPAQUE_D :: IsMarkerPath(p) <==> p == ["d", ".wh..wh..opq"]
  {
    assert WhiteoutTargetName("d") == None && WhiteoutTargetName(".wh..wh..opq").Some?;
    assert Parent(["d"]) == [] && Parent(["d", ".wh..wh..opq"]) == ["d"];
  }

  /** A directory that is brought anew with an opaque marker is flagged, the marker goes, and nothing
      below it is seen of the layer below. */
  lemma OpaqueExample(rootFlag: bool)
    ensures PlainLayer(LOWER_D) && PlainLayer(OPAQUE_D) && Converted(OPAQUE_D) == FLAGGED_D
    ensures Visible(Walk(ConvertAll([LOWER_D, OPAQUE_D]), ["d", "x"], rootFlag)) == None
  {
    LowerIsPlain();
    OpaqueExampleIsPlain();
    OpaqueExampleIsConverted();
    hide PlainLayer, Converted, Walk, Visible, ConvertAll;
    var layers: seq<Tree> := [LOWER_D, OPAQUE_D];
    assert ["d"] + [".wh..wh..opq"] == ["d", ".wh..wh..opq"];
    assert OpaqueMarkerIn([]) !in OPAQUE_D by { assert OpaqueMarkerIn([]) == [OPAQUE_MARKER]; }
    assert ["d", "x"] !in OPAQUE_D by { assert ["d", "x"][1] != ["d", ".wh..wh..opq"][1]; }
    OpaqueMarkerHidesLower(layers, ["d"], ["d", "x"], rootFlag);
  }

  lemma OpaqueExampleIsConverted()
    ensures Converted(OPAQUE_D) == FLAGGED_D
  {
    OpaqueExampleIsPlain();
    forall p ensures Lookup(Converted(OPAQUE_D), p) == Lookup(FLAGGED_D, p) {
      OpaqueExampleAt(p);
    }
    SameLookups(Converted(OPAQUE_D), FLAGGED_D);
  }

  lemma OpaqueExampleAt(p: Path)
    ensures Lookup(Converted(OPAQUE_D), p) == Lookup(FLAGGED_D, p)
  {
    OpaqueExampleIsPlain();
    OnlyOpaqueMarker(p);
    ConvertedLookup(OPAQUE_D, p);
    hide IsMarkerPath, HasOpaqueMarker, HasWhiteout, Converted, WellFormed;
  }

  lemma OnlyOpaqueMarker(p: Path)
    ensures !HasEffectiveWhiteout(OPAQUE_D, p)
    ensures HasOpaqueMarker(OPAQUE_D, p) <==> p == ["d"]
  {
    var m: Path := ["d", ".wh..wh..opq"];
    OpaqueExampleIsPlain();
    assert OpaqueMarkerIn(["d"]) == m && Parent(m) == ["d"];
    assert Parent(OpaqueMarkerIn(p)) == p && Leaf(OpaqueMarkerIn(p)) == OPAQUE_MARKER;
    assert IsMarkerPath(OpaqueMarkerIn(p));
    hide WellFormed, PlainLayer;
    if HasWhiteout(OPAQUE_D, p) {
      MarkerTargets(p);
    }
  }

  lemma ExamplesArePlain()
    ensures PlainLayer(BASE) && PlainLayer(REMOVING_A)
    ensures HidesLower(REMOVING_A, ["a"])
  {
    assert WhiteoutTargetName(".wh.a") == Some("a");
    assert WHITEOUT_PREFIX + "a" == ".wh.a";
    assert MarkerFor(["a"]) == [".wh.a"];
    assert ["a"][..1] == ["a"];
    assert HidesAt(REMOVING_A, ["a"], 1);
  }

  lemma ExamplesConverted()
    ensures Converted(BASE) == BASE && Converted(REMOVING_A) == REMOVED_A
  {
    hide Converted, PlainLayer, HidesLower;
    ExamplesArePlain();
    BaseHasNoMarkers();
    ConvertedWithoutMarkers(BASE);
    forall p ensures Lookup(Converted(REMOVING_A), p) == Lookup(REMOVED_A, p) {
      ConvertedRemoving(p);
    }
    SameLookups(Converted(REMOVING_A), REMOVED_A);
  }

  lemma BaseHasNoMarkers()
    ensures forall p | p in BASE :: !IsMarkerPath(p)
  {
    assert WhiteoutTargetName("a") == None;
  }

  /** Conversion leaves a layer without markers as it is. */
  lemma ConvertedWithoutMarkers(t: Tree)
    requires PlainLayer(t) && forall p | p in t :: !IsMarkerPath(p)
    ensures Converted(t) == t
  {
    hide Converted;
    forall p ensures Lookup(Converted(t), p) == Lookup(t, p) {
      ConvertedLookup(t, p);
      if HasWhiteout(t, p) {
        MarkerTargets(p);
      }
      assert IsMarker(OPAQUE_MARKER) && IsMarkerPath(OpaqueMarkerIn(p));
      if p in t {
        assert PlainNode(t[p]);
      }
    }
    SameLookups(Converted(t), t);
  }

  /** The one marker of the example whites out `a`. */
  lemma OneMarker(p: Path)
    ensures HasEffectiveWhiteout(REMOVING_A, p) <==> p == ["a"]
    ensures !HasOpaqueMarker(REMOVING_A, []) && IsMarkerPath([".wh.a"]) && !IsMarkerPath(["a"]) && !IsMarkerPath([])
  {
    var m: Path := [".wh.a"];
    NoRootMarker();
    assert WhiteoutTargetName(".wh.a") == Some("a") && IsMarkerPath(m) && TargetPath(m) == ["a"];
    assert !IsMarkerPath(["a"]);
    hide IsMarkerPath, HasOpaqueMarker, TargetPath;
    if p != [] && Leaf(p) != "" {
      MarkerForInjective(p, m);
      MarkerIsLonger(p);
    }
    assert Parent(["a"]) == [];
  }

  lemma MarkerIsLonger(p: Path)
    requires p != []
    ensures MarkerFor(p) != []
  {
  }

  lemma NoRootMarker()
    ensures !HasOpaqueMarker(REMOVING_A, [])
  {
    assert OpaqueMarkerIn([]) == [OPAQUE_MARKER];
    assert [OPAQUE_MARKER][0] != [".wh.a"][0] && [OPAQUE_MARKER] != [];
  }

  lemma ConvertedRemoving(p: Path)
    ensures Lookup(Converted(REMOVING_A), p) == Lookup(REMOVED_A, p)
  {
    ConvertedLookup(REMOVING_A, p);
    OneMarker(p);
    hide Converted, HasEffectiveWhiteout, HasOpaqueMarker, IsMarkerPath;
  }
}
