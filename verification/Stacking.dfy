/**
  A run stacks every layer once, at its first occurrence. This is what becomes of the root file
  system that the images of the containers define together, with every occurrence of every layer.
 */
module Stacking {
  import opened Wrappers
  import opened LayerTree
  import opened Whiteouts
  import opened Overlay
  import opened Digests
  import opened Stores
  import opened Running

  /** The tree that a layer's archive holds, by the digest of the layer. */
  type Archives = string -> Tree

  function TreesOf(layers: seq<Descriptor>, archives: Archives): seq<Tree> {
    seq(|layers|, i requires 0 <= i < |layers| => archives(layers[i].digest))
  }

  lemma TreesOfAppend(layers: seq<Descriptor>, last: Descriptor, archives: Archives)
    ensures TreesOf(layers + [last], archives) == TreesOf(layers, archives) + [archives(last.digest)]
  {
  }

  // ----- Stacking is dropping repeats -----

  lemma {:induction false} AddNewTwice(layers: seq<Descriptor>, more: seq<Descriptor>, last: seq<Descriptor>)
    ensures AddNew(AddNew(layers, more), last) == AddNew(layers, more + last)
    decreases |last|
  {
    var both := more + last;
    if last == [] {
      assert both == more;
    } else {
      assert both[..|both| - 1] == more + last[..|last| - 1];
      AddNewTwice(layers, more, last[..|last| - 1]);
    }
  }

  /** Container by container, a run drops the repeats of the whole list. */
  lemma {:induction false} StackDropsRepeats(codec: Codec, s: Store, containers: seq<string>)
    requires StackedLayers(codec, s, containers).Some?
    ensures StackedLayers(codec, s, containers) == Some(AddNew([], AllLayers(codec, s, containers)))
    decreases |containers|
  {
    if containers != [] {
      var front, last := containers[..|containers| - 1], containers[|containers| - 1];
      StackDropsRepeats(codec, s, front);
      AddNewTwice([], AllLayers(codec, s, front), ManifestOf(codec, s, last).value.layers);
    }
  }

  predicate IsRepeat(layers: seq<Descriptor>, k: nat)
    requires k < |layers|
  {
    layers[k].digest in DigestsOf(layers[..k])
  }

  lemma {:induction false} KeptDigests(layers: seq<Descriptor>)
    ensures DigestsOf(AddNew([], layers)) == DigestsOf(layers)
  {
    if layers != [] {
      var front, last := layers[..|layers| - 1], layers[|layers| - 1];
      KeptDigests(front);
      DigestsOfAppend(front, last);
      DigestsOfAppend(AddNew([], front), last);
      assert layers == front + [last];
    }
  }

  // ----- Which layer decides about a path -----

  /** The layer has an entry at the path, or hides what lies below. */
  predicate Decides(layer: Tree, p: Path) {
    (p in layer && !IsMarkerPath(p)) || HidesLower(layer, p)
  }

  function Says(layer: Tree, p: Path): Option<Node> {
    if p in layer && !IsMarkerPath(p) then Some(layer[p]) else None
  }

  predicate DecidesAt(layers: seq<Descriptor>, archives: Archives, p: Path, k: nat)
    requires k < |layers|
  {
    Decides(archives(layers[k].digest), p)
  }

  /** The topmost layer that decides about the path. */
  predicate IsLast(layers: seq<Descriptor>, archives: Archives, p: Path, k: nat)
    requires k < |layers|
  {
    DecidesAt(layers, archives, p, k) && forall i | k < i < |layers| :: !DecidesAt(layers, archives, p, i)
  }

  /** The topmost first occurrence that does. */
  predicate IsLastKept(layers: seq<Descriptor>, archives: Archives, p: Path, k: nat)
    requires k < |layers|
  {
    && DecidesAt(layers, archives, p, k) && !IsRepeat(layers, k)
    && forall i | k < i < |layers| && DecidesAt(layers, archives, p, i) :: IsRepeat(layers, i)
  }

  lemma FrontSays(layers: seq<Descriptor>, archives: Archives, p: Path, k: nat)
    requires layers != [] && k < |layers| - 1
    ensures var front := layers[..|layers| - 1];
            && IsRepeat(front, k) == IsRepeat(layers, k)
            && DecidesAt(front, archives, p, k) == DecidesAt(layers, archives, p, k)
  {
    assert layers[..|layers| - 1][..k] == layers[..k];
  }

  /** The topmost layer that decides about a path says what is there. */
  lemma {:induction false} LastDecides(layers: seq<Descriptor>, archives: Archives, p: Path, k: nat)
    requires k < |layers| && IsLast(layers, archives, p, k)
    ensures Lookup(OciRootfs(TreesOf(layers, archives)), p) == Says(archives(layers[k].digest), p)
    decreases |layers|
  {
    var front, last := layers[..|layers| - 1], layers[|layers| - 1];
    var trees := TreesOf(layers, archives);
    assert layers == front + [last];
    TreesOfAppend(front, last, archives);
    assert trees[..|trees| - 1] == TreesOf(front, archives);
    hide Apply, HidesLower, OciRootfs;
    ApplyLookup(RootfsBelow(trees), trees[|trees| - 1], p);
    if k < |layers| - 1 {
      assert !DecidesAt(layers, archives, p, |layers| - 1);
      forall i | k <= i < |front| ensures DecidesAt(front, archives, p, i) == DecidesAt(layers, archives, p, i) {
        FrontSays(layers, archives, p, i);
      }
      LastDecides(front, archives, p, k);
    }
  }

  function RootfsBelow(trees: seq<Tree>): Tree
    requires trees != []
    ensures OciRootfs(trees) == Apply(RootfsBelow(trees), trees[|trees| - 1])
  {
    OciRootfs(trees[..|trees| - 1])
  }

  /** And in the stack, the topmost first occurrence does. */
  lemma {:induction false} LastKeptDecides(layers: seq<Descriptor>, archives: Archives, p: Path, k: nat)
    requires k < |layers| && IsLastKept(layers, archives, p, k)
    ensures Lookup(OciRootfs(TreesOf(AddNew([], layers), archives)), p) == Says(archives(layers[k].digest), p)
    decreases |layers|
  {
    hide *;
    var n := |layers| - 1;
    KeptLastSays(layers, archives, p);
    KeptDecides(layers, archives, p, k);
    if k < n {
      KeptInFront(layers, archives, p, k);
      LastKeptDecides(layers[..n], archives, p, k);
    }
  }

  lemma KeptDecides(layers: seq<Descriptor>, archives: Archives, p: Path, k: nat)
    requires k < |layers| && IsLastKept(layers, archives, p, k)
    ensures !IsRepeat(layers, k) && Decides(archives(layers[k].digest), p)
  {
  }

  lemma KeptLastSays(layers: seq<Descriptor>, archives: Archives, p: Path)
    requires layers != []
    ensures var n := |layers| - 1;
            var last := archives(layers[n].digest);
            Lookup(OciRootfs(TreesOf(AddNew([], layers), archives)), p)
            == if !IsRepeat(layers, n) && Decides(last, p) then Says(last, p)
               else Lookup(OciRootfs(TreesOf(AddNew([], layers[..n]), archives)), p)
  {
    var n := |layers| - 1;
    KeptLast(layers);
    hide AddNew, OciRootfs, Decides, IsRepeat, Lookup, Says;
    if !IsRepeat(layers, n) {
      var kept := AddNew([], layers[..n]);
      var trees := TreesOf(kept + [layers[n]], archives);
      TreesOfAppend(kept, layers[n], archives);
      assert trees[..|trees| - 1] == TreesOf(kept, archives);
      ApplyKeeps(trees, p);
    } else {
      assert AddNew([], layers[..n]) + [] == AddNew([], layers[..n]);
    }
  }

  lemma KeptLast(layers: seq<Descriptor>)
    requires layers != []
    ensures var n := |layers| - 1;
            AddNew([], layers) == AddNew([], layers[..n]) + if IsRepeat(layers, n) then [] else [layers[n]]
  {
    KeptDigests(layers[..|layers| - 1]);
  }

  lemma KeptInFront(layers: seq<Descriptor>, archives: Archives, p: Path, k: nat)
    requires k < |layers| - 1 && IsLastKept(layers, archives, p, k)
    ensures IsLastKept(layers[..|layers| - 1], archives, p, k)
    ensures !IsRepeat(layers, |layers| - 1) ==> !Decides(archives(layers[|layers| - 1].digest), p)
  {
    var front := layers[..|layers| - 1];
    FrontSays(layers, archives, p, k);
    forall i | k < i < |front| && DecidesAt(front, archives, p, i) ensures IsRepeat(front, i) {
      FrontSays(layers, archives, p, i);
    }
    assert DecidesAt(layers, archives, p, |layers| - 1) ==> IsRepeat(layers, |layers| - 1);
  }

  lemma ApplyKeeps(trees: seq<Tree>, p: Path)
    requires trees != []
    ensures var last := trees[|trees| - 1];
            Lookup(OciRootfs(trees), p) == if Decides(last, p) then Says(last, p) else Lookup(RootfsBelow(trees), p)
  {
    hide HidesLower, Apply;
    ApplyLookup(RootfsBelow(trees), trees[|trees| - 1], p);
  }

  lemma {:induction false} NobodyDecides(trees: seq<Tree>, p: Path)
    requires forall i | 0 <= i < |trees| :: !Decides(trees[i], p)
    ensures Lookup(OciRootfs(trees), p) == Lookup(EMPTY_TREE, p)
    decreases |trees|
  {
    if trees != [] {
      ApplyKeeps(trees, p);
      assert !Decides(trees[|trees| - 1], p);
      var below := trees[..|trees| - 1];
      forall i | 0 <= i < |below| ensures !Decides(below[i], p) {
        assert below[i] == trees[i];
      }
      NobodyDecides(below, p);
    }
  }

  // ----- When dropping a repeat matters -----

  /** At `p` the last word belongs to a repeat at `k` that is dropped, and it goes to another layer,
      strictly between that and the first occurrence, which says something else. */
  predicate Overruled(layers: seq<Descriptor>, archives: Archives, p: Path, j: nat, k: nat)
    requires j < |layers| && k < |layers|
  {
    && IsLast(layers, archives, p, k) && IsRepeat(layers, k)
    && j < k && (IsRepeatDigest(layers, k); FirstIndex(layers, layers[k].digest) < j)
    && !IsRepeat(layers, j) && DecidesAt(layers, archives, p, j)
    && (forall i | j < i < k && DecidesAt(layers, archives, p, i) :: IsRepeat(layers, i))
    && Says(archives(layers[j].digest), p) != Says(archives(layers[k].digest), p)
  }

  predicate OverruledAt(layers: seq<Descriptor>, archives: Archives, p: Path) {
    exists j: nat, k: nat :: j < |layers| && k < |layers| && Overruled(layers, archives, p, j, k)
  }

  lemma IsRepeatDigest(layers: seq<Descriptor>, k: nat)
    requires k < |layers|
    ensures layers[k].digest in DigestsOf(layers)
    ensures var first := FirstIndex(layers, layers[k].digest);
            && first <= k && layers[first].digest == layers[k].digest && !IsRepeat(layers, first)
            && (IsRepeat(layers, k) <==> first < k)
  {
    var digest := layers[k].digest;
    var first := FirstIndex(layers, digest);
    FirstIndexIsFirst(layers, digest);
    NamedBefore(layers, digest, first);
    NamedBefore(layers, digest, k);
    hide DigestsOf, FirstIndex;
  }

  lemma NamedBefore(layers: seq<Descriptor>, digest: string, n: nat)
    requires n <= |layers|
    ensures digest in DigestsOf(layers[..n]) <==> exists i :: 0 <= i < n && layers[i].digest == digest
  {
    var before := layers[..n];
    forall i | 0 <= i < n ensures before[i] == layers[i] {
    }
    if i :| 0 <= i < n && layers[i].digest == digest {
      assert before[i].digest == digest;
    }
  }

  lemma {:induction false} SomeoneIsLast(layers: seq<Descriptor>, archives: Archives, p: Path, n: nat) returns (k: nat)
    requires n <= |layers| && exists i :: 0 <= i < n && DecidesAt(layers, archives, p, i)
    requires forall i | n <= i < |layers| :: !DecidesAt(layers, archives, p, i)
    ensures k < |layers| && IsLast(layers, archives, p, k)
    decreases n
  {
    if DecidesAt(layers, archives, p, n - 1) {
      k := n - 1;
    } else {
      k := SomeoneIsLast(layers, archives, p, n - 1);
    }
  }

  lemma {:induction false} SomeoneIsLastKept(layers: seq<Descriptor>, archives: Archives, p: Path, n: nat)
    returns (k: nat)
    requires n <= |layers| && exists i :: 0 <= i < n && DecidesAt(layers, archives, p, i) && !IsRepeat(layers, i)
    requires forall i | n <= i < |layers| && DecidesAt(layers, archives, p, i) :: IsRepeat(layers, i)
    ensures k < |layers| && IsLastKept(layers, archives, p, k)
    decreases n
  {
    if DecidesAt(layers, archives, p, n - 1) && !IsRepeat(layers, n - 1) {
      k := n - 1;
    } else {
      k := SomeoneIsLastKept(layers, archives, p, n - 1);
    }
  }

  lemma OnlyOneOverrules(layers: seq<Descriptor>, archives: Archives, p: Path, j: nat, k: nat)
    requires j < |layers| && k < |layers| && Overruled(layers, archives, p, j, k)
    ensures IsLast(layers, archives, p, k) && IsLastKept(layers, archives, p, j)
  {
  }

  lemma DiffersWhereOverruled(layers: seq<Descriptor>, archives: Archives, p: Path, j: nat, k: nat)
    requires j < |layers| && k < |layers| && IsLast(layers, archives, p, k) && IsLastKept(layers, archives, p, j)
    ensures Says(archives(layers[j].digest), p) != Says(archives(layers[k].digest), p) <==>
            Overruled(layers, archives, p, j, k)
  {
    IsRepeatDigest(layers, k);
    var first := FirstIndex(layers, layers[k].digest);
    assert DecidesAt(layers, archives, p, first);
    assert j <= k;
  }

  /** Dropping repeats keeps what is at a path if and only if no dropped repeat is overruled there. */
  lemma DroppingKeepsPath(layers: seq<Descriptor>, archives: Archives, p: Path)
    ensures Lookup(OciRootfs(TreesOf(AddNew([], layers), archives)), p)
            == Lookup(OciRootfs(TreesOf(layers, archives)), p)
            <==> !OverruledAt(layers, archives, p)
  {
    hide OciRootfs, Lookup, Says, Decides, Overruled, IsLast, IsLastKept;
    if exists i :: 0 <= i < |layers| && DecidesAt(layers, archives, p, i) {
      var i :| 0 <= i < |layers| && DecidesAt(layers, archives, p, i);
      var k := SomeoneIsLast(layers, archives, p, |layers|);
      IsRepeatDigest(layers, i);
      assert DecidesAt(layers, archives, p, FirstIndex(layers, layers[i].digest));
      var j := SomeoneIsLastKept(layers, archives, p, |layers|);
      LastDecides(layers, archives, p, k);
      LastKeptDecides(layers, archives, p, j);
      DiffersWhereOverruled(layers, archives, p, j, k);
      OverruledOnce(layers, archives, p, j, k);
    } else {
      NothingDecides(layers, archives, p);
    }
  }

  lemma OverruledOnce(layers: seq<Descriptor>, archives: Archives, p: Path, j: nat, k: nat)
    requires j < |layers| && k < |layers| && IsLast(layers, archives, p, k) && IsLastKept(layers, archives, p, j)
    ensures OverruledAt(layers, archives, p) <==> Overruled(layers, archives, p, j, k)
  {
    hide Overruled;
    if OverruledAt(layers, archives, p) {
      var j': nat, k': nat :| j' < |layers| && k' < |layers| && Overruled(layers, archives, p, j', k');
      OnlyOneOverrules(layers, archives, p, j', k');
      assert k' == k && j' == j;
    }
  }

  lemma NothingDecides(layers: seq<Descriptor>, archives: Archives, p: Path)
    requires forall i | 0 <= i < |layers| :: !DecidesAt(layers, archives, p, i)
    ensures Lookup(OciRootfs(TreesOf(AddNew([], layers), archives)), p)
            == Lookup(OciRootfs(TreesOf(layers, archives)), p)
    ensures !OverruledAt(layers, archives, p)
  {
    hide Decides, Lookup, OciRootfs;
    var kept := AddNew([], layers);
    KeptDigests(layers);
    forall i | 0 <= i < |kept| ensures !Decides(TreesOf(kept, archives)[i], p) {
      assert kept[i].digest in DigestsOf(kept);
      var n :| 0 <= n < |layers| && layers[n].digest == kept[i].digest;
      assert !DecidesAt(layers, archives, p, n);
    }
    forall i | 0 <= i < |layers| ensures !Decides(TreesOf(layers, archives)[i], p) {
      assert !DecidesAt(layers, archives, p, i);
    }
    NobodyDecides(TreesOf(kept, archives), p);
    NobodyDecides(TreesOf(layers, archives), p);
  }

  /** Every repeat follows another occurrence of the same layer directly. */
  predicate RepeatsAreAdjacent(layers: seq<Descriptor>) {
    forall k | 0 < k < |layers| && IsRepeat(layers, k) :: layers[k - 1].digest == layers[k].digest
  }

  lemma {:induction false} AllTheSame(layers: seq<Descriptor>, i: nat, j: nat, k: nat)
    requires RepeatsAreAdjacent(layers) && i <= j <= k < |layers|
    requires layers[i].digest == layers[k].digest
    ensures layers[j].digest == layers[k].digest
    decreases k
  {
    if j < k {
      assert layers[..k][i].digest == layers[k].digest;
      assert IsRepeat(layers, k);
      if i < k - 1 {
        AllTheSame(layers, i, j, k - 1);
      }
    }
  }

  /** Dropping repeats that are adjacent keeps the root file system. */
  lemma AdjacentRepeatsAreHarmless(layers: seq<Descriptor>, archives: Archives, p: Path)
    requires RepeatsAreAdjacent(layers)
    ensures Lookup(OciRootfs(TreesOf(AddNew([], layers), archives)), p)
            == Lookup(OciRootfs(TreesOf(layers, archives)), p)
  {
    DroppingKeepsPath(layers, archives, p);
    forall j: nat, k: nat | j < |layers| && k < |layers| ensures !Overruled(layers, archives, p, j, k) {
      if Overruled(layers, archives, p, j, k) {
        IsRepeatDigest(layers, k);
        AllTheSame(layers, FirstIndex(layers, layers[k].digest), j, k);
      }
    }
  }

  // ----- What a sandbox shows of its images -----

  /** The layers are stored as conversion leaves them. */
  predicate StoredAsArchived(s: Store, layers: seq<Descriptor>, archives: Archives) {
    forall i | 0 <= i < |layers| :: StoredLayer(s, layers[i].digest, archives(layers[i].digest))
  }

  predicate StoredLayer(s: Store, digest: string, archive: Tree) {
    PlainLayer(archive) && digest in s.layers && s.layers[digest] == Converted(archive)
  }

  function StoredTrees(s: Store, layers: seq<Descriptor>): seq<Tree> {
    seq(|layers|, i requires 0 <= i < |layers| =>
      if layers[i].digest in s.layers then s.layers[layers[i].digest] else EMPTY_TREE)
  }

  /** What the overlay and the single-layer mount need of the layers. */
  predicate Mountable(layers: seq<Descriptor>, archives: Archives, rootFlag: bool) {
    && layers != [] && RootMarkersWork(TreesOf(layers, archives), rootFlag)
    && (|layers| == 1 ==> !CreatesWhiteout(archives(layers[0].digest)))
  }

  /** The sandbox shows the root file system of the stack. */
  lemma StackIsShown(s: Store, layers: seq<Descriptor>, archives: Archives, p: Path, rootFlag: bool)
    requires StoredAsArchived(s, layers, archives) && Mountable(layers, archives, rootFlag)
    ensures SandboxView(StoredTrees(s, layers), p, rootFlag) == Lookup(OciRootfs(TreesOf(layers, archives)), p)
  {
    hide PlainLayer, Converted, CreatesWhiteout;
    var trees := TreesOf(layers, archives);
    forall i | 0 <= i < |layers| ensures PlainLayer(trees[i]) && StoredTrees(s, layers)[i] == Converted(trees[i]) {
      assert StoredLayer(s, layers[i].digest, archives(layers[i].digest));
    }
    assert StoredTrees(s, layers) == ConvertAll(trees);
    SandboxIsRootfs(trees, p, rootFlag);
  }

  /** For every store and every containers: the sandbox shows, at every path, what the images of
      all containers together define, if and only if no dropped repeat is overruled anywhere. */
  lemma RunShowsAllImages(codec: Codec, s: Store, containers: seq<string>, archives: Archives, rootFlag: bool)
    requires StackedLayers(codec, s, containers).Some?
    requires var stack := StackedLayers(codec, s, containers).value;
             StoredAsArchived(s, stack, archives) && Mountable(stack, archives, rootFlag)
    ensures var stack, all := StackedLayers(codec, s, containers).value, AllLayers(codec, s, containers);
            (forall p ::
               SandboxView(StoredTrees(s, stack), p, rootFlag) == Lookup(OciRootfs(TreesOf(all, archives)), p))
            <==> forall p :: !OverruledAt(all, archives, p)
  {
    hide SandboxView, OciRootfs, Lookup, OverruledAt, StoredAsArchived, Mountable, StackedLayers, AllLayers;
    var stack, all := StackedLayers(codec, s, containers).value, AllLayers(codec, s, containers);
    StackDropsRepeats(codec, s, containers);
    forall p
      ensures SandboxView(StoredTrees(s, stack), p, rootFlag) == Lookup(OciRootfs(TreesOf(all, archives)), p)
              <==> !OverruledAt(all, archives, p)
    {
      StackIsShown(s, stack, archives, p, rootFlag);
      DroppingKeepsPath(all, archives, p);
    }
  }

  // ----- A repeat whose dropping matters -----

  /** Two installed containers: the images share a layer, and the lower one removes on top of it a
      file that the layer brings. */
  function SharedStore(m1: Bytes, m2: Bytes, d1: string, d2: string, base: Descriptor, removing: Descriptor): Store {
    Store(map["lower" := Container(Some(d1), None), "upper" := Container(Some(d2), None)],
          map[d1 := m1, d2 := m2],
          map[base.digest := BASE, removing.digest := REMOVED_A],
          map[], map[], 0)
  }

  /** The two manifests and the two archives can be written with this codec, under digests that verify. */
  ghost predicate CanBeShared(codec: Codec, received: iset<Delivery>, m1: Bytes, m2: Bytes, d1: string, d2: string,
                              base: Descriptor, removing: Descriptor)
  {
    && d1 != d2 && base.digest != removing.digest
    && Verifies(codec.hash, m1, d1) && codec.parseManifest(m1) == Some(Manifest(2, [base, removing]))
    && Verifies(codec.hash, m2, d2) && codec.parseManifest(m2) == Some(Manifest(2, [base]))
    && WholeLayer(codec, received, base.digest, BASE) && WholeLayer(codec, received, removing.digest, REMOVED_A)
  }

  function SharedArchives(base: Descriptor): Archives {
    digest => if digest == base.digest then BASE else REMOVING_A
  }

  lemma SharedIsIntact(codec: Codec, received: iset<Delivery>, m1: Bytes, m2: Bytes, d1: string, d2: string,
                       base: Descriptor, removing: Descriptor)
    requires CanBeShared(codec, received, m1, m2, d1, d2, base, removing)
    ensures var s := SharedStore(m1, m2, d1, d2, base, removing);
            && Intact(codec, s) && WholeLayers(codec, received, s)
            && ManifestOf(codec, s, "lower") == Some(Manifest(2, [base, removing]))
            && ManifestOf(codec, s, "upper") == Some(Manifest(2, [base]))
  {
    hide WholeLayer, IntactManifest, ReadDigest, Verifies, ReadManifest;
    var s := SharedStore(m1, m2, d1, d2, base, removing);
    SharedReads(codec, received, m1, m2, d1, d2, base, removing);
    SharedManifests(codec, received, m1, m2, d1, d2, base, removing);
    assert s.manifests.Keys == {d1, d2} && s.containers.Keys == {"lower", "upper"};
    assert s.layers.Keys == {base.digest, removing.digest};
    assert s.layers[base.digest] == BASE && s.layers[removing.digest] == REMOVED_A;
  }

  lemma SharedReads(codec: Codec, received: iset<Delivery>, m1: Bytes, m2: Bytes, d1: string, d2: string,
                    base: Descriptor, removing: Descriptor)
    requires CanBeShared(codec, received, m1, m2, d1, d2, base, removing)
    ensures var s := SharedStore(m1, m2, d1, d2, base, removing);
            && ReadDigest(s, "lower") == Some(d1) && ReadDigest(s, "upper") == Some(d2)
            && ReadManifest(codec, s, d1) == Some(Manifest(2, [base, removing]))
            && ReadManifest(codec, s, d2) == Some(Manifest(2, [base]))
  {
    DigestSurvivesTrim(d1);
    DigestSurvivesTrim(d2);
    hide ParseDigest, Trim, WholeLayer;
    var s := SharedStore(m1, m2, d1, d2, base, removing);
    assert s.containers["lower"].digestFile == Some(d1) && s.containers["upper"].digestFile == Some(d2);
    assert s.manifests[d1] == m1 && s.manifests[d2] == m2;
    hide CanBeShared;
  }

  lemma SharedManifests(codec: Codec, received: iset<Delivery>, m1: Bytes, m2: Bytes, d1: string, d2: string,
                        base: Descriptor, removing: Descriptor)
    requires CanBeShared(codec, received, m1, m2, d1, d2, base, removing)
    ensures var s := SharedStore(m1, m2, d1, d2, base, removing);
            && d1 in s.manifests && d2 in s.manifests && IntactManifest(codec, s, d1) && IntactManifest(codec, s, d2)
  {
    hide Verifies, WholeLayer;
    var s := SharedStore(m1, m2, d1, d2, base, removing);
    assert s.manifests[d1] == m1 && s.manifests[d2] == m2;
    assert DigestsOf([base, removing]) <= s.layers.Keys && DigestsOf([base]) <= s.layers.Keys;
    hide DigestsOf;
  }

  lemma SharedStack(codec: Codec, s: Store, base: Descriptor, removing: Descriptor)
    requires base.digest != removing.digest
    requires ManifestOf(codec, s, "lower") == Some(Manifest(2, [base, removing]))
    requires ManifestOf(codec, s, "upper") == Some(Manifest(2, [base]))
    ensures StackedLayers(codec, s, ["lower", "upper"]) == Some([base, removing])
    ensures AllLayers(codec, s, ["lower", "upper"]) == [base, removing, base]
  {
    hide ManifestOf, AddNew;
    var two, three := [base, removing], [base, removing, base];
    StackOfTwo(codec, s);
    AllOfTwo(codec, s);
    assert two + [base] == three;
    SharedKept(base, removing);
    AddNewTwice([], two, [base]);
  }

  lemma SharedKept(base: Descriptor, removing: Descriptor)
    requires base.digest != removing.digest
    ensures AddNew([], [base, removing]) == [base, removing]
    ensures AddNew([], [base, removing] + [base]) == [base, removing]
  {
    var two, three := [base, removing], [base, removing] + [base];
    assert two[..1] == [base] && three[..2] == two && [base][..0] == [] && three[2] == base;
    DigestsOfAppend([], base);
    DigestsOfAppend([base], removing);
    assert [] + [base] == [base] && [base] + [removing] == two && DigestsOf([]) == {};
    hide DigestsOf;
    assert AddNew([], [base]) == [base];
    assert AddNew([], two) == two;
  }

  lemma AllOfTwo(codec: Codec, s: Store)
    requires ManifestOf(codec, s, "lower").Some? && ManifestOf(codec, s, "upper").Some?
    ensures AllLayers(codec, s, ["lower", "upper"])
            == ManifestOf(codec, s, "lower").value.layers + ManifestOf(codec, s, "upper").value.layers
  {
    hide ManifestOf;
    assert ["lower", "upper"][..1] == ["lower"] && ["lower"][..0] == [];
    assert AllLayers(codec, s, ["lower"]) == ManifestOf(codec, s, "lower").value.layers;
  }

  lemma StackOfTwo(codec: Codec, s: Store)
    requires ManifestOf(codec, s, "lower").Some? && ManifestOf(codec, s, "upper").Some?
    ensures StackedLayers(codec, s, ["lower", "upper"])
            == Some(AddNew(AddNew([], ManifestOf(codec, s, "lower").value.layers),
                           ManifestOf(codec, s, "upper").value.layers))
  {
    hide ManifestOf, AddNew;
    assert ["lower", "upper"][..1] == ["lower"] && ["lower"][..0] == [];
    assert StackedLayers(codec, s, ["lower"]) == Some(AddNew([], ManifestOf(codec, s, "lower").value.layers));
  }

  /** In an intact store with such containers, the file that the upper image ends with is missing
      from the sandbox. */
  lemma DroppingDistantRepeatMatters(codec: Codec, received: iset<Delivery>, m1: Bytes, m2: Bytes, d1: string,
                                     d2: string, base: Descriptor, removing: Descriptor, rootFlag: bool)
    requires CanBeShared(codec, received, m1, m2, d1, d2, base, removing)
    ensures var s := SharedStore(m1, m2, d1, d2, base, removing);
            var stack, all := StackedLayers(codec, s, ["lower", "upper"]), AllLayers(codec, s, ["lower", "upper"]);
            && Intact(codec, s) && WholeLayers(codec, received, s) && stack.Some?
            && SandboxView(StoredTrees(s, stack.value), ["a"], rootFlag) == None
            && Lookup(OciRootfs(TreesOf(all, SharedArchives(base))), ["a"]) == Some(File([], false))
            && OverruledAt(all, SharedArchives(base), ["a"])
  {
    var s := SharedStore(m1, m2, d1, d2, base, removing);
    var archives, stack, all := SharedArchives(base), [base, removing], [base, removing, base];
    assert base.digest != removing.digest;
    hide Intact, WholeLayers, CanBeShared, SandboxView, OciRootfs, Lookup, StoredAsArchived, Mountable, AllLayers,
         StackedLayers, OverruledAt, SharedArchives, SharedStore, IsMarkerPath;
    SharedIsIntact(codec, received, m1, m2, d1, d2, base, removing);
    SharedStack(codec, s, base, removing);
    SharedIsStored(m1, m2, d1, d2, base, removing, rootFlag);
    StackIsShown(s, stack, archives, ["a"], rootFlag);
    StackDropsRepeats(codec, s, ["lower", "upper"]);
    LastWords(base, removing);
    DroppingKeepsPath(all, archives, ["a"]);
  }

  /** With the repeat, the last word about the file is with the layer that brings it; without, with
      the one that removes it. */
  lemma LastWords(base: Descriptor, removing: Descriptor)
    requires base.digest != removing.digest
    ensures Lookup(OciRootfs(TreesOf([base, removing, base], SharedArchives(base))), ["a"]) == Some(File([], false))
    ensures Lookup(OciRootfs(TreesOf([base, removing], SharedArchives(base))), ["a"]) == None
  {
    var archives, stack, all := SharedArchives(base), [base, removing], [base, removing, base];
    hide OciRootfs, Lookup, Decides, Says, TreesOf;
    ExamplesSay();
    assert archives(base.digest) == BASE && archives(removing.digest) == REMOVING_A;
    hide SharedArchives;
    assert IsLast(all, archives, ["a"], 2) && IsLast(stack, archives, ["a"], 1);
    LastDecides(all, archives, ["a"], 2);
    LastDecides(stack, archives, ["a"], 1);
  }

  lemma ExamplesSay()
    ensures Decides(BASE, ["a"]) && Says(BASE, ["a"]) == Some(File([], false))
    ensures Decides(REMOVING_A, ["a"]) && Says(REMOVING_A, ["a"]) == None
  {
    hide PlainLayer, HidesLower;
    ExamplesArePlain();
    MarkerInA();
    assert BASE[["a"]] == File([], false);
  }

  lemma MarkerInA()
    ensures !IsMarkerPath(["a"]) && ["a"] !in REMOVING_A
  {
    assert REMOVING_A.Keys == {[], [".wh.a"]};
    assert ["a"][0] != [".wh.a"][0];
  }

  lemma SharedIsStored(m1: Bytes, m2: Bytes, d1: string, d2: string, base: Descriptor, removing: Descriptor,
                       rootFlag: bool)
    requires base.digest != removing.digest
    ensures StoredAsArchived(SharedStore(m1, m2, d1, d2, base, removing), [base, removing], SharedArchives(base))
    ensures Mountable([base, removing], SharedArchives(base), rootFlag)
  {
    hide PlainLayer, Converted, HasOpaqueMarker, CreatesWhiteout, HidesLower;
    ExamplesArePlain();
    ExamplesConverted();
    NoRootMarker();
    var s, archives := SharedStore(m1, m2, d1, d2, base, removing), SharedArchives(base);
    assert archives(base.digest) == BASE && archives(removing.digest) == REMOVING_A;
    assert s.layers[base.digest] == BASE && s.layers[removing.digest] == REMOVED_A;
    assert StoredLayer(s, base.digest, BASE) && StoredLayer(s, removing.digest, REMOVING_A);
    hide StoredLayer, SharedStore, SharedArchives;
    var layers := [base, removing];
    assert TreesOf(layers, archives)[1] == REMOVING_A;
    hide TreesOf;
    assert |TreesOf(layers, archives)| == 2 by { TwoTrees(layers, archives); }
  }

  lemma TwoTrees(layers: seq<Descriptor>, archives: Archives)
    ensures |TreesOf(layers, archives)| == |layers|
  {
  }
}
