// What an IMA Merkle root and an inclusion proof commit to.
//
// Every result has the form "the logs agree, or two different byte strings
// that were both hashed on the way have the same hash".  The two strings are
// always among those the code hashed: with outputs of 32 bytes some collision
// exists anyway, so saying only that one exists would say nothing.

module ImaBinding {
  import opened Text
  import opened Merkle
  import opened ImaLog
  import opened ImaTree

  // ---- leaf pre-images ----------------------------------------------------------

  function Colons(s: string): nat
  {
    if s == "" then 0 else (if s[0] == ':' then 1 else 0) + Colons(s[1..])
  }

  // The fields joined with colons hold equally many of them.  What the kernel writes
  // has the same shape throughout a log: "sha256:<hex>" in the ng and sig templates,
  // a bare digest in the old one, two colons in ngv2.
  predicate SameColons(e: Entry, f: Entry)
  {
    && Colons(e.pcr) == Colons(f.pcr)
    && Colons(e.templateHash) == Colons(f.templateHash)
    && Colons(e.fileHash) == Colons(f.fileHash)
  }

  // Entry by entry, as far as both logs go.
  predicate SameShape(a: seq<Entry>, b: seq<Entry>)
  {
    forall i | 0 <= i < |a| && i < |b| :: SameColons(a[i], b[i])
  }

  // Everything but the template name, which the leaf does not cover.
  predicate SameMeasurement(e: Entry, f: Entry)
  {
    e.pcr == f.pcr && e.templateHash == f.templateHash && e.fileHash == f.fileHash && e.filename == f.filename
  }

  predicate SameMeasurements(a: seq<Entry>, b: seq<Entry>)
  {
    |a| == |b| && forall i | 0 <= i < |a| :: SameMeasurement(a[i], b[i])
  }

  // What the leaves of two logs hash, index by index.
  predicate SamePreImages(a: seq<Entry>, b: seq<Entry>)
  {
    |a| == |b| && forall i | 0 <= i < |a| :: PreImage(a[i], i) == PreImage(b[i], i)
  }

  lemma {:induction false} AbsentOf(s: string, c: char)
    ensures Absent(s, c) <==> forall k | 0 <= k < |s| :: s[k] != c
  {}

  lemma PreImageStart(e: Entry, i: nat)
    ensures IndexOf(PreImage(e, i), ':') == |Dec(i)|
    ensures PreImage(e, i)[..|Dec(i)|] == Dec(i)
  {
    var rest := [e.pcr, e.templateHash, e.fileHash, e.filename];
    JoinCons(Dec(i), rest, ':');
    assert [Dec(i)] + rest == [Dec(i), e.pcr, e.templateHash, e.fileHash, e.filename];
    AbsentOf(Dec(i), ':');
    IndexOfJoined(Dec(i), Join(rest, ':'), ':');
  }

  // The index alone separates leaves, whatever the other fields hold.
  lemma IndexSeparates(e: Entry, i: nat, f: Entry, j: nat)
    requires PreImage(e, i) == PreImage(f, j)
    ensures i == j
  {
    PreImageStart(e, i);
    PreImageStart(f, j);
    DecRoundTrip(i);
    DecRoundTrip(j);
  }

  lemma {:induction false} ColonsAppend(a: string, b: string)
    ensures Colons(a + b) == Colons(a) + Colons(b)
  {
    if a == "" {
      assert a + b == b;
    } else {
      ColonsAppend(a[1..], b);
      assert (a + b)[1..] == a[1..] + b;
    }
  }

  lemma LongerHasMoreColons(a: string, x: string, b: string, y: string)
    requires a + ":" + x == b + ":" + y && |a| < |b|
    ensures Colons(a) < Colons(b)
  {
    var s := a + ":" + x;
    assert s[..|a| + 1] == a + ":" && (b + ":" + y)[..|b|] == b;
    assert b == a + ":" + b[|a| + 1..] by {
      assert b[..|a| + 1] == s[..|a| + 1];
      assert b == b[..|a| + 1] + b[|a| + 1..];
    }
    ColonsAppend(a + ":", b[|a| + 1..]);
    ColonsAppend(a, ":");
    assert Colons(":") == 1 by { assert ":"[1..] == ""; }
  }

  // Two ways to cut one text at a colon are the same if the heads hold equally many.
  lemma CutSame(a: string, x: string, b: string, y: string)
    requires a + ":" + x == b + ":" + y && Colons(a) == Colons(b)
    ensures a == b && x == y
  {
    if |a| < |b| {
      LongerHasMoreColons(a, x, b, y);
    } else if |b| < |a| {
      LongerHasMoreColons(b, y, a, x);
    }
    var s := a + ":" + x;
    assert a == s[..|a|] && x == s[|a| + 1..];
    assert b == (b + ":" + y)[..|b|] && y == (b + ":" + y)[|b| + 1..];
  }

  // The pre-image, one colon at a time.
  lemma PreImageNested(e: Entry, i: nat)
    ensures PreImage(e, i) ==
      Dec(i) + ":" + (e.pcr + ":" + (e.templateHash + ":" + (e.fileHash + ":" + e.filename)))
  {
    var r4 := [e.filename];
    var r3 := [e.fileHash] + r4;
    var r2 := [e.templateHash] + r3;
    var r1 := [e.pcr] + r2;
    JoinCons(e.fileHash, r4, ':');
    JoinCons(e.templateHash, r3, ':');
    JoinCons(e.pcr, r2, ':');
    JoinCons(Dec(i), r1, ':');
    assert [Dec(i)] + r1 == [Dec(i), e.pcr, e.templateHash, e.fileHash, e.filename];
  }

  // The whole pre-image, on the one decimal text of the index.
  lemma LeafText(e: Entry, i: nat, index: string)
    requires IsDecimal(index) && DecValue(index) == i
    ensures PreImage(e, i) == index + ":" + e.pcr + ":" + e.templateHash + ":" + e.fileHash + ":" + e.filename
  {
    DecIsCanonical(i, index);
    PreImageNested(e, i);
    hide PreImage, Dec;
    var rest := e.fileHash + ":" + e.filename;
    assert index + ":" + (e.pcr + ":" + (e.templateHash + ":" + rest))
        == index + ":" + e.pcr + ":" + e.templateHash + ":" + rest;
    assert index + ":" + e.pcr + ":" + e.templateHash + ":" + rest
        == index + ":" + e.pcr + ":" + e.templateHash + ":" + e.fileHash + ":" + e.filename;
  }

  lemma SameShapeSameFields(e: Entry, f: Entry, i: nat)
    requires PreImage(e, i) == PreImage(f, i) && SameColons(e, f)
    ensures SameMeasurement(e, f)
  {
    PreImageNested(e, i);
    PreImageNested(f, i);
    hide Colons, PreImage;
    var e4, f4 := e.fileHash + ":" + e.filename, f.fileHash + ":" + f.filename;
    var e3, f3 := e.templateHash + ":" + e4, f.templateHash + ":" + f4;
    CutSame(Dec(i), e.pcr + ":" + e3, Dec(i), f.pcr + ":" + f3);
    CutSame(e.pcr, e3, f.pcr, f3);
    CutSame(e.templateHash, e4, f.templateHash, f4);
    CutSame(e.fileHash, e.filename, f.fileHash, f.filename);
  }

  // Exactly what a leaf binds: the index always, and the covered fields if and only if
  // they hold equally many colons.
  lemma PreImageInjective(e: Entry, i: nat, f: Entry, j: nat)
    ensures Utf8(PreImage(e, i)) == Utf8(PreImage(f, j)) ==> i == j && (SameMeasurement(e, f) <==> SameColons(e, f))
    ensures i == j && SameMeasurement(e, f) ==> Utf8(PreImage(e, i)) == Utf8(PreImage(f, j))
  {
    if Utf8(PreImage(e, i)) == Utf8(PreImage(f, j)) {
      Utf8Injective(PreImage(e, i), PreImage(f, j));
      IndexSeparates(e, i, f, j);
      hide PreImage, Utf8, Colons;
      if SameColons(e, f) {
        SameShapeSameFields(e, f, i);
      }
    }
  }

  // The same for whole logs.
  lemma PreImagesBindFields(a: seq<Entry>, b: seq<Entry>)
    ensures SamePreImages(a, b) && SameShape(a, b) <==> SameMeasurements(a, b)
  {
    hide PreImage, Colons;
    if SamePreImages(a, b) && SameShape(a, b) {
      forall i | 0 <= i < |a| ensures SameMeasurement(a[i], b[i]) {
        SameShapeSameFields(a[i], b[i], i);
      }
    }
    if SameMeasurements(a, b) {
      forall i | 0 <= i < |a| ensures PreImage(a[i], i) == PreImage(b[i], i) && SameColons(a[i], b[i]) {
        FieldsGivePreImage(a[i], b[i], i);
      }
    }
  }

  lemma FieldsGivePreImage(e: Entry, f: Entry, i: nat)
    requires SameMeasurement(e, f)
    ensures PreImage(e, i) == PreImage(f, i)
  {}

  // The condition is needed: a colon can move between the file hash and the file name.
  lemma ColonCanMove(h: Hash, i: nat, alg: string, dig: string, name: string)
    ensures var e := Entry("10", "ab", "ima-ng", alg, dig + ":" + name);
      var f := Entry("10", "ab", "ima-ng", alg + ":" + dig, name);
      !SameMeasurement(e, f) && LeafHash(h, e, i) == LeafHash(h, f, i)
  {
    var e := Entry("10", "ab", "ima-ng", alg, dig + ":" + name);
    var f := Entry("10", "ab", "ima-ng", alg + ":" + dig, name);
    assert |e.fileHash| < |f.fileHash|;
    PreImageNested(e, i);
    PreImageNested(f, i);
    assert alg + ":" + (dig + ":" + name) == (alg + ":" + dig) + ":" + name;
  }

  // ---- roots ----------------------------------------------------------------------

  ghost predicate LeafInput(entries: seq<Entry>, x: bytes)
  {
    exists i :: 0 <= i < |entries| && x == Utf8(PreImage(entries[i], i))
  }

  ghost predicate InnerInput(h: Hash, entries: seq<Entry>, x: bytes) { Hashed(h, Leaves(h, entries, 0), x) }

  // Every byte string hashed while the root of a log is computed.
  ghost predicate HashedFor(h: Hash, entries: seq<Entry>, x: bytes)
  {
    LeafInput(entries, x) || InnerInput(h, entries, x) || (entries == [] && x == [])
  }

  ghost predicate LogsCollide(h: Hash, a: seq<Entry>, b: seq<Entry>)
  {
    exists x, y :: HashedFor(h, a, x) && HashedFor(h, b, y) && Clash(h, x, y)
  }

  // The first leaf pre-image of one log is, byte for byte, an inner pre-image of the other.
  ghost predicate LeafIsNode(h: Hash, a: seq<Entry>, b: seq<Entry>)
  {
    a != [] && InnerInput(h, b, Utf8(PreImage(a[0], 0)))
  }

  function RootOf(h: Hash, entries: seq<Entry>): Digest { LogRoot(h, Leaves(h, entries, 0)) }

  lemma CollideSymmetric(h: Hash, a: seq<Entry>, b: seq<Entry>)
    ensures LogsCollide(h, a, b) <==> LogsCollide(h, b, a)
  {
    if LogsCollide(h, a, b) {
      var x, y :| HashedFor(h, a, x) && HashedFor(h, b, y) && Clash(h, x, y);
      assert HashedFor(h, b, y) && HashedFor(h, a, x) && Clash(h, y, x);
    }
    if LogsCollide(h, b, a) {
      var x, y :| HashedFor(h, b, x) && HashedFor(h, a, y) && Clash(h, x, y);
      assert HashedFor(h, a, y) && HashedFor(h, b, x) && Clash(h, y, x);
    }
  }

  lemma LayersCollide(h: Hash, a: seq<Entry>, b: seq<Entry>)
    requires LayersClash(h, Leaves(h, a, 0), Leaves(h, b, 0))
    ensures LogsCollide(h, a, b)
  {
    var x, y :| Hashed(h, Leaves(h, a, 0), x) && Hashed(h, Leaves(h, b, 0), y) && Clash(h, x, y);
    assert HashedFor(h, a, x) && HashedFor(h, b, y);
  }

  lemma EqualLeaves(h: Hash, a: seq<Entry>, b: seq<Entry>, i: nat, j: nat)
    requires i < |a| && j < |b| && Leaves(h, a, 0)[i] == Leaves(h, b, 0)[j]
    requires !LogsCollide(h, a, b)
    ensures PreImage(a[i], i) == PreImage(b[j], j) && i == j
  {
    hide PreImage, Utf8, Hashed;
    var x, y := Utf8(PreImage(a[i], i)), Utf8(PreImage(b[j], j));
    assert LeafInput(a, x) && LeafInput(b, y);
    assert HashedFor(h, a, x) && HashedFor(h, b, y);
    assert !Clash(h, x, y);
    Utf8Injective(PreImage(a[i], i), PreImage(b[j], j));
    IndexSeparates(a[i], i, b[j], j);
  }

  // The duplicate-last padding is harmless: a longer log of equal depth and
  // root would have to hash the same leaf at two indices.
  lemma EqualDepthBinding(h: Hash, a: seq<Entry>, b: seq<Entry>)
    requires a != [] && |a| <= |b| && Depth(|a|) == Depth(|b|)
    requires RootOf(h, a) == RootOf(h, b)
    ensures SamePreImages(a, b) || LogsCollide(h, a, b)
  {
    if !LogsCollide(h, a, b) {
      hide LeafHash, Hashed, Root, LogsCollide, PreImage;
      var la, lb := Leaves(h, a, 0), Leaves(h, b, 0);
      if LayersClash(h, la, lb) {
        LayersCollide(h, a, b);
      }
      SameRootSameDepth(h, la, lb);
      if |a| < |b| {
        var j :| 0 <= j < |la| && lb[|la|] == la[j];
        EqualLeaves(h, a, b, j, |a|);
        assert false;
      }
      forall i | 0 <= i < |a| ensures PreImage(a[i], i) == PreImage(b[i], i) {
        EqualLeaves(h, a, b, i, i);
      }
    }
  }

  lemma UnequalDepthBinding(h: Hash, a: seq<Entry>, b: seq<Entry>)
    requires a != [] && Depth(|a|) < Depth(|b|)
    requires RootOf(h, a) == RootOf(h, b)
    ensures LeafIsNode(h, a, b) || LogsCollide(h, a, b)
  {
    hide Hashed, Utf8, PreImage, Root;
    var la, lb := Leaves(h, a, 0), Leaves(h, b, 0);
    if LayersClash(h, la, lb) {
      LayersCollide(h, a, b);
    } else {
      var x := SameRootDeeper(h, la, lb);
      var y := Utf8(PreImage(a[0], 0));
      assert LeafInput(a, y) && HashedFor(h, a, y) && InnerInput(h, b, x) && HashedFor(h, b, x);
      if x != y {
        assert Clash(h, y, x);
      }
    }
  }

  lemma EmptyBinding(h: Hash, b: seq<Entry>)
    requires b != [] && RootOf(h, []) == RootOf(h, b)
    ensures LogsCollide(h, [], b)
  {
    var lb := Leaves(h, b, 0);
    assert HashedFor(h, [], []);
    if |b| == 1 {
      var y := Utf8(PreImage(b[0], 0));
      PreImageStart(b[0], 0);
      assert LeafInput(b, y) && HashedFor(h, b, y) && Clash(h, [], y);
    } else {
      var y := RootIsHashed(h, lb);
      HashedLength(h, lb, y);
      assert HashedFor(h, b, y) && Clash(h, [], y);
    }
  }

  // The one way round the binding, open only to trees of different depth.
  ghost predicate NodeAsLeaf(h: Hash, a: seq<Entry>, b: seq<Entry>)
  {
    Depth(|a|) != Depth(|b|) && (LeafIsNode(h, a, b) || LeafIsNode(h, b, a))
  }

  lemma NonEmptyBinding(h: Hash, a: seq<Entry>, b: seq<Entry>)
    requires a != [] && b != [] && RootOf(h, a) == RootOf(h, b)
    ensures SamePreImages(a, b) || LogsCollide(h, a, b) || NodeAsLeaf(h, a, b)
  {
    hide RootOf, LogsCollide, LeafIsNode, PreImage;
    CollideSymmetric(h, a, b);
    if Depth(|a|) < Depth(|b|) {
      UnequalDepthBinding(h, a, b);
    } else if Depth(|b|) < Depth(|a|) {
      UnequalDepthBinding(h, b, a);
    } else if |a| <= |b| {
      EqualDepthBinding(h, a, b);
    } else {
      EqualDepthBinding(h, b, a);
    }
  }

  // Main result, for any two logs: the printed roots are equal exactly when the
  // logs have the same leaf pre-images, unless a collision or a leaf that
  // doubles as an inner node is at hand.
  lemma RootBinding(h: Hash, a: seq<Entry>, b: seq<Entry>)
    ensures SamePreImages(a, b) ==> TreeOf(h, Leaves(h, a, 0)) == TreeOf(h, Leaves(h, b, 0))
    ensures TreeOf(h, Leaves(h, a, 0)).root == TreeOf(h, Leaves(h, b, 0)).root ==>
      SamePreImages(a, b) || LogsCollide(h, a, b) || NodeAsLeaf(h, a, b)
  {
    if SamePreImages(a, b) {
      assert Leaves(h, a, 0) == Leaves(h, b, 0);
    }
    if TreeOf(h, Leaves(h, a, 0)).root == TreeOf(h, Leaves(h, b, 0)).root {
      HexInjective(RootOf(h, a), RootOf(h, b));
      CollideSymmetric(h, a, b);
      if a == [] && b == [] {
      } else if a == [] {
        EmptyBinding(h, b);
      } else if b == [] {
        EmptyBinding(h, a);
      } else {
        NonEmptyBinding(h, a, b);
      }
    }
  }

  // The last alternative needs a first leaf of exactly 64 bytes, which a caller can rule
  // out; digests of the usual sizes do.
  predicate NodeSized(entries: seq<Entry>) { entries != [] && |Utf8(PreImage(entries[0], 0))| == 64 }

  predicate LongDigests(entries: seq<Entry>)
  {
    entries != [] ==> |entries[0].templateHash| + |entries[0].fileHash| > 64
  }

  lemma LongDigestsAreNotNodeSized(entries: seq<Entry>)
    requires LongDigests(entries)
    ensures !NodeSized(entries)
  {
    if entries != [] {
      PreImageNested(entries[0], 0);
    }
  }

  lemma NoNodeAsLeaf(h: Hash, a: seq<Entry>, b: seq<Entry>)
    requires !NodeSized(a) && !NodeSized(b)
    ensures !NodeAsLeaf(h, a, b)
  {
    hide Utf8, PreImage, Hashed;
    if LeafIsNode(h, a, b) {
      HashedLength(h, Leaves(h, b, 0), Utf8(PreImage(a[0], 0)));
    }
    if LeafIsNode(h, b, a) {
      HashedLength(h, Leaves(h, a, 0), Utf8(PreImage(b[0], 0)));
    }
  }

  // The root pins every covered field of two logs if and only if their entries hold
  // equally many colons, again up to the two alternatives.
  lemma RootBindsLog(h: Hash, a: seq<Entry>, b: seq<Entry>)
    ensures SameMeasurements(a, b) ==> SameShape(a, b) && TreeOf(h, Leaves(h, a, 0)) == TreeOf(h, Leaves(h, b, 0))
    ensures TreeOf(h, Leaves(h, a, 0)).root == TreeOf(h, Leaves(h, b, 0)).root ==>
      (SameMeasurements(a, b) <==> SameShape(a, b)) || LogsCollide(h, a, b) || NodeAsLeaf(h, a, b)
    ensures !NodeSized(a) && !NodeSized(b) ==> !NodeAsLeaf(h, a, b)
    ensures (LongDigests(a) ==> !NodeSized(a)) && (LongDigests(b) ==> !NodeSized(b))
  {
    hide LogsCollide, TreeOf, SamePreImages, SameMeasurements, SameShape, NodeAsLeaf, NodeSized, LongDigests;
    if LongDigests(a) {
      LongDigestsAreNotNodeSized(a);
    }
    if LongDigests(b) {
      LongDigestsAreNotNodeSized(b);
    }
    RootBinding(h, a, b);
    PreImagesBindFields(a, b);
    if !NodeSized(a) && !NodeSized(b) {
      NoNodeAsLeaf(h, a, b);
    }
  }

  // ---- inclusion proofs ---------------------------------------------------------------

  // A verifier holding the printed proof decodes it and folds to the printed root.
  predicate Accepts(h: Hash, leaf: Digest, proof: seq<Digest>, index: nat, root: string)
  {
    Hex(Fold(h, leaf, proof, index)) == root
  }

  lemma InclusionComplete(h: Hash, entries: seq<Entry>, index: nat)
    requires index < |entries|
    ensures var p := ProofOf(h, entries, index); var tree := TreeOf(h, Leaves(h, entries, 0));
      && p.Proof? && p.root == tree.root && |p.proof| == tree.depth && p.leafHash == tree.leaves[index]
      && exists proof: seq<Digest> :: p.proof == HexAll(proof)
           && Accepts(h, LeafHash(h, entries[index], index), proof, index, tree.root)
  {
    var leaves := Leaves(h, entries, 0);
    ProofComplete(h, leaves, index);
    var proof := Siblings(h, leaves, index);
    assert Accepts(h, leaves[index], proof, index, TreeOf(h, leaves).root);
  }

  ghost predicate ProofCollides(h: Hash, leaf: Digest, proof: seq<Digest>, index: nat, entries: seq<Entry>)
  {
    exists x, y :: FoldHashed(h, leaf, proof, index, x) && InnerInput(h, entries, y) && Clash(h, x, y)
  }

  // Soundness and uniqueness, at every index including those beside padding.
  lemma InclusionSound(h: Hash, entries: seq<Entry>, index: nat, leaf: Digest, proof: seq<Digest>)
    requires index < |entries| && |proof| == TreeOf(h, Leaves(h, entries, 0)).depth
    requires Accepts(h, leaf, proof, index, TreeOf(h, Leaves(h, entries, 0)).root)
    ensures ProofOf(h, entries, index) == Proof(index, Hex(leaf), HexAll(proof), TreeOf(h, Leaves(h, entries, 0)).root)
      || ProofCollides(h, leaf, proof, index, entries)
  {
    var leaves := Leaves(h, entries, 0);
    HexInjective(Fold(h, leaf, proof, index), Root(h, leaves));
    ProofSound(h, leaf, proof, index, leaves);
    if FoldClash(h, leaf, proof, index, leaves) {
      var x, y :| FoldHashed(h, leaf, proof, index, x) && Hashed(h, leaves, y) && Clash(h, x, y);
      assert InnerInput(h, entries, y);
    }
  }

  // An accepted proof for an entry shows that entry at that index, if and only if the
  // two hold equally many colons.
  lemma InclusionBindsEntry(h: Hash, entries: seq<Entry>, index: nat, e: Entry, proof: seq<Digest>)
    requires index < |entries| && |proof| == Depth(|entries|)
    requires Accepts(h, LeafHash(h, e, index), proof, index, TreeOf(h, Leaves(h, entries, 0)).root)
    ensures (SameMeasurement(e, entries[index]) <==> SameColons(e, entries[index]))
      || Clash(h, Utf8(PreImage(e, index)), Utf8(PreImage(entries[index], index)))
      || ProofCollides(h, LeafHash(h, e, index), proof, index, entries)
  {
    hide Colons;
    InclusionSound(h, entries, index, LeafHash(h, e, index), proof);
    if !ProofCollides(h, LeafHash(h, e, index), proof, index, entries) {
      HexInjective(LeafHash(h, e, index), LeafHash(h, entries[index], index));
      PreImageInjective(e, index, entries[index], index);
    }
  }
}
