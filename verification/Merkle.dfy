// The Merkle reduction and inclusion proofs of agent/ima_reader.py.
//
// SHA-256 is a parameter `h`: any function from bytes to 32-byte digests.
// Nothing says it is injective (no such function is).  Facts that need
// collision resistance are stated about the byte strings that were really
// hashed: either the conclusion holds, or two different ones hash alike.

module Merkle {
  import opened Text

  type Digest = d: bytes | |d| == 32 witness seq(32, _ => 0)
  type Hash = bytes -> Digest

  // ---- the reduction, as a recursive function --------------------------------

  // An odd layer gets its last node a second time.
  function Pad(layer: seq<Digest>): (padded: seq<Digest>)
    ensures |padded| % 2 == 0 && |padded| == 2 * Above(|layer|)
    ensures layer <= padded
    ensures |layer| % 2 == 1 ==> padded[|layer|] == layer[|layer| - 1]
  {
    if |layer| % 2 == 1 then layer + [layer[|layer| - 1]] else layer
  }

  // The 64 bytes hashed for the i-th pair of a layer.
  function Pair(layer: seq<Digest>, i: nat): (x: bytes)
    requires 2 * i + 1 < |layer|
    ensures |x| == 64
  {
    var left: bytes, right: bytes := layer[2 * i], layer[2 * i + 1];
    left + right
  }

  function PairUp(h: Hash, layer: seq<Digest>): (up: seq<Digest>)
    ensures |up| == |layer| / 2
    ensures forall i | 0 <= i < |up| :: up[i] == h(Pair(layer, i))
  {
    seq<Digest>(|layer| / 2, i requires 0 <= i < |layer| / 2 => h(Pair(layer, i)))
  }

  function Up(h: Hash, layer: seq<Digest>): (up: seq<Digest>)
    ensures |up| == Above(|layer|)
  {
    PairUp(h, Pad(layer))
  }

  function Root(h: Hash, layer: seq<Digest>): Digest
    requires layer != []
    decreases |layer|
  {
    if |layer| == 1 then layer[0] else Root(h, Up(h, layer))
  }

  // The size of the layer above a layer of n nodes.
  function Above(n: nat): (m: nat)
    ensures 2 * m == n + n % 2
    ensures n > 1 ==> 1 <= m < n
  {
    (n + 1) / 2
  }

  function Depth(n: nat): nat { if n <= 1 then 0 else 1 + Depth(Above(n)) }

  // How many layers of the reduction are odd, and how many hashes it takes.
  function OddLayers(n: nat): nat { if n <= 1 then 0 else n % 2 + OddLayers(Above(n)) }
  function InnerHashes(n: nat): nat { if n <= 1 then 0 else Above(n) + InnerHashes(Above(n)) }

  function Pow2(k: nat): (p: nat)
    ensures p >= 1
  {
    if k == 0 then 1 else 2 * Pow2(k - 1)
  }

  lemma {:induction false} DepthBounds(n: nat)
    requires n > 1
    ensures Depth(n) >= 1 && Pow2(Depth(n) - 1) < n <= Pow2(Depth(n))
  {
    hide Above;
    var m := Above(n);
    assert Depth(n) == Depth(m) + 1;
    if m > 1 {
      DepthBounds(m);
      assert Pow2(Depth(n)) == 2 * Pow2(Depth(m)) && Pow2(Depth(m)) == 2 * Pow2(Depth(m) - 1);
    } else {
      assert Pow2(0) == 1 && Pow2(1) == 2;
    }
  }

  lemma {:induction false} HashCount(n: nat)
    requires n > 1
    ensures InnerHashes(n) == n - 1 + OddLayers(n)
    ensures OddLayers(n) <= Depth(n) - 1
  {
    hide Above;
    var m := Above(n);
    assert InnerHashes(n) == m + InnerHashes(m);
    assert OddLayers(n) == n % 2 + OddLayers(m);
    assert Depth(n) == 1 + Depth(m);
    if m > 1 {
      HashCount(m);
    } else {
      assert n == 2;
    }
  }

  // ---- the same tree from the top ------------------------------------------------------

  // A tree of depth k: the left half is full as soon as it can be, and a node without a
  // right half is hashed with itself.
  function Top(h: Hash, layer: seq<Digest>, k: nat): Digest
    requires 1 <= |layer| <= Pow2(k)
  {
    if k == 0 then layer[0]
    else if |layer| <= Pow2(k - 1) then Twice(h, Top(h, layer, k - 1))
    else Joined(h, Top(h, layer[..Pow2(k - 1)], k - 1), Top(h, layer[Pow2(k - 1)..], k - 1))
  }

  function Joined(h: Hash, left: bytes, right: bytes): Digest { h(left + right) }

  function Twice(h: Hash, node: bytes): Digest { h(node + node) }

  lemma TopSplits(h: Hash, layer: seq<Digest>, k: nat)
    requires 1 <= |layer| <= Pow2(k + 1)
    ensures Pow2(k + 1) == 2 * Pow2(k)
    ensures |layer| <= Pow2(k) ==> Top(h, layer, k + 1) == Twice(h, Top(h, layer, k))
    ensures |layer| > Pow2(k) ==>
      Top(h, layer, k + 1) == Joined(h, Top(h, layer[..Pow2(k)], k), Top(h, layer[Pow2(k)..], k))
  {
    hide Joined, Twice;
  }

  lemma {:induction false} TopOfUp(h: Hash, layer: seq<Digest>, k: nat)
    requires 1 <= |layer| <= Pow2(k + 1)
    ensures 1 <= |Up(h, layer)| <= Pow2(k) && Top(h, layer, k + 1) == Top(h, Up(h, layer), k)
  {
    hide Up, Top, Pow2;
    if k == 0 {
      TopOfPair(h, layer);
    } else {
      PowerStep(k - 1);
      if |layer| <= Pow2(k) {
        TopOfUp(h, layer, k - 1);
        TopOfOne(h, layer, k - 1);
      } else {
        PowerStep(k);
        TopOfUp(h, layer[..Pow2(k)], k - 1);
        TopOfUp(h, layer[Pow2(k)..], k - 1);
        TopOfTwo(h, layer, k - 1);
      }
    }
  }

  lemma TopOfOne(h: Hash, layer: seq<Digest>, k: nat)
    requires 1 <= |layer| <= Pow2(k + 1)
    requires 1 <= |Up(h, layer)| <= Pow2(k) && Top(h, layer, k + 1) == Top(h, Up(h, layer), k)
    ensures |layer| <= Pow2(k + 2) && |Up(h, layer)| <= Pow2(k + 1)
    ensures Top(h, layer, k + 2) == Top(h, Up(h, layer), k + 1)
  {
    hide Up, Top, Pow2, Twice, Joined;
    PowerStep(k);
    PowerStep(k + 1);
    TopSplits(h, layer, k + 1);
    TopSplits(h, Up(h, layer), k);
  }

  lemma TopOfTwo(h: Hash, layer: seq<Digest>, k: nat)
    requires Pow2(k + 1) < |layer| <= Pow2(k + 2)
    requires var left, right := layer[..Pow2(k + 1)], layer[Pow2(k + 1)..];
      && 1 <= |right| <= Pow2(k + 1) && 1 <= |Up(h, left)| <= Pow2(k) && 1 <= |Up(h, right)| <= Pow2(k)
      && Top(h, left, k + 1) == Top(h, Up(h, left), k) && Top(h, right, k + 1) == Top(h, Up(h, right), k)
    ensures |Up(h, layer)| <= Pow2(k + 1) && Top(h, layer, k + 2) == Top(h, Up(h, layer), k + 1)
  {
    hide Top, Pow2, Twice, Joined;
    PowerStep(k);
    PowerStep(k + 1);
    var n := Pow2(k + 1);
    UpSplits(h, layer, Pow2(k));
    var left, right, up := Up(h, layer[..n]), Up(h, layer[n..]), Up(h, layer);
    hide Up;
    assert |left| == Pow2(k) && up == left + right;
    assert up[..Pow2(k)] == left && up[Pow2(k)..] == right;
    TopSplits(h, layer, k + 1);
    TopSplits(h, up, k);
  }

  lemma PowerStep(k: nat)
    ensures Pow2(k + 1) == 2 * Pow2(k)
  {}

  lemma TopOfPair(h: Hash, layer: seq<Digest>)
    requires 1 <= |layer| <= Pow2(1)
    ensures |Up(h, layer)| == 1 <= Pow2(0)
    ensures Top(h, layer, 1) == Top(h, Up(h, layer), 0)
  {
    assert Pow2(1) == 2 * Pow2(0);
    if |layer| == 1 {
      assert Up(h, layer)[0] == h(Pair(Pad(layer), 0));
    } else {
      assert layer[..1] == [layer[0]] && layer[1..] == [layer[1]];
      assert Up(h, layer)[0] == h(Pair(layer, 0));
    }
  }

  lemma UpSplits(h: Hash, layer: seq<Digest>, m: nat)
    requires 2 * m < |layer|
    ensures Up(h, layer) == Up(h, layer[..2 * m]) + Up(h, layer[2 * m..])
  {
    var left, right := layer[..2 * m], layer[2 * m..];
    PadRight(layer, m);
    PairsSplit(h, left, Pad(right), m);
    assert Pad(left) == left;
  }

  lemma PadRight(layer: seq<Digest>, m: nat)
    requires 2 * m < |layer|
    ensures Pad(layer) == layer[..2 * m] + Pad(layer[2 * m..])
  {
    var left, right := layer[..2 * m], layer[2 * m..];
    assert layer == left + right && right[|right| - 1] == layer[|layer| - 1];
    assert |right| % 2 == |layer| % 2;
    hide Pad;
    PadIs(layer);
    PadIs(right);
    assert left + right + [right[|right| - 1]] == left + (right + [right[|right| - 1]]);
  }

  lemma PadIs(layer: seq<Digest>)
    requires layer != []
    ensures Pad(layer) == if |layer| % 2 == 1 then layer + [layer[|layer| - 1]] else layer
  {}

  lemma PairsSplit(h: Hash, left: seq<Digest>, right: seq<Digest>, m: nat)
    requires |left| == 2 * m
    ensures PairUp(h, left + right) == PairUp(h, left) + PairUp(h, right)
  {
    var all := left + right;
    forall i | 0 <= i < |all| / 2
      ensures PairUp(h, all)[i] == (PairUp(h, left) + PairUp(h, right))[i]
    {
      if i < m {
        assert Pair(all, i) == Pair(left, i);
      } else {
        assert Pair(all, i) == Pair(right, i - m);
      }
    }
  }

  lemma {:induction false} RootIsTop(h: Hash, layer: seq<Digest>, k: nat)
    requires layer != [] && k == Depth(|layer|)
    ensures |layer| <= Pow2(k) && Root(h, layer) == Top(h, layer, k)
    decreases |layer|
  {
    hide Up, Top, Root, Pow2, Depth, Above;
    if |layer| > 1 {
      RootStep(h, layer);
      RootIsTop(h, Up(h, layer), k - 1);
      RootTopStep(h, layer, k - 1);
    } else {
      TopOfLeaf(h, layer);
    }
  }

  lemma TopOfLeaf(h: Hash, layer: seq<Digest>)
    requires |layer| == 1
    ensures Depth(1) == 0 && Pow2(0) == 1 && Root(h, layer) == Top(h, layer, 0)
  {}

  lemma RootTopStep(h: Hash, layer: seq<Digest>, k: nat)
    requires |layer| > 1 && Depth(|layer|) == k + 1
    requires 1 <= |Up(h, layer)| <= Pow2(k) && Root(h, layer) == Top(h, Up(h, layer), k)
    ensures |layer| <= Pow2(k + 1) && Root(h, layer) == Top(h, layer, k + 1)
  {
    hide Up, Top, Root, Pow2, Depth, Above;
    DepthBounds(|layer|);
    TopOfUp(h, layer, k);
  }

  lemma RootStep(h: Hash, layer: seq<Digest>)
    requires |layer| > 1
    ensures 1 <= |Up(h, layer)| < |layer| && Root(h, layer) == Root(h, Up(h, layer))
    ensures Depth(|layer|) == Depth(|Up(h, layer)|) + 1
  {
    hide Pad, PairUp;
  }

  // Depth and bottom-up reduction are those of the usual top-down tree.
  lemma RootIsTopDown(h: Hash, layer: seq<Digest>)
    requires layer != []
    ensures |layer| <= Pow2(Depth(|layer|)) && Root(h, layer) == Top(h, layer, Depth(|layer|))
    ensures |layer| == 1 ==> Depth(|layer|) == 0 && Root(h, layer) == layer[0]
  {
    RootIsTop(h, layer, Depth(|layer|));
  }

  // Every 64-byte string the reduction of a layer hashes.
  ghost predicate Hashed(h: Hash, layer: seq<Digest>, x: bytes)
    decreases |layer|
  {
    |layer| > 1 && (HashedHere(layer, x) || Hashed(h, Up(h, layer), x))
  }

  ghost predicate HashedHere(layer: seq<Digest>, x: bytes)
  {
    exists i :: 0 <= i < |Pad(layer)| / 2 && x == Pair(Pad(layer), i)
  }

  lemma {:induction false} HashedLength(h: Hash, layer: seq<Digest>, x: bytes)
    requires Hashed(h, layer, x)
    ensures |x| == 64
    decreases |layer|
  {
    if !HashedHere(layer, x) {
      HashedLength(h, Up(h, layer), x);
    }
  }

  lemma {:induction false} RootIsHashed(h: Hash, layer: seq<Digest>) returns (x: bytes)
    requires |layer| > 1
    ensures Hashed(h, layer, x) && Root(h, layer) == h(x)
    decreases |layer|
  {
    if |layer| == 2 {
      x := Pair(Pad(layer), 0);
      assert Up(h, layer)[0] == h(x);
    } else {
      x := RootIsHashed(h, Up(h, layer));
    }
  }

  lemma SplitPair(a: Digest, b: Digest, c: Digest, d: Digest)
    requires a + b == c + d
    ensures a == c && b == d
  {
    assert a == (a + b)[..32] && c == (c + d)[..32];
    assert b == (a + b)[32..] && d == (c + d)[32..];
  }

  // Without an index in the leaf, repeating the last leaf is invisible.
  lemma PaddingIsInvisible(h: Hash, layer: seq<Digest>)
    requires |layer| > 1
    ensures Root(h, Pad(layer)) == Root(h, layer)
    ensures Depth(|Pad(layer)|) == Depth(|layer|)
  {
    assert Pad(Pad(layer)) == Pad(layer);
  }

  // ---- two layers with the same root ------------------------------------------

  ghost predicate Clash(h: Hash, x: bytes, y: bytes) { x != y && h(x) == h(y) }

  ghost predicate LayersClash(h: Hash, a: seq<Digest>, b: seq<Digest>)
  {
    exists x, y :: Hashed(h, a, x) && Hashed(h, b, y) && Clash(h, x, y)
  }

  lemma LayersClashAbove(h: Hash, a: seq<Digest>, b: seq<Digest>)
    requires |a| > 1 && |b| > 1 && LayersClash(h, Up(h, a), Up(h, b))
    ensures LayersClash(h, a, b)
  {
    var x, y :| Hashed(h, Up(h, a), x) && Hashed(h, Up(h, b), y) && Clash(h, x, y);
    assert Hashed(h, a, x) && Hashed(h, b, y);
  }

  // Equal parents have equal children, or their pre-images collide.
  lemma ChildrenEqual(h: Hash, a: seq<Digest>, b: seq<Digest>, i: nat, j: nat)
    requires |a| > 1 && |b| > 1 && !LayersClash(h, a, b)
    requires i < |Up(h, a)| && j < |Up(h, b)| && Up(h, a)[i] == Up(h, b)[j]
    ensures Pad(a)[2 * i] == Pad(b)[2 * j] && Pad(a)[2 * i + 1] == Pad(b)[2 * j + 1]
  {
    var x, y := Pair(Pad(a), i), Pair(Pad(b), j);
    assert HashedHere(a, x) && HashedHere(b, y);
    assert Hashed(h, a, x) && Hashed(h, b, y);
    assert !Clash(h, x, y);
    SplitPair(Pad(a)[2 * i], Pad(a)[2 * i + 1], Pad(b)[2 * j], Pad(b)[2 * j + 1]);
  }

  lemma PaddedPrefix(h: Hash, a: seq<Digest>, b: seq<Digest>)
    requires 1 < |a| <= |b| && !LayersClash(h, a, b)
    requires Up(h, a) <= Up(h, b)
    ensures Pad(a) <= Pad(b)
  {
    forall k | 0 <= k < |Pad(a)|
      ensures Pad(a)[k] == Pad(b)[k]
    {
      ChildrenEqual(h, a, b, k / 2, k / 2);
      assert k == 2 * (k / 2) || k == 2 * (k / 2) + 1;
    }
  }

  ghost predicate Repeats(a: seq<Digest>, d: Digest) { exists j :: 0 <= j < |a| && d == a[j] }

  // Two layers of equal depth and root: the shorter is a prefix of the longer,
  // and the first extra node of the longer repeats an earlier node.
  lemma {:induction false} SameRootSameDepth(h: Hash, a: seq<Digest>, b: seq<Digest>)
    requires 0 < |a| <= |b| && Depth(|a|) == Depth(|b|)
    requires Root(h, a) == Root(h, b) && !LayersClash(h, a, b)
    ensures a <= b
    ensures |a| < |b| ==> Repeats(a, b[|a|])
    decreases |a|
  {
    if |a| > 1 {
      var p, q := Up(h, a), Up(h, b);
      if LayersClash(h, p, q) {
        LayersClashAbove(h, a, b);
      }
      SameRootSameDepth(h, p, q);
      PaddedPrefix(h, a, b);
      PrefixOfPadded(a, b);
      if |a| < |b| {
        ExtraNodeRepeats(h, a, b);
      }
    }
  }

  lemma ExtraNodeRepeats(h: Hash, a: seq<Digest>, b: seq<Digest>)
    requires 1 < |a| < |b| && Pad(a) <= Pad(b) && !LayersClash(h, a, b)
    requires |Up(h, a)| < |Up(h, b)| ==> Repeats(Up(h, a), Up(h, b)[|Up(h, a)|])
    ensures Repeats(a, b[|a|])
  {
    var m := |Up(h, a)|;
    assert b[|a|] == Pad(b)[|a|];
    if |a| % 2 == 1 {
      assert b[|a|] == Pad(a)[|a|] == a[|a| - 1];
    } else {
      var j :| 0 <= j < m && Up(h, b)[m] == Up(h, a)[j];
      ChildrenEqual(h, a, b, j, m);
      assert b[|a|] == a[2 * j];
    }
  }

  lemma PrefixOfPadded(a: seq<Digest>, b: seq<Digest>)
    requires |a| <= |b| && Pad(a) <= Pad(b)
    ensures a <= b
  {
    forall k | 0 <= k < |a| ensures a[k] == b[k] {
      assert a[k] == Pad(a)[k] == Pad(b)[k] == b[k];
    }
  }

  // The left half of anything hashed above a layer is itself a hash of
  // something hashed in that layer or above.
  lemma {:induction false} LeftHalfIsHashed(h: Hash, layer: seq<Digest>, x: bytes) returns (y: bytes)
    requires |layer| > 1 && Hashed(h, Up(h, layer), x)
    ensures |x| == 64 && Hashed(h, layer, y) && h(y) == x[..32]
    decreases |layer|
  {
    var up := Up(h, layer);
    HashedLength(h, up, x);
    if HashedHere(up, x) {
      var i :| 0 <= i < |Pad(up)| / 2 && x == Pair(Pad(up), i);
      assert Pad(up)[2 * i] == up[2 * i];
      y := Pair(Pad(layer), 2 * i);
      assert HashedHere(layer, y);
      assert x[..32] == up[2 * i];
    } else {
      y := LeftHalfIsHashed(h, up, x);
    }
  }

  // Equal roots at different depths: the first node of the shallower layer is
  // the hash of an inner pre-image of the deeper one.
  lemma {:induction false} SameRootDeeper(h: Hash, a: seq<Digest>, b: seq<Digest>) returns (x: bytes)
    requires a != [] && Depth(|a|) < Depth(|b|)
    requires Root(h, a) == Root(h, b) && !LayersClash(h, a, b)
    ensures Hashed(h, b, x) && h(x) == a[0]
    decreases |a|
  {
    if |a| == 1 {
      x := RootIsHashed(h, b);
    } else {
      if LayersClash(h, Up(h, a), Up(h, b)) {
        LayersClashAbove(h, a, b);
      }
      var z := SameRootDeeper(h, Up(h, a), Up(h, b));
      var w := Pair(Pad(a), 0);
      assert HashedHere(a, w);
      assert Hashed(h, a, w) && Hashed(h, b, z) && !Clash(h, w, z);
      assert z[..32] == a[0];
      x := LeftHalfIsHashed(h, b, z);
    }
  }

  // ---- inclusion proofs --------------------------------------------------------

  function Sibling(index: nat): nat { if index % 2 == 0 then index + 1 else index - 1 }

  function Siblings(h: Hash, layer: seq<Digest>, index: nat): seq<Digest>
    requires index < |layer|
    decreases |layer|
  {
    if |layer| == 1 then []
    else [Pad(layer)[Sibling(index)]] + Siblings(h, Up(h, layer), index / 2)
  }

  // What a verifier computes: walk from the leaf to the root by the bits of index.
  function FoldStep(node: Digest, sibling: Digest, index: nat): bytes
  {
    if index % 2 == 0 then node + sibling else sibling + node
  }

  function Fold(h: Hash, leaf: Digest, proof: seq<Digest>, index: nat): Digest
    decreases |proof|
  {
    if proof == [] then leaf
    else Fold(h, h(FoldStep(leaf, proof[0], index)), proof[1..], index / 2)
  }

  ghost predicate FoldHashed(h: Hash, leaf: Digest, proof: seq<Digest>, index: nat, x: bytes)
    decreases |proof|
  {
    proof != [] && (x == FoldStep(leaf, proof[0], index)
                    || FoldHashed(h, h(FoldStep(leaf, proof[0], index)), proof[1..], index / 2, x))
  }

  lemma StepReachesParent(h: Hash, layer: seq<Digest>, index: nat)
    requires |layer| > 1 && index < |layer|
    ensures Sibling(index) < |Pad(layer)|
    ensures FoldStep(layer[index], Pad(layer)[Sibling(index)], index) == Pair(Pad(layer), index / 2)
    ensures Up(h, layer)[index / 2] == h(Pair(Pad(layer), index / 2))
  {}

  lemma {:induction false} ProofComplete(h: Hash, layer: seq<Digest>, index: nat)
    requires index < |layer|
    ensures |Siblings(h, layer, index)| == Depth(|layer|)
    ensures Fold(h, layer[index], Siblings(h, layer, index), index) == Root(h, layer)
    decreases |layer|
  {
    if |layer| > 1 {
      StepReachesParent(h, layer, index);
      ProofComplete(h, Up(h, layer), index / 2);
      assert Siblings(h, layer, index)[1..] == Siblings(h, Up(h, layer), index / 2);
    }
  }

  ghost predicate FoldClash(h: Hash, leaf: Digest, proof: seq<Digest>, index: nat, layer: seq<Digest>)
  {
    exists x, y :: FoldHashed(h, leaf, proof, index, x) && Hashed(h, layer, y) && Clash(h, x, y)
  }

  // A proof of the right length that reaches the root is the genuine one.
  lemma {:induction false} ProofSound(h: Hash, leaf: Digest, proof: seq<Digest>, index: nat, layer: seq<Digest>)
    requires index < |layer| && |proof| == Depth(|layer|)
    requires Fold(h, leaf, proof, index) == Root(h, layer)
    ensures (leaf == layer[index] && proof == Siblings(h, layer, index)) || FoldClash(h, leaf, proof, index, layer)
    decreases |layer|
  {
    if |layer| > 1 {
      var x := FoldStep(leaf, proof[0], index);
      ProofSound(h, h(x), proof[1..], index / 2, Up(h, layer));
      if FoldClash(h, h(x), proof[1..], index / 2, Up(h, layer)) {
        var u, v :| FoldHashed(h, h(x), proof[1..], index / 2, u) && Hashed(h, Up(h, layer), v) && Clash(h, u, v);
        assert FoldHashed(h, leaf, proof, index, u) && Hashed(h, layer, v);
      } else {
        StepReachesParent(h, layer, index);
        var y := Pair(Pad(layer), index / 2);
        assert FoldHashed(h, leaf, proof, index, x) && HashedHere(layer, y) && Hashed(h, layer, y);
        if x == y {
          var s := Pad(layer)[Sibling(index)];
          if index % 2 == 0 {
            SplitPair(leaf, proof[0], layer[index], s);
          } else {
            SplitPair(proof[0], leaf, s, layer[index]);
          }
          assert proof == [proof[0]] + proof[1..];
        } else {
          assert Clash(h, x, y);
        }
      }
    }
  }
}
