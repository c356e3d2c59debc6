// Leaf hashes and the tree builders of agent/ima_reader.py: full rebuild,
// incremental build, inclusion proof.  Python lists that the code appends to
// in place are heap objects here, so that what a loop does to its caller's
// list is visible.

module ImaTree {
  import opened Text
  import opened Merkle
  import opened ImaLog

  class PyList<T> {
    var items: seq<T>

    constructor (items: seq<T>)
      ensures this.items == items
    {
      this.items := items;
    }

    method Append(x: T)
      modifies this
      ensures items == old(items) + [x]
    {
      items := items + [x];
    }
  }

  // The in-place half of both loops: an odd list gets its last element again.
  method PadInPlace(layer: PyList<Digest>)
    modifies layer
    ensures layer.items == Pad(old(layer.items))
  {
    if |layer.items| % 2 == 1 {
      layer.Append(layer.items[|layer.items| - 1]);
    }
  }

  // ---- leaves -------------------------------------------------------------------

  // "<index>:<pcr>:<template_hash>:<file_hash>:<filename>"; the template name is not in it.
  function PreImage(e: Entry, index: nat): string
  {
    Join([Dec(index), e.pcr, e.templateHash, e.fileHash, e.filename], ':')
  }

  function LeafHash(h: Hash, e: Entry, index: nat): Digest { h(Utf8(PreImage(e, index))) }

  function Leaves(h: Hash, entries: seq<Entry>, base: nat): (leaves: seq<Digest>)
    ensures |leaves| == |entries|
    ensures forall i | 0 <= i < |entries| :: leaves[i] == LeafHash(h, entries[i], base + i)
  {
    seq<Digest>(|entries|, i requires 0 <= i < |entries| => LeafHash(h, entries[i], base + i))
  }

  lemma LeavesAppend(h: Hash, a: seq<Entry>, b: seq<Entry>, base: nat)
    ensures Leaves(h, a + b, base) == Leaves(h, a, base) + Leaves(h, b, base + |a|)
  {
    hide LeafHash;
  }

  // ---- trees --------------------------------------------------------------------

  datatype Tree = Tree(root: string, depth: nat, leafCount: nat, leaves: seq<string>)

  function HexAll(digests: seq<Digest>): (texts: seq<string>)
    ensures |texts| == |digests|
    ensures forall i | 0 <= i < |digests| :: texts[i] == Hex(digests[i])
  {
    seq(|digests|, i requires 0 <= i < |digests| => Hex(digests[i]))
  }

  // The root of any log, the empty one included.
  function LogRoot(h: Hash, leaves: seq<Digest>): Digest { if leaves == [] then h([]) else Root(h, leaves) }

  function TreeOf(h: Hash, leaves: seq<Digest>): Tree
  {
    Tree(Hex(LogRoot(h, leaves)), Depth(|leaves|), |leaves|, HexAll(leaves))
  }

  method ReduceToRoot(h: Hash, layer: PyList<Digest>)
    returns (current: PyList<Digest>, depth: nat, ghost hashes: nat)
    ensures fresh(current)
    ensures layer.items == [] ==> current.items == [] && depth == 0
    ensures layer.items != [] ==> current.items == [Root(h, layer.items)]
    ensures depth == Depth(|layer.items|) && hashes == InnerHashes(|layer.items|)
  {
    depth, hashes := 0, 0;
    current := new PyList(layer.items);
    while |current.items| > 1
      invariant fresh(current)
      invariant current.items == [] <==> layer.items == []
      invariant layer.items != [] ==> Root(h, current.items) == Root(h, layer.items)
      invariant depth + Depth(|current.items|) == Depth(|layer.items|)
      invariant hashes + InnerHashes(|current.items|) == InnerHashes(|layer.items|)
      decreases |current.items|
    {
      ghost var before := current.items;
      PadInPlace(current);
      current := new PyList(PairUp(h, current.items));
      assert current.items == Up(h, before);
      depth := depth + 1;
      hashes := hashes + |current.items|;
    }
  }

  method BuildImaMerkleTree(h: Hash, entries: seq<Entry>) returns (tree: Tree)
    ensures tree == TreeOf(h, Leaves(h, entries, 0))
  {
    if entries == [] {
      return Tree(Hex(h([])), 0, 0, []);
    }
    var leafRaw := new PyList(Leaves(h, entries, 0));
    var leavesHex := HexAll(leafRaw.items);
    var rootLayer, depth, _ := ReduceToRoot(h, leafRaw);
    tree := Tree(Hex(rootLayer.items[0]), depth, |leafRaw.items|, leavesHex);
  }

  method BuildIncrementalMerkleTree(h: Hash, cachedLeaves: seq<Digest>, newEntries: seq<Entry>, baseIndex: nat)
    returns (allLeaves: seq<Digest>, tree: Tree)
    ensures allLeaves == cachedLeaves + Leaves(h, newEntries, baseIndex)
    ensures tree == TreeOf(h, allLeaves)
  {
    var all := new PyList(cachedLeaves + Leaves(h, newEntries, baseIndex));
    if all.items == [] {
      return [], Tree(Hex(h([])), 0, 0, []);
    }
    var rootLayer, depth, _ := ReduceToRoot(h, all);
    allLeaves := all.items;
    tree := Tree(Hex(rootLayer.items[0]), depth, |all.items|, HexAll(all.items));
  }

  // What the builders print: the digest of nothing for an empty log, else the top of the
  // usual tree, whose depth is the least that holds the leaves.
  lemma TreeIs(h: Hash, leaves: seq<Digest>)
    ensures leaves == [] ==> TreeOf(h, leaves) == Tree(Hex(h([])), 0, 0, [])
    ensures leaves != [] ==>
      var tree := TreeOf(h, leaves);
      && tree.leafCount == |leaves| == |tree.leaves|
      && (forall i | 0 <= i < |leaves| :: tree.leaves[i] == Hex(leaves[i]))
      && |leaves| <= Pow2(tree.depth) && (tree.depth > 0 ==> Pow2(tree.depth - 1) < |leaves|)
      && tree.root == Hex(Top(h, leaves, tree.depth))
  {
    hide Hex, Top, Root, Pow2;
    if |leaves| > 1 {
      DepthBounds(|leaves|);
    }
    if leaves != [] {
      RootIsTopDown(h, leaves);
    }
  }

  // ---- batches --------------------------------------------------------------------

  function Flatten(batches: seq<seq<Entry>>): seq<Entry>
  {
    if batches == [] then [] else Flatten(batches[..|batches| - 1]) + batches[|batches| - 1]
  }

  lemma FlattenNext(batches: seq<seq<Entry>>, k: nat)
    requires k < |batches|
    ensures Flatten(batches[..k + 1]) == Flatten(batches[..k]) + batches[k]
  {
    assert batches[..k + 1][..k] == batches[..k];
  }

  lemma ChainNext(h: Hash, batches: seq<seq<Entry>>, k: nat, cache: seq<Digest>)
    requires k < |batches| && cache == Leaves(h, Flatten(batches[..k]), 0)
    ensures cache + Leaves(h, batches[k], |cache|) == Leaves(h, Flatten(batches[..k + 1]), 0)
  {
    hide Flatten, LeafHash, Leaves;
    FlattenNext(batches, k);
    LeavesAppend(h, Flatten(batches[..k]), batches[k], 0);
  }

  // The cache after feeding the batches in turn, each based at the running count.
  method ChainIncremental(h: Hash, batches: seq<seq<Entry>>) returns (cache: seq<Digest>, tree: Tree)
    ensures cache == Leaves(h, Flatten(batches), 0)
    ensures tree == TreeOf(h, Leaves(h, Flatten(batches), 0))
  {
    cache, tree := BuildIncrementalMerkleTree(h, [], [], 0);
    hide Flatten, LeafHash, TreeOf, Leaves;
    for k := 0 to |batches|
      invariant cache == Leaves(h, Flatten(batches[..k]), 0)
      invariant tree == TreeOf(h, cache)
    {
      ChainNext(h, batches, k, cache);
      cache, tree := BuildIncrementalMerkleTree(h, cache, batches[k], |cache|);
    }
    assert batches[..|batches|] == batches;
  }

  // ---- inclusion proofs --------------------------------------------------------------

  datatype ProofError = EmptyLog | IndexOutOfRange
  datatype ProofResult = Proof(index: nat, leafHash: string, proof: seq<string>, root: string)
                       | Rejected(error: ProofError)

  function ProofOf(h: Hash, entries: seq<Entry>, index: int): ProofResult
  {
    var leaves := Leaves(h, entries, 0);
    if entries == [] then Rejected(EmptyLog)
    else if !(0 <= index < |entries|) then Rejected(IndexOutOfRange)
    else Proof(index, Hex(leaves[index]), HexAll(Siblings(h, leaves, index)), Hex(Root(h, leaves)))
  }

  lemma ProofRejectedIff(h: Hash, entries: seq<Entry>, index: int)
    ensures ProofOf(h, entries, index) == Rejected(EmptyLog) <==> |entries| == 0
    ensures ProofOf(h, entries, index) == Rejected(IndexOutOfRange)
      <==> |entries| > 0 && (index < 0 || index >= |entries|)
  {
    hide Leaves, Hex, Siblings, Root;
  }

  method GetImaProof(h: Hash, entries: seq<Entry>, index: int) returns (result: ProofResult)
    ensures result == ProofOf(h, entries, index)
  {
    hide Hex, Siblings, Root, LeafHash, Above, Pad, PairUp;
    if entries == [] {
      return Rejected(EmptyLog);
    }
    if !(0 <= index < |entries|) {
      return Rejected(IndexOutOfRange);
    }
    var leaves := Leaves(h, entries, 0);
    var currentLayer := new PyList(leaves);
    var leafHashHex := Hex(currentLayer.items[index]);
    var proof := new PyList<string>([]);
    var currentIndex: nat := index;
    ghost var found: seq<Digest> := [];
    while |currentLayer.items| > 1
      invariant fresh(currentLayer) && fresh(proof)
      invariant currentIndex < |currentLayer.items|
      invariant Root(h, currentLayer.items) == Root(h, leaves)
      invariant proof.items == HexAll(found)
      invariant found + Siblings(h, currentLayer.items, currentIndex) == Siblings(h, leaves, index)
      decreases |currentLayer.items|
    {
      ghost var before := currentLayer.items;
      ProofStep(h, before, currentIndex);
      PadInPlace(currentLayer);
      var siblingIndex := if currentIndex % 2 == 0 then currentIndex + 1 else currentIndex - 1;
      proof.Append(Hex(currentLayer.items[siblingIndex]));
      HexAllAppend(found, Pad(before)[siblingIndex]);
      found := found + [Pad(before)[siblingIndex]];
      currentLayer := new PyList(PairUp(h, currentLayer.items));
      currentIndex := currentIndex / 2;
    }
    ProofDone(h, currentLayer.items, currentIndex);
    result := Proof(index, leafHashHex, proof.items, Hex(currentLayer.items[0]));
  }

  lemma ProofStep(h: Hash, layer: seq<Digest>, index: nat)
    requires |layer| > 1 && index < |layer|
    ensures Sibling(index) < |Pad(layer)| && index / 2 < |Up(h, layer)| < |layer|
    ensures Siblings(h, layer, index) == [Pad(layer)[Sibling(index)]] + Siblings(h, Up(h, layer), index / 2)
    ensures Root(h, layer) == Root(h, Up(h, layer))
  {}

  lemma ProofDone(h: Hash, layer: seq<Digest>, index: nat)
    requires |layer| == 1 && index == 0
    ensures Siblings(h, layer, index) == [] && Root(h, layer) == layer[0]
  {}

  lemma HexAllAppend(digests: seq<Digest>, d: Digest)
    ensures HexAll(digests + [d]) == HexAll(digests) + [Hex(d)]
  {}
}
