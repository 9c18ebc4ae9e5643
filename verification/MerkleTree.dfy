/** The hash tree over a set of byte strings: layers, root and membership proofs. */
module Merkle {
  import opened Wrappers
  import opened Ordering
  import opened Lexicographic
  import opened Bytes
  import opened Products

  /** The hash is any function at all from byte strings to 32 bytes. */
  type Hash = Bytes -> Digest

  function SortAndConcat(a: Bytes, b: Bytes): (r: Bytes)
    ensures |r| == |a| + |b|
  {
    if BytesLe(a, b) then a + b else b + a
  }

  function HashPair(h: Hash, a: Bytes, b: Bytes): (r: Digest)
  {
    h(SortAndConcat(a, b))
  }

  /** A missing operand leaves the other one as it is. */
  function CombinedHash(h: Hash, first: Option<Bytes>, second: Option<Bytes>): (r: Option<Bytes>)
    ensures r.None? <==> first.None? && second.None?
  {
    if first.None? then second
    else if second.None? then first
    else Some(HashPair(h, first.value, second.value))
  }

  lemma PairIsUnordered(a: Bytes, b: Bytes)
    ensures SortAndConcat(a, b) == SortAndConcat(b, a)
  {
    BytesOrder();
  }

  /** The string hashed for a pair: the one that is less where they first differ goes in front. */
  lemma PairIsSorted(a: Bytes, b: Bytes)
    ensures SortAndConcat(a, b) == if EndsOrLess(a, b) then a + b else b + a
  {
    LexIsFirstDifference(a, b);
  }

  /** For digests, the smaller number in front of the larger one. */
  lemma PairIsNumber(a: Digest, b: Digest)
    ensures Number(SortAndConcat(a, b))
            == if Number(a) <= Number(b) then Number(a) * Pow(256, 32) + Number(b)
               else Number(b) * Pow(256, 32) + Number(a)
  {
    OrderIsNumeric(a, b);
    NumberConcat(a, b);
    NumberConcat(b, a);
  }

  // ----- what the layers, the root and the proofs are

  /** The parent of positions 2i and 2i + 1; a last element without a sibling is promoted. */
  function Parent(h: Hash, layer: seq<Bytes>, i: nat): (r: Bytes)
    requires 2 * i < |layer|
  {
    if 2 * i + 1 < |layer| then HashPair(h, layer[2 * i], layer[2 * i + 1]) else layer[2 * i]
  }

  function NextLayer(h: Hash, layer: seq<Bytes>): (r: seq<Bytes>)
    ensures |r| == (|layer| + 1) / 2
    ensures forall i :: 0 <= i < |r| ==> r[i] == Parent(h, layer, i)
  {
    seq((|layer| + 1) / 2, i requires 0 <= i < (|layer| + 1) / 2 => Parent(h, layer, i))
  }

  function Layers(h: Hash, layer: seq<Bytes>): (r: seq<seq<Bytes>>)
    requires layer != []
    ensures r != [] && r[0] == layer
    decreases |layer|
  {
    if |layer| == 1 then [layer] else [layer] + Layers(h, NextLayer(h, layer))
  }

  function Root(h: Hash, layer: seq<Bytes>): (r: Bytes)
    requires layer != []
    decreases |layer|
  {
    if |layer| == 1 then layer[0] else Root(h, NextLayer(h, layer))
  }

  function PairElement(idx: nat, layer: seq<Bytes>): (r: Option<Bytes>)
    requires idx < |layer|
  {
    var pairIdx := if idx % 2 == 0 then idx + 1 else idx - 1;
    if pairIdx < |layer| then Some(layer[pairIdx]) else None
  }

  /** The siblings met on the way from position idx of `layer` to the root. */
  function ProofFrom(h: Hash, layer: seq<Bytes>, idx: nat): (r: seq<Bytes>)
    requires idx < |layer|
    decreases |layer|
  {
    var pair := PairElement(idx, layer);
    (if pair.Some? then [pair.value] else [])
    + (if |layer| == 1 then [] else ProofFrom(h, NextLayer(h, layer), idx / 2))
  }

  /** Hashing a value with each proof item in turn. */
  function Fold(h: Hash, value: Bytes, proof: seq<Bytes>): (r: Bytes)
    ensures |value| == 32 ==> |r| == 32
  {
    if proof == [] then value
    else HashPair(h, Fold(h, value, proof[..|proof| - 1]), proof[|proof| - 1])
  }

  // ----- completeness

  lemma {:induction false} FoldCons(h: Hash, value: Bytes, first: Bytes, rest: seq<Bytes>)
    ensures Fold(h, value, [first] + rest) == Fold(h, HashPair(h, value, first), rest)
    decreases |rest|
  {
    var proof := [first] + rest;
    if rest == [] {
      assert proof[..0] == [];
    } else {
      var n := |rest| - 1;
      assert proof[..|proof| - 1] == [first] + rest[..n];
      FoldCons(h, value, first, rest[..n]);
    }
  }

  /** One step up: the element hashed with its sibling, or promoted without one, is its parent. */
  lemma StepToParent(h: Hash, layer: seq<Bytes>, idx: nat)
    requires idx < |layer|
    ensures var pair := PairElement(idx, layer);
            NextLayer(h, layer)[idx / 2]
            == if pair.Some? then HashPair(h, layer[idx], pair.value) else layer[idx]
  {
    if idx % 2 == 1 {
      PairIsUnordered(layer[idx - 1], layer[idx]);
    }
  }

  /** Completeness, for any hash: folding an element's proof always arrives at the root. */
  lemma {:induction false} ProofReachesRoot(h: Hash, layer: seq<Bytes>, idx: nat)
    requires idx < |layer|
    ensures Fold(h, layer[idx], ProofFrom(h, layer, idx)) == Root(h, layer)
    decreases |layer|
  {
    if |layer| > 1 {
      var next := NextLayer(h, layer);
      ProofReachesRoot(h, next, idx / 2);
      StepToParent(h, layer, idx);
      var pair, rest := PairElement(idx, layer), ProofFrom(h, next, idx / 2);
      if pair.Some? {
        FoldCons(h, layer[idx], pair.value, rest);
      } else {
        assert ProofFrom(h, layer, idx) == rest;
      }
    }
  }

  // ----- shape

  /** The number of layers is the rounded-up binary logarithm of the number of elements, plus one. */
  lemma {:induction false} LayersAreLogarithmic(h: Hash, layer: seq<Bytes>)
    requires layer != []
    ensures |layer| <= Pow(2, |Layers(h, layer)| - 1)
    ensures |layer| >= 2 ==> |Layers(h, layer)| >= 2 && Pow(2, |Layers(h, layer)| - 2) < |layer|
    decreases |layer|
  {
    if |layer| > 1 {
      LayersAreLogarithmic(h, NextLayer(h, layer));
    }
  }

  lemma {:induction false} ProofIsShort(h: Hash, layer: seq<Bytes>, idx: nat)
    requires idx < |layer|
    ensures |ProofFrom(h, layer, idx)| <= |Layers(h, layer)| - 1
    decreases |layer|
  {
    if |layer| > 1 {
      ProofIsShort(h, NextLayer(h, layer), idx / 2);
    }
  }

  /** Each layer is computed from the one below, and the last one holds just the root. */
  lemma {:induction false} LayersStep(h: Hash, layer: seq<Bytes>, k: nat)
    requires layer != [] && k < |Layers(h, layer)|
    ensures Layers(h, layer)[k] != []
    ensures Layers(h, layer)[k..] == Layers(h, Layers(h, layer)[k])
    ensures Root(h, Layers(h, layer)[k]) == Root(h, layer)
    ensures k == |Layers(h, layer)| - 1 <==> |Layers(h, layer)[k]| == 1
    decreases k
  {
    if k == 0 {
      assert Layers(h, layer)[0..] == Layers(h, layer);
    } else {
      var next := NextLayer(h, layer);
      LayersStep(h, next, k - 1);
      assert Layers(h, layer)[k..] == Layers(h, next)[k - 1..];
    }
  }

  lemma NextLayerAppend(h: Hash, left: seq<Bytes>, right: seq<Bytes>)
    requires |left| % 2 == 0
    ensures NextLayer(h, left + right) == NextLayer(h, left) + NextLayer(h, right)
  {
    var whole, parts := NextLayer(h, left + right), NextLayer(h, left) + NextLayer(h, right);
    assert |whole| == |parts|;
    forall i | 0 <= i < |whole| ensures whole[i] == parts[i] {
      ParentInAppend(h, left, right, i);
    }
  }

  lemma ParentInAppend(h: Hash, left: seq<Bytes>, right: seq<Bytes>, i: nat)
    requires |left| % 2 == 0 && 2 * i < |left| + |right|
    ensures Parent(h, left + right, i)
            == if 2 * i < |left| then Parent(h, left, i) else Parent(h, right, i - |left| / 2)
  {
  }

  /**
   What the root is, without layers: split off the largest power of two that leaves something, and hash the roots of
   the two parts.
   */
  lemma {:induction false} RootSplits(h: Hash, left: seq<Bytes>, right: seq<Bytes>, k: nat)
    requires |left| == Pow(2, k) && 0 < |right| <= |left|
    ensures Root(h, left + right) == HashPair(h, Root(h, left), Root(h, right))
    decreases k
  {
    if k == 0 {
      assert NextLayer(h, left + right) == [HashPair(h, left[0], right[0])];
    } else {
      NextLayerAppend(h, left, right);
      RootSplits(h, NextLayer(h, left), NextLayer(h, right), k - 1);
      if |right| == 1 { assert NextLayer(h, right) == right; }
    }
  }

  // ----- soundness

  /** `b` is hashed somewhere while the layers above `layer` are built. */
  ghost predicate HashedByLayers(h: Hash, layer: seq<Bytes>, b: Bytes)
    decreases |layer|
  {
    |layer| > 1 &&
    ((exists i :: 0 <= i && 2 * i + 1 < |layer| && b == SortAndConcat(layer[2 * i], layer[2 * i + 1]))
     || HashedByLayers(h, NextLayer(h, layer), b))
  }

  /** `b` is hashed while folding `proof` from `value`. */
  ghost predicate HashedByFold(h: Hash, value: Bytes, proof: seq<Bytes>, b: Bytes)
  {
    exists j :: 0 <= j < |proof| && b == SortAndConcat(Fold(h, value, proof[..j]), proof[j])
  }

  /** Two different byte strings, one hashed by the tree and one by the verifier, with the same hash. */
  ghost predicate Clash(h: Hash, a: Bytes, b: Bytes)
  {
    a != b && h(a) == h(b)
  }

  ghost predicate LayersClash(h: Hash, layer: seq<Bytes>, value: Bytes, preimage: Bytes, proof: seq<Bytes>)
  {
    exists a, b :: HashedByLayers(h, layer, a) && (b == preimage || HashedByFold(h, value, proof, b)) && Clash(h, a, b)
  }

  /** The same pair of 32-byte halves, in whichever order each was given. */
  lemma HalvesMatch(x: Bytes, p: Bytes, l: Bytes, r: Bytes)
    requires |x| == |l| == |r| == 32 && SortAndConcat(x, p) == SortAndConcat(l, r)
    ensures x == l || x == r
  {
    var s := SortAndConcat(x, p);
    assert |p| == 32;
    assert s[..32] == (if BytesLe(x, p) then x else p) == (if BytesLe(l, r) then l else r);
    assert s[32..] == (if BytesLe(x, p) then p else x) == (if BytesLe(l, r) then r else l);
  }

  /**
   Coming down one layer: if folding the first k items lands on a node of the next layer, then folding
   k or k - 1 of them lands on a node of this one, or the verifier has hashed something different to the same value.
   */
  lemma DescendOneLayer(h: Hash, layer: seq<Bytes>, preimage: Bytes, proof: seq<Bytes>, k: nat) returns (k': nat)
    requires |layer| > 1 && forall i :: 0 <= i < |layer| ==> |layer[i]| == 32
    requires |preimage| != 64
    requires k <= |proof| && Fold(h, h(preimage), proof[..k]) in NextLayer(h, layer)
    ensures k' <= k
    ensures Fold(h, h(preimage), proof[..k']) in layer || LayersClash(h, layer, h(preimage), preimage, proof)
  {
    var value, next := h(preimage), NextLayer(h, layer);
    var i :| 0 <= i < |next| && next[i] == Fold(h, value, proof[..k]);
    k' := k;
    if 2 * i + 1 < |layer| {
      var l, r := layer[2 * i], layer[2 * i + 1];
      var a := SortAndConcat(l, r);
      assert HashedByLayers(h, layer, a);
      if k == 0 {
        assert proof[..0] == [];
        assert Clash(h, a, preimage);
      } else {
        var x, p := Fold(h, value, proof[..k - 1]), proof[k - 1];
        assert proof[..k][..k - 1] == proof[..k - 1];
        var b := SortAndConcat(x, p);
        assert HashedByFold(h, value, proof, b);
        if a == b {
          HalvesMatch(x, p, l, r);
          k' := k - 1;
        } else {
          assert Clash(h, a, b);
        }
      }
    }
  }

  lemma NextLayerDigests(h: Hash, layer: seq<Bytes>)
    requires forall i :: 0 <= i < |layer| ==> |layer[i]| == 32
    ensures forall i :: 0 <= i < |NextLayer(h, layer)| ==> |NextLayer(h, layer)[i]| == 32
  {
  }

  /**
   Soundness of the tree part: a proof that folds to the root passes through an element of the bottom
   layer after some number of items, unless tree and verifier exhibit a clash.
   */
  lemma {:induction false} AcceptedPassesThroughLayer(h: Hash, layer: seq<Bytes>, preimage: Bytes, proof: seq<Bytes>)
    returns (k: nat)
    requires layer != [] && forall i :: 0 <= i < |layer| ==> |layer[i]| == 32
    requires |preimage| != 64
    requires Fold(h, h(preimage), proof) == Root(h, layer)
    ensures k <= |proof|
    ensures Fold(h, h(preimage), proof[..k]) in layer || LayersClash(h, layer, h(preimage), preimage, proof)
    decreases |layer|
  {
    if |layer| == 1 {
      k := |proof|;
      assert proof[..k] == proof;
    } else {
      var next := NextLayer(h, layer);
      NextLayerDigests(h, layer);
      k := AcceptedPassesThroughLayer(h, next, preimage, proof);
      if Fold(h, h(preimage), proof[..k]) in next {
        k := DescendOneLayer(h, layer, preimage, proof, k);
      } else {
        var a, b :| HashedByLayers(h, next, a)
                    && (b == preimage || HashedByFold(h, h(preimage), proof, b)) && Clash(h, a, b);
        assert HashedByLayers(h, layer, a);
      }
    }
  }

  // ----- the tree built from a list of elements

  function TreeElements(elements: seq<Bytes>): (r: seq<Bytes>)
  {
    Canonical(BytesLe, elements)
  }

  lemma TreeElementsCanonical(elements: seq<Bytes>)
    ensures Increasing(BytesLe, TreeElements(elements)) && Elements(TreeElements(elements)) == Elements(elements)
    ensures elements == [] <==> TreeElements(elements) == []
  {
    BytesOrder();
    CanonicalIncreasing(BytesLe, elements);
  }

  /** The root of the tree over a list of elements. */
  function TreeRoot(h: Hash, elements: seq<Bytes>): (r: Bytes)
    requires elements != []
  {
    TreeElementsCanonical(elements);
    Root(h, TreeElements(elements))
  }

  /** The position of an element in an increasing sequence. */
  function PositionOf(el: Bytes, elements: seq<Bytes>): (i: nat)
    requires el in elements
    ensures i < |elements| && elements[i] == el
  {
    if elements[0] == el then 0 else PositionOf(el, elements[1..]) + 1
  }

  /** The proof of an element of a bottom layer, or nothing for a stranger. */
  function ProofIn(h: Hash, layer: seq<Bytes>, el: Bytes): (r: Option<seq<Bytes>>)
  {
    if el in layer then Some(ProofFrom(h, layer, PositionOf(el, layer))) else None
  }

  function TreeProof(h: Hash, elements: seq<Bytes>, el: Bytes): (r: Option<seq<Bytes>>)
  {
    ProofIn(h, TreeElements(elements), el)
  }

  /**
   The tree depends only on the set of elements: any permutation or repetition gives the same bottom layer,
   hence the same layers, root and proofs.
   */
  lemma TreeDependsOnSet(h: Hash, elements: seq<Bytes>, elements': seq<Bytes>)
    requires Elements(elements) == Elements(elements') && elements != [] && elements' != []
    ensures TreeElements(elements) == TreeElements(elements') != []
    ensures Layers(h, TreeElements(elements)) == Layers(h, TreeElements(elements'))
    ensures TreeRoot(h, elements) == TreeRoot(h, elements')
    ensures forall el :: TreeProof(h, elements, el) == TreeProof(h, elements', el)
  {
    BytesOrder();
    CanonicalDependsOnSet(BytesLe, elements, elements');
    TreeElementsCanonical(elements);
  }

  /** Every element of the list, and nothing else, gets a proof, and every proof handed out folds to the root. */
  lemma TreeProofComplete(h: Hash, elements: seq<Bytes>, el: Bytes)
    requires elements != []
    ensures TreeProof(h, elements, el).Some? <==> el in elements
    ensures el in elements ==> Fold(h, el, TreeProof(h, elements, el).value) == TreeRoot(h, elements)
  {
    TreeElementsCanonical(elements);
    var canonical := TreeElements(elements);
    assert el in canonical <==> el in Elements(canonical);
    assert el in elements <==> el in Elements(elements);
    if el in canonical {
      ProofReachesRoot(h, canonical, PositionOf(el, canonical));
    }
  }

  method GetNextLayer(h: Hash, elements: seq<Bytes>) returns (layer: seq<Bytes>)
    ensures layer == NextLayer(h, elements)
  {
    layer := [];
    for idx := 0 to |elements|
      invariant |layer| == (idx + 1) / 2
      invariant forall i :: 0 <= i < |layer| ==> layer[i] == Parent(h, elements, i)
    {
      if idx % 2 == 0 {
        var second := if idx + 1 < |elements| then Some(elements[idx + 1]) else None;
        layer := layer + [CombinedHash(h, Some(elements[idx]), second).value];
      }
    }
  }

  /** An empty list of elements has no layers: the source throws. */
  method GetLayers(h: Hash, elements: seq<Bytes>) returns (r: Option<seq<seq<Bytes>>>)
    ensures r.None? <==> elements == []
    ensures r.Some? ==> r.value == Layers(h, elements)
  {
    if elements == [] { return None; }
    var layers := [elements];
    ghost var below := [];
    while |layers[|layers| - 1]| > 1
      invariant layers != [] && layers == below + [layers[|layers| - 1]]
      invariant layers[|layers| - 1] != []
      invariant below + Layers(h, layers[|layers| - 1]) == Layers(h, elements)
      decreases |layers[|layers| - 1]|
    {
      var top := layers[|layers| - 1];
      var next := GetNextLayer(h, top);
      assert below + Layers(h, top) == (below + [top]) + Layers(h, next);
      below := layers;
      layers := layers + [next];
    }
    return Some(layers);
  }

  /** One layer's contribution to a proof, in front of what the layers above contribute. */
  lemma ProofSplit(h: Hash, layer: seq<Bytes>, idx: nat, done: seq<Bytes>)
    requires idx < |layer|
    ensures var pair := PairElement(idx, layer);
            var done' := if pair.Some? then done + [pair.value] else done;
            done + ProofFrom(h, layer, idx)
            == if |layer| == 1 then done' else done' + ProofFrom(h, NextLayer(h, layer), idx / 2)
  {
    var pair := PairElement(idx, layer);
    var own: seq<Bytes> := if pair.Some? then [pair.value] else [];
    var rest: seq<Bytes> := if |layer| == 1 then [] else ProofFrom(h, NextLayer(h, layer), idx / 2);
    assert ProofFrom(h, layer, idx) == own + rest;
    Reassociate(done, own, rest);
    NothingToAppend(done);
    NothingToAppend(done + own);
  }

  lemma Reassociate(a: seq<Bytes>, b: seq<Bytes>, c: seq<Bytes>)
    ensures a + (b + c) == a + b + c
  {
  }

  lemma NothingToAppend(a: seq<Bytes>)
    ensures a + [] == a
  {
  }

  lemma LayerAbove(h: Hash, layer: seq<Bytes>, k: nat)
    requires layer != [] && k < |Layers(h, layer)|
    ensures k + 1 < |Layers(h, layer)| ==> Layers(h, layer)[k + 1] == NextLayer(h, Layers(h, layer)[k])
    ensures k == |Layers(h, layer)| - 1 <==> |Layers(h, layer)[k]| == 1
  {
    LayersStep(h, layer, k);
    if k + 1 < |Layers(h, layer)| {
      assert Layers(h, layer)[k + 1] == Layers(h, layer)[k..][1];
    }
  }

  /** The walk up the layers that collects an element's siblings, halving its position at each. */
  method CollectSiblings(h: Hash, ghost elements: seq<Bytes>, layers: seq<seq<Bytes>>, start: nat)
    returns (proof: seq<Bytes>)
    requires start < |elements| && layers == Layers(h, elements)
    ensures proof == ProofFrom(h, elements, start)
  {
    var idx: nat := start;
    proof := [];
    for k := 0 to |layers|
      invariant k < |layers| ==>
                  idx < |layers[k]| && proof + ProofFrom(h, layers[k], idx) == ProofFrom(h, elements, start)
      invariant k == |layers| ==> proof == ProofFrom(h, elements, start)
    {
      LayerAbove(h, elements, k);
      ProofSplit(h, layers[k], idx, proof);
      var pair := PairElement(idx, layers[k]);
      if pair.Some? {
        proof := proof + [pair.value];
      }
      idx := idx / 2;
    }
  }

  class MerkleTree {
    const h: Hash
    const elements: seq<Bytes>
    const positionIndex: map<Bytes, nat>
    const layers: seq<seq<Bytes>>

    /** The elements in strictly increasing order, each position indexed, and all layers above them. */
    ghost predicate Valid() {
      && elements != [] && Increasing(BytesLe, elements)
      && positionIndex.Keys == Elements(elements)
      && (forall i :: 0 <= i < |elements| ==> positionIndex[elements[i]] == i)
      && layers == Layers(h, elements)
    }

    constructor (h: Hash, elements: seq<Bytes>, positionIndex: map<Bytes, nat>, layers: seq<seq<Bytes>>)
      ensures this.h == h && this.elements == elements
      ensures this.positionIndex == positionIndex && this.layers == layers
    {
      this.h, this.elements, this.positionIndex, this.layers := h, elements, positionIndex, layers;
    }

    /** Builds the tree, or fails on an empty list. */
    static method Create(h: Hash, input: seq<Bytes>) returns (r: Option<MerkleTree>)
      ensures r.None? <==> input == []
      ensures r.Some? ==> r.value.Valid()
      ensures r.Some? ==> r.value.h == h && r.value.elements == TreeElements(input)
    {
      TreeElementsCanonical(input);
      var elements := Dedup(Sort(BytesLe, input));
      var positions := IndexPositions(elements);
      var layers := GetLayers(h, elements);
      if layers.None? { return None; }
      var tree := new MerkleTree(h, elements, positions, layers.value);
      return Some(tree);
    }

    /** The position index inverts an increasing sequence exactly. */
    static method IndexPositions(elements: seq<Bytes>) returns (memo: map<Bytes, nat>)
      requires Increasing(BytesLe, elements)
      ensures memo.Keys == Elements(elements)
      ensures forall i :: 0 <= i < |elements| ==> memo[elements[i]] == i
    {
      memo := map[];
      for index := 0 to |elements|
        invariant memo.Keys == Elements(elements[..index])
        invariant forall i :: 0 <= i < index ==> elements[i] in memo && memo[elements[i]] == i
      {
        memo := memo[elements[index] := index];
        assert elements[..index + 1] == elements[..index] + [elements[index]];
        assert forall i :: 0 <= i < index ==> elements[i] != elements[index];
      }
      assert elements[..|elements|] == elements;
    }

    method GetRoot() returns (root: Bytes)
      requires Valid()
      ensures root == Root(h, elements)
    {
      LayersStep(h, elements, |layers| - 1);
      root := layers[|layers| - 1][0];
    }

    /** A stranger to the tree has no proof: the source throws. */
    method GetProof(el: Bytes) returns (r: Option<seq<Bytes>>)
      requires Valid()
      ensures r == ProofIn(h, elements, el)
    {
      assert el in elements <==> el in Elements(elements);
      if el !in positionIndex { return None; }
      assert positionIndex[elements[PositionOf(el, elements)]] == PositionOf(el, elements);
      var proof := CollectSiblings(h, elements, layers, positionIndex[el]);
      return Some(proof);
    }
  }
}
