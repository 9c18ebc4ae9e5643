/** A tree whose elements are hashed (index, account, amount) entries, and the check of a claim against its root. */
module Balances {
  import opened Wrappers
  import opened Ordering
  import opened Bytes
  import opened Merkle

  datatype Balance = Balance(account: Address, amount: Uint256)

  /** An array of entries has fewer than 2^32 of them. */
  type BalanceList = s: seq<Balance> | |s| < 0x1_0000_0000

  /** The packed encoding of an entry: 32 bytes of index, 20 of account, 32 of amount. */
  function Pack(index: Uint256, account: Bytes, amount: Uint256): (r: Bytes)
    requires |account| == 20
    ensures |r| == 84
  {
    Word(index) + account + Word(amount)
  }

  lemma PackInjective(i: Uint256, a: Bytes, m: Uint256, i': Uint256, a': Bytes, m': Uint256)
    requires |a| == |a'| == 20 && Pack(i, a, m) == Pack(i', a', m')
    ensures i == i' && a == a' && m == m'
  {
    var p, p' := Pack(i, a, m), Pack(i', a', m');
    assert p[..32] == Word(i) && p'[..32] == Word(i');
    assert p[32..52] == a && p'[32..52] == a';
    assert p[52..] == Word(m) && p'[52..] == Word(m');
    WordInjective(i, i');
    WordInjective(m, m');
  }

  /** The 84 bytes, read as one number: the index, twenty bytes of account, thirty-two bytes of amount. */
  lemma PackIsNumber(index: Uint256, account: Bytes, amount: Uint256)
    requires |account| == 20
    ensures Number(Pack(index, account, amount)) == Places(Places(index, 20, Number(account)), 32, amount)
  {
    NumberOfThree(Word(index), account, Word(amount));
    NumberOfWord(index);
    NumberOfWord(amount);
  }

  /** An entry's preimage holds the number that its address's forty digits stand for. */
  lemma EntryIsNumber(balances: BalanceList, j: nat)
    requires j < |balances|
    ensures var b := balances[j];
            && AllHex(b.account[2..])
            && Number(EntryPreimage(balances, j)) == Places(Places(j, 20, ParseHex(b.account[2..])), 32, b.amount)
  {
    PackIsNumber(j, AddressBytes(balances[j].account), balances[j].amount);
    AddressNumber(balances[j].account);
  }

  function ToNode(h: Hash, index: Uint256, account: Address, amount: Uint256): (r: Digest)
  {
    h(Pack(index, AddressBytes(account), amount))
  }

  function EntryPreimage(balances: BalanceList, j: nat): (r: Bytes)
    requires j < |balances|
    ensures |r| == 84
  {
    Pack(j, AddressBytes(balances[j].account), balances[j].amount)
  }

  /** The tree's elements, one per entry, the entry's position being its index. */
  function Leaves(h: Hash, balances: BalanceList): (r: seq<Bytes>)
    ensures |r| == |balances|
    ensures forall j :: 0 <= j < |r| ==> r[j] == h(EntryPreimage(balances, j)) && |r[j]| == 32
  {
    seq(|balances|, j requires 0 <= j < |balances| => h(EntryPreimage(balances, j)))
  }

  function BalanceRoot(h: Hash, balances: BalanceList): (r: Bytes)
    requires balances != []
  {
    TreeRoot(h, Leaves(h, balances))
  }

  /** What the claim check decides. */
  predicate Accepts(h: Hash, index: Uint256, account: Bytes, amount: Uint256, proof: seq<Bytes>, root: Bytes)
    requires |account| == 20
  {
    Fold(h, h(Pack(index, account, amount)), proof) == root
  }

  /** The claim is entry number `index` of the list. */
  predicate IsEntry(balances: BalanceList, index: Uint256, account: Bytes, amount: Uint256)
  {
    index < |balances| && AddressBytes(balances[index].account) == account && balances[index].amount == amount
  }

  // ----- soundness

  /** `b` is hashed while the tree over `balances` is built. */
  ghost predicate HashedByTree(h: Hash, balances: BalanceList, b: Bytes)
  {
    || (exists j :: 0 <= j < |balances| && b == EntryPreimage(balances, j))
    || HashedByLayers(h, TreeElements(Leaves(h, balances)), b)
  }

  /** `b` is hashed while the claim is checked. */
  ghost predicate HashedByClaim(
    h: Hash, index: Uint256, account: Bytes, amount: Uint256, proof: seq<Bytes>, b: Bytes)
    requires |account| == 20
  {
    var preimage := Pack(index, account, amount);
    b == preimage || HashedByFold(h, h(preimage), proof, b)
  }

  /**
   A hash collision in hand: one byte string hashed while building the tree and a different one hashed while
   checking the claim have the same hash. Both come from known, finite collections, so this says much
   more than that a collision exists somewhere.
   */
  ghost predicate ClaimCollides(
    h: Hash, balances: BalanceList, index: Uint256, account: Bytes, amount: Uint256, proof: seq<Bytes>)
    requires |account| == 20
  {
    exists a, b :: HashedByTree(h, balances, a) && HashedByClaim(h, index, account, amount, proof, b) && Clash(h, a, b)
  }

  lemma LeafDigests(h: Hash, balances: BalanceList)
    requires balances != []
    ensures var elements := TreeElements(Leaves(h, balances));
            && elements != []
            && (forall i :: 0 <= i < |elements| ==> |elements[i]| == 32 && elements[i] in Leaves(h, balances))
  {
    var leaves := Leaves(h, balances);
    TreeElementsCanonical(leaves);
    var elements := TreeElements(leaves);
    forall i | 0 <= i < |elements| ensures |elements[i]| == 32 && elements[i] in leaves {
      assert elements[i] in Elements(elements);
    }
  }

  /** A leaf reached by folding is the claim's own entry, or the two hashes behind it clash. */
  lemma LeafIsEntry(
    h: Hash, balances: BalanceList, index: Uint256, account: Bytes, amount: Uint256, proof: seq<Bytes>, k: nat)
    requires |account| == 20 && k <= |proof|
    requires forall p :: p in proof ==> |p| != 52
    requires Fold(h, h(Pack(index, account, amount)), proof[..k]) in Leaves(h, balances)
    ensures IsEntry(balances, index, account, amount) || ClaimCollides(h, balances, index, account, amount, proof)
  {
    var preimage := Pack(index, account, amount);
    var value, leaves := h(preimage), Leaves(h, balances);
    var j :| 0 <= j < |leaves| && leaves[j] == Fold(h, value, proof[..k]);
    var a := EntryPreimage(balances, j);
    assert HashedByTree(h, balances, a);
    if k == 0 {
      assert proof[..0] == [];
      assert HashedByClaim(h, index, account, amount, proof, preimage);
      if a == preimage {
        PackInjective(j, AddressBytes(balances[j].account), balances[j].amount, index, account, amount);
      } else {
        assert Clash(h, a, preimage);
      }
    } else {
      var x, p := Fold(h, value, proof[..k - 1]), proof[k - 1];
      assert proof[..k][..k - 1] == proof[..k - 1];
      var b := SortAndConcat(x, p);
      assert HashedByFold(h, value, proof, b);
      assert HashedByClaim(h, index, account, amount, proof, b);
      assert p in proof;
      assert Clash(h, a, b);
    }
  }

  /**
   Soundness: a claim accepted against the root is an entry of the list, at its own index, or else the
   acceptance itself exhibits a hash collision. Proof items may have any length but 52, the one length at which a
   hashed pair is as long as a packed entry.
   */
  lemma AcceptedIsEntry(
    h: Hash, balances: BalanceList, index: Uint256, account: Bytes, amount: Uint256, proof: seq<Bytes>)
    requires balances != [] && |account| == 20
    requires forall p :: p in proof ==> |p| != 52
    requires Accepts(h, index, account, amount, proof, BalanceRoot(h, balances))
    ensures IsEntry(balances, index, account, amount) || ClaimCollides(h, balances, index, account, amount, proof)
  {
    var preimage := Pack(index, account, amount);
    var elements := TreeElements(Leaves(h, balances));
    LeafDigests(h, balances);
    var k := AcceptedPassesThroughLayer(h, elements, preimage, proof);
    if Fold(h, h(preimage), proof[..k]) in elements {
      LeafIsEntry(h, balances, index, account, amount, proof, k);
    } else {
      var a, b :| HashedByLayers(h, elements, a)
                  && (b == preimage || HashedByFold(h, h(preimage), proof, b)) && Clash(h, a, b);
      assert HashedByTree(h, balances, a);
      assert HashedByClaim(h, index, account, amount, proof, b);
    }
  }

  /** A leaf hashing to one value and, if there are more leaves, all of them hashing to one other value. */
  lemma TwoValuedLeaves(h: Hash, balances: BalanceList, first: Digest, other: Digest)
    requires balances != [] && first != other && BytesLe(first, other)
    requires h(EntryPreimage(balances, 0)) == first
    requires forall j :: 0 < j < |balances| ==> h(EntryPreimage(balances, j)) == other
    ensures TreeElements(Leaves(h, balances)) == if |balances| == 1 then [first] else [first, other]
  {
    var leaves, canonical := Leaves(h, balances), if |balances| == 1 then [first] else [first, other];
    SameElements(leaves, first, other);
    BytesOrder();
    TreeElementsCanonical(leaves);
    IncreasingUnique(BytesLe, TreeElements(leaves), canonical);
  }

  lemma SameElements(leaves: seq<Bytes>, first: Bytes, other: Bytes)
    requires leaves != [] && leaves[0] == first && forall j :: 0 < j < |leaves| ==> leaves[j] == other
    ensures Elements(leaves) == Elements(if |leaves| == 1 then [first] else [first, other])
  {
    var canonical := if |leaves| == 1 then [first] else [first, other];
    forall x ensures x in Elements(leaves) <==> x in Elements(canonical) {
      if x in leaves { assert x in canonical; }
      if |leaves| > 1 { assert leaves[1] in leaves; }
    }
  }

  /**
   The exclusion of 52-byte items cannot be dropped: against every non-empty list, and for every claim that is not an
   entry of it, there is a hash under which the claim is accepted with one 52-byte item, followed by 32-byte ones at
   most, while tree and claim exhibit no collision.
   */
  lemma FiftyTwoBytesMustBeExcluded(balances: BalanceList, index: Uint256, account: Bytes, amount: Uint256)
    returns (h: Hash, proof: seq<Bytes>)
    requires balances != [] && |account| == 20 && !IsEntry(balances, index, account, amount)
    ensures 1 <= |proof| <= 2 && |proof[0]| == 52 && (|proof| == 2 ==> |proof[1]| == 32)
    ensures Accepts(h, index, account, amount, proof, BalanceRoot(h, balances))
    ensures !ClaimCollides(h, balances, index, account, amount, proof)
  {
    var entry, preimage := EntryPreimage(balances, 0), Pack(index, account, amount);
    h := SplitHash(preimage, entry);
    proof := if |balances| == 1 then [entry[32..]] else [entry[32..], Ones(2)];
    SplitLeaves(h, balances, index, account, amount);
    FirstWordComesFirst(AddressBytes(balances[0].account), balances[0].amount);
    PairLayer(h, Ones(1), Ones(2));
    FoldOne(h, Word(0), entry[32..]);
    FoldTwo(h, Word(0), entry[32..], Ones(2));
    OnlyPreimages(h, balances, index, account, amount, proof);
  }

  /** Thirty-two equal bytes. */
  function Ones(n: Byte): (r: Digest)
  {
    seq(32, _ => n)
  }

  lemma OnesInOrder()
    ensures BytesLe(Ones(1), Ones(2)) && Ones(1) != Ones(2)
    ensures Word(0) == Ones(0) && Ones(0) != Ones(1) && Ones(0) != Ones(2)
    ensures Ones(3) != Ones(0) && Ones(3) != Ones(1) && Ones(3) != Ones(2)
  {
    assert Ones(0)[0] == 0 && Ones(1)[0] == 1 && Ones(2)[0] == 2 && Ones(3)[0] == 3;
    ZeroWord(32);
  }

  /** A hash that singles out one claim, one entry and the pair of their tree's two leaves. */
  function SplitHash(claim: Bytes, entry: Bytes): (h: Hash)
  {
    (b: Bytes) =>
      if b == claim then Word(0) else if b == entry then Ones(1)
      else if b == Ones(1) + Ones(2) then Ones(3) else Ones(2)
  }

  /** No entry encodes a claim that is not one, and no later entry encodes the first. */
  lemma OtherEntriesDiffer(balances: BalanceList, index: Uint256, account: Bytes, amount: Uint256)
    requires |account| == 20 && !IsEntry(balances, index, account, amount)
    ensures forall j :: 0 <= j < |balances| ==> EntryPreimage(balances, j) != Pack(index, account, amount)
    ensures forall j :: 0 < j < |balances| ==> EntryPreimage(balances, j) != EntryPreimage(balances, 0)
  {
    forall j | 0 <= j < |balances|
      ensures EntryPreimage(balances, j) != Pack(index, account, amount)
      ensures 0 < j ==> EntryPreimage(balances, j) != EntryPreimage(balances, 0)
    {
      var b := balances[j];
      if EntryPreimage(balances, j) == Pack(index, account, amount) {
        PackInjective(j, AddressBytes(b.account), b.amount, index, account, amount);
      }
      if EntryPreimage(balances, j) == EntryPreimage(balances, 0) {
        PackInjective(j, AddressBytes(b.account), b.amount, 0, AddressBytes(balances[0].account), balances[0].amount);
      }
    }
  }

  /** Under that hash the claim's own value is no leaf, and the tree has one leaf or two. */
  lemma SplitLeaves(h: Hash, balances: BalanceList, index: Uint256, account: Bytes, amount: Uint256)
    requires balances != [] && |account| == 20 && !IsEntry(balances, index, account, amount)
    requires h == SplitHash(Pack(index, account, amount), EntryPreimage(balances, 0))
    ensures h(Pack(index, account, amount)) == Word(0) && h(EntryPreimage(balances, 0)) == Ones(1)
    ensures TreeElements(Leaves(h, balances)) == if |balances| == 1 then [Ones(1)] else [Ones(1), Ones(2)]
    ensures forall j :: 0 < j < |balances| ==> h(EntryPreimage(balances, j)) == Ones(2)
  {
    OnesInOrder();
    OtherEntriesDiffer(balances, index, account, amount);
    TwoValuedLeaves(h, balances, Ones(1), Ones(2));
  }

  /** A layer of two elements hashes their pair and nothing else. */
  lemma PairLayer(h: Hash, x: Bytes, y: Bytes)
    ensures Root(h, [x, y]) == HashPair(h, x, y)
    ensures forall a :: HashedByLayers(h, [x, y], a) ==> a == SortAndConcat(x, y)
  {
    assert NextLayer(h, [x, y]) == [HashPair(h, x, y)];
  }

  lemma FoldOne(h: Hash, value: Bytes, item: Bytes)
    ensures Fold(h, value, [item]) == HashPair(h, value, item)
  {
    assert [item][..0] == [];
  }

  lemma FoldTwo(h: Hash, value: Bytes, item: Bytes, next: Bytes)
    ensures Fold(h, value, [item, next]) == HashPair(h, HashPair(h, value, item), next)
  {
    assert [item, next][..1] == [item];
    FoldOne(h, value, item);
  }

  /** The first entry's leading zero word never sorts after the rest of it. */
  lemma FirstWordComesFirst(account: Bytes, amount: Uint256)
    requires |account| == 20
    ensures var entry := Pack(0, account, amount);
            SortAndConcat(Word(0), entry[32..]) == entry
  {
    var entry := Pack(0, account, amount);
    ZeroWord(32);
    ZerosComeFirst(Word(0), entry[32..]);
    assert entry[..32] == Word(0) && entry[..32] + entry[32..] == entry;
  }

  lemma {:induction false} ZerosComeFirst(zeros: Bytes, b: Bytes)
    requires |zeros| <= |b| && forall i :: 0 <= i < |zeros| ==> zeros[i] == 0
    ensures BytesLe(zeros, b)
  {
    if zeros != [] { ZerosComeFirst(zeros[1..], b[1..]); }
  }

  /** The claim's own encoding hashes like nothing in the tree, and the other strings it hashes are the tree's. */
  lemma OnlyPreimages(
    h: Hash, balances: BalanceList, index: Uint256, account: Bytes, amount: Uint256, proof: seq<Bytes>)
    requires balances != [] && |account| == 20 && !IsEntry(balances, index, account, amount)
    requires h == SplitHash(Pack(index, account, amount), EntryPreimage(balances, 0))
    requires var rest := EntryPreimage(balances, 0)[32..];
             proof == if |balances| == 1 then [rest] else [rest, Ones(2)]
    ensures !ClaimCollides(h, balances, index, account, amount, proof)
  {
    forall a, b | HashedByTree(h, balances, a) && HashedByClaim(h, index, account, amount, proof, b)
      ensures !Clash(h, a, b)
    {
      OnesInOrder();
      OtherEntriesDiffer(balances, index, account, amount);
      TreeHashes(h, balances, index, account, amount, a);
      ClaimHashes(h, balances, index, account, amount, proof, b);
    }
  }

  lemma TreeHashes(h: Hash, balances: BalanceList, index: Uint256, account: Bytes, amount: Uint256, a: Bytes)
    requires balances != [] && |account| == 20 && !IsEntry(balances, index, account, amount)
    requires h == SplitHash(Pack(index, account, amount), EntryPreimage(balances, 0))
    requires HashedByTree(h, balances, a)
    ensures a == EntryPreimage(balances, 0) || a == Ones(1) + Ones(2) || h(a) == Ones(2)
    ensures a != Pack(index, account, amount)
  {
    OnesInOrder();
    OtherEntriesDiffer(balances, index, account, amount);
    SplitLeaves(h, balances, index, account, amount);
    PairLayer(h, Ones(1), Ones(2));
  }

  lemma ClaimHashes(
    h: Hash, balances: BalanceList, index: Uint256, account: Bytes, amount: Uint256, proof: seq<Bytes>, b: Bytes)
    requires balances != [] && |account| == 20 && !IsEntry(balances, index, account, amount)
    requires h == SplitHash(Pack(index, account, amount), EntryPreimage(balances, 0))
    requires var rest := EntryPreimage(balances, 0)[32..];
             proof == if |balances| == 1 then [rest] else [rest, Ones(2)]
    requires HashedByClaim(h, index, account, amount, proof, b)
    ensures b == Pack(index, account, amount) || b == EntryPreimage(balances, 0)
            || (|balances| > 1 && b == Ones(1) + Ones(2))
  {
    var entry, value := EntryPreimage(balances, 0), Word(0);
    OnesInOrder();
    OtherEntriesDiffer(balances, index, account, amount);
    FirstWordComesFirst(AddressBytes(balances[0].account), balances[0].amount);
    FoldOne(h, value, entry[32..]);
    if b != Pack(index, account, amount) {
      var j :| 0 <= j < |proof| && b == SortAndConcat(Fold(h, value, proof[..j]), proof[j]);
      if j == 0 {
        assert proof[..0] == [];
      } else {
        assert proof[..1] == [entry[32..]];
        assert Fold(h, value, proof[..1]) == Ones(1);
      }
    }
  }

  lemma {:induction false} ZeroWord(k: nat)
    ensures forall i :: 0 <= i < k ==> BigEndian(0, k)[i] == 0
  {
    if k > 0 { ZeroWord(k - 1); }
  }

  // ----- completeness

  function BalanceProof(h: Hash, balances: BalanceList, index: Uint256, account: Address, amount: Uint256)
    : (r: Option<seq<Bytes>>)
  {
    TreeProof(h, Leaves(h, balances), ToNode(h, index, account, amount))
  }

  /** Completeness, for any hash: the proof handed out for an entry is accepted, and has only 32-byte items. */
  lemma EntryIsAccepted(h: Hash, balances: BalanceList, index: Uint256, account: Address, amount: Uint256)
    requires balances != [] && IsEntry(balances, index, AddressBytes(account), amount)
    ensures var r := BalanceProof(h, balances, index, account, amount);
            && r.Some?
            && Accepts(h, index, AddressBytes(account), amount, r.value, BalanceRoot(h, balances))
            && forall p :: p in r.value ==> |p| == 32
  {
    var leaves := Leaves(h, balances);
    var node := ToNode(h, index, account, amount);
    assert leaves[index] == node;
    TreeProofComplete(h, leaves, node);
    LeafDigests(h, balances);
    var elements := TreeElements(leaves);
    ProofDigests(h, elements, PositionOf(node, elements));
  }

  lemma {:induction false} ProofDigests(h: Hash, layer: seq<Bytes>, idx: nat)
    requires idx < |layer| && forall i :: 0 <= i < |layer| ==> |layer[i]| == 32
    ensures forall p :: p in ProofFrom(h, layer, idx) ==> |p| == 32
    decreases |layer|
  {
    if |layer| > 1 {
      NextLayerDigests(h, layer);
      ProofDigests(h, NextLayer(h, layer), idx / 2);
    }
  }

  class BalanceTree {
    const tree: MerkleTree

    ghost predicate Valid() {
      tree.Valid()
    }

    constructor (tree: MerkleTree)
      ensures this.tree == tree
    {
      this.tree := tree;
    }

    /** Fails exactly on an empty list. */
    static method Create(h: Hash, balances: BalanceList) returns (r: Option<BalanceTree>)
      ensures r.None? <==> balances == []
      ensures r.Some? ==> r.value.Valid()
      ensures r.Some? ==> r.value.tree.h == h && r.value.tree.elements == TreeElements(Leaves(h, balances))
    {
      var t := MerkleTree.Create(h, Leaves(h, balances));
      if t.None? { return None; }
      var b := new BalanceTree(t.value);
      return Some(b);
    }

    method GetRoot() returns (root: Bytes)
      requires Valid()
      ensures root == Root(tree.h, tree.elements)
    {
      root := tree.GetRoot();
    }

    method GetProof(index: Uint256, account: Address, amount: Uint256) returns (r: Option<seq<Bytes>>)
      requires Valid()
      ensures r == ProofIn(tree.h, tree.elements, ToNode(tree.h, index, account, amount))
    {
      r := tree.GetProof(ToNode(tree.h, index, account, amount));
    }

    static method VerifyProof(
      h: Hash, index: Uint256, account: Address, amount: Uint256, proof: seq<Bytes>, root: Bytes) returns (ok: bool)
      ensures ok <==> Accepts(h, index, AddressBytes(account), amount, proof, root)
    {
      var pair: Bytes := ToNode(h, index, account, amount);
      for i := 0 to |proof|
        invariant pair == Fold(h, ToNode(h, index, account, amount), proof[..i])
      {
        assert proof[..i + 1][..i] == proof[..i];
        pair := CombinedHash(h, Some(pair), Some(proof[i])).value;
      }
      assert proof[..|proof|] == proof;
      ok := pair == root;
    }
  }
}
