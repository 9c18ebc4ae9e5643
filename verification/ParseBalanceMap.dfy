/** From a list of (address, earnings) pairs to the root, the claims and the total of a distribution. */
module BalanceMap {
  import opened Wrappers
  import opened Ordering
  import opened Bytes
  import opened Merkle
  import opened Balances

  datatype Distribution = Distribution(address: Address, earnings: int)

  /** An array has fewer than 2^32 elements. */
  type DistributionList = s: seq<Distribution> | |s| < 0x1_0000_0000

  datatype Claim = Claim(index: Uint256, amount: Uint256, proof: seq<Bytes>)

  datatype DistributorInfo = DistributorInfo(merkleRoot: Bytes, tokenTotal: nat, claims: map<Address, Claim>)

  datatype ParseError =
    | DuplicateAddress(address: Address)
    | InvalidAmount(address: Address)
    | AmountOutOfRange
    | EmptyTree

  // ----- collecting the entries

  /** The earnings by address, or the first offence met reading the list from the left. */
  function Gather(list: seq<Distribution>): (r: Result<map<Address, int>, ParseError>)
  {
    if list == [] then Success(map[])
    else
      var n := |list| - 1;
      match Gather(list[..n])
      case Failure(e) => Failure(e)
      case Success(m) =>
        if list[n].address in m then Failure(DuplicateAddress(list[n].address))
        else if list[n].earnings <= 0 then Failure(InvalidAmount(list[n].address))
        else Success(m[list[n].address := list[n].earnings])
  }

  function Addresses(list: seq<Distribution>): (r: seq<Address>)
    ensures |r| == |list| && forall i :: 0 <= i < |r| ==> r[i] == list[i].address
  {
    seq(|list|, i requires 0 <= i < |list| => list[i].address)
  }

  ghost predicate DistinctAddresses(list: seq<Distribution>)
  {
    forall i, j :: 0 <= i < j < |list| ==> list[i].address != list[j].address
  }

  lemma AddressAppears(list: seq<Distribution>, a: Address)
    ensures a in Elements(Addresses(list)) <==> exists i :: 0 <= i < |list| && list[i].address == a
  {
    if a in Elements(Addresses(list)) {
      var i :| 0 <= i < |list| && Addresses(list)[i] == a;
      assert list[i].address == a;
    }
    if i :| 0 <= i < |list| && list[i].address == a {
      assert Addresses(list)[i] == a;
    }
  }

  /** The gathered map holds exactly the pairs of the list. */
  lemma {:induction false} GatheredPairs(list: seq<Distribution>)
    requires Gather(list).Success?
    ensures Gather(list).value.Keys == Elements(Addresses(list))
    ensures forall i :: 0 <= i < |list| ==> list[i].address in Gather(list).value
    ensures forall i :: 0 <= i < |list| ==> Gather(list).value[list[i].address] == list[i].earnings
  {
    if list != [] {
      var n := |list| - 1;
      GatheredPairs(list[..n]);
      assert Addresses(list) == Addresses(list[..n]) + [list[n].address];
      assert Elements(Addresses(list)) == Elements(Addresses(list[..n])) + {list[n].address};
      forall i | 0 <= i < n
        ensures list[i].address in Gather(list).value && Gather(list).value[list[i].address] == list[i].earnings
      {
        assert list[..n][i] == list[i];
      }
    }
  }

  ghost predicate PositiveEarnings(list: seq<Distribution>)
  {
    forall i :: 0 <= i < |list| ==> 0 < list[i].earnings
  }

  /** Distinctness and positivity, one element at a time. */
  lemma SplitLast(list: seq<Distribution>)
    requires list != []
    ensures var n := |list| - 1;
            && (DistinctAddresses(list) <==>
                  DistinctAddresses(list[..n]) && forall i :: 0 <= i < n ==> list[..n][i].address != list[n].address)
            && (PositiveEarnings(list) <==> PositiveEarnings(list[..n]) && 0 < list[n].earnings)
  {
    assert forall i :: 0 <= i < |list| - 1 ==> list[..|list| - 1][i] == list[i];
  }

  /** Gathering succeeds exactly on distinct addresses with positive amounts. */
  lemma {:induction false} GatherSucceeds(list: seq<Distribution>)
    ensures Gather(list).Success? <==> DistinctAddresses(list) && PositiveEarnings(list)
  {
    if list != [] {
      var n := |list| - 1;
      var init := list[..n];
      GatherSucceeds(init);
      SplitLast(list);
      if Gather(init).Success? {
        GatheredPairs(init);
        AddressAppears(init, list[n].address);
      }
    }
  }

  /**
   Which offence is reported: the first entry that repeats an earlier address, or has no positive amount; an entry
   that does both is reported as a repetition.
   */
  lemma {:induction false} FirstOffence(list: seq<Distribution>) returns (n: nat)
    requires Gather(list).Failure?
    ensures n < |list| && DistinctAddresses(list[..n]) && PositiveEarnings(list[..n])
    ensures var repeated := exists i :: 0 <= i < n && list[i].address == list[n].address;
            && (repeated || list[n].earnings <= 0)
            && Gather(list).error
               == if repeated then DuplicateAddress(list[n].address) else InvalidAmount(list[n].address)
  {
    var last := |list| - 1;
    var init := list[..last];
    GatherSucceeds(init);
    if Gather(init).Failure? {
      n := FirstOffence(init);
      assert init[..n] == list[..n];
      SamePrefixRepeats(list, last, n);
    } else {
      n := last;
      GatheredPairs(init);
      AddressAppears(init, list[n].address);
      SamePrefixRepeats(list, last, n);
    }
  }

  lemma SamePrefixRepeats(list: seq<Distribution>, last: nat, n: nat)
    requires n <= last < |list|
    ensures n < last ==> list[..last][n] == list[n]
    ensures (exists i :: 0 <= i < n && list[..last][i].address == list[n].address)
            <==> exists i :: 0 <= i < n && list[i].address == list[n].address
  {
    assert forall i :: 0 <= i < n ==> list[..last][i] == list[i];
    if i :| 0 <= i < n && list[i].address == list[n].address { assert list[..last][i].address == list[n].address; }
  }

  /** What a list must satisfy to be turned into a distribution. */
  ghost predicate Distributable(list: seq<Distribution>)
  {
    && list != []
    && DistinctAddresses(list)
    && forall i :: 0 <= i < |list| ==> 0 < list[i].earnings < TWO_256
  }

  // ----- the result

  /** The addresses in string order. */
  function SortedAddresses(list: seq<Distribution>): (r: seq<Address>)
    ensures |r| == |list|
  {
    Sort(AddressLe, Addresses(list))
  }

  function Earnings(list: seq<Distribution>, address: Address): (r: int)
  {
    if Gather(list).Success? && address in Gather(list).value then Gather(list).value[address] else 0
  }

  lemma EarningsInRange(list: seq<Distribution>, address: Address)
    requires Distributable(list) && address in Addresses(list)
    ensures 0 < Earnings(list, address) < TWO_256
  {
    GatherSucceeds(list);
    GatheredPairs(list);
    var i :| 0 <= i < |list| && Addresses(list)[i] == address;
    assert list[i].address == address;
  }

  lemma SortedAddressesAre(list: seq<Distribution>)
    requires DistinctAddresses(list)
    ensures Increasing(AddressLe, SortedAddresses(list))
    ensures Elements(SortedAddresses(list)) == Elements(Addresses(list))
    ensures forall i :: 0 <= i < |list| ==> SortedAddresses(list)[i] in Addresses(list)
  {
    AddressOrder();
    SortDistinct(AddressLe, Addresses(list));
    forall i | 0 <= i < |list| ensures SortedAddresses(list)[i] in Addresses(list) {
      assert SortedAddresses(list)[i] in Elements(SortedAddresses(list));
    }
  }

  function EntryAt(list: DistributionList, i: nat): (r: Balance)
    requires Distributable(list) && i < |list|
    ensures r.account == SortedAddresses(list)[i] && r.amount == Earnings(list, r.account) > 0
  {
    SortedAddressesAre(list);
    EarningsInRange(list, SortedAddresses(list)[i]);
    Balance(SortedAddresses(list)[i], Earnings(list, SortedAddresses(list)[i]))
  }

  /** The entries of the tree: the addresses in order, each with its earnings. */
  function Entries(list: DistributionList): (r: BalanceList)
    requires Distributable(list)
    ensures |r| == |list| && forall i :: 0 <= i < |r| ==> r[i] == EntryAt(list, i)
  {
    seq(|list|, i requires 0 <= i < |list| && Distributable(list) => EntryAt(list, i))
  }

  /** The claim handed to entry number i. */
  function ClaimOf(h: Hash, entries: BalanceList, i: nat): (r: Claim)
    requires i < |entries|
  {
    var proof := BalanceProof(h, entries, i, entries[i].account, entries[i].amount);
    Claim(i, entries[i].amount, if proof.Some? then proof.value else [])
  }

  function Claims(h: Hash, entries: BalanceList): (r: seq<Claim>)
    ensures |r| == |entries| && forall i :: 0 <= i < |r| ==> r[i] == ClaimOf(h, entries, i)
  {
    seq(|entries|, i requires 0 <= i < |entries| => ClaimOf(h, entries, i))
  }

  /** The first n values, each stored under the account of its entry. */
  function ByAccount<V>(entries: seq<Balance>, values: seq<V>, n: nat): (r: map<Address, V>)
    requires n <= |entries| && |values| == |entries|
  {
    if n == 0 then map[] else ByAccount(entries, values, n - 1)[entries[n - 1].account := values[n - 1]]
  }

  function Total(entries: seq<Balance>): (r: nat)
  {
    if entries == [] then 0 else Total(entries[..|entries| - 1]) + entries[|entries| - 1].amount
  }

  function Info(h: Hash, list: DistributionList): (r: DistributorInfo)
    requires Distributable(list)
  {
    var entries := Entries(list);
    DistributorInfo(BalanceRoot(h, entries), Total(entries), ByAccount(entries, Claims(h, entries), |entries|))
  }

  /** Reads the entries from the left and stops at the first offence. */
  method Collect(list: seq<Distribution>) returns (r: Result<map<Address, int>, ParseError>)
    ensures r == Gather(list)
  {
    var memo: map<Address, int> := map[];
    for i := 0 to |list|
      invariant Gather(list[..i]) == Success(memo)
    {
      assert list[..i + 1][..i] == list[..i];
      var d := list[i];
      if d.address in memo {
        GatherFailureStands(list, i + 1);
        return Failure(DuplicateAddress(d.address));
      }
      if d.earnings <= 0 {
        GatherFailureStands(list, i + 1);
        return Failure(InvalidAmount(d.address));
      }
      memo := memo[d.address := d.earnings];
    }
    assert list[..|list|] == list;
    return Success(memo);
  }

  /** Once reading a prefix has failed, reading the whole list fails the same way. */
  lemma {:induction false} GatherFailureStands(list: seq<Distribution>, n: nat)
    requires n <= |list| && Gather(list[..n]).Failure?
    ensures Gather(list) == Gather(list[..n])
    decreases |list|
  {
    if n == |list| {
      assert list[..n] == list;
    } else {
      var m := |list| - 1;
      assert list[..m][..n] == list[..n];
      GatherFailureStands(list[..m], n);
    }
  }

  /** The sorted addresses with their amounts, unless an amount does not fit the 256-bit word it is hashed in. */
  method BuildEntries(list: DistributionList, data: map<Address, int>) returns (r: Option<seq<Balance>>)
    requires Gather(list) == Success(data)
    ensures r.None? ==> exists i :: 0 <= i < |list| && list[i].earnings >= TWO_256
    ensures r.Some? ==> |r.value| == |list|
    ensures r.Some? ==> forall i :: 0 <= i < |list| ==>
              && r.value[i].account == SortedAddresses(list)[i]
              && r.value[i].amount == Earnings(list, r.value[i].account) > 0
  {
    var sorted := Sort(AddressLe, Addresses(list));
    var balances: seq<Balance> := [];
    for i := 0 to |sorted|
      invariant |balances| == i
      invariant forall j :: 0 <= j < i ==>
                  && balances[j].account == sorted[j]
                  && balances[j].amount == Earnings(list, sorted[j]) > 0
    {
      AmountOfSorted(list, i);
      var amount := data[sorted[i]];
      if amount >= TWO_256 { return None; }
      balances := balances + [Balance(sorted[i], amount)];
    }
    return Some(balances);
  }

  lemma AmountOfSorted(list: seq<Distribution>, i: nat)
    requires Gather(list).Success? && i < |list|
    ensures var a := SortedAddresses(list)[i];
            && a in Gather(list).value && Gather(list).value[a] > 0
            && exists k :: 0 <= k < |list| && list[k].earnings == Gather(list).value[a]
  {
    GatherSucceeds(list);
    GatheredPairs(list);
    SortedAddressesAre(list);
    AddressAppears(list, SortedAddresses(list)[i]);
  }

  /** With every amount in range, what was built is the entries. */
  lemma BuiltEntries(list: DistributionList, balances: seq<Balance>)
    requires Gather(list).Success? && |balances| == |list|
    requires forall i :: 0 <= i < |list| ==>
               && balances[i].account == SortedAddresses(list)[i]
               && balances[i].amount == Earnings(list, balances[i].account) > 0
    requires list != []
    ensures Distributable(list) && balances == Entries(list)
  {
    GatherSucceeds(list);
    GatheredPairs(list);
    forall k | 0 <= k < |list| ensures list[k].earnings < TWO_256 {
      SortedAddressesAre(list);
      AddressAppears(list, list[k].address);
      assert list[k].address in Elements(SortedAddresses(list));
      var i :| 0 <= i < |list| && SortedAddresses(list)[i] == list[k].address;
      assert balances[i].amount == list[k].earnings;
    }
    forall i | 0 <= i < |list| ensures balances[i] == EntryAt(list, i) {
    }
  }

  /** The parser: it fails exactly when the list is not distributable, and reports the first offence. */
  method ParseBalanceMap(h: Hash, list: DistributionList) returns (r: Result<DistributorInfo, ParseError>)
    ensures r.Success? <==> Distributable(list)
    ensures r.Success? ==> r.value == Info(h, list)
    ensures Gather(list).Failure? ==> r == Failure(Gather(list).error)
    ensures Gather(list).Success? && r.Failure? ==> r.error == if list == [] then EmptyTree else AmountOutOfRange
  {
    GatherSucceeds(list);
    var data := Collect(list);
    if data.Failure? { return Failure(data.error); }
    var built := BuildEntries(list, data.value);
    if built.None? { return Failure(AmountOutOfRange); }
    var entries: BalanceList := built.value;
    var tree := BalanceTree.Create(h, entries);
    if tree.None? { return Failure(EmptyTree); }
    BuiltEntries(list, entries);
    var claims := HandOutClaims(tree.value, entries);
    var total := AddUp(entries);
    var root := tree.value.GetRoot();
    r := Success(DistributorInfo(root, total, claims));
  }

  /** The tree's answer for one entry. */
  method ClaimFor(tree: BalanceTree, entries: BalanceList, i: nat) returns (claim: Claim)
    requires tree.Valid() && tree.tree.elements == TreeElements(Leaves(tree.tree.h, entries))
    requires i < |entries|
    ensures claim == Claims(tree.tree.h, entries)[i]
  {
    var b := entries[i];
    var proof := tree.GetProof(i, b.account, b.amount);
    HandedOut(tree.tree.h, entries, i, proof);
    claim := Claim(i, b.amount, proof.value);
  }

  method HandOutClaims(tree: BalanceTree, entries: BalanceList) returns (memo: map<Address, Claim>)
    requires tree.Valid() && tree.tree.elements == TreeElements(Leaves(tree.tree.h, entries))
    ensures memo == ByAccount(entries, Claims(tree.tree.h, entries), |entries|)
  {
    ghost var claims := Claims(tree.tree.h, entries);
    memo := map[];
    for i := 0 to |entries|
      invariant memo == ByAccount(entries, claims, i)
    {
      var claim := ClaimFor(tree, entries, i);
      memo := memo[entries[i].account := claim];
    }
  }

  /** What the tree answers for entry i is never a refusal, and makes up claim i. */
  lemma HandedOut(h: Hash, entries: BalanceList, i: nat, proof: Option<seq<Bytes>>)
    requires i < |entries|
    requires proof == ProofIn(h, TreeElements(Leaves(h, entries)), ToNode(h, i, entries[i].account, entries[i].amount))
    ensures proof.Some? && Claim(i, entries[i].amount, proof.value) == Claims(h, entries)[i]
  {
    EntryIsAccepted(h, entries, i, entries[i].account, entries[i].amount);
  }

  method AddUp(entries: BalanceList) returns (total: nat)
    ensures total == Total(entries)
  {
    total := 0;
    for i := 0 to |entries|
      invariant total == Total(entries[..i])
    {
      assert entries[..i + 1][..i] == entries[..i];
      total := total + entries[i].amount;
    }
    assert entries[..|entries|] == entries;
  }

  // ----- what the result guarantees

  ghost predicate DistinctAccounts(entries: seq<Balance>)
  {
    forall i, j :: 0 <= i < j < |entries| ==> entries[i].account != entries[j].account
  }

  lemma EntriesAreDistinct(list: DistributionList)
    requires Distributable(list)
    ensures DistinctAccounts(Entries(list))
    ensures forall i :: 0 <= i < |list| ==> Entries(list)[i].account == SortedAddresses(list)[i]
  {
    SortedAddressesAre(list);
  }

  /** Under distinct accounts every value is found again under its own account, and nothing else is stored. */
  lemma {:induction false} StoredByAccount<V>(entries: seq<Balance>, values: seq<V>, n: nat, i: nat)
    requires DistinctAccounts(entries) && i < n <= |entries| == |values|
    ensures entries[i].account in ByAccount(entries, values, n)
    ensures ByAccount(entries, values, n)[entries[i].account] == values[i]
    decreases n
  {
    if i < n - 1 { StoredByAccount(entries, values, n - 1, i); }
  }

  lemma {:induction false} OnlyAccountsStored<V>(entries: seq<Balance>, values: seq<V>, n: nat, a: Address)
    returns (i: nat)
    requires n <= |entries| == |values| && a in ByAccount(entries, values, n)
    ensures i < n && entries[i].account == a
  {
    if entries[n - 1].account == a { i := n - 1; } else { i := OnlyAccountsStored(entries, values, n - 1, a); }
  }

  /** Which entry an address owns. */
  lemma EntryOfAddress(list: DistributionList, a: Address) returns (i: nat)
    requires Distributable(list) && a in Elements(Addresses(list))
    ensures i < |list| && Entries(list)[i].account == a
  {
    SortedAddressesAre(list);
    assert a in Elements(SortedAddresses(list));
    i :| 0 <= i < |list| && SortedAddresses(list)[i] == a;
  }

  /** An address has a claim exactly when it is listed. */
  lemma ClaimantsAreListed(h: Hash, list: DistributionList, a: Address)
    requires Distributable(list)
    ensures a in Info(h, list).claims <==> a in Elements(Addresses(list))
  {
    var entries := Entries(list);
    EntriesAreDistinct(list);
    if a in Info(h, list).claims {
      var i := OnlyAccountsStored(entries, Claims(h, entries), |list|, a);
      SortedAddressesAre(list);
    }
    if a in Elements(Addresses(list)) {
      var i := EntryOfAddress(list, a);
      StoredByAccount(entries, Claims(h, entries), |list|, i);
    }
  }

  /** The claim of a listed address is for exactly its earnings. */
  lemma ClaimIsForEarnings(h: Hash, list: DistributionList, i: nat)
    requires Distributable(list) && i < |list|
    ensures list[i].address in Info(h, list).claims
    ensures Info(h, list).claims[list[i].address].amount == list[i].earnings
  {
    var entries := Entries(list);
    EntriesAreDistinct(list);
    AddressAppears(list, list[i].address);
    var k := EntryOfAddress(list, list[i].address);
    StoredByAccount(entries, Claims(h, entries), |list|, k);
    GatherSucceeds(list);
    GatheredPairs(list);
  }

  /** The strings agree up to some position, and there the first has the smaller character. */
  ghost predicate Below(a: Address, b: Address)
  {
    exists k :: 0 <= k < 42 && a[..k] == b[..k] && a[k] < b[k]
  }

  ghost predicate Ascending(s: seq<Address>)
  {
    forall i, j :: 0 <= i < j < |s| ==> Below(s[i], s[j])
  }

  lemma SortedAscend(list: seq<Distribution>)
    requires DistinctAddresses(list)
    ensures Ascending(SortedAddresses(list))
  {
    SortedAddressesAre(list);
    var s := SortedAddresses(list);
    forall i, j | 0 <= i < j < |s| ensures Below(s[i], s[j]) {
      AddressFirstDifference(s[i], s[j]);
    }
  }

  /** Of two claims, the one with the lower index is that of the address with the smaller first differing character. */
  lemma IndicesFollowAddresses(h: Hash, list: DistributionList, a: Address, b: Address)
    requires Distributable(list) && a in Info(h, list).claims && b in Info(h, list).claims
    ensures Info(h, list).claims[a].index < Info(h, list).claims[b].index
            <==> exists k :: 0 <= k < 42 && a[..k] == b[..k] && a[k] < b[k]
  {
    EveryClaimVerifies(h, list, a);
    EveryClaimVerifies(h, list, b);
    var i, j := Info(h, list).claims[a].index, Info(h, list).claims[b].index;
    var s := SortedAddresses(list);
    assert i < j ==> Below(s[i], s[j]);
    assert j < i ==> Below(s[j], s[i]);
    BelowIsOneWay(a, b);
  }

  lemma BelowIsOneWay(a: Address, b: Address)
    ensures !(Below(a, b) && Below(b, a)) && !Below(a, a)
  {
    AddressFirstDifference(a, b);
    AddressFirstDifference(b, a);
    AddressOrder();
  }

  /**
   Every claim handed out is accepted against the root, for any hash; its proof has only 32-byte items; and the
   indices number the addresses 0 .. n - 1 in string order.
   */
  lemma EveryClaimVerifies(h: Hash, list: DistributionList, a: Address)
    requires Distributable(list) && a in Info(h, list).claims
    ensures var info := Info(h, list);
            var claim := info.claims[a];
            && claim.index < |list| && SortedAddresses(list)[claim.index] == a
            && Ascending(SortedAddresses(list))
            && Accepts(h, claim.index, AddressBytes(a), claim.amount, claim.proof, info.merkleRoot)
            && forall p :: p in claim.proof ==> |p| == 32
  {
    var entries := Entries(list);
    EntriesAreDistinct(list);
    SortedAddressesAre(list);
    var i := OnlyAccountsStored(entries, Claims(h, entries), |list|, a);
    StoredByAccount(entries, Claims(h, entries), |list|, i);
    EntryIsAccepted(h, entries, i, entries[i].account, entries[i].amount);
    SortedAscend(list);
  }

  // ----- order independence

  /** Sum of a function over a sequence. */
  function Sum<T>(s: seq<T>, f: T -> int): (r: int)
  {
    if s == [] then 0 else Sum(s[..|s| - 1], f) + f(s[|s| - 1])
  }

  lemma {:induction false} SumRemove<T>(s: seq<T>, f: T -> int, i: nat)
    requires i < |s|
    ensures Sum(s, f) == Sum(s[..i] + s[i + 1..], f) + f(s[i])
    decreases |s|
  {
    var n := |s| - 1;
    if i < n {
      SumRemove(s[..n], f, i);
      assert s[..n][..i] + s[..n][i + 1..] == (s[..i] + s[i + 1..])[..n - 1];
      assert (s[..i] + s[i + 1..])[n - 1] == s[n];
    } else {
      assert s[..i] + s[i + 1..] == s[..n];
    }
  }

  lemma {:induction false} SumPermutation<T>(s: seq<T>, t: seq<T>, f: T -> int)
    requires multiset(s) == multiset(t)
    ensures Sum(s, f) == Sum(t, f)
    decreases |s|
  {
    if s == [] {
      assert |multiset(t)| == |t|;
    } else {
      var n := |s| - 1;
      assert s[n] in multiset(t);
      var i :| 0 <= i < |t| && t[i] == s[n];
      assert s[..n] + s[n + 1..] == s[..n];
      MultisetRemove(s, n);
      MultisetRemove(t, i);
      SumPermutation(s[..n], t[..i] + t[i + 1..], f);
      SumRemove(t, f, i);
    }
  }

  lemma MultisetRemove<T>(s: seq<T>, i: nat)
    requires i < |s|
    ensures multiset(s[..i] + s[i + 1..]) == multiset(s) - multiset{s[i]}
  {
    assert s == s[..i] + [s[i]] + s[i + 1..];
  }

  /** The total is the sum of all the earnings in the input. */
  lemma TokenTotalIsSumOfEarnings(h: Hash, list: DistributionList)
    requires Distributable(list)
    ensures Info(h, list).tokenTotal == Sum(list, (d: Distribution) => d.earnings)
  {
    var earnings := (a: Address) => Earnings(list, a);
    GatherSucceeds(list);
    GatheredPairs(list);
    TotalIsSum(Entries(list), SortedAddresses(list), earnings);
    SumPermutation(SortedAddresses(list), Addresses(list), earnings);
    SumOfEarnings(list, Addresses(list), earnings, (d: Distribution) => d.earnings);
  }

  lemma {:induction false} TotalIsSum(entries: seq<Balance>, sorted: seq<Address>, f: Address -> int)
    requires |entries| == |sorted|
    requires forall i :: 0 <= i < |sorted| ==> entries[i].amount == f(sorted[i])
    ensures Total(entries) == Sum(sorted, f)
  {
    if entries != [] {
      var n := |entries| - 1;
      TotalIsSum(entries[..n], sorted[..n], f);
    }
  }

  lemma {:induction false} SumOfEarnings(
    list: seq<Distribution>, addresses: seq<Address>, f: Address -> int, g: Distribution -> int)
    requires |list| == |addresses|
    requires forall i :: 0 <= i < |list| ==> f(addresses[i]) == g(list[i])
    ensures Sum(addresses, f) == Sum(list, g)
  {
    if list != [] {
      var n := |list| - 1;
      SumOfEarnings(list[..n], addresses[..n], f, g);
    }
  }

  /** Reordering the input neither changes whether it is accepted nor anything in the result. */
  lemma InputOrderIsIrrelevant(h: Hash, list: DistributionList, list': DistributionList)
    requires multiset(list) == multiset(list')
    ensures Distributable(list) <==> Distributable(list')
    ensures Distributable(list) ==> Info(h, list) == Info(h, list')
  {
    if Distributable(list) {
      ReorderedIsDistributable(list, list');
      SameEntries(list, list');
    }
    if Distributable(list') {
      ReorderedIsDistributable(list', list);
    }
  }

  lemma ReorderedIsDistributable(list: seq<Distribution>, list': seq<Distribution>)
    requires multiset(list) == multiset(list') && Distributable(list)
    ensures Distributable(list')
  {
    forall i | 0 <= i < |list'| ensures list'[i] in list {
      assert list'[i] in multiset(list');
    }
    assert list[0] in multiset(list');
    forall i, j | 0 <= i < j < |list'| ensures list'[i].address != list'[j].address {
      if list'[i].address == list'[j].address {
        assert list'[i] == list'[j];
        TwiceInMultiset(list', i, j);
        OnceInMultiset(list, list'[i]);
      }
    }
  }

  lemma SameEntries(list: DistributionList, list': DistributionList)
    requires multiset(list) == multiset(list') && Distributable(list) && Distributable(list')
    ensures Entries(list) == Entries(list')
  {
    SameSortedAddresses(list, list');
    forall i | 0 <= i < |list| ensures EntryAt(list, i) == EntryAt(list', i) {
      SortedAddressesAre(list);
      SameEarnings(list, list', SortedAddresses(list)[i]);
    }
    assert |Entries(list)| == |Entries(list')|;
  }

  lemma SameSortedAddresses(list: seq<Distribution>, list': seq<Distribution>)
    requires multiset(list) == multiset(list') && DistinctAddresses(list) && DistinctAddresses(list')
    ensures SortedAddresses(list) == SortedAddresses(list')
  {
    SortedAddressesAre(list);
    SortedAddressesAre(list');
    AddressOrder();
    SameAddresses(list, list');
    SameAddresses(list', list);
    IncreasingUnique(AddressLe, SortedAddresses(list), SortedAddresses(list'));
  }

  lemma SameAddresses(list: seq<Distribution>, list': seq<Distribution>)
    requires multiset(list) == multiset(list')
    ensures Elements(Addresses(list)) <= Elements(Addresses(list'))
  {
    forall a | a in Elements(Addresses(list)) ensures a in Elements(Addresses(list')) {
      var i :| 0 <= i < |list| && Addresses(list)[i] == a;
      assert list[i] in multiset(list');
      var j :| 0 <= j < |list'| && list'[j] == list[i];
      assert Addresses(list')[j] == a;
    }
  }

  lemma SameEarnings(list: seq<Distribution>, list': seq<Distribution>, a: Address)
    requires multiset(list) == multiset(list') && Distributable(list) && Distributable(list') && a in Addresses(list)
    ensures Earnings(list, a) == Earnings(list', a)
  {
    GatherSucceeds(list);
    GatheredPairs(list);
    GatherSucceeds(list');
    GatheredPairs(list');
    var i :| 0 <= i < |list| && Addresses(list)[i] == a;
    assert list[i] in multiset(list');
    var j :| 0 <= j < |list'| && list'[j] == list[i];
    assert list'[j].address == a == list[i].address;
  }
}
