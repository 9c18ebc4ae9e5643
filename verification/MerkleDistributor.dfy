/** Which indices have been claimed, packed 256 to a word. */
module ClaimedBitmap {
  import opened Products

  /** Bitwise operations on unsigned words, bit by bit from the least significant. */
  function BitAnd(a: nat, b: nat): (r: nat)
  {
    if a == 0 || b == 0 then 0 else 2 * BitAnd(a / 2, b / 2) + (if a % 2 == 1 && b % 2 == 1 then 1 else 0)
  }

  function BitOr(a: nat, b: nat): (r: nat)
    decreases a + b
  {
    if a == 0 then b else if b == 0 then a
    else 2 * BitOr(a / 2, b / 2) + (if a % 2 == 1 || b % 2 == 1 then 1 else 0)
  }

  type Bitmap = map<nat, nat>

  function WordAt(bitmap: Bitmap, w: nat): (r: nat)
  {
    if w in bitmap then bitmap[w] else 0
  }

  predicate IsClaimed(bitmap: Bitmap, index: nat)
  {
    var mask := Pow(2, index % 256);
    BitAnd(WordAt(bitmap, index / 256), mask) == mask
  }

  function SetClaimed(bitmap: Bitmap, index: nat): (r: Bitmap)
  {
    bitmap[index / 256 := BitOr(WordAt(bitmap, index / 256), Pow(2, index % 256))]
  }

  lemma {:induction false} BitAndZero(w: nat, j: nat)
    ensures BitAnd(0, Pow(2, j)) == 0 && Pow(2, j) != 0
    ensures j > 0 ==> BitAnd(w, Pow(2, j)) == 2 * BitAnd(w / 2, Pow(2, j - 1))
  {
    if j > 0 {
      assert Pow(2, j) % 2 == 0 && Pow(2, j) / 2 == Pow(2, j - 1);
      if w == 0 { assert BitAnd(0, Pow(2, j - 1)) == 0; }
    }
  }

  /** Setting bit i, seen from the lowest bit and from the half. */
  lemma {:induction false} OrShift(w: nat, i: nat)
    ensures BitOr(w, Pow(2, i)) % 2 == if i == 0 then 1 else w % 2
    ensures BitOr(w, Pow(2, i)) / 2 == if i == 0 then w / 2 else BitOr(w / 2, Pow(2, i - 1))
  {
    if i == 0 {
      assert BitOr(w / 2, 0) == w / 2;
    } else {
      assert Pow(2, i) % 2 == 0 && Pow(2, i) / 2 == Pow(2, i - 1);
      assert BitOr(0, Pow(2, i - 1)) == Pow(2, i - 1);
    }
  }

  /** Setting one bit sets that bit and changes no other. */
  lemma {:induction false} SetBit(w: nat, i: nat, j: nat)
    ensures BitAnd(BitOr(w, Pow(2, i)), Pow(2, j)) == Pow(2, j)
            <==> i == j || BitAnd(w, Pow(2, j)) == Pow(2, j)
    decreases j
  {
    OrShift(w, i);
    if j == 0 {
      LowBit(BitOr(w, Pow(2, i)));
      LowBit(w);
    } else {
      UpperBit(BitOr(w, Pow(2, i)), j);
      UpperBit(w, j);
      if i > 0 { SetBit(w / 2, i - 1, j - 1); }
    }
  }

  /** Bit j of a word is bit j - 1 of its half. */
  lemma UpperBit(w: nat, j: nat)
    requires j > 0
    ensures BitAnd(w, Pow(2, j)) == Pow(2, j) <==> BitAnd(w / 2, Pow(2, j - 1)) == Pow(2, j - 1)
  {
    BitAndZero(w, j);
  }

  lemma LowBit(w: nat)
    ensures BitAnd(w, Pow(2, 0)) == Pow(2, 0) <==> w % 2 == 1
  {
    if w != 0 { assert BitAnd(w / 2, 0) == 0; }
  }

  /** The packed words behave as a set of indices. */
  lemma ClaimedAfterSet(bitmap: Bitmap, index: nat, other: nat)
    ensures IsClaimed(SetClaimed(bitmap, index), other) <==> other == index || IsClaimed(bitmap, other)
  {
    if other / 256 == index / 256 {
      SetBit(WordAt(bitmap, index / 256), index % 256, other % 256);
    }
  }

  /** The flag of an index is bit index mod 256 of word index div 256. */
  lemma ClaimedIsBit(bitmap: Bitmap, index: nat)
    ensures IsClaimed(bitmap, index) <==> WordAt(bitmap, index / 256) / Pow(2, index % 256) % 2 == 1
  {
    BitIsQuotient(WordAt(bitmap, index / 256), index % 256);
  }

  lemma {:induction false} BitIsQuotient(w: nat, j: nat)
    ensures BitAnd(w, Pow(2, j)) == Pow(2, j) <==> w / Pow(2, j) % 2 == 1
  {
    if j == 0 {
      LowBit(w);
    } else {
      UpperBit(w, j);
      BitIsQuotient(w / 2, j - 1);
      HalfThenRest(w, Pow(2, j - 1));
    }
  }

  lemma HalfThenRest(w: nat, p: nat)
    requires 0 < p
    ensures w / (2 * p) == w / 2 / p
  {
    var q := w / 2 / p;
    assert w == 2 * (w / 2) + w % 2;
    assert w / 2 == q * p + w / 2 % p;
    assert q * (2 * p) == 2 * (q * p);
    FloorUnique(q, w, 2 * p);
  }

  /** Marking an index adds its bit to its own word, unless it was there, and leaves every other word alone. */
  lemma WordsAfterSet(bitmap: Bitmap, index: nat, w: nat)
    ensures WordAt(SetClaimed(bitmap, index), w)
            == WordAt(bitmap, w)
               + (if w == index / 256 && !IsClaimed(bitmap, index) then Pow(2, index % 256) else 0)
  {
    if w == index / 256 { OrAddsBit(WordAt(bitmap, w), index % 256); }
  }

  lemma {:induction false} OrAddsBit(w: nat, i: nat)
    ensures BitOr(w, Pow(2, i)) == w + if BitAnd(w, Pow(2, i)) == Pow(2, i) then 0 else Pow(2, i)
    decreases i
  {
    var r := BitOr(w, Pow(2, i));
    OrShift(w, i);
    assert r == 2 * (r / 2) + r % 2 && w == 2 * (w / 2) + w % 2;
    if i == 0 {
      LowBit(w);
    } else {
      UpperBit(w, i);
      OrAddsBit(w / 2, i - 1);
    }
  }

  lemma NothingClaimed(index: nat)
    ensures !IsClaimed(map[], index)
  {
    BitAndZero(0, index % 256);
  }

  /** A word never outgrows 256 bits. */
  lemma {:induction false} OrStaysInWord(w: nat, i: nat, k: nat)
    requires w < Pow(2, k) && i < k
    ensures BitOr(w, Pow(2, i)) < Pow(2, k)
    decreases k
  {
    OrShift(w, i);
    var half := Pow(2, k - 1);
    assert Pow(2, k) == 2 * half && w / 2 < half;
    if i > 0 { OrStaysInWord(w / 2, i - 1, k - 1); }
  }
}

/** The contract that pays out a distribution to whoever presents a valid claim. */
module Distributor {
  import opened Wrappers
  import opened Products
  import opened Bytes
  import opened Merkle
  import opened Balances
  import opened ClaimedBitmap

  type Account = b: Bytes | |b| == 20 witness seq(20, _ => 0)
  type Ledger = map<Account, nat>

  function BalanceOf(ledger: Ledger, a: Account): (r: nat)
  {
    if a in ledger then ledger[a] else 0
  }

  /** What is fixed at deployment: the root, the contract's own account, and the token's own rules on transfers. */
  datatype Deployment = Deployment(h: Hash, merkleRoot: Bytes, self: Account, permits: (Account, Uint256) -> bool)

  datatype State = State(claimedBitMap: Bitmap, ledger: Ledger)

  datatype ClaimCall = ClaimCall(index: Uint256, account: Account, amount: Uint256, proof: seq<Digest>)

  datatype Revert = AlreadyClaimed | InvalidProof | TransferFailed

  function Transferred(d: Deployment, ledger: Ledger, to: Account, amount: Uint256): (r: Option<Ledger>)
  {
    if BalanceOf(ledger, d.self) < amount || !d.permits(to, amount) then None
    else
      var debited := ledger[d.self := BalanceOf(ledger, d.self) - amount];
      Some(debited[to := BalanceOf(debited, to) + amount])
  }

  /** One call of claim: a new state, or a revert. */
  function ClaimStep(d: Deployment, s: State, c: ClaimCall): (r: Result<State, Revert>)
  {
    if IsClaimed(s.claimedBitMap, c.index) then Failure(AlreadyClaimed)
    else if !Accepts(d.h, c.index, c.account, c.amount, c.proof, d.merkleRoot) then Failure(InvalidProof)
    else match Transferred(d, s.ledger, c.account, c.amount)
      case None => Failure(TransferFailed)
      case Some(ledger) => Success(State(SetClaimed(s.claimedBitMap, c.index), ledger))
  }

  /** A reverted call leaves the state as it was. */
  function After(d: Deployment, s: State, c: ClaimCall): (r: State)
  {
    var step := ClaimStep(d, s, c);
    if step.Success? then step.value else s
  }

  function Run(d: Deployment, s: State, calls: seq<ClaimCall>): (r: State)
  {
    if calls == [] then s else After(d, Run(d, s, calls[..|calls| - 1]), calls[|calls| - 1])
  }

  class Token {
    var ledger: Ledger

    constructor (ledger: Ledger)
      ensures this.ledger == ledger
    {
      this.ledger := ledger;
    }

    method Transfer(d: Deployment, to: Account, amount: Uint256) returns (ok: bool)
      modifies this
      ensures var after := Transferred(d, old(ledger), to, amount);
              ok == after.Some? && ledger == if ok then after.value else old(ledger)
    {
      if BalanceOf(ledger, d.self) < amount || !d.permits(to, amount) { return false; }
      ledger := ledger[d.self := BalanceOf(ledger, d.self) - amount];
      ledger := ledger[to := BalanceOf(ledger, to) + amount];
      return true;
    }
  }

  class MerkleDistributor {
    const deployment: Deployment
    const token: Token
    var claimedBitMap: Bitmap

    constructor (deployment: Deployment, token: Token)
      ensures this.deployment == deployment && this.token == token && claimedBitMap == map[]
    {
      this.deployment, this.token, claimedBitMap := deployment, token, map[];
    }

    /** Pays a claim once; on a revert nothing has changed. */
    method Claim(c: ClaimCall) returns (r: Result<(), Revert>)
      modifies this, token
      ensures var step := ClaimStep(deployment, old(State(claimedBitMap, token.ledger)), c);
              && State(claimedBitMap, token.ledger) == After(deployment, old(State(claimedBitMap, token.ledger)), c)
              && r == if step.Success? then Success(()) else Failure(step.error)
    {
      var mask := Pow(2, c.index % 256);
      if BitAnd(WordAt(claimedBitMap, c.index / 256), mask) == mask { return Failure(AlreadyClaimed); }
      var node: Bytes := deployment.h(Pack(c.index, c.account, c.amount));
      var computed := node;
      for i := 0 to |c.proof|
        invariant computed == Fold(deployment.h, node, c.proof[..i])
      {
        assert c.proof[..i + 1][..i] == c.proof[..i];
        computed := if BytesLe(computed, c.proof[i]) then deployment.h(computed + c.proof[i])
                    else deployment.h(c.proof[i] + computed);
      }
      assert c.proof[..|c.proof|] == c.proof;
      if computed != deployment.merkleRoot { return Failure(InvalidProof); }
      var before := claimedBitMap;
      claimedBitMap := SetClaimed(claimedBitMap, c.index);
      var ok := token.Transfer(deployment, c.account, c.amount);
      if !ok {
        claimedBitMap := before;
        return Failure(TransferFailed);
      }
      return Success(());
    }
  }
}

/** What any sequence of claims, valid or not, can do to a distributor over a known list of entries. */
module DistributorRuns {
  import opened Wrappers
  import opened Bytes
  import opened Merkle
  import opened Balances
  import opened ClaimedBitmap
  import opened Distributor
  import BalanceMap

  ghost predicate Collides(d: Deployment, entries: BalanceList, c: ClaimCall)
  {
    ClaimCollides(d.h, entries, c.index, c.account, c.amount, c.proof)
  }

  /** None of the calls exhibits a hash collision with the tree. */
  ghost predicate NoCollisions(d: Deployment, entries: BalanceList, calls: seq<ClaimCall>)
  {
    forall i :: 0 <= i < |calls| ==> !Collides(d, entries, calls[i])
  }

  function Amounts(entries: seq<Balance>): (r: seq<nat>)
    ensures |r| == |entries| && forall i :: 0 <= i < |r| ==> r[i] == entries[i].amount
  {
    seq(|entries|, i requires 0 <= i < |entries| => entries[i].amount)
  }

  /** The amounts of the entries that belong to `a`, every other one counted as zero. */
  function AmountsOf(entries: seq<Balance>, a: Account): (r: seq<nat>)
    ensures |r| == |entries|
    ensures forall i :: 0 <= i < |r| ==> r[i] == if AddressBytes(entries[i].account) == a then entries[i].amount else 0
  {
    seq(|entries|, i requires 0 <= i < |entries| =>
      if AddressBytes(entries[i].account) == a then entries[i].amount else 0)
  }

  /** Of the first n amounts, the sum of those whose index is claimed. */
  function Paid(amounts: seq<nat>, bitmap: Bitmap, n: nat): (r: nat)
    requires n <= |amounts|
  {
    if n == 0 then 0
    else Paid(amounts, bitmap, n - 1) + (if IsClaimed(bitmap, n - 1) then amounts[n - 1] else 0)
  }

  lemma {:induction false} PaidNothing(amounts: seq<nat>, n: nat)
    requires n <= |amounts|
    ensures Paid(amounts, map[], n) == 0
  {
    if n > 0 {
      PaidNothing(amounts, n - 1);
      NothingClaimed(n - 1);
    }
  }

  /** Claiming index j adds exactly amount j to what has been paid. */
  lemma {:induction false} PaidAfterClaim(amounts: seq<nat>, bitmap: Bitmap, j: nat, n: nat)
    requires n <= |amounts| && j < |amounts| && !IsClaimed(bitmap, j)
    ensures Paid(amounts, SetClaimed(bitmap, j), n)
            == Paid(amounts, bitmap, n) + (if j < n then amounts[j] else 0)
  {
    if n > 0 {
      PaidAfterClaim(amounts, bitmap, j, n - 1);
      ClaimedAfterSet(bitmap, j, n - 1);
    }
  }

  /** What is paid plus what entry j is still owed fits in the total. */
  lemma {:induction false} OwedFits(entries: seq<Balance>, bitmap: Bitmap, j: nat, n: nat)
    requires n <= |entries| && j < |entries|
    ensures Paid(Amounts(entries), bitmap, n) + (if j < n && !IsClaimed(bitmap, j) then entries[j].amount else 0)
            <= BalanceMap.Total(entries[..n])
  {
    if n > 0 {
      OwedFits(entries, bitmap, j, n - 1);
      assert entries[..n][..n - 1] == entries[..n - 1];
    }
  }

  /** Exact accounting of a state reached from an opening ledger: every balance is explained by the indices claimed. */
  ghost predicate Accounted(d: Deployment, entries: BalanceList, opening: Ledger, s: State)
  {
    && (forall i: nat :: IsClaimed(s.claimedBitMap, i) ==> i < |entries|)
    && (forall a: Account :: BalanceOf(s.ledger, a) == Expected(d, entries, opening, s.claimedBitMap, a))
  }

  function Expected(d: Deployment, entries: BalanceList, opening: Ledger, bitmap: Bitmap, a: Account): (r: int)
  {
    var received := Paid(AmountsOf(entries, a), bitmap, |entries|);
    var spent := if a == d.self then Paid(Amounts(entries), bitmap, |entries|) else 0;
    BalanceOf(opening, a) + received - spent
  }

  /** A call that goes through, without a collision, pays its own entry: right index, right account, right amount. */
  lemma SuccessfulClaimIsEntry(d: Deployment, entries: BalanceList, s: State, c: ClaimCall)
    requires entries != [] && d.merkleRoot == BalanceRoot(d.h, entries) && !Collides(d, entries, c)
    requires ClaimStep(d, s, c).Success?
    ensures IsEntry(entries, c.index, c.account, c.amount) && !IsClaimed(s.claimedBitMap, c.index)
  {
    AcceptedIsEntry(d.h, entries, c.index, c.account, c.amount, c.proof);
  }

  /**
   Why a call is refused: its index is claimed, whatever else is wrong with it; or it is not an entry, unless it
   exhibits a collision; or it is an entry's own claim and the transfer cannot be made.
   */
  lemma RefusalReasons(d: Deployment, entries: BalanceList, s: State, c: ClaimCall)
    requires entries != [] && d.merkleRoot == BalanceRoot(d.h, entries) && !Collides(d, entries, c)
    ensures ClaimStep(d, s, c) == Failure(AlreadyClaimed) <==> IsClaimed(s.claimedBitMap, c.index)
    ensures !IsClaimed(s.claimedBitMap, c.index) && !IsEntry(entries, c.index, c.account, c.amount) ==>
              ClaimStep(d, s, c) == Failure(InvalidProof)
    ensures !IsClaimed(s.claimedBitMap, c.index) && IsEntry(entries, c.index, c.account, c.amount)
            && BalanceProof(d.h, entries, c.index, entries[c.index].account, c.amount) == Some(c.proof)
            && !(d.permits(c.account, c.amount) && BalanceOf(s.ledger, d.self) >= c.amount) ==>
              ClaimStep(d, s, c) == Failure(TransferFailed)
  {
    if !IsEntry(entries, c.index, c.account, c.amount) {
      if ClaimStep(d, s, c).Success? { SuccessfulClaimIsEntry(d, entries, s, c); }
      if Accepts(d.h, c.index, c.account, c.amount, c.proof, d.merkleRoot) {
        AcceptedIsEntry(d.h, entries, c.index, c.account, c.amount, c.proof);
      }
    } else {
      EntryIsAccepted(d.h, entries, c.index, entries[c.index].account, c.amount);
      TransferMoves(d, s.ledger, c.account, c.amount, d.self);
    }
  }

  lemma StepKeepsAccounts(d: Deployment, entries: BalanceList, opening: Ledger, s: State, c: ClaimCall)
    requires entries != [] && d.merkleRoot == BalanceRoot(d.h, entries) && !Collides(d, entries, c)
    requires Accounted(d, entries, opening, s)
    ensures Accounted(d, entries, opening, After(d, s, c))
  {
    var step := ClaimStep(d, s, c);
    if step.Success? {
      SuccessfulClaimIsEntry(d, entries, s, c);
      TransferKeepsAccounts(d, entries, opening, s, c.index, step.value);
    }
  }

  lemma TransferKeepsAccounts(
    d: Deployment, entries: BalanceList, opening: Ledger, s: State, j: nat, s': State)
    requires j < |entries| && !IsClaimed(s.claimedBitMap, j) && Accounted(d, entries, opening, s)
    requires Transferred(d, s.ledger, AddressBytes(entries[j].account), entries[j].amount) == Some(s'.ledger)
    requires s'.claimedBitMap == SetClaimed(s.claimedBitMap, j)
    ensures Accounted(d, entries, opening, s')
  {
    forall i: nat | IsClaimed(s'.claimedBitMap, i) ensures i < |entries| {
      ClaimedAfterSet(s.claimedBitMap, j, i);
    }
    forall a: Account ensures BalanceOf(s'.ledger, a) == Expected(d, entries, opening, s'.claimedBitMap, a) {
      ExpectedAfterClaim(d, entries, opening, s.claimedBitMap, j, a);
      TransferMoves(d, s.ledger, AddressBytes(entries[j].account), entries[j].amount, a);
      assert BalanceOf(s.ledger, a) == Expected(d, entries, opening, s.claimedBitMap, a);
    }
  }

  /** What an account should hold moves with the claim just as a transfer of the entry's amount moves it. */
  lemma ExpectedAfterClaim(d: Deployment, entries: BalanceList, opening: Ledger, bitmap: Bitmap, j: nat, a: Account)
    requires j < |entries| && !IsClaimed(bitmap, j)
    ensures var amount := entries[j].amount;
            Expected(d, entries, opening, SetClaimed(bitmap, j), a)
            == Expected(d, entries, opening, bitmap, a)
               + (if a == AddressBytes(entries[j].account) then amount else 0) - (if a == d.self then amount else 0)
  {
    PaidAfterClaim(Amounts(entries), bitmap, j, |entries|);
    PaidAfterClaim(AmountsOf(entries, a), bitmap, j, |entries|);
  }

  /** A permitted and funded transfer moves the amount to the recipient, who may be the contract itself. */
  lemma TransferMoves(d: Deployment, ledger: Ledger, to: Account, amount: Uint256, a: Account)
    ensures Transferred(d, ledger, to, amount).Some? <==> d.permits(to, amount) && BalanceOf(ledger, d.self) >= amount
    ensures Transferred(d, ledger, to, amount).Some? ==>
              BalanceOf(Transferred(d, ledger, to, amount).value, a)
              == BalanceOf(ledger, a) + (if a == to then amount else 0) - (if a == d.self then amount else 0)
  {
  }

  /**
   Exact accounting over every run: whatever calls are made, in whatever order, as long as none of them
   exhibits a hash collision, each account holds its opening balance plus exactly its claimed entries, each counted
   once.
   */
  lemma {:induction false} RunKeepsAccounts(d: Deployment, entries: BalanceList, opening: Ledger, calls: seq<ClaimCall>)
    requires entries != [] && d.merkleRoot == BalanceRoot(d.h, entries) && NoCollisions(d, entries, calls)
    ensures Accounted(d, entries, opening, Run(d, State(map[], opening), calls))
  {
    if calls == [] {
      forall i: nat ensures !IsClaimed(map[], i) { NothingClaimed(i); }
      forall a: Account ensures BalanceOf(opening, a) == Expected(d, entries, opening, map[], a) {
        PaidNothing(Amounts(entries), |entries|);
        PaidNothing(AmountsOf(entries, a), |entries|);
      }
    } else {
      var n := |calls| - 1;
      RunKeepsAccounts(d, entries, opening, calls[..n]);
      StepKeepsAccounts(d, entries, opening, Run(d, State(map[], opening), calls[..n]), calls[n]);
    }
  }

  /** Claimed indices stay claimed, over any further calls. */
  lemma {:induction false} ClaimedForEver(d: Deployment, s: State, calls: seq<ClaimCall>, i: nat)
    requires IsClaimed(s.claimedBitMap, i)
    ensures IsClaimed(Run(d, s, calls).claimedBitMap, i)
  {
    if calls != [] {
      var n := |calls| - 1;
      ClaimedForEver(d, s, calls[..n], i);
      ClaimedAfterSet(Run(d, s, calls[..n]).claimedBitMap, calls[n].index, i);
    }
  }

  /** Call number n of a run goes through and pays index i. */
  predicate PaidBy(d: Deployment, opening: Ledger, calls: seq<ClaimCall>, i: nat, n: int)
  {
    && 0 <= n < |calls| && calls[n].index == i
    && ClaimStep(d, Run(d, State(map[], opening), calls[..n]), calls[n]).Success?
  }

  /** At the end of any run exactly those indices are claimed that some call of it has paid. */
  lemma {:induction false} ClaimedIsPaid(d: Deployment, opening: Ledger, calls: seq<ClaimCall>, i: nat)
    ensures IsClaimed(Run(d, State(map[], opening), calls).claimedBitMap, i)
            <==> exists n :: PaidBy(d, opening, calls, i, n)
  {
    if calls == [] {
      NothingClaimed(i);
    } else {
      var last := |calls| - 1;
      ClaimedIsPaid(d, opening, calls[..last], i);
      LastCallPays(d, opening, calls, i);
      if n :| PaidBy(d, opening, calls[..last], i, n) { PaidInPrefix(d, opening, calls, i, n); }
      if n :| PaidBy(d, opening, calls, i, n) {
        if n < last { PaidInPrefix(d, opening, calls, i, n); }
      }
    }
  }

  lemma LastCallPays(d: Deployment, opening: Ledger, calls: seq<ClaimCall>, i: nat)
    requires calls != []
    ensures IsClaimed(Run(d, State(map[], opening), calls).claimedBitMap, i)
            <==> IsClaimed(Run(d, State(map[], opening), calls[..|calls| - 1]).claimedBitMap, i)
                 || PaidBy(d, opening, calls, i, |calls| - 1)
  {
    var last := |calls| - 1;
    ClaimedAfterSet(Run(d, State(map[], opening), calls[..last]).claimedBitMap, calls[last].index, i);
  }

  lemma PaidInPrefix(d: Deployment, opening: Ledger, calls: seq<ClaimCall>, i: nat, n: int)
    requires 0 <= n < |calls| - 1
    ensures PaidBy(d, opening, calls[..|calls| - 1], i, n) <==> PaidBy(d, opening, calls, i, n)
  {
    assert calls[..|calls| - 1][..n] == calls[..n];
  }

  /** No index is paid by two calls of a run. */
  lemma PaidOnce(d: Deployment, opening: Ledger, calls: seq<ClaimCall>, i: nat, n: nat, n': nat)
    requires PaidBy(d, opening, calls, i, n) && PaidBy(d, opening, calls, i, n')
    ensures n == n'
  {
    if n < n' {
      PaidEarlier(d, opening, calls, i, n, n');
    } else if n' < n {
      PaidEarlier(d, opening, calls, i, n', n);
    }
  }

  lemma PaidEarlier(d: Deployment, opening: Ledger, calls: seq<ClaimCall>, i: nat, n: nat, n': nat)
    requires PaidBy(d, opening, calls, i, n) && n < n' < |calls| && calls[n'].index == i
    ensures !PaidBy(d, opening, calls, i, n')
  {
    assert calls[..n'][..n] == calls[..n];
    assert PaidBy(d, opening, calls[..n'], i, n);
    ClaimedIsPaid(d, opening, calls[..n'], i);
  }

  /** A distribution can pay out at most its total, and the contract always keeps enough for what is still unclaimed. */
  lemma FundsCoverUnclaimed(d: Deployment, entries: BalanceList, opening: Ledger, s: State, j: nat)
    requires Accounted(d, entries, opening, s) && j < |entries| && !IsClaimed(s.claimedBitMap, j)
    requires BalanceOf(opening, d.self) >= BalanceMap.Total(entries)
    ensures BalanceOf(s.ledger, d.self) >= entries[j].amount
  {
    OwedFits(entries, s.claimedBitMap, j, |entries|);
    assert entries[..|entries|] == entries;
    assert BalanceOf(s.ledger, d.self) == Expected(d, entries, opening, s.claimedBitMap, d.self);
  }

  /**
   Nobody can be shut out: after any collision-free run on a funded distributor, an entry not yet claimed can be
   claimed with the proof the tree hands out, if the token permits the transfer, and it is then marked claimed.
   */
  lemma UnclaimedEntryCanBeClaimed(
    d: Deployment, entries: BalanceList, opening: Ledger, calls: seq<ClaimCall>, j: nat, proof: seq<Digest>)
    requires entries != [] && d.merkleRoot == BalanceRoot(d.h, entries) && NoCollisions(d, entries, calls)
    requires BalanceOf(opening, d.self) >= BalanceMap.Total(entries)
    requires j < |entries| && d.permits(AddressBytes(entries[j].account), entries[j].amount)
    requires BalanceProof(d.h, entries, j, entries[j].account, entries[j].amount) == Some(proof)
    ensures var s := Run(d, State(map[], opening), calls);
            var c := ClaimCall(j, AddressBytes(entries[j].account), entries[j].amount, proof);
            && (ClaimStep(d, s, c).Success? <==> !IsClaimed(s.claimedBitMap, j))
            && IsClaimed(After(d, s, c).claimedBitMap, j)
  {
    var s := Run(d, State(map[], opening), calls);
    var c := ClaimCall(j, AddressBytes(entries[j].account), entries[j].amount, proof);
    RunKeepsAccounts(d, entries, opening, calls);
    EntryIsAccepted(d.h, entries, j, entries[j].account, entries[j].amount);
    if !IsClaimed(s.claimedBitMap, j) {
      FundsCoverUnclaimed(d, entries, opening, s, j);
    }
    ValidClaimGoesThrough(d, s, c);
  }

  /** A permitted, funded claim with an accepted proof succeeds exactly when its index is unclaimed. */
  lemma ValidClaimGoesThrough(d: Deployment, s: State, c: ClaimCall)
    requires Accepts(d.h, c.index, c.account, c.amount, c.proof, d.merkleRoot) && d.permits(c.account, c.amount)
    requires !IsClaimed(s.claimedBitMap, c.index) ==> BalanceOf(s.ledger, d.self) >= c.amount
    ensures ClaimStep(d, s, c).Success? <==> !IsClaimed(s.claimedBitMap, c.index)
    ensures IsClaimed(After(d, s, c).claimedBitMap, c.index)
  {
    ClaimedAfterSet(s.claimedBitMap, c.index, c.index);
  }

  /** Over any collision-free run the contract pays out at most the total of its entries. */
  lemma OutflowAtMostTotal(d: Deployment, entries: BalanceList, opening: Ledger, calls: seq<ClaimCall>)
    requires entries != [] && d.merkleRoot == BalanceRoot(d.h, entries) && NoCollisions(d, entries, calls)
    ensures BalanceOf(opening, d.self) - BalanceOf(Run(d, State(map[], opening), calls).ledger, d.self)
            <= BalanceMap.Total(entries)
  {
    var s := Run(d, State(map[], opening), calls);
    RunKeepsAccounts(d, entries, opening, calls);
    OwedFits(entries, s.claimedBitMap, 0, |entries|);
    assert entries[..|entries|] == entries;
    assert BalanceOf(s.ledger, d.self) == Expected(d, entries, opening, s.claimedBitMap, d.self);
  }

  /** The published claim of an address is the tree's own proof for its entry. */
  lemma PublishedClaim(h: Hash, list: BalanceMap.DistributionList, a: Address) returns (j: nat)
    requires BalanceMap.Distributable(list) && a in BalanceMap.Info(h, list).claims
    ensures var entries := BalanceMap.Entries(list);
            var claim := BalanceMap.Info(h, list).claims[a];
            && j < |entries| && entries[j].account == a && claim.index == j && claim.amount == entries[j].amount
            && BalanceProof(h, entries, j, a, entries[j].amount) == Some(claim.proof)
  {
    var entries := BalanceMap.Entries(list);
    BalanceMap.EntriesAreDistinct(list);
    j := BalanceMap.OnlyAccountsStored(entries, BalanceMap.Claims(h, entries), |list|, a);
    BalanceMap.StoredByAccount(entries, BalanceMap.Claims(h, entries), |list|, j);
    EntryIsAccepted(h, entries, j, entries[j].account, entries[j].amount);
  }

  /**
   End to end, from the published balance list to the last payout. Take a distributable list, a distributor
   deployed with its published root and funded with its published total, and any calls without a hash collision.
   Then no more than the total has left the contract, and every listed address can at any moment still collect
   with its published claim, for exactly its earnings, unless its index is already marked claimed.
   */
  lemma PublishedDistributionPaysOut(
    d: Deployment, list: BalanceMap.DistributionList, opening: Ledger, calls: seq<ClaimCall>,
    info: BalanceMap.DistributorInfo, a: Address, proof: seq<Digest>)
    requires BalanceMap.Distributable(list) && info == BalanceMap.Info(d.h, list)
    requires d.merkleRoot == info.merkleRoot && BalanceOf(opening, d.self) >= info.tokenTotal
    requires NoCollisions(d, BalanceMap.Entries(list), calls)
    requires a in info.claims && info.claims[a].proof == proof && d.permits(AddressBytes(a), info.claims[a].amount)
    ensures var s := Run(d, State(map[], opening), calls);
            var c := ClaimCall(info.claims[a].index, AddressBytes(a), info.claims[a].amount, proof);
            && BalanceOf(opening, d.self) - BalanceOf(s.ledger, d.self) <= info.tokenTotal
            && (ClaimStep(d, s, c).Success? <==> !IsClaimed(s.claimedBitMap, c.index))
            && IsClaimed(After(d, s, c).claimedBitMap, c.index)
  {
    var entries := BalanceMap.Entries(list);
    InfoParts(d.h, list);
    var j := PublishedClaim(d.h, list, a);
    OutflowAtMostTotal(d, entries, opening, calls);
    UnclaimedEntryCanBeClaimed(d, entries, opening, calls, j, proof);
  }

  lemma InfoParts(h: Hash, list: BalanceMap.DistributionList)
    requires BalanceMap.Distributable(list)
    ensures BalanceMap.Info(h, list).merkleRoot == BalanceRoot(h, BalanceMap.Entries(list))
    ensures BalanceMap.Info(h, list).tokenTotal == BalanceMap.Total(BalanceMap.Entries(list))
  {
  }
}
