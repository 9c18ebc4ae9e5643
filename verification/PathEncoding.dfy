/** The hexadecimal encoding of a multi-hop swap path: addresses with a three-byte fee between neighbours. */
module PathEncoding {
  import opened Wrappers
  import opened Bytes
  import opened Products

  const FEE_SIZE: nat := 6

  function HexDigit(n: int): (r: char)
    requires 0 <= n < 16
    ensures IsHexDigit(r) && HexValue(r) == n && LowerChar(r) == r
  {
    if n < 10 then '0' + n as char else 'a' + (n - 10) as char
  }

  function HexDigits(n: nat): (r: string)
  {
    if n == 0 then "" else HexDigits(n / 16) + [HexDigit(n % 16)]
  }

  /** Whole bytes: an even number of digits, and at least one byte. */
  function WholeBytes(digits: string): (r: string)
  {
    if digits == "" then "00" else if |digits| % 2 == 1 then "0" + digits else digits
  }

  function Hexlify(n: nat): (r: string)
  {
    "0x" + WholeBytes(HexDigits(n))
  }

  /** Everything after the first two characters, and nothing where there are no more than that. */
  function SliceFrom2(s: string): (r: string)
    ensures |r| == if |s| < 2 then 0 else |s| - 2
    ensures forall i :: 0 <= i < |r| ==> r[i] == s[i + 2]
  {
    if |s| < 2 then "" else s[2..]
  }

  function Zeros(n: nat): (r: string)
    ensures |r| == n
  {
    seq(n, _ => '0')
  }

  function PadStart(s: string, n: nat): (r: string)
  {
    if |s| >= n then s else Zeros(n - |s|) + s
  }

  function FeeHex(fee: nat): (r: string)
  {
    PadStart(SliceFrom2(Hexlify(fee)), FEE_SIZE)
  }

  function LowerChar(c: char): (r: char)
  {
    if 'A' <= c <= 'Z' then c - 'A' + 'a' else c
  }

  function Lower(s: string): (r: string)
    ensures |r| == |s| && forall i :: 0 <= i < |s| ==> r[i] == LowerChar(s[i])
  {
    seq(|s|, i requires 0 <= i < |s| => LowerChar(s[i]))
  }

  /** Everything after the leading "0x". */
  function Body(path: seq<string>, fees: seq<nat>): (r: string)
    requires |path| == |fees| + 1
  {
    if fees == [] then SliceFrom2(path[0]) else SliceFrom2(path[0]) + (FeeHex(fees[0]) + Body(path[1..], fees[1..]))
  }

  function Encoded(path: seq<string>, fees: seq<nat>): (r: string)
    requires |path| == |fees| + 1
  {
    Lower("0x" + Body(path, fees))
  }

  /** Path and fee lengths that do not match make the source throw. */
  method EncodePath(path: seq<string>, fees: seq<nat>) returns (r: Option<string>)
    ensures r.None? <==> |path| != |fees| + 1
    ensures r.Some? ==> r.value == Encoded(path, fees)
  {
    if |path| != |fees| + 1 { return None; }
    var encoded := "0x";
    ghost var whole := "0x" + Body(path, fees);
    assert path[0..] == path && fees[0..] == fees;
    for i := 0 to |fees|
      invariant encoded + Body(path[i..], fees[i..]) == whole
    {
      BodySplit(path, fees, i);
      Reassociate(encoded, SliceFrom2(path[i]), FeeHex(fees[i]), Body(path[i + 1..], fees[i + 1..]));
      encoded := encoded + SliceFrom2(path[i]);
      var fee := SliceFrom2(Hexlify(fees[i]));
      encoded := encoded + PadStart(fee, FEE_SIZE);
    }
    BodyEnd(path, fees);
    encoded := encoded + SliceFrom2(path[|path| - 1]);
    return Some(Lower(encoded));
  }

  lemma BodySplit(path: seq<string>, fees: seq<nat>, i: nat)
    requires |path| == |fees| + 1 && i < |fees|
    ensures Body(path[i..], fees[i..])
            == SliceFrom2(path[i]) + (FeeHex(fees[i]) + Body(path[i + 1..], fees[i + 1..]))
  {
    assert path[i..][1..] == path[i + 1..] && fees[i..][1..] == fees[i + 1..];
    assert path[i..][0] == path[i] && fees[i..][0] == fees[i];
  }

  lemma BodyEnd(path: seq<string>, fees: seq<nat>)
    requires |path| == |fees| + 1
    ensures Body(path[|fees|..], fees[|fees|..]) == SliceFrom2(path[|path| - 1])
  {
    assert fees[|fees|..] == [] && path[|fees|..][0] == path[|path| - 1];
  }

  lemma Reassociate(a: string, b: string, c: string, d: string)
    ensures a + (b + (c + d)) == a + b + c + d
  {
  }

  // ----- a reader for the format

  datatype Hops = Hops(path: seq<string>, fees: seq<nat>)

  /** Twenty bytes of address, then as often as anything is left three bytes of fee and another address. */
  function DecodeBody(s: string): (r: Option<Hops>)
  {
    if |s| < 40 || !AllHex(s) then None
    else if |s| == 40 then Some(Hops(["0x" + s], []))
    else if |s| < 46 then None
    else
      var rest := DecodeBody(s[46..]);
      if rest.None? then None
      else Some(Hops(["0x" + s[..40]] + rest.value.path, [ParseHex(s[40..46])] + rest.value.fees))
  }

  function Decode(s: string): (r: Option<Hops>)
  {
    if |s| < 2 || s[..2] != "0x" then None else DecodeBody(s[2..])
  }

  // ----- digits

  /** Reading the digits of a number gives it back. */
  lemma {:induction false} DigitsParse(n: nat)
    ensures AllHex(HexDigits(n)) && ParseHex(HexDigits(n)) == n
    ensures Lower(HexDigits(n)) == HexDigits(n)
  {
    if n > 0 {
      DigitsParse(n / 16);
      var d := HexDigits(n);
      assert d[..|d| - 1] == HexDigits(n / 16);
    }
  }

  lemma {:induction false} DigitsLength(n: nat, k: nat)
    ensures |HexDigits(n)| <= k <==> n < Pow(16, k)
  {
    if n > 0 {
      if k > 0 { DigitsLength(n / 16, k - 1); }
    }
  }

  lemma {:induction false} LeadingZeros(z: nat, s: string)
    requires AllHex(s)
    ensures AllHex(Zeros(z) + s) && ParseHex(Zeros(z) + s) == ParseHex(s)
    decreases |s| + z
  {
    var t := Zeros(z) + s;
    if s == "" {
      if z > 0 {
        LeadingZeros(z - 1, "");
        assert t[..|t| - 1] == Zeros(z - 1) + "";
      } else {
        assert t == "";
      }
    } else {
      LeadingZeros(z, s[..|s| - 1]);
      assert t[..|t| - 1] == Zeros(z) + s[..|s| - 1];
    }
  }

  /** The fee field holds the digits behind leading zeros, six characters exactly when the fee fits three bytes. */
  lemma FeeField(fee: nat)
    ensures AllHex(FeeHex(fee)) && ParseHex(FeeHex(fee)) == fee && Lower(FeeHex(fee)) == FeeHex(fee)
    ensures |FeeHex(fee)| >= 6
    ensures |FeeHex(fee)| == 6 <==> fee < 0x100_0000
  {
    DigitsParse(fee);
    DigitsLength(fee, 6);
    assert Pow(16, 6) == 0x100_0000 by { assert Pow(16, 3) == 0x1000; }
    var z := FeePadding(fee);
    PaddedDigits(FeeHex(fee), z, HexDigits(fee));
  }

  /** The field is whole bytes, and beyond three of them no more than the fee needs. */
  lemma FeeIsWholeBytes(fee: nat)
    ensures |FeeHex(fee)| % 2 == 0 && (|FeeHex(fee)| > 6 ==> fee >= Pow(16, |FeeHex(fee)| - 2))
  {
    var z := FeePadding(fee);
    if |FeeHex(fee)| > 6 { DigitsLength(fee, |FeeHex(fee)| - 2); }
  }

  /** Leading zeros change neither the value nor the letter case of a digit string. */
  lemma PaddedDigits(field: string, z: nat, digits: string)
    requires field == Zeros(z) + digits && AllHex(digits) && Lower(digits) == digits
    ensures AllHex(field) && ParseHex(field) == ParseHex(digits) && Lower(field) == field
  {
    LeadingZeros(z, digits);
    LowerConcat(Zeros(z), digits);
    assert Lower(Zeros(z)) == Zeros(z);
  }

  lemma FeePadding(fee: nat) returns (z: nat)
    ensures FeeHex(fee) == Zeros(z) + HexDigits(fee)
    ensures |FeeHex(fee)| >= 6 && (|FeeHex(fee)| == 6 <==> |HexDigits(fee)| <= 6)
    ensures |FeeHex(fee)| % 2 == 0 && (|FeeHex(fee)| > 6 ==> |HexDigits(fee)| > |FeeHex(fee)| - 2)
  {
    var digits := HexDigits(fee);
    assert SliceFrom2("0x" + WholeBytes(digits)) == WholeBytes(digits);
    z := Padding(digits);
  }

  /** Both paddings together are zeros in front: to an even number of digits, then to six. */
  lemma Padding(digits: string) returns (z: nat)
    ensures var field := PadStart(WholeBytes(digits), FEE_SIZE);
            && field == Zeros(z) + digits && |field| >= 6 && (|field| == 6 <==> |digits| <= 6)
            && |field| % 2 == 0 && (|field| > 6 ==> |digits| > |field| - 2)
  {
    var even := WholeBytes(digits);
    var z0 := |even| - |digits|;
    assert even == Zeros(z0) + digits;
    z := |PadStart(even, FEE_SIZE)| - |digits|;
    assert PadStart(even, FEE_SIZE) == Zeros(z) + digits;
  }

  lemma LowerConcat(a: string, b: string)
    ensures Lower(a + b) == Lower(a) + Lower(b)
  {
  }

  /** An address keeps its length and its digits when lower-cased. */
  lemma AddressField(a: Address)
    ensures |Lower(SliceFrom2(a))| == 40 && AllHex(Lower(SliceFrom2(a)))
    ensures "0x" + Lower(SliceFrom2(a)) == Lower(a)
  {
    forall i | 0 <= i < 40 ensures IsHexDigit(Lower(SliceFrom2(a))[i]) {
      assert SliceFrom2(a)[i] == a[i + 2];
    }
  }

  function LowerAll(path: seq<string>): (r: seq<string>)
    ensures |r| == |path| && forall i :: 0 <= i < |r| ==> r[i] == Lower(path[i])
  {
    seq(|path|, i requires 0 <= i < |path| => Lower(path[i]))
  }

  ghost predicate FeesFit(fees: seq<nat>)
  {
    forall i :: 0 <= i < |fees| ==> fees[i] < 0x100_0000
  }

  // ----- letter case

  /** Lower-casing leaves no capital, and changes nothing but capitals: letters one case down, in alphabetical order. */
  lemma LowerCaseLetter(c: char)
    ensures !('A' <= LowerChar(c) <= 'Z')
    ensures !('A' <= c <= 'Z') ==> LowerChar(c) == c
    ensures 'A' <= c <= 'Z' ==>
              "abcdefghijklmnopqrstuvwxyz"[c as int - 'A' as int] == LowerChar(c)
              && "ABCDEFGHIJKLMNOPQRSTUVWXYZ"[c as int - 'A' as int] == c
    ensures IsHexDigit(c) ==> IsHexDigit(LowerChar(c)) && HexValue(LowerChar(c)) == HexValue(c)
  {
  }

  /** An encoding has no capital letters, and an address in it stands for the same number as before. */
  lemma EncodingIsLowerCase(path: seq<string>, fees: seq<nat>, i: nat)
    requires |path| == |fees| + 1 && i < |Encoded(path, fees)|
    ensures !('A' <= Encoded(path, fees)[i] <= 'Z')
  {
    LowerCaseLetter(("0x" + Body(path, fees))[i]);
  }

  lemma {:induction false} LowerKeepsNumber(s: string)
    requires AllHex(s)
    ensures AllHex(Lower(s)) && ParseHex(Lower(s)) == ParseHex(s)
  {
    if s != "" {
      var n := |s| - 1;
      LowerKeepsNumber(s[..n]);
      LowerCaseLetter(s[n]);
      assert Lower(s)[..n] == Lower(s[..n]);
    }
  }

  // ----- length and round trip

  lemma FeesFitSplit(fees: seq<nat>)
    requires fees != []
    ensures FeesFit(fees) <==> fees[0] < 0x100_0000 && FeesFit(fees[1..])
  {
    assert fees == [fees[0]] + fees[1..];
  }

  lemma FeeLength(fee: nat)
    ensures |FeeHex(fee)| >= 6 && (|FeeHex(fee)| == 6 <==> fee < 0x100_0000)
  {
    FeeField(fee);
  }

  lemma {:induction false} BodyLength(path: seq<Address>, fees: seq<nat>)
    requires |path| == |fees| + 1
    ensures |Body(path, fees)| >= 40 * |path| + 6 * |fees|
    ensures |Body(path, fees)| == 40 * |path| + 6 * |fees| <==> FeesFit(fees)
    decreases |fees|
  {
    if fees != [] {
      BodyLength(path[1..], fees[1..]);
      FeeLength(fees[0]);
      FeesFitSplit(fees);
    }
  }

  /** The encoding has its fixed length exactly when every fee fits in three bytes. */
  lemma EncodedLength(path: seq<Address>, fees: seq<nat>)
    requires |path| == |fees| + 1
    ensures |Encoded(path, fees)| == 2 + 40 * |path| + 6 * |fees| <==> FeesFit(fees)
  {
    BodyLength(path, fees);
  }

  /** Lower-casing leaves the fee fields alone. */
  lemma LowerBody(path: seq<string>, fees: seq<nat>)
    requires |path| == |fees| + 1 && fees != []
    ensures Lower(Body(path, fees))
            == Lower(SliceFrom2(path[0])) + (FeeHex(fees[0]) + Lower(Body(path[1..], fees[1..])))
  {
    FeeField(fees[0]);
    LowerConcat(SliceFrom2(path[0]), FeeHex(fees[0]) + Body(path[1..], fees[1..]));
    LowerConcat(FeeHex(fees[0]), Body(path[1..], fees[1..]));
  }

  lemma {:induction false} BodyDecodes(path: seq<Address>, fees: seq<nat>)
    requires |path| == |fees| + 1 && FeesFit(fees)
    ensures AllHex(Lower(Body(path, fees)))
    ensures DecodeBody(Lower(Body(path, fees))) == Some(Hops(LowerAll(path), fees))
    decreases |fees|
  {
    if fees == [] {
      LastAddressDecodes(path[0]);
      LowerAllSplit(path);
    } else {
      FeesFitSplit(fees);
      BodyDecodes(path[1..], fees[1..]);
      LowerBody(path, fees);
      HopInFront(path, fees, Lower(Body(path[1..], fees[1..])));
    }
  }

  /** One address and one fee in front of a body that already reads back. */
  lemma HopInFront(path: seq<Address>, fees: seq<nat>, rest: string)
    requires path != [] && fees != [] && fees[0] < 0x100_0000
    requires AllHex(rest) && DecodeBody(rest) == Some(Hops(LowerAll(path[1..]), fees[1..]))
    ensures AllHex(Lower(SliceFrom2(path[0])) + (FeeHex(fees[0]) + rest))
    ensures DecodeBody(Lower(SliceFrom2(path[0])) + (FeeHex(fees[0]) + rest)) == Some(Hops(LowerAll(path), fees))
  {
    LowerAllSplit(path);
    assert fees == [fees[0]] + fees[1..];
    FirstHopDecodes(path[0], fees[0], rest, LowerAll(path[1..]), fees[1..], Hops(LowerAll(path), fees));
  }

  lemma LowerAllSplit(path: seq<string>)
    requires path != []
    ensures LowerAll(path) == [Lower(path[0])] + LowerAll(path[1..])
    ensures |path| == 1 ==> LowerAll(path) == [Lower(path[0])]
  {
  }

  lemma LastAddressDecodes(a: Address)
    ensures AllHex(Lower(SliceFrom2(a))) && DecodeBody(Lower(SliceFrom2(a))) == Some(Hops([Lower(a)], []))
  {
    AddressField(a);
  }

  lemma FirstHopDecodes(a: Address, fee: nat, rest: string, path: seq<string>, fees: seq<nat>, whole: Hops)
    requires fee < 0x100_0000 && AllHex(rest) && DecodeBody(rest) == Some(Hops(path, fees))
    requires whole.path == [Lower(a)] + path && whole.fees == [fee] + fees
    ensures AllHex(Lower(SliceFrom2(a)) + (FeeHex(fee) + rest))
    ensures DecodeBody(Lower(SliceFrom2(a)) + (FeeHex(fee) + rest)) == Some(whole)
  {
    AddressField(a);
    FeeField(fee);
    DecodeHop(Lower(SliceFrom2(a)), FeeHex(fee), rest);
  }

  /** The reader takes one address and one fee off the front. */
  lemma DecodeHop(a: string, fee: string, rest: string)
    requires |a| == 40 && |fee| == 6 && AllHex(a) && AllHex(fee) && AllHex(rest)
    requires DecodeBody(rest).Some?
    ensures AllHex(a + (fee + rest))
    ensures DecodeBody(a + (fee + rest))
            == Some(Hops(["0x" + a] + DecodeBody(rest).value.path, [ParseHex(fee)] + DecodeBody(rest).value.fees))
  {
    var s := a + (fee + rest);
    assert s[..40] == a && s[40..46] == fee && s[46..] == rest;
  }

  /** Round trip: reading an encoded path gives back its fees and its addresses, lower-cased. */
  lemma EncodedDecodes(path: seq<Address>, fees: seq<nat>)
    requires |path| == |fees| + 1 && FeesFit(fees)
    ensures Decode(Encoded(path, fees)) == Some(Hops(LowerAll(path), fees))
  {
    BodyDecodes(path, fees);
    LowerPrefix(Body(path, fees));
  }

  lemma LowerPrefix(body: string)
    ensures Lower("0x" + body) == "0x" + Lower(body)
    ensures Decode(Lower("0x" + body)) == DecodeBody(Lower(body))
  {
    LowerConcat("0x", body);
    assert Lower("0x") == "0x";
    var s := "0x" + Lower(body);
    assert s[..2] == "0x" && s[2..] == Lower(body);
  }

  /** Two paths share an encoding exactly when they agree up to letter case and charge the same fees. */
  lemma EncodingIsInjective(path: seq<Address>, fees: seq<nat>, path': seq<Address>, fees': seq<nat>)
    requires |path| == |fees| + 1 && FeesFit(fees) && |path'| == |fees'| + 1 && FeesFit(fees')
    ensures Encoded(path, fees) == Encoded(path', fees') <==> LowerAll(path) == LowerAll(path') && fees == fees'
  {
    EncodedDecodes(path, fees);
    EncodedDecodes(path', fees');
    if LowerAll(path) == LowerAll(path') && fees == fees' {
      SameLowerSameBody(path, path', fees);
      LowerPrefix(Body(path, fees));
      LowerPrefix(Body(path', fees));
    }
  }

  lemma {:induction false} SameLowerSameBody(path: seq<Address>, path': seq<Address>, fees: seq<nat>)
    requires |path| == |path'| == |fees| + 1 && LowerAll(path) == LowerAll(path')
    ensures Lower(Body(path, fees)) == Lower(Body(path', fees))
    decreases |fees|
  {
    AddressField(path[0]);
    AddressField(path'[0]);
    assert Lower(path[0]) == LowerAll(path)[0] == LowerAll(path')[0] == Lower(path'[0]);
    assert Lower(SliceFrom2(path[0])) == Lower(path[0])[2..];
    assert Lower(SliceFrom2(path'[0])) == Lower(path'[0])[2..];
    if fees != [] {
      assert LowerAll(path[1..]) == LowerAll(path)[1..] && LowerAll(path'[1..]) == LowerAll(path')[1..];
      SameLowerSameBody(path[1..], path'[1..], fees[1..]);
      LowerBody(path, fees);
      LowerBody(path', fees);
    }
  }
}
