/** Byte strings, big-endian words and hexadecimal addresses. */
module Bytes {
  import opened Ordering
  import opened Lexicographic
  import opened Products

  type Byte = x: int | 0 <= x < 256
  type Bytes = seq<Byte>
  type Digest = b: Bytes | |b| == 32 witness seq(32, _ => 0)

  const TWO_256: int := 0x1_0000000000000000_0000000000000000_0000000000000000_0000000000000000
  type Uint256 = x: int | 0 <= x < TWO_256

  /** Buffers compare byte by byte, a proper prefix first. */
  predicate BytesLe(a: Bytes, b: Bytes)
  {
    LexLe(a, b)
  }

  lemma BytesOrder()
    ensures TotalOrder(BytesLe)
  {
    forall x: Bytes ensures BytesLe(x, x) { LexReflexive(x); }
    forall x: Bytes, y: Bytes ensures BytesLe(x, y) || BytesLe(y, x) { LexTotal(x, y); }
    forall x: Bytes, y: Bytes | BytesLe(x, y) && BytesLe(y, x) ensures x == y { LexAntisymmetric(x, y); }
    forall x: Bytes, y: Bytes, z: Bytes | BytesLe(x, y) && BytesLe(y, z)
      ensures BytesLe(x, z)
    {
      LexTransitive(x, y, z);
    }
  }

  /** n in k bytes, most significant first. */
  function BigEndian(n: nat, k: nat): (r: Bytes)
    ensures |r| == k
  {
    if k == 0 then [] else BigEndian(n / 256, k - 1) + [n % 256]
  }

  /** The number that bytes stand for, read from the most significant one. */
  function Number(b: Bytes): (r: nat)
  {
    if b == [] then 0 else 256 * Number(b[..|b| - 1]) + b[|b| - 1]
  }

  /** Reading a number's bytes gives it back. */
  lemma {:induction false} NumberOfBigEndian(n: nat, k: nat)
    requires n < Pow(256, k)
    ensures Number(BigEndian(n, k)) == n
  {
    if k > 0 {
      assert BigEndian(n, k)[..k - 1] == BigEndian(n / 256, k - 1);
      NumberOfBigEndian(n / 256, k - 1);
    }
  }

  lemma {:induction false} NumberBound(b: Bytes)
    ensures Number(b) < Pow(256, |b|)
  {
    if b != [] { NumberBound(b[..|b| - 1]); }
  }

  lemma {:induction false} NumberConcat(a: Bytes, b: Bytes)
    ensures Number(a + b) == Number(a) * Pow(256, |b|) + Number(b)
  {
    if b == [] {
      assert a + b == a;
    } else {
      var n := |b| - 1;
      assert (a + b)[..|a + b| - 1] == a + b[..n];
      NumberConcat(a, b[..n]);
      assert Number(a) * Pow(256, n) * 256 == Number(a) * Pow(256, |b|);
    }
  }

  /** A number in front of `size` bytes that stand for another. */
  function Places(high: nat, size: nat, low: nat): (r: nat)
  {
    high * Pow(256, size) + low
  }

  lemma NumberOfThree(a: Bytes, b: Bytes, c: Bytes)
    ensures Number(a + b + c) == Places(Places(Number(a), |b|, Number(b)), |c|, Number(c))
  {
    NumberConcat(a + b, c);
    NumberConcat(a, b);
  }

  /** Byte strings of one length compare as the numbers they stand for. */
  lemma {:induction false} OrderIsNumeric(a: Bytes, b: Bytes)
    requires |a| == |b|
    ensures BytesLe(a, b) <==> Number(a) <= Number(b)
  {
    if a != [] {
      var p := Pow(256, |a| - 1);
      assert a == a[..1] + a[1..] && b == b[..1] + b[1..];
      NumberConcat(a[..1], a[1..]);
      NumberConcat(b[..1], b[1..]);
      OneByte(a[0]);
      OneByte(b[0]);
      assert a[..1] == [a[0]] && b[..1] == [b[0]];
      NumberBound(a[1..]);
      NumberBound(b[1..]);
      OrderIsNumeric(a[1..], b[1..]);
      LeadingByteDecides(a[0], b[0], Number(a[1..]), Number(b[1..]), p);
    }
  }

  lemma OneByte(x: Byte)
    ensures Number([x]) == x
  {
    assert [x][..0] == [];
  }

  lemma LeadingByteDecides(x: int, y: int, r: int, s: int, p: int)
    requires 0 <= r < p && 0 <= s < p
    ensures x * p + r <= y * p + s <==> x < y || (x == y && r <= s)
  {
    if x < y { Mono(x + 1, y, p); }
    if y < x { Mono(y + 1, x, p); }
  }

  lemma WordSize()
    ensures Pow(256, 32) == TWO_256
  {
    assert Pow(256, 8) == 0x1_0000000000000000;
    assert Pow(256, 16) == 0x1_0000000000000000_0000000000000000;
    assert Pow(256, 24) == 0x1_0000000000000000_0000000000000000_0000000000000000;
  }

  function Word(n: Uint256): (r: Digest)
  {
    BigEndian(n, 32)
  }

  lemma NumberOfWord(n: Uint256)
    ensures Number(Word(n)) == n
  {
    WordSize();
    NumberOfBigEndian(n, 32);
  }

  lemma WordInjective(n: Uint256, m: Uint256)
    requires Word(n) == Word(m)
    ensures n == m
  {
    NumberOfWord(n);
    NumberOfWord(m);
  }

  // ----- hexadecimal addresses

  predicate IsHexDigit(c: char)
  {
    '0' <= c <= '9' || 'a' <= c <= 'f' || 'A' <= c <= 'F'
  }

  function HexValue(c: char): (r: int)
    requires IsHexDigit(c)
    ensures 0 <= r < 16
  {
    if c <= '9' then c as int - '0' as int
    else if 'a' <= c then c as int - 'a' as int + 10
    else c as int - 'A' as int + 10
  }

  /** The sixteen digits, in either case, stand for their places in the alphabet. */
  lemma HexAlphabet(c: char)
    ensures IsHexDigit(c) <==> c in "0123456789abcdefABCDEF"
    ensures IsHexDigit(c) ==> c == "0123456789abcdef"[HexValue(c)] || c == "0123456789ABCDEF"[HexValue(c)]
  {
  }

  predicate AllHex(s: string)
  {
    forall i :: 0 <= i < |s| ==> IsHexDigit(s[i])
  }

  /** The number that hexadecimal digits stand for. */
  function ParseHex(s: string): (r: nat)
    requires AllHex(s)
  {
    if s == "" then 0 else 16 * ParseHex(s[..|s| - 1]) + HexValue(s[|s| - 1])
  }

  /** "0x" and forty hexadecimal digits, in either case. */
  predicate IsAddress(s: string)
  {
    |s| == 42 && s[0] == '0' && s[1] == 'x' && forall i :: 2 <= i < 42 ==> IsHexDigit(s[i])
  }

  type Address = s: string | IsAddress(s) witness "0x0000000000000000000000000000000000000000"

  /** The twenty bytes an address string denotes; its letter case does not matter. */
  function AddressBytes(a: Address): (r: Bytes)
    ensures |r| == 20
  {
    seq(20, i requires 0 <= i < 20 => 16 * HexValue(a[2 + 2 * i]) + HexValue(a[3 + 2 * i]))
  }

  /** Each byte is the number its two digits stand for. */
  lemma AddressByte(a: Address, i: nat)
    requires i < 20
    ensures AllHex(a[2 + 2 * i..4 + 2 * i]) && AddressBytes(a)[i] == ParseHex(a[2 + 2 * i..4 + 2 * i])
  {
    TwoDigits(a[2 + 2 * i..4 + 2 * i]);
  }

  lemma TwoDigits(s: string)
    requires |s| == 2 && AllHex(s)
    ensures ParseHex(s) == 16 * HexValue(s[0]) + HexValue(s[1])
  {
    assert s[..1][..0] == "";
    assert ParseHex(s[..1]) == HexValue(s[0]);
  }

  lemma {:induction false} TwoMoreDigits(s: string)
    requires |s| >= 2 && AllHex(s)
    ensures var n := |s| - 2;
            ParseHex(s) == 256 * ParseHex(s[..n]) + (16 * HexValue(s[n]) + HexValue(s[n + 1]))
  {
    var t := s[..|s| - 1];
    assert t[..|t| - 1] == s[..|s| - 2];
    assert ParseHex(t) == 16 * ParseHex(s[..|s| - 2]) + HexValue(s[|s| - 2]);
  }

  /** The twenty bytes stand for the number its forty digits stand for. */
  lemma AddressNumber(a: Address)
    ensures AllHex(a[2..]) && Number(AddressBytes(a)) == ParseHex(a[2..])
  {
    AddressPrefix(a, 20);
    assert AddressBytes(a)[..20] == AddressBytes(a) && a[2..42] == a[2..];
  }

  lemma {:induction false} AddressPrefix(a: Address, i: nat)
    requires i <= 20
    ensures AllHex(a[2..2 + 2 * i]) && Number(AddressBytes(a)[..i]) == ParseHex(a[2..2 + 2 * i])
  {
    if i > 0 {
      AddressPrefix(a, i - 1);
      OneMoreByte(AddressBytes(a), i);
      AddressDigits(a, i);
    }
  }

  lemma OneMoreByte(b: Bytes, i: nat)
    requires 0 < i <= |b|
    ensures Number(b[..i]) == 256 * Number(b[..i - 1]) + b[i - 1]
  {
    assert b[..i][..i - 1] == b[..i - 1];
  }

  lemma AddressDigits(a: Address, i: nat)
    requires 0 < i <= 20
    ensures AllHex(a[2..2 + 2 * i]) && AllHex(a[2..2 * i])
    ensures ParseHex(a[2..2 + 2 * i])
            == 256 * ParseHex(a[2..2 * i]) + (16 * HexValue(a[2 * i]) + HexValue(a[2 * i + 1]))
  {
    var s := a[2..2 + 2 * i];
    assert s[..|s| - 2] == a[2..2 * i];
    TwoMoreDigits(s);
  }

  /** Address strings compare as strings. */
  predicate AddressLe(a: Address, b: Address)
  {
    StringLe(a, b)
  }

  /** The lesser of two addresses has the smaller character where they first differ. */
  lemma AddressFirstDifference(a: Address, b: Address)
    ensures AddressLe(a, b) && a != b <==> exists k :: 0 <= k < 42 && a[..k] == b[..k] && a[k] < b[k]
  {
    StringFirstDifference(a, b);
  }

  lemma AddressOrder()
    ensures TotalOrder(AddressLe)
  {
    StringOrder();
  }
}
