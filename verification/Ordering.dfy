/** Sorting, adjacent deduplication, and why together they depend only on the set of elements. */
module Ordering {
  ghost predicate TotalOrder<T(!new)>(le: (T, T) -> bool) {
    && (forall x :: le(x, x))
    && (forall x, y :: le(x, y) && le(y, x) ==> x == y)
    && (forall x, y, z :: le(x, y) && le(y, z) ==> le(x, z))
    && (forall x, y :: le(x, y) || le(y, x))
  }

  ghost predicate Sorted<T(!new)>(le: (T, T) -> bool, s: seq<T>) {
    forall i, j :: 0 <= i < j < |s| ==> le(s[i], s[j])
  }

  ghost predicate Increasing<T(!new)>(le: (T, T) -> bool, s: seq<T>) {
    forall i, j :: 0 <= i < j < |s| ==> le(s[i], s[j]) && s[i] != s[j]
  }

  function Elements<T>(s: seq<T>): (r: set<T>) {
    set x | x in s
  }

  function Insert<T>(le: (T, T) -> bool, x: T, s: seq<T>): (r: seq<T>)
    ensures multiset(r) == multiset(s) + multiset{x}
    ensures |r| == |s| + 1
  {
    if s == [] then [x]
    else if le(x, s[0]) then [x] + s
    else
      assert s == [s[0]] + s[1..];
      [s[0]] + Insert(le, x, s[1..])
  }

  function Sort<T>(le: (T, T) -> bool, s: seq<T>): (r: seq<T>)
    ensures multiset(r) == multiset(s)
    ensures |r| == |s|
  {
    if s == [] then []
    else
      assert s == [s[0]] + s[1..];
      Insert(le, s[0], Sort(le, s[1..]))
  }

  lemma InMultiset<T>(x: T, s: seq<T>)
    ensures x in s <==> x in multiset(s)
  {
  }

  lemma {:induction false} InsertSorted<T(!new)>(le: (T, T) -> bool, x: T, s: seq<T>)
    requires TotalOrder(le) && Sorted(le, s)
    ensures Sorted(le, Insert(le, x, s))
  {
    if s != [] && !le(x, s[0]) {
      InsertSorted(le, x, s[1..]);
      var rest := Insert(le, x, s[1..]);
      forall j | 0 <= j < |rest| ensures le(s[0], rest[j]) {
        assert rest[j] in multiset(rest);
        assert rest[j] in multiset(s[1..]) + multiset{x};
        if rest[j] != x { assert rest[j] in s[1..]; }
      }
    }
  }

  lemma {:induction false} SortSorted<T(!new)>(le: (T, T) -> bool, s: seq<T>)
    requires TotalOrder(le)
    ensures Sorted(le, Sort(le, s))
  {
    if s != [] {
      SortSorted(le, s[1..]);
      InsertSorted(le, s[0], Sort(le, s[1..]));
    }
  }

  lemma PermutationElements<T>(s: seq<T>, t: seq<T>)
    requires multiset(s) == multiset(t)
    ensures Elements(s) == Elements(t)
  {
    forall x ensures x in Elements(s) <==> x in Elements(t) {
      InMultiset(x, s);
      InMultiset(x, t);
    }
  }

  /** Keeps an element unless it equals its left neighbour. */
  function Dedup<T(==)>(s: seq<T>): (r: seq<T>)
  {
    if s == [] then []
    else
      var n := |s| - 1;
      Dedup(s[..n]) + (if n == 0 || s[n - 1] != s[n] then [s[n]] else [])
  }

  /** After sorting, dropping equal neighbours leaves every element exactly once, in order. */
  lemma {:induction false} DedupIncreasing<T(!new)>(le: (T, T) -> bool, s: seq<T>)
    requires TotalOrder(le) && Sorted(le, s)
    ensures Increasing(le, Dedup(s)) && Elements(Dedup(s)) == Elements(s)
    ensures s != [] ==> Dedup(s) != [] && Dedup(s)[|Dedup(s)| - 1] == s[|s| - 1]
  {
    if s != [] {
      var n := |s| - 1;
      DedupIncreasing(le, s[..n]);
      assert s == s[..n] + [s[n]];
      assert Elements(s) == Elements(s[..n]) + {s[n]};
      assert Elements(Dedup(s)) == Elements(s) by {
        if n > 0 && s[n - 1] == s[n] {
          assert s[n] == s[..n][n - 1];
        } else {
          assert Dedup(s) == Dedup(s[..n]) + [s[n]];
          assert Elements(Dedup(s)) == Elements(Dedup(s[..n])) + {s[n]};
        }
      }
      if n > 0 {
        var d := Dedup(s[..n]);
        assert d[|d| - 1] == s[n - 1];
        if s[n - 1] != s[n] {
          forall i | 0 <= i < |d| ensures le(d[i], s[n]) && d[i] != s[n] {
            assert le(d[i], s[n - 1]);
            assert le(s[n - 1], s[n]);
          }
        }
      }
    }
  }

  /** An increasing sequence is determined by its elements. */
  lemma {:induction false} IncreasingUnique<T(!new)>(le: (T, T) -> bool, s: seq<T>, t: seq<T>)
    requires TotalOrder(le) && Increasing(le, s) && Increasing(le, t) && Elements(s) == Elements(t)
    ensures s == t
  {
    if s == [] || t == [] {
      EmptyElements(s);
      EmptyElements(t);
    } else {
      assert s[0] in Elements(t);
      assert t[0] in Elements(s);
      var i :| 0 <= i < |t| && t[i] == s[0];
      var j :| 0 <= j < |s| && s[j] == t[0];
      assert s[0] == t[0];
      forall x ensures x in s[1..] <==> x in t[1..] {
        TailElement(le, s, t, x);
        TailElement(le, t, s, x);
      }
      IncreasingUnique(le, s[1..], t[1..]);
    }
  }

  lemma EmptyElements<T>(s: seq<T>)
    ensures Elements(s) == {} <==> s == []
  {
    if s != [] { assert s[0] in Elements(s); }
  }

  lemma TailElement<T(!new)>(le: (T, T) -> bool, s: seq<T>, t: seq<T>, x: T)
    requires Increasing(le, s) && Elements(s) == Elements(t)
    requires s != [] && t != [] && s[0] == t[0]
    ensures x in s[1..] ==> x in t[1..]
  {
    if x in s[1..] {
      var k :| 0 <= k < |s[1..]| && s[1..][k] == x;
      assert x == s[k + 1] && x != s[0];
      assert x in Elements(s);
      assert x in t;
    }
  }

  /** Sort then drop equal neighbours. */
  function Canonical<T(==)>(le: (T, T) -> bool, s: seq<T>): (r: seq<T>)
  {
    Dedup(Sort(le, s))
  }

  lemma CanonicalIncreasing<T(!new)>(le: (T, T) -> bool, s: seq<T>)
    requires TotalOrder(le)
    ensures Increasing(le, Canonical(le, s)) && Elements(Canonical(le, s)) == Elements(s)
    ensures s != [] ==> Canonical(le, s) != []
  {
    SortSorted(le, s);
    PermutationElements(s, Sort(le, s));
    DedupIncreasing(le, Sort(le, s));
  }

  /** Any permutation or repetition of the same elements gives the same canonical sequence. */
  lemma CanonicalDependsOnSet<T(!new)>(le: (T, T) -> bool, s: seq<T>, t: seq<T>)
    requires TotalOrder(le) && Elements(s) == Elements(t)
    ensures Canonical(le, s) == Canonical(le, t)
  {
    CanonicalIncreasing(le, s);
    CanonicalIncreasing(le, t);
    IncreasingUnique(le, Canonical(le, s), Canonical(le, t));
  }

  /** Sorting distinct elements already gives an increasing sequence. */
  lemma SortDistinct<T(!new)>(le: (T, T) -> bool, s: seq<T>)
    requires TotalOrder(le)
    requires forall i, j :: 0 <= i < j < |s| ==> s[i] != s[j]
    ensures Increasing(le, Sort(le, s)) && Elements(Sort(le, s)) == Elements(s)
  {
    SortSorted(le, s);
    PermutationElements(s, Sort(le, s));
    var r := Sort(le, s);
    forall i, j | 0 <= i < j < |r| ensures r[i] != r[j] {
      if r[i] == r[j] {
        TwiceInMultiset(r, i, j);
        OnceInMultiset(s, r[i]);
      }
    }
  }

  lemma TwiceInMultiset<T>(s: seq<T>, i: int, j: int)
    requires 0 <= i < j < |s| && s[i] == s[j]
    ensures multiset(s)[s[i]] >= 2
  {
    assert s == s[..j] + [s[j]] + s[j + 1..];
    assert s[i] in s[..j];
  }

  lemma {:induction false} OnceInMultiset<T>(s: seq<T>, x: T)
    requires forall i, j :: 0 <= i < j < |s| ==> s[i] != s[j]
    ensures multiset(s)[x] <= 1
  {
    if s != [] {
      assert s == [s[0]] + s[1..];
      OnceInMultiset(s[1..], x);
      if s[0] == x { assert x !in s[1..]; }
    }
  }
}

/** Lexicographic order on sequences of codes, as buffers and strings are compared. */
module Lexicographic {
  import opened Ordering

  predicate LexLe(a: seq<int>, b: seq<int>)
  {
    a == [] || (b != [] && (a[0] < b[0] || (a[0] == b[0] && LexLe(a[1..], b[1..]))))
  }

  lemma {:induction false} LexReflexive(a: seq<int>)
    ensures LexLe(a, a)
  {
    if a != [] { LexReflexive(a[1..]); }
  }

  lemma {:induction false} LexTotal(a: seq<int>, b: seq<int>)
    ensures LexLe(a, b) || LexLe(b, a)
  {
    if a != [] && b != [] && a[0] == b[0] { LexTotal(a[1..], b[1..]); }
  }

  lemma {:induction false} LexAntisymmetric(a: seq<int>, b: seq<int>)
    requires LexLe(a, b) && LexLe(b, a)
    ensures a == b
  {
    if a != [] && b != [] {
      LexAntisymmetric(a[1..], b[1..]);
      assert a == [a[0]] + a[1..] && b == [b[0]] + b[1..];
    }
  }

  lemma {:induction false} LexTransitive(a: seq<int>, b: seq<int>, c: seq<int>)
    requires LexLe(a, b) && LexLe(b, c)
    ensures LexLe(a, c)
  {
    if a != [] && b != [] && c != [] && a[0] == b[0] == c[0] { LexTransitive(a[1..], b[1..], c[1..]); }
  }

  /** Where two sequences first differ, or where the shorter one ends. */
  lemma {:induction false} FirstDifference(a: seq<int>, b: seq<int>) returns (k: nat)
    ensures k <= |a| && k <= |b| && a[..k] == b[..k]
    ensures k < |a| && k < |b| ==> a[k] != b[k]
  {
    if a != [] && b != [] && a[0] == b[0] {
      var k' := FirstDifference(a[1..], b[1..]);
      k := k' + 1;
      assert a[..k] == [a[0]] + a[1..][..k'] && b[..k] == [b[0]] + b[1..][..k'];
    } else {
      k := 0;
    }
  }

  lemma {:induction false} LexAtDifference(a: seq<int>, b: seq<int>, k: nat)
    requires k <= |a| && k <= |b| && a[..k] == b[..k]
    requires k < |a| && k < |b| ==> a[k] != b[k]
    ensures LexLe(a, b) <==> k == |a| || (k < |b| && a[k] < b[k])
    decreases k
  {
    if k > 0 {
      assert a[0] == a[..k][0] == b[..k][0] == b[0];
      assert a[1..][..k - 1] == a[..k][1..] && b[1..][..k - 1] == b[..k][1..];
      LexAtDifference(a[1..], b[1..], k - 1);
    }
  }

  /** The order told without recursion: a ends, or has the smaller code, where the two first part. */
  ghost predicate EndsOrLess(a: seq<int>, b: seq<int>)
  {
    exists k :: 0 <= k <= |a| && k <= |b| && a[..k] == b[..k] && (k == |a| || (k < |b| && a[k] < b[k]))
  }

  lemma LexIsFirstDifference(a: seq<int>, b: seq<int>)
    ensures LexLe(a, b) <==> EndsOrLess(a, b)
  {
    var k := FirstDifference(a, b);
    LexAtDifference(a, b, k);
    if k' :| 0 <= k' <= |a| && k' <= |b| && a[..k'] == b[..k'] && (k' == |a| || (k' < |b| && a[k'] < b[k'])) {
      LexAtDifference(a, b, k');
    }
  }

  function Codes(s: string): (r: seq<int>)
    ensures |r| == |s| && forall i :: 0 <= i < |s| ==> r[i] == s[i] as int
  {
    seq(|s|, i requires 0 <= i < |s| => s[i] as int)
  }

  /** Strings compare by their character codes. */
  predicate StringLe(a: string, b: string)
  {
    LexLe(Codes(a), Codes(b))
  }

  lemma StringOrder()
    ensures TotalOrder(StringLe)
  {
    forall x ensures StringLe(x, x) { LexReflexive(Codes(x)); }
    forall x, y ensures StringLe(x, y) || StringLe(y, x) { LexTotal(Codes(x), Codes(y)); }
    forall x, y | StringLe(x, y) && StringLe(y, x) ensures x == y {
      LexAntisymmetric(Codes(x), Codes(y));
      CodesInjective(x, y);
    }
    forall x, y, z | StringLe(x, y) && StringLe(y, z) ensures StringLe(x, z) {
      LexTransitive(Codes(x), Codes(y), Codes(z));
    }
  }

  /** Of two strings of one length, the lesser has the smaller character where they first differ. */
  lemma StringFirstDifference(a: string, b: string)
    requires |a| == |b|
    ensures StringLe(a, b) && a != b <==> exists k :: 0 <= k < |a| && a[..k] == b[..k] && a[k] < b[k]
  {
    var k := FirstDifference(Codes(a), Codes(b));
    LexAtDifference(Codes(a), Codes(b), k);
    SamePrefix(a, b, k);
    if k == |a| { assert a[..k] == a && b[..k] == b; }
    if k' :| 0 <= k' < |a| && a[..k'] == b[..k'] && a[k'] < b[k'] {
      SamePrefix(a, b, k');
      LexAtDifference(Codes(a), Codes(b), k');
    }
  }

  lemma SamePrefix(a: string, b: string, k: nat)
    requires k <= |a| == |b|
    ensures a[..k] == b[..k] <==> Codes(a)[..k] == Codes(b)[..k]
  {
    if a[..k] == b[..k] {
      forall i | 0 <= i < k ensures Codes(a)[i] == Codes(b)[i] { assert a[..k][i] == b[..k][i]; }
    }
    if Codes(a)[..k] == Codes(b)[..k] {
      forall i | 0 <= i < k ensures a[i] == b[i] { assert Codes(a)[..k][i] == Codes(b)[..k][i]; }
    }
  }

  lemma CodesInjective(x: string, y: string)
    requires Codes(x) == Codes(y)
    ensures x == y
  {
    assert |x| == |y|;
    forall i | 0 <= i < |x| ensures x[i] == y[i] {
      assert Codes(x)[i] == Codes(y)[i];
    }
  }
}
