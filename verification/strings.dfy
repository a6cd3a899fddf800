/** Sequence and string helpers with Python's meaning: `startswith`,
    `endswith`, the substring test `t in s`, `replace`, `lstrip`,
    `"".join` and `str(n)` for a natural number. */
module Strings {

  /** `s.startswith(p)` */
  predicate IsPrefix<T(==)>(p: seq<T>, s: seq<T>) {
    |p| <= |s| && s[..|p|] == p
  }

  /** `s.endswith(p)` */
  predicate IsSuffix<T(==)>(p: seq<T>, s: seq<T>) {
    |p| <= |s| && s[|s| - |p|..] == p
  }

  /** Python's substring test `t in s`. */
  predicate Contains(s: string, t: string)
    decreases |s|
  {
    IsPrefix(t, s) || (|s| > 0 && Contains(s[1..], t))
  }

  /** A sequence without repeated elements. */
  predicate NoDuplicates<T(==)>(s: seq<T>) {
    forall i, j :: 0 <= i < j < |s| ==> s[i] != s[j]
  }

  /** The elements of a sequence without repeats number its length. */
  lemma {:induction false} DistinctElements<T>(s: seq<T>)
    requires NoDuplicates(s)
    ensures |set x | x in s| == |s|
  {
    if s != [] {
      var rest := s[1..];
      assert NoDuplicates(rest) by {
        forall i, j | 0 <= i < j < |rest| ensures rest[i] != rest[j] {
          assert rest[i] == s[i + 1] && rest[j] == s[j + 1];
        }
      }
      DistinctElements(rest);
      assert s[0] !in rest by {
        forall j | 0 <= j < |rest| ensures rest[j] != s[0] {
          assert rest[j] == s[j + 1];
        }
      }
      assert (set x | x in s) == {s[0]} + (set x | x in rest) by {
        assert s == [s[0]] + rest;
      }
    }
  }

  /** The smaller of two naturals. */
  function Min(a: nat, b: nat): (m: nat)
    ensures m <= a && m <= b
    ensures m == a || m == b
  {
    if a <= b then a else b
  }

  /** The positions below `n` whose element `keep` accepts, in ascending
      order: the indices a filter over `s[..n]` keeps, repeats included. */
  function Positions<T>(s: seq<T>, keep: T -> bool, n: nat): (ps: seq<nat>)
    requires n <= |s|
    ensures forall k :: 0 <= k < |ps| ==> ps[k] < n
    ensures forall k, m :: 0 <= k < m < |ps| ==> ps[k] < ps[m]
  {
    if n == 0 then []
    else
      var prior := Positions(s, keep, n - 1);
      if keep(s[n - 1]) then prior + [n - 1] else prior
  }

  /** Every listed position is one `keep` accepts ... */
  lemma {:induction false} PositionsKept<T>(s: seq<T>, keep: T -> bool, n: nat)
    requires n <= |s|
    ensures forall k :: 0 <= k < |Positions(s, keep, n)| ==> keep(s[Positions(s, keep, n)[k]])
  {
    if n > 0 {
      PositionsKept(s, keep, n - 1);
    }
  }

  /** ... and every accepted position below `n` is listed. */
  lemma {:induction false} PositionsComplete<T>(s: seq<T>, keep: T -> bool, n: nat, i: nat)
    requires i < n <= |s| && keep(s[i])
    ensures i in Positions(s, keep, n)
  {
    if i < n - 1 {
      PositionsComplete(s, keep, n - 1, i);
    }
  }

  /** The kept positions below `n` depend only on the first `n` elements. */
  lemma {:induction false} PositionsPrefix<T>(s: seq<T>, t: seq<T>, keep: T -> bool, n: nat)
    requires n <= |s| && n <= |t| && s[..n] == t[..n]
    ensures Positions(s, keep, n) == Positions(t, keep, n)
  {
    if n > 0 {
      assert s[..n - 1] == s[..n][..n - 1] == t[..n][..n - 1] == t[..n - 1];
      assert s[n - 1] == s[..n][n - 1] == t[..n][n - 1] == t[n - 1];
      PositionsPrefix(s, t, keep, n - 1);
    }
  }

  /** The index of the first occurrence of `x` (Python's `s.index(x)`). */
  function FirstIndex<T(==)>(s: seq<T>, x: T): (i: nat)
    requires x in s
    ensures i < |s| && s[i] == x
    ensures forall j :: 0 <= j < i ==> s[j] != x
  {
    if s[0] == x then 0 else 1 + FirstIndex(s[1..], x)
  }

  /** `s.replace(from, to)` for single characters. */
  function ReplaceChar(s: string, from: char, to: char): (r: string)
    ensures |r| == |s|
    ensures forall i :: 0 <= i < |s| ==> r[i] == if s[i] == from then to else s[i]
  {
    if s == [] then []
    else [if s[0] == from then to else s[0]] + ReplaceChar(s[1..], from, to)
  }

  /** Replacing a character that does not occur changes nothing. */
  lemma ReplaceCharAbsent(s: string, from: char, to: char)
    requires from !in s
    ensures ReplaceChar(s, from, to) == s
  {
    var r := ReplaceChar(s, from, to);
    assert forall i :: 0 <= i < |s| ==> r[i] == s[i];
  }

  /** `s.replace(pat, rep)`: one left-to-right pass over non-overlapping
      occurrences; text produced by a replacement is not scanned again. */
  function ReplaceAll(s: string, pat: string, rep: string): string
    requires |pat| > 0
    decreases |s|
  {
    if s == [] then []
    else if IsPrefix(pat, s) then rep + ReplaceAll(s[|pat|..], pat, rep)
    else [s[0]] + ReplaceAll(s[1..], pat, rep)
  }

  /** A text whose `k`-th character differs from the pattern's does not start with it. */
  lemma NotPrefixAt<T>(p: seq<T>, s: seq<T>, k: nat)
    requires k < |p| && k < |s| && p[k] != s[k]
    ensures !IsPrefix(p, s)
  {
    if |p| <= |s| {
      assert s[..|p|][k] == s[k];
    }
  }

  /** A text shorter than the pattern holds no occurrence and is copied. */
  lemma {:induction false} ReplaceAllShort(s: string, pat: string, rep: string)
    requires 0 < |pat| && |s| < |pat|
    ensures ReplaceAll(s, pat, rep) == s
    decreases |s|
  {
    if s != [] {
      ReplaceAllShort(s[1..], pat, rep);
      assert s == [s[0]] + s[1..];
    }
  }

  /** A leading stretch `a` where no occurrence starts is copied unchanged. */
  lemma {:induction false} ReplaceAllCopies(a: string, s: string, pat: string, rep: string)
    requires 0 < |pat|
    requires forall k :: 0 <= k < |a| ==> !IsPrefix(pat, (a + s)[k..])
    ensures ReplaceAll(a + s, pat, rep) == a + ReplaceAll(s, pat, rep)
    decreases |a|
  {
    if a != [] {
      var t := a + s;
      assert t[0..] == t;
      assert t[1..] == a[1..] + s;
      forall k | 0 <= k < |a[1..]| ensures !IsPrefix(pat, (a[1..] + s)[k..]) {
        assert (a[1..] + s)[k..] == t[k + 1..];
      }
      ReplaceAllCopies(a[1..], s, pat, rep);
      assert !IsPrefix(pat, t) && t[0] == a[0];
      assert ReplaceAll(t, pat, rep) == [a[0]] + ReplaceAll(a[1..] + s, pat, rep);
      assert a == [a[0]] + a[1..];
    } else {
      assert a + s == s;
    }
  }

  /** A leading occurrence is replaced and scanning resumes after it. */
  lemma ReplaceAllHit(s: string, pat: string, rep: string)
    requires |pat| > 0
    ensures ReplaceAll(pat + s, pat, rep) == rep + ReplaceAll(s, pat, rep)
  {
    assert (pat + s)[..|pat|] == pat;
    assert (pat + s)[|pat|..] == s;
  }

  /** `replace` introduces no character that neither the text nor the
      replacement holds, and leaves a text without the pattern unchanged. */
  lemma {:induction false} ReplaceAllChars(s: string, pat: string, rep: string)
    requires |pat| > 0
    ensures forall c :: c in ReplaceAll(s, pat, rep) ==> c in s || c in rep
    ensures !Contains(s, pat) ==> ReplaceAll(s, pat, rep) == s
    decreases |s|
  {
    if s != [] {
      if IsPrefix(pat, s) {
        ReplaceAllChars(s[|pat|..], pat, rep);
        assert forall c :: c in s[|pat|..] ==> c in s;
      } else {
        ReplaceAllChars(s[1..], pat, rep);
        assert forall c :: c in s[1..] ==> c in s;
      }
    }
  }

  /** A pattern whose first character does not recur in it cannot straddle
      the end of a text, so an occurrence appended at the end is replaced on
      its own. */
  lemma {:induction false} ReplaceAllAppendPattern(s: string, pat: string, rep: string)
    requires |pat| > 0
    requires forall k :: 0 < k < |pat| ==> pat[k] != pat[0]
    ensures ReplaceAll(s + pat, pat, rep) == ReplaceAll(s, pat, rep) + rep
    decreases |s|
  {
    var t := s + pat;
    if s == [] {
      assert t == pat;
      assert t[|pat|..] == [];
    } else if IsPrefix(pat, s) {
      assert t[..|pat|] == s[..|pat|];
      assert t[|pat|..] == s[|pat|..] + pat;
      ReplaceAllAppendPattern(s[|pat|..], pat, rep);
    } else {
      assert !IsPrefix(pat, t) by {
        if |s| >= |pat| {
          assert t[..|pat|] == s[..|pat|];
        } else {
          assert t[|s|] == pat[0] != pat[|s|];
        }
      }
      assert t[1..] == s[1..] + pat;
      ReplaceAllAppendPattern(s[1..], pat, rep);
    }
  }

  /** `s.lstrip(c)`: drops every leading `c`. */
  function LStrip(s: string, c: char): (r: string)
    ensures IsSuffix(r, s)
    ensures r == [] || r[0] != c
    ensures forall i :: 0 <= i < |s| - |r| ==> s[i] == c
  {
    if s != [] && s[0] == c then LStrip(s[1..], c) else s
  }

  /** Stripping a text followed by more text strips only the first part,
      unless the first part is all `c` and the rest starts with `c` too. */
  lemma {:induction false} LStripAppend(s: string, t: string, c: char)
    requires LStrip(s, c) != [] || (t != [] && t[0] != c)
    ensures LStrip(s + t, c) == LStrip(s, c) + t
  {
    if s != [] && s[0] == c {
      assert (s + t)[1..] == s[1..] + t;
      LStripAppend(s[1..], t, c);
    } else if s == [] {
      assert s + t == t;
    }
  }

  lemma {:induction false} ReplaceCharAppend(a: string, b: string, from: char, to: char)
    ensures ReplaceChar(a + b, from, to) == ReplaceChar(a, from, to) + ReplaceChar(b, from, to)
  {
    var l := ReplaceChar(a + b, from, to);
    var ra, rb := ReplaceChar(a, from, to), ReplaceChar(b, from, to);
    assert |l| == |ra + rb|;
    forall i | 0 <= i < |l| ensures l[i] == (ra + rb)[i] {
      if i < |a| {
        assert (a + b)[i] == a[i];
        assert (ra + rb)[i] == ra[i];
      } else {
        assert (a + b)[i] == b[i - |a|];
        assert (ra + rb)[i] == rb[i - |a|];
      }
    }
  }

  /** `"".join(parts)` */
  function Concat(parts: seq<string>): string {
    if parts == [] then "" else parts[0] + Concat(parts[1..])
  }

  predicate IsDigit(c: char) {
    '0' <= c <= '9'
  }

  predicate AllDigits(s: string) {
    forall i :: 0 <= i < |s| ==> IsDigit(s[i])
  }

  function DigitChar(d: nat): (c: char)
    requires d < 10
    ensures IsDigit(c)
  {
    ['0', '1', '2', '3', '4', '5', '6', '7', '8', '9'][d]
  }

  function DigitValue(c: char): nat
    requires IsDigit(c)
  {
    c as int - '0' as int
  }

  /** `str(n)` for a natural number: decimal, no leading zero. */
  function NatToString(n: nat): (r: string)
    ensures |r| > 0 && AllDigits(r)
    ensures |r| > 1 ==> r[0] != '0'
  {
    if n < 10 then [DigitChar(n)] else NatToString(n / 10) + [DigitChar(n % 10)]
  }

  /** The number a string of decimal digits denotes. */
  function DecimalValue(s: string): nat
    requires AllDigits(s)
  {
    if s == [] then 0 else 10 * DecimalValue(s[..|s| - 1]) + DigitValue(s[|s| - 1])
  }

  /** Reading back `str(n)` gives `n`. */
  lemma {:induction false} DecimalRoundTrip(n: nat)
    ensures DecimalValue(NatToString(n)) == n
  {
    var r := NatToString(n);
    if n < 10 {
      assert r[..|r| - 1] == [];
    } else {
      DecimalRoundTrip(n / 10);
      assert r[..|r| - 1] == NatToString(n / 10);
    }
  }

  /** Distinct numbers render differently. */
  lemma NatToStringInjective(m: nat, n: nat)
    ensures NatToString(m) == NatToString(n) ==> m == n
  {
    DecimalRoundTrip(m);
    DecimalRoundTrip(n);
  }

  /** A common prefix cancels. */
  lemma PrefixCancel<T>(p: seq<T>, a: seq<T>, b: seq<T>)
    requires p + a == p + b
    ensures a == b
  {
    assert a == (p + a)[|p|..];
    assert b == (p + b)[|p|..];
  }

  /** A digit string followed by a non-digit is determined by the whole:
      the digits of `str(i)` cannot run into the separator after them. */
  lemma DigitsBeforeSeparator(d1: string, x: string, d2: string, y: string)
    requires AllDigits(d1) && AllDigits(d2)
    requires x != [] && !IsDigit(x[0]) && y != [] && !IsDigit(y[0])
    requires d1 + x == d2 + y
    ensures d1 == d2 && x == y
  {
    assert d1 == (d1 + x)[..|d1|];
    assert d2 == (d2 + y)[..|d2|];
    assert x == (d1 + x)[|d1|..];
    assert y == (d2 + y)[|d2|..];
  }
}
