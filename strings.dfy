/**
  The few Python `str` operations the pipeline relies on, stated over
  `seq<char>`: `k in s`, `startswith`, `lower`, `strip`, `rstrip(ch)`,
  `split(sep)` for a one-character separator, and the index of the first
  occurrence of a marker (what `split(marker)[1]` needs).
*/
module Strings {
  import opened Wrappers

  /** `k` occurs in `s` starting at index `i`. */
  predicate OccursAt(s: string, k: string, i: nat) {
    i + |k| <= |s| && s[i..i + |k|] == k
  }

  /** Python's `k in s` for strings: substring containment. */
  predicate Contains(s: string, k: string) {
    exists i: nat :: i <= |s| && OccursAt(s, k, i)
  }

  /** Python's `s.startswith(p)`. */
  predicate StartsWith(s: string, p: string) {
    |p| <= |s| && s[..|p|] == p
  }

  /** Python's `s.endswith(p)`. */
  predicate EndsWith(s: string, p: string) {
    |p| <= |s| && s[|s| - |p|..] == p
  }

  /** Lower-casing of one character (ASCII letters only). */
  function LowerChar(c: char): char {
    if 'A' <= c <= 'Z' then (c as int + 32) as char else c
  }

  /** Python's `s.lower()`, restricted to ASCII letters. */
  function Lower(s: string): (r: string)
    ensures |r| == |s|
    ensures forall i :: 0 <= i < |s| ==> r[i] == LowerChar(s[i])
  {
    if s == [] then [] else [LowerChar(s[0])] + Lower(s[1..])
  }

  lemma LowerIdempotent(s: string)
    ensures Lower(Lower(s)) == Lower(s)
  {
  }

  /** The characters for which Python's `str.isspace()` holds. */
  predicate IsSpace(c: char) {
    || c == ' ' || '\t' <= c <= '\r' || '\U{1c}' <= c <= '\U{1f}'
    || c == '\U{85}' || c == '\U{a0}' || c == '\U{1680}'
    || '\U{2000}' <= c <= '\U{200a}' || c == '\U{2028}' || c == '\U{2029}'
    || c == '\U{202f}' || c == '\U{205f}' || c == '\U{3000}'
  }

  predicate IsSlash(c: char) {
    c == '/'
  }

  /** Drops the longest prefix of characters satisfying `drop`. */
  function TrimStart(s: string, drop: char -> bool): (r: string)
    ensures |r| <= |s| && r == s[|s| - |r|..]
    ensures r != [] ==> !drop(r[0])
    ensures forall i :: 0 <= i < |s| - |r| ==> drop(s[i])
  {
    if s != [] && drop(s[0]) then
      var r := TrimStart(s[1..], drop);
      assert s[1..][|s| - 1 - |r|..] == s[|s| - |r|..];
      r
    else s
  }

  /** Drops the longest suffix of characters satisfying `drop`. */
  function TrimEnd(s: string, drop: char -> bool): (r: string)
    ensures |r| <= |s| && r == s[..|r|]
    ensures r != [] ==> !drop(r[|r| - 1])
    ensures forall i :: |r| <= i < |s| ==> drop(s[i])
  {
    if s != [] && drop(s[|s| - 1]) then TrimEnd(s[..|s| - 1], drop) else s
  }

  /** The number of leading whitespace characters `Strip` removes. */
  function StripOffset(s: string): nat {
    |s| - |TrimStart(s, IsSpace)|
  }

  /** Python's `s.strip()`: what is left neither starts nor ends with whitespace. */
  function Strip(s: string): (r: string)
    ensures r != [] ==> !IsSpace(r[0]) && !IsSpace(r[|r| - 1])
  {
    TrimEnd(TrimStart(s, IsSpace), IsSpace)
  }

  /** `Strip` removes a prefix and a suffix of whitespace and nothing else. */
  lemma StripShape(s: string)
    ensures var r := Strip(s);
      && StripOffset(s) + |r| <= |s| && r == s[StripOffset(s)..StripOffset(s) + |r|]
      && (forall k :: 0 <= k < StripOffset(s) ==> IsSpace(s[k]))
      && (forall k :: StripOffset(s) + |r| <= k < |s| ==> IsSpace(s[k]))
  {
    var t := TrimStart(s, IsSpace);
    var o := |s| - |t|;
    var r := TrimEnd(t, IsSpace);
    assert t == s[o..];
    assert r == t[..|r|];
    assert s[o..o + |r|] == t[..|r|];
    forall k | o + |r| <= k < |s|
      ensures IsSpace(s[k])
    {
      assert s[k] == t[k - o];
    }
  }

  /**
    Stripping a string that ends in a non-space character and starts with at
    most one space removes just that space.
  */
  lemma StripLeadingSpace(s: string)
    requires s != [] && !IsSpace(s[|s| - 1])
    requires IsSpace(s[0]) ==> |s| > 1 && !IsSpace(s[1])
    ensures Strip(s) == if IsSpace(s[0]) then s[1..] else s
  {
    var t := TrimStart(s, IsSpace);
    if IsSpace(s[0]) {
      assert TrimStart(s[1..], IsSpace) == s[1..];
      assert t == s[1..];
    }
    assert t[|t| - 1] == s[|s| - 1];
  }

  /** Python's `s.rstrip('/')`. */
  function RStripSlash(s: string): (r: string)
    ensures StartsWith(s, r)
    ensures r != [] ==> r[|r| - 1] != '/'
    ensures forall i :: |r| <= i < |s| ==> s[i] == '/'
  {
    TrimEnd(s, IsSlash)
  }

  /** Python's `s.split(sep)` for a one-character separator. */
  function Split(s: string, sep: char): (r: seq<string>)
    ensures |r| >= 1
    ensures forall i :: 0 <= i < |r| ==> sep !in r[i]
  {
    if s == [] then [[]]
    else
      var rest := Split(s[1..], sep);
      if s[0] == sep then [[]] + rest else [[s[0]] + rest[0]] + rest[1..]
  }

  /** Python's `sep.join(parts)`, the inverse of `Split`. */
  function Join(parts: seq<string>, sep: char): string {
    if parts == [] then []
    else if |parts| == 1 then parts[0]
    else parts[0] + [sep] + Join(parts[1..], sep)
  }

  lemma {:induction false} JoinSplit(s: string, sep: char)
    ensures Join(Split(s, sep), sep) == s
  {
    if s != [] {
      var rest := Split(s[1..], sep);
      JoinSplit(s[1..], sep);
      if s[0] == sep {
        assert Split(s, sep) == [[]] + rest;
      } else {
        var r := [[s[0]] + rest[0]] + rest[1..];
        assert Split(s, sep) == r;
        if |rest| == 1 {
          assert Join(r, sep) == [s[0]] + rest[0];
        } else {
          assert r[1..] == rest[1..];
          assert Join(r, sep) == [s[0]] + rest[0] + [sep] + Join(rest[1..], sep);
          assert Join(rest, sep) == rest[0] + [sep] + Join(rest[1..], sep);
        }
        assert s == [s[0]] + s[1..];
      }
    }
  }

  /** A string without the separator is one piece. */
  lemma {:induction false} SplitNoSep(a: string, sep: char)
    requires sep !in a
    ensures Split(a, sep) == [a]
  {
    if a != [] {
      assert sep !in a[1..] by {
        forall c | c in a[1..] ensures c != sep { assert c in a; }
      }
      SplitNoSep(a[1..], sep);
      assert [a[0]] + a[1..] == a;
    }
  }

  /** The first separator ends the first piece. */
  lemma {:induction false} SplitAt(a: string, b: string, sep: char)
    requires sep !in a
    ensures Split(a + [sep] + b, sep) == [a] + Split(b, sep)
  {
    var s := a + [sep] + b;
    if a == [] {
      assert s[1..] == b;
    } else {
      assert s[0] == a[0];
      assert s[1..] == a[1..] + [sep] + b;
      assert sep !in a[1..] by {
        forall c | c in a[1..] ensures c != sep { assert c in a; }
      }
      SplitAt(a[1..], b, sep);
      assert [a[0]] + a[1..] == a;
    }
  }

  /** A string that lacks the first character of `k` does not contain `k`. */
  lemma FirstCharAbsent(s: string, k: string)
    requires |k| > 0 && k[0] !in s
    ensures !Contains(s, k)
  {
    forall i: nat | i <= |s|
      ensures !OccursAt(s, k, i)
    {
      if i + |k| <= |s| {
        assert s[i..i + |k|][0] == s[i];
        assert s[i] in s;
      }
    }
  }

  /** The index of the first occurrence of `k` in `s` at or after `from`. */
  function IndexFrom(s: string, k: string, from: nat): (r: Option<nat>)
    requires from <= |s|
    ensures r.Some? ==> from <= r.value <= |s| && OccursAt(s, k, r.value)
    ensures forall j: nat :: from <= j <= |s| && (r.None? || j < r.value) ==> !OccursAt(s, k, j)
    decreases |s| - from
  {
    if OccursAt(s, k, from) then Some(from)
    else if from == |s| then None
    else IndexFrom(s, k, from + 1)
  }

  /** The first index at which `k` occurs in `s`, the search behind `s.split(k)[1]`. */
  function IndexOf(s: string, k: string): (r: Option<nat>)
    ensures r.Some? <==> Contains(s, k)
    ensures r.Some? ==> OccursAt(s, k, r.value)
    ensures r.Some? ==> forall j: nat :: j < r.value ==> !OccursAt(s, k, j)
  {
    IndexFrom(s, k, 0)
  }

  /**
    The first occurrence only depends on a prefix long enough to hold it:
    two strings that agree up to `n` have the same first occurrence of `k`
    when that occurrence ends by `n`.
  */
  lemma IndexOfAgrees(a: string, b: string, k: string, n: nat)
    requires n <= |a| && n <= |b| && a[..n] == b[..n]
    requires IndexOf(a, k).Some? && IndexOf(a, k).value + |k| <= n
    ensures IndexOf(b, k) == IndexOf(a, k)
  {
    var p := IndexOf(a, k).value;
    PrefixSlice(a, n, p, p + |k|);
    PrefixSlice(b, n, p, p + |k|);
    assert OccursAt(b, k, p);
    forall j: nat | j < p
      ensures !OccursAt(b, k, j)
    {
      assert !OccursAt(a, k, j);
      PrefixSlice(a, n, j, j + |k|);
      PrefixSlice(b, n, j, j + |k|);
    }
  }

  /** A window of `s` in which no occurrence of `k` starts does not contain `k`. */
  lemma NoOccurrenceInside(s: string, k: string, e: nat, n: nat)
    requires |k| > 0 && e + n <= |s|
    requires forall p: nat :: e <= p < e + n ==> !OccursAt(s, k, p)
    ensures !Contains(s[e..e + n], k)
  {
    var w := s[e..e + n];
    forall p: nat | p <= n
      ensures !OccursAt(w, k, p)
    {
      if p + |k| <= n {
        var q := e + p;
        assert e <= q < e + n;
        assert !OccursAt(s, k, q);
        SliceOfSlice(s, e, n, p, |k|);
      }
    }
  }

  /** Two strings that agree up to `e` agree on every window that ends by `e`. */
  lemma WindowAgrees(a: string, b: string, e: nat, i: nat, m: nat)
    requires e <= |a| && e <= |b| && a[..e] == b[..e] && i + m <= e
    ensures a[i..][..m] == b[i..][..m]
  {
    assert a[i..][..m] == a[..e][i..i + m];
    assert b[i..][..m] == b[..e][i..i + m];
  }

  lemma SliceOfSlice(s: string, e: nat, n: nat, p: nat, m: nat)
    requires e + n <= |s| && p + m <= n
    ensures s[e..e + n][p..p + m] == s[e + p..e + p + m]
  {
    var a := s[e..e + n][p..p + m];
    var b := s[e + p..e + p + m];
    forall i | 0 <= i < m
      ensures a[i] == b[i]
    {
    }
  }

  lemma PrefixSlice(s: string, n: nat, i: nat, j: nat)
    requires i <= j <= n <= |s|
    ensures s[..n][i..j] == s[i..j]
  {
  }

  /** Where the text after the first occurrence of `k` begins. */
  function PieceStart(s: string, k: string): (e: nat)
    requires Contains(s, k)
    ensures e <= |s|
  {
    IndexOf(s, k).value + |k|
  }

  /** How far the second piece reaches: up to the next `k`, or to the end. */
  function PieceLength(s: string, k: string): nat
    requires Contains(s, k)
  {
    var e := PieceStart(s, k);
    match IndexOf(s[e..], k)
    case None => |s| - e
    case Some(j) => j
  }

  /**
    The second piece ends at the end of `s` or where `k` starts, and no
    occurrence of `k` starts inside it.
  */
  lemma PieceBounds(s: string, k: string)
    requires Contains(s, k)
    ensures PieceStart(s, k) + PieceLength(s, k) <= |s|
    ensures PieceStart(s, k) + PieceLength(s, k) == |s| || OccursAt(s, k, PieceStart(s, k) + PieceLength(s, k))
    ensures forall p: nat :: PieceStart(s, k) <= p < PieceStart(s, k) + PieceLength(s, k) ==> !OccursAt(s, k, p)
  {
    var e := PieceStart(s, k);
    var rest := s[e..];
    var n := PieceLength(s, k);
    forall p: nat | e <= p < e + n
      ensures !OccursAt(s, k, p)
    {
      var q := p - e;
      assert !OccursAt(rest, k, q);
      if p + |k| <= |s| {
        assert rest == s[e..e + |rest|];
        SliceOfSlice(s, e, |rest|, q, |k|);
      }
    }
    if IndexOf(rest, k).Some? {
      assert OccursAt(rest, k, n);
      assert rest == s[e..e + |rest|];
      SliceOfSlice(s, e, |rest|, n, |k|);
    }
  }

  /**
    Python's `s.split(k)[1]`: the text from the end of the first `k` up to
    the next `k`, or to the end of `s` when there is none.
  */
  function SecondPiece(s: string, k: string): (seg: string)
    requires |k| > 0 && Contains(s, k)
    ensures PieceStart(s, k) + |seg| <= |s| && seg == s[PieceStart(s, k)..PieceStart(s, k) + |seg|]
    ensures PieceStart(s, k) + |seg| == |s| || OccursAt(s, k, PieceStart(s, k) + |seg|)
    ensures forall p: nat :: PieceStart(s, k) <= p < PieceStart(s, k) + |seg| ==> !OccursAt(s, k, p)
    ensures !Contains(seg, k)
  {
    PieceBounds(s, k);
    var e := PieceStart(s, k);
    var seg := s[e..e + PieceLength(s, k)];
    NoOccurrenceInside(s, k, e, |seg|);
    seg
  }

  /** The end of the second occurrence of `k` in `s`, when there is one. */
  function SecondEnd(s: string, k: string): (r: Option<nat>)
    ensures r.Some? ==> r.value <= |s|
  {
    match IndexOf(s, k)
    case None => None
    case Some(i) =>
      match IndexOf(s[i + |k|..], k)
      case None => None
      case Some(j) => Some(i + |k| + j + |k|)
  }

  /** Text past the second occurrence of `k` does not reach the second piece. */
  lemma SecondPieceIgnoresTail(s: string, t: string, k: string)
    requires |k| > 0 && SecondEnd(s, k).Some?
    ensures Contains(s, k)
    ensures Contains(s[..SecondEnd(s, k).value] + t, k)
    ensures SecondPiece(s[..SecondEnd(s, k).value] + t, k) == SecondPiece(s, k)
  {
    var e := SecondEnd(s, k).value;
    var s' := s[..e] + t;
    assert s'[..e] == s[..e];
    PieceBoundsAgree(s, s', k, e);
    PieceAgrees(s, s', k, e);
  }

  /** Two strings that agree up to the end of the second `k` of the first have the same second piece bounds. */
  lemma PieceBoundsAgree(a: string, b: string, k: string, e: nat)
    requires SecondEnd(a, k).Some? && e == SecondEnd(a, k).value
    requires e <= |b| && a[..e] == b[..e]
    ensures Contains(a, k) && Contains(b, k)
    ensures PieceStart(b, k) == PieceStart(a, k)
    ensures PieceLength(b, k) == PieceLength(a, k)
    ensures PieceStart(a, k) + PieceLength(a, k) <= e
  {
    var i := IndexOf(a, k).value;
    var st := i + |k|;
    var rest := a[st..];
    var j := IndexOf(rest, k).value;
    assert e == st + j + |k|;
    IndexOfAgrees(a, b, k, e);
    assert IndexOf(b, k) == Some(i);
    var rest' := b[st..];
    WindowAgrees(a, b, e, st, j + |k|);
    IndexOfAgrees(rest, rest', k, j + |k|);
    assert IndexOf(rest', k) == Some(j);
    assert PieceStart(a, k) == st && PieceStart(b, k) == st;
    assert PieceLength(a, k) == j by {
      assert a[PieceStart(a, k)..] == rest;
    }
    assert PieceLength(b, k) == j by {
      assert b[PieceStart(b, k)..] == rest';
    }
  }

  /** Equal piece bounds inside a common prefix give equal second pieces. */
  lemma PieceAgrees(a: string, b: string, k: string, n: nat)
    requires |k| > 0 && Contains(a, k) && Contains(b, k)
    requires n <= |a| && n <= |b| && a[..n] == b[..n]
    requires PieceStart(b, k) == PieceStart(a, k) && PieceLength(b, k) == PieceLength(a, k)
    requires PieceStart(a, k) + PieceLength(a, k) <= n
    ensures SecondPiece(b, k) == SecondPiece(a, k)
  {
    var st := PieceStart(a, k);
    var m := PieceLength(a, k);
    PrefixSlice(a, n, st, st + m);
    PrefixSlice(b, n, st, st + m);
  }
}
