/** Python's ordering of `str` values (code point by code point, a proper prefix
    first) and `list.sort()` on a list of strings. */
module StringOrder {

  /** `a <= b` on Python strings. */
  predicate LexLe(a: string, b: string)
    decreases |a|
  {
    |a| == 0 || (|b| > 0 && (a[0] < b[0] || (a[0] == b[0] && LexLe(a[1..], b[1..]))))
  }

  lemma {:induction false} LexLeReflexive(a: string)
    ensures LexLe(a, a)
    decreases |a|
  {
    if |a| > 0 {
      LexLeReflexive(a[1..]);
    }
  }

  lemma {:induction false} LexLeTotal(a: string, b: string)
    ensures LexLe(a, b) || LexLe(b, a)
    decreases |a|
  {
    if |a| > 0 && |b| > 0 && a[0] == b[0] {
      LexLeTotal(a[1..], b[1..]);
    }
  }

  lemma {:induction false} LexLeAntisymmetric(a: string, b: string)
    requires LexLe(a, b) && LexLe(b, a)
    ensures a == b
    decreases |a|
  {
    if |a| > 0 {
      LexLeAntisymmetric(a[1..], b[1..]);
      assert a == [a[0]] + a[1..] && b == [b[0]] + b[1..];
    }
  }

  lemma {:induction false} LexLeTransitive(a: string, b: string, c: string)
    requires LexLe(a, b) && LexLe(b, c)
    ensures LexLe(a, c)
    decreases |a|
  {
    if |a| > 0 && a[0] == b[0] && b[0] == c[0] {
      LexLeTransitive(a[1..], b[1..], c[1..]);
    }
  }

  predicate Sorted(s: seq<string>)
  {
    forall p, q :: 0 <= p < q < |s| ==> LexLe(s[p], s[q])
  }

  function Insert(x: string, s: seq<string>): (r: seq<string>)
    requires Sorted(s)
    ensures Sorted(r)
    ensures multiset(r) == multiset(s) + multiset{x}
    decreases |s|
  {
    if |s| == 0 then [x]
    else if LexLe(x, s[0]) then
      InsertedFirst(x, s);
      [x] + s
    else
      assert s == [s[0]] + s[1..];
      LexLeTotal(x, s[0]);
      var rest := Insert(x, s[1..]);
      KeptFirst(s[0], x, s[1..], rest);
      [s[0]] + rest
  }

  lemma InsertedFirst(x: string, s: seq<string>)
    requires Sorted(s) && |s| > 0 && LexLe(x, s[0])
    ensures Sorted([x] + s)
  {
    var r := [x] + s;
    forall p, q | 0 <= p < q < |r| ensures LexLe(r[p], r[q]) {
      if p == 0 {
        if q > 1 {
          LexLeTransitive(x, s[0], s[q - 1]);
        }
      } else {
        assert r[p] == s[p - 1] && r[q] == s[q - 1];
      }
    }
  }

  lemma KeptFirst(first: string, x: string, tail: seq<string>, rest: seq<string>)
    requires LexLe(first, x)
    requires forall k :: 0 <= k < |tail| ==> LexLe(first, tail[k])
    requires Sorted(rest)
    requires multiset(rest) == multiset(tail) + multiset{x}
    ensures Sorted([first] + rest)
  {
    var r := [first] + rest;
    forall k | 0 <= k < |rest| ensures LexLe(first, rest[k]) {
      assert rest[k] in multiset(rest);
      if rest[k] != x {
        assert rest[k] in multiset(tail);
        var m :| 0 <= m < |tail| && tail[m] == rest[k];
      }
    }
    forall p, q | 0 <= p < q < |r| ensures LexLe(r[p], r[q]) {
      assert r[q] == rest[q - 1];
      if p > 0 {
        assert r[p] == rest[p - 1];
      }
    }
  }

  /** The list that `sort()` leaves behind, defined as an insertion sort. */
  function SortedSeq(s: seq<string>): (r: seq<string>)
    ensures Sorted(r)
    ensures multiset(r) == multiset(s)
    ensures |r| == |s|
    decreases |s|
  {
    if |s| == 0 then []
    else
      assert s == [s[0]] + s[1..];
      Insert(s[0], SortedSeq(s[1..]))
  }

  /** Two sorted lists with the same elements are the same list, so the result
      of any correct sort is `SortedSeq`. */
  lemma {:induction false} SortedIsUnique(a: seq<string>, b: seq<string>)
    requires Sorted(a) && Sorted(b)
    requires multiset(a) == multiset(b)
    ensures a == b
    decreases |a|
  {
    assert |a| == |multiset(a)| == |multiset(b)| == |b|;
    if |a| > 0 {
      SmallestFirst(a, b);
      SmallestFirst(b, a);
      LexLeAntisymmetric(a[0], b[0]);
      SortedTail(a);
      SortedTail(b);
      SortedIsUnique(a[1..], b[1..]);
      assert a == [a[0]] + a[1..] && b == [b[0]] + b[1..];
    }
  }

  lemma SmallestFirst(a: seq<string>, b: seq<string>)
    requires Sorted(b) && |a| > 0 && multiset(a) == multiset(b)
    ensures |b| > 0 && LexLe(b[0], a[0])
  {
    assert a[0] in multiset(b);
    var k :| 0 <= k < |b| && b[k] == a[0];
    if k == 0 {
      LexLeReflexive(b[0]);
    }
  }

  lemma SortedTail(s: seq<string>)
    requires Sorted(s) && |s| > 0
    ensures Sorted(s[1..])
    ensures multiset(s[1..]) == multiset(s) - multiset{s[0]}
  {
    assert s == [s[0]] + s[1..];
    forall p, q | 0 <= p < q < |s| - 1 ensures LexLe(s[1..][p], s[1..][q]) {
      assert s[1..][p] == s[p + 1] && s[1..][q] == s[q + 1];
    }
  }

  /** A list without repeated elements stays so once sorted. */
  lemma SortedSeqKeepsDistinct(s: seq<string>)
    requires forall p, q :: 0 <= p < q < |s| ==> s[p] != s[q]
    ensures forall p, q :: 0 <= p < q < |SortedSeq(s)| ==> SortedSeq(s)[p] != SortedSeq(s)[q]
  {
    var r := SortedSeq(s);
    MultiplicityAtMostOne(s);
    forall p, q | 0 <= p < q < |r| ensures r[p] != r[q] {
      if r[p] == r[q] {
        TwoOccurrences(r, p, q);
        assert false;
      }
    }
  }

  lemma {:induction false} MultiplicityAtMostOne(s: seq<string>)
    requires forall p, q :: 0 <= p < q < |s| ==> s[p] != s[q]
    ensures forall x :: multiset(s)[x] <= 1
    decreases |s|
  {
    if |s| > 0 {
      var t := s[..|s| - 1];
      assert s == t + [s[|s| - 1]];
      MultiplicityAtMostOne(t);
      assert s[|s| - 1] !in t;
    }
  }

  lemma TwoOccurrences(r: seq<string>, p: nat, q: nat)
    requires p < q < |r| && r[p] == r[q]
    ensures multiset(r)[r[p]] >= 2
  {
    assert r == r[..q] + [r[q]] + r[q + 1..];
    assert r[p] in r[..q];
    assert multiset(r) == multiset(r[..q]) + multiset{r[q]} + multiset(r[q + 1..]);
  }

  /** The first `n` elements are in order. */
  predicate SortedPrefix(s: seq<string>, n: nat)
    requires n <= |s|
  {
    forall p, q :: 0 <= p < q < n ==> LexLe(s[p], s[q])
  }

  /** While the element taken from position `i` sinks to position `j`: the
      first `i + 1` elements are in order if position `j` is ignored, and the
      sinking element is no greater than anything after it. */
  predicate Sinking(s: seq<string>, j: nat, i: nat)
    requires j <= i < |s|
  {
    && (forall p, q :: 0 <= p < q <= i && p != j && q != j ==> LexLe(s[p], s[q]))
    && (forall q :: j < q <= i ==> LexLe(s[j], s[q]))
  }

  lemma SinkingStep(s: seq<string>, j: nat, i: nat)
    requires 0 < j <= i < |s|
    requires Sinking(s, j, i) && !LexLe(s[j - 1], s[j])
    ensures Sinking(s[j - 1 := s[j]][j := s[j - 1]], j - 1, i)
  {
    LexLeTotal(s[j - 1], s[j]);
  }

  lemma SinkingDone(s: seq<string>, j: nat, i: nat)
    requires j <= i < |s|
    requires Sinking(s, j, i) && (j == 0 || LexLe(s[j - 1], s[j]))
    ensures SortedPrefix(s, i + 1)
  {
    forall p, q | 0 <= p < q <= i ensures LexLe(s[p], s[q]) {
      if q == j && p < j - 1 {
        LexLeTransitive(s[p], s[j - 1], s[j]);
      }
    }
  }

  /** `list.sort()` on an array: an insertion sort by adjacent swaps. It leaves
      exactly `SortedSeq` of the old contents. */
  method SortInPlace(a: array<string>)
    modifies a
    ensures a[..] == SortedSeq(old(a[..]))
  {
    var i := 0;
    while i < a.Length
      invariant 0 <= i <= a.Length
      invariant SortedPrefix(a[..], i)
      invariant multiset(a[..]) == old(multiset(a[..]))
    {
      var j := i;
      while j > 0 && !LexLe(a[j - 1], a[j])
        invariant 0 <= j <= i
        invariant Sinking(a[..], j, i)
        invariant multiset(a[..]) == old(multiset(a[..]))
      {
        SinkingStep(a[..], j, i);
        a[j - 1], a[j] := a[j], a[j - 1];
        j := j - 1;
      }
      SinkingDone(a[..], j, i);
      i := i + 1;
    }
    SortedIsUnique(a[..], SortedSeq(old(a[..])));
  }
}
