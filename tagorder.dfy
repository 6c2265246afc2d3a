/** The ordering `slices.Sort` puts tags in, and the sort itself.

    Go compares strings byte by byte. A `string` here is a sequence of
    Unicode scalar values, and UTF-8 encodes them so that byte-wise order
    and code-point order agree, so the order is lexicographic on `char`. */
module TagOrder {
  import opened Types

  /** `a <= b` in Go's string order. */
  predicate Le(a: string, b: string)
  {
    if a == [] then true
    else if b == [] then false
    else if a[0] != b[0] then a[0] < b[0]
    else Le(a[1..], b[1..])
  }

  lemma {:induction false} LeReflexive(a: string)
    ensures Le(a, a)
  {
    if a != [] { LeReflexive(a[1..]); }
  }

  lemma {:induction false} LeTotal(a: string, b: string)
    ensures Le(a, b) || Le(b, a)
  {
    if a != [] && b != [] && a[0] == b[0] { LeTotal(a[1..], b[1..]); }
  }

  lemma {:induction false} LeAntisymmetric(a: string, b: string)
    requires Le(a, b) && Le(b, a)
    ensures a == b
  {
    if a != [] && b != [] {
      LeAntisymmetric(a[1..], b[1..]);
      assert a == [a[0]] + a[1..] && b == [b[0]] + b[1..];
    }
  }

  lemma {:induction false} LeTransitive(a: string, b: string, c: string)
    requires Le(a, b) && Le(b, c)
    ensures Le(a, c)
  {
    if a != [] && a[0] == b[0] && b[0] == c[0] {
      LeTransitive(a[1..], b[1..], c[1..]);
    }
  }

  /** Ascending order, every pair compared. */
  predicate Sorted(s: seq<Tag>)
  {
    forall i, j :: 0 <= i < j < |s| ==> Le(s[i], s[j])
  }

  /** Inserting into an ascending sequence at the first place that keeps it ascending. */
  function Insert(x: Tag, s: seq<Tag>): (r: seq<Tag>)
    requires Sorted(s)
    ensures Sorted(r)
    ensures multiset(r) == multiset(s) + multiset{x}
  {
    if s == [] then [x]
    else if Le(x, s[0]) then
      LeBelowSorted(x, s);
      [x] + s
    else
      LeTotal(x, s[0]);
      var t := Insert(x, s[1..]);
      assert s == [s[0]] + s[1..];
      ConsSorted(s[0], t, s);
      [s[0]] + t
  }

  /** An element below the head of an ascending sequence can go in front of it. */
  lemma LeBelowSorted(x: Tag, s: seq<Tag>)
    requires Sorted(s) && s != [] && Le(x, s[0])
    ensures Sorted([x] + s)
  {
    forall j | 0 <= j < |s| ensures Le(x, s[j]) {
      if j > 0 { LeTransitive(x, s[0], s[j]); }
    }
  }

  /** `[h] + t` is ascending when `t` is and `h` is below every element of `t`,
      which holds when `t` holds only `h`'s upper neighbours taken from `s`. */
  lemma ConsSorted(h: Tag, t: seq<Tag>, s: seq<Tag>)
    requires Sorted(s) && s != [] && s[0] == h && Sorted(t)
    requires exists x :: Le(h, x) && multiset(t) == multiset(s[1..]) + multiset{x}
    ensures Sorted([h] + t)
  {
    var x :| Le(h, x) && multiset(t) == multiset(s[1..]) + multiset{x};
    forall j | 0 <= j < |t| ensures Le(h, t[j]) {
      assert t[j] in multiset(t);
      if t[j] != x {
        assert t[j] in multiset(s[1..]);
        var k :| 0 <= k < |s[1..]| && s[1..][k] == t[j];
        assert s[k + 1] == t[j];
      }
    }
  }

  /** The reference sort: repeated insertion. */
  function SortSpec(s: seq<Tag>): (r: seq<Tag>)
    ensures Sorted(r)
    ensures multiset(r) == multiset(s)
  {
    if s == [] then []
    else
      assert s == [s[0]] + s[1..];
      Insert(s[0], SortSpec(s[1..]))
  }

  /** The head of an ascending sequence is below all of its elements. */
  lemma HeadIsLeast(s: seq<Tag>, x: Tag)
    requires Sorted(s) && x in multiset(s)
    ensures s != [] && Le(s[0], x)
  {
    var k :| 0 <= k < |s| && s[k] == x;
    if k == 0 { LeReflexive(x); }
  }

  lemma SortedTail(s: seq<Tag>)
    requires Sorted(s) && s != []
    ensures Sorted(s[1..])
  {
    forall i, j | 0 <= i < j < |s| - 1 ensures Le(s[1..][i], s[1..][j]) {
      assert s[1..][i] == s[i + 1] && s[1..][j] == s[j + 1];
    }
  }

  lemma TailsAgree(a: seq<Tag>, b: seq<Tag>)
    requires a != [] && b != [] && a[0] == b[0] && multiset(a) == multiset(b)
    ensures multiset(a[1..]) == multiset(b[1..])
  {
    assert a == [a[0]] + a[1..] && b == [b[0]] + b[1..];
    assert multiset(a) == multiset{a[0]} + multiset(a[1..]);
    assert multiset(b) == multiset{b[0]} + multiset(b[1..]);
    assert multiset(a[1..]) == multiset(a) - multiset{a[0]};
    assert multiset(b[1..]) == multiset(b) - multiset{b[0]};
  }

  /** There is only one ascending arrangement of a multiset of tags. */
  lemma {:induction false} SortedUnique(a: seq<Tag>, b: seq<Tag>)
    requires Sorted(a) && Sorted(b)
    requires multiset(a) == multiset(b)
    ensures a == b
  {
    if a == [] {
      assert |b| == |multiset(b)| == 0;
    } else {
      assert a[0] in multiset(a);
      assert |b| == |multiset(b)| == |multiset(a)| == |a|;
      HeadIsLeast(b, a[0]);
      HeadIsLeast(a, b[0]);
      LeAntisymmetric(a[0], b[0]);
      TailsAgree(a, b);
      SortedTail(a);
      SortedTail(b);
      SortedUnique(a[1..], b[1..]);
      assert a == [a[0]] + a[1..] && b == [b[0]] + b[1..];
    }
  }

  /** The first `n` elements are ascending. */
  predicate SortedPrefix(s: seq<Tag>, n: nat)
    requires n <= |s|
  {
    forall k, l :: 0 <= k < l < n ==> Le(s[k], s[l])
  }

  /** The state of insertion while the element that started at `i` sits at
      `j`: both sides of it ascending, everything left of it below everything
      right of it, and it below everything right of it. */
  predicate Sifting(s: seq<Tag>, j: nat, i: nat)
    requires j <= i < |s|
  {
    && SortedPrefix(s, j)
    && (forall k, l :: j < k < l <= i ==> Le(s[k], s[l]))
    && (forall k, l :: 0 <= k < j < l <= i ==> Le(s[k], s[l]))
    && (forall l :: j < l <= i ==> Le(s[j], s[l]))
  }

  lemma SiftingStart(s: seq<Tag>, i: nat)
    requires i < |s| && SortedPrefix(s, i)
    ensures Sifting(s, i, i)
  {
  }

  /** Swapping the element one place to the left keeps the sifting state. */
  lemma SiftingStep(s: seq<Tag>, j: nat, i: nat)
    requires 0 < j <= i < |s| && Sifting(s, j, i) && !Le(s[j - 1], s[j])
    ensures Sifting(s[j - 1 := s[j]][j := s[j - 1]], j - 1, i)
  {
    LeTotal(s[j - 1], s[j]);
  }

  /** Once the element is in place, the first `i + 1` elements are ascending. */
  lemma SiftingDone(s: seq<Tag>, j: nat, i: nat)
    requires j <= i < |s| && Sifting(s, j, i) && (j == 0 || Le(s[j - 1], s[j]))
    ensures SortedPrefix(s, i + 1)
  {
    forall k | 0 <= k < j ensures Le(s[k], s[j]) {
      if k < j - 1 { LeTransitive(s[k], s[j - 1], s[j]); }
    }
  }

  /** `slices.Sort(tags)`: sorts the array in place (here by insertion). */
  method SortTags(a: array<Tag>)
    modifies a
    ensures Sorted(a[..])
    ensures multiset(a[..]) == multiset(old(a[..]))
    ensures a[..] == SortSpec(old(a[..]))
  {
    var i := 0;
    while i < a.Length
      invariant 0 <= i <= a.Length
      invariant SortedPrefix(a[..], i)
      invariant multiset(a[..]) == multiset(old(a[..]))
    {
      SiftingStart(a[..], i);
      var j := i;
      while j > 0 && !Le(a[j - 1], a[j])
        invariant 0 <= j <= i
        invariant multiset(a[..]) == multiset(old(a[..]))
        invariant Sifting(a[..], j, i)
      {
        SiftingStep(a[..], j, i);
        a[j - 1], a[j] := a[j], a[j - 1];
        j := j - 1;
      }
      SiftingDone(a[..], j, i);
      i := i + 1;
    }
    SortedUnique(a[..], SortSpec(old(a[..])));
  }
}
