/** Order-preserving operations on tag lists: `lo.Filter` and the core's own
    `subtract`. */
module TagSets {
  import opened Types
  import opened TagOrder

  /** `lo.Filter(s, keep)`: the elements of `s` that `keep` accepts, in order. */
  function Filter(s: seq<Tag>, keep: Tag -> bool): (r: seq<Tag>)
    ensures |r| <= |s|
    ensures forall x :: x in r <==> x in s && keep(x)
  {
    if s == [] then []
    else (if keep(s[0]) then [s[0]] else []) + Filter(s[1..], keep)
  }

  /** `a` can be obtained from `b` by deleting elements. */
  predicate IsSubsequence(a: seq<Tag>, b: seq<Tag>)
    decreases |b|
  {
    if a == [] then true
    else if b == [] then false
    else if a[0] == b[0] then IsSubsequence(a[1..], b[1..])
    else IsSubsequence(a, b[1..])
  }

  lemma {:induction false} FilterAppend(s: seq<Tag>, x: Tag, keep: Tag -> bool)
    ensures Filter(s + [x], keep) == Filter(s, keep) + (if keep(x) then [x] else [])
  {
    if s != [] {
      assert (s + [x])[1..] == s[1..] + [x];
      FilterAppend(s[1..], x, keep);
    }
  }

  /** Filtering keeps every copy of an accepted element and no copy of a rejected one. */
  lemma {:induction false} FilterCount(s: seq<Tag>, keep: Tag -> bool, x: Tag)
    ensures multiset(Filter(s, keep))[x] == if keep(x) then multiset(s)[x] else 0
  {
    if s != [] {
      FilterCount(s[1..], keep, x);
      assert s == [s[0]] + s[1..];
    }
  }

  /** Filtering only deletes elements. */
  lemma {:induction false} FilterIsSubsequence(s: seq<Tag>, keep: Tag -> bool)
    ensures IsSubsequence(Filter(s, keep), s)
  {
    if s != [] {
      FilterIsSubsequence(s[1..], keep);
      var r := Filter(s, keep);
      if keep(s[0]) {
        assert r[1..] == Filter(s[1..], keep);
      } else {
        assert r == Filter(s[1..], keep);
        if r != [] {
          assert r[0] in r;
        }
      }
    }
  }

  /** Filtering an ascending list leaves it ascending. */
  lemma {:induction false} FilterSorted(s: seq<Tag>, keep: Tag -> bool)
    requires Sorted(s)
    ensures Sorted(Filter(s, keep))
  {
    if s != [] {
      assert Sorted(s[1..]);
      FilterSorted(s[1..], keep);
      var rest := Filter(s[1..], keep);
      forall j | 0 <= j < |rest| ensures Le(s[0], rest[j]) {
        assert rest[j] in s[1..];
      }
    }
  }

  /** The condition that accepts what both `p` and `q` accept. */
  function Both(p: Tag -> bool, q: Tag -> bool): Tag -> bool
  {
    t => p(t) && q(t)
  }

  /** Two filters in a row are one filter by both conditions. */
  lemma {:induction false} FilterFilter(s: seq<Tag>, p: Tag -> bool, q: Tag -> bool)
    ensures Filter(Filter(s, p), q) == Filter(s, Both(p, q))
  {
    if s != [] {
      FilterFilter(s[1..], p, q);
      assert Both(p, q)(s[0]) == (p(s[0]) && q(s[0]));
      if p(s[0]) {
        assert Filter(s, p) == [s[0]] + Filter(s[1..], p);
        assert Filter(s, p)[1..] == Filter(s[1..], p);
      } else {
        assert Filter(s, p) == Filter(s[1..], p);
      }
    }
  }

  /** A filter that accepts everything in the list changes nothing. */
  lemma {:induction false} FilterKeepsAll(s: seq<Tag>, keep: Tag -> bool)
    requires forall x :: x in s ==> keep(x)
    ensures Filter(s, keep) == s
  {
    if s != [] {
      FilterKeepsAll(s[1..], keep);
      assert s == [s[0]] + s[1..];
    }
  }

  /** Filters whose conditions agree on the list's elements give the same result. */
  lemma {:induction false} FilterExt(s: seq<Tag>, f: Tag -> bool, g: Tag -> bool)
    requires forall x :: x in s ==> f(x) == g(x)
    ensures Filter(s, f) == Filter(s, g)
  {
    if s != [] {
      FilterExt(s[1..], f, g);
    }
  }

  /** A filter that accepts nothing in the list leaves it empty. */
  lemma {:induction false} FilterRejectsAll(s: seq<Tag>, keep: Tag -> bool)
    requires forall x :: x in s ==> !keep(x)
    ensures Filter(s, keep) == []
  {
    if s != [] {
      FilterRejectsAll(s[1..], keep);
    }
  }

  /** Filtering twice by the same condition is filtering once. */
  lemma FilterIdempotent(s: seq<Tag>, keep: Tag -> bool)
    ensures Filter(Filter(s, keep), keep) == Filter(s, keep)
  {
    FilterKeepsAll(Filter(s, keep), keep);
  }

  /** The specification of `subtract(ts1, ts2)`: the elements of `ts1` that do
      not occur in `ts2`, duplicates kept, in the order of `ts1`. */
  function Diff(ts1: seq<Tag>, ts2: seq<Tag>): (r: seq<Tag>)
    ensures forall x :: x in r <==> x in ts1 && x !in ts2
  {
    Filter(ts1, t => t !in ts2)
  }

  lemma DiffCount(ts1: seq<Tag>, ts2: seq<Tag>, x: Tag)
    ensures multiset(Diff(ts1, ts2))[x] == if x in ts2 then 0 else multiset(ts1)[x]
  {
    FilterCount(ts1, t => t !in ts2, x);
  }

  lemma DiffIsSubsequence(ts1: seq<Tag>, ts2: seq<Tag>)
    ensures IsSubsequence(Diff(ts1, ts2), ts1)
  {
    FilterIsSubsequence(ts1, t => t !in ts2);
  }

  lemma DiffIdempotent(a: seq<Tag>, b: seq<Tag>)
    ensures Diff(Diff(a, b), b) == Diff(a, b)
  {
    FilterKeepsAll(Diff(a, b), t => t !in b);
  }

  lemma DiffEmpty(a: seq<Tag>)
    ensures Diff(a, []) == a
  {
    FilterKeepsAll(a, t => t !in []);
  }

  /** The difference is empty exactly when every element of `a` occurs in `b`. */
  lemma DiffEmptyIff(a: seq<Tag>, b: seq<Tag>)
    ensures Diff(a, b) == [] <==> forall x :: x in a ==> x in b
  {
    if forall x :: x in a ==> x in b {
      FilterRejectsAll(a, t => t !in b);
    }
  }

  /** `subtract(ts1, ts2)`: builds the difference by a loop that appends
      every element of `ts1` that `lo.Contains` does not find in `ts2`. */
  method Subtract(ts1: seq<Tag>, ts2: seq<Tag>) returns (diff: seq<Tag>)
    ensures diff == Diff(ts1, ts2)
  {
    diff := [];
    for i := 0 to |ts1|
      invariant diff == Diff(ts1[..i], ts2)
    {
      var term := ts1[i];
      assert ts1[..i + 1] == ts1[..i] + [term];
      FilterAppend(ts1[..i], term, t => t !in ts2);
      if term in ts2 {
        continue;
      }
      diff := diff + [term];
    }
    assert ts1[..|ts1|] == ts1;
  }
}
