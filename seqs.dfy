/** Python's `list.remove` and the sequence facts the registry proofs need. */
module Seqs {

  lemma AppendAssoc<T>(a: seq<T>, b: seq<T>, c: seq<T>)
    ensures a + b + c == a + (b + c)
  {
  }

  /** `list.remove(x)`: drops the first occurrence of `x`. Python raises `ValueError` when `x` is
      absent; this total version leaves the list unchanged then. */
  function RemoveFirst<T(==)>(s: seq<T>, x: T): (r: seq<T>)
    ensures x !in s ==> r == s
    ensures x in s ==> |r| == |s| - 1
  {
    if |s| == 0 then []
    else if s[0] == x then s[1..]
    else [s[0]] + RemoveFirst(s[1..], x)
  }

  lemma {:induction false} RemoveFirstMultiset<T>(s: seq<T>, x: T)
    ensures multiset(RemoveFirst(s, x)) == multiset(s) - multiset{x}
  {
    if |s| > 0 {
      assert s == [s[0]] + s[1..];
      if s[0] != x {
        RemoveFirstMultiset(s[1..], x);
      }
    }
  }

  lemma RemoveFirstKeeps<T>(s: seq<T>, x: T, y: T)
    requires y != x
    ensures y in RemoveFirst(s, x) <==> y in s
  {
    RemoveFirstMultiset(s, x);
    assert y in multiset(RemoveFirst(s, x)) <==> y in multiset(s);
  }

  lemma {:induction false} RemoveFirstAfterPrefix<T>(a: seq<T>, x: T, b: seq<T>)
    requires x !in a
    ensures RemoveFirst(a + [x] + b, x) == a + b
  {
    var s := a + [x] + b;
    if |a| == 0 {
      assert s[1..] == b;
    } else {
      var tail := a[1..];
      assert a[0] != x && x !in tail by {
        assert a[0] in a && forall y :: y in tail ==> y in a;
      }
      assert RemoveFirst(s, x) == [a[0]] + RemoveFirst(tail + [x] + b, x) by {
        assert s[0] == a[0] && s[1..] == tail + [x] + b;
      }
      RemoveFirstAfterPrefix(tail, x, b);
      assert a + b == [a[0]] + (tail + b) by {
        assert a == [a[0]] + tail;
      }
    }
  }

  /** Removes the elements of `xs` one at a time, in order (a loop of `list.remove`). */
  function RemoveEach<T(==)>(s: seq<T>, xs: seq<T>): seq<T>
  {
    if |xs| == 0 then s else RemoveFirst(RemoveEach(s, xs[..|xs| - 1]), xs[|xs| - 1])
  }

  lemma RemoveEachSnoc<T>(s: seq<T>, xs: seq<T>, x: T)
    ensures RemoveEach(s, xs + [x]) == RemoveFirst(RemoveEach(s, xs), x)
  {
    assert (xs + [x])[..|xs|] == xs;
  }

  lemma {:induction false} RemoveEachConcat<T>(s: seq<T>, xs: seq<T>, ys: seq<T>)
    ensures RemoveEach(s, xs + ys) == RemoveEach(RemoveEach(s, xs), ys)
  {
    if |ys| > 0 {
      var n := |ys| - 1;
      assert (xs + ys)[..|xs + ys| - 1] == xs + ys[..n];
      RemoveEachConcat(s, xs, ys[..n]);
    } else {
      assert xs + ys == xs;
    }
  }

  /** Removing what was just appended, in the same order, restores the list, provided none of the
      appended elements was already there. */
  lemma {:induction false} RemoveEachAppended<T>(a: seq<T>, xs: seq<T>, b: seq<T>)
    requires forall x :: x in xs ==> x !in a
    ensures RemoveEach(a + xs + b, xs) == a + b
  {
    if |xs| > 0 {
      var n := |xs| - 1;
      var last := xs[n];
      assert xs == xs[..n] + [last];
      assert a + xs + b == a + xs[..n] + ([last] + b);
      RemoveEachAppended(a, xs[..n], [last] + b);
      assert a + ([last] + b) == a + [last] + b;
      RemoveFirstAfterPrefix(a, last, b);
    } else {
      assert a + xs + b == a + b;
    }
  }

  lemma {:induction false} RemoveEachKeeps<T>(s: seq<T>, xs: seq<T>, y: T)
    requires y !in xs
    ensures y in RemoveEach(s, xs) <==> y in s
  {
    if |xs| > 0 {
      var n := |xs| - 1;
      assert y != xs[n] && y !in xs[..n];
      RemoveEachKeeps(s, xs[..n], y);
      RemoveFirstKeeps(RemoveEach(s, xs[..n]), xs[n], y);
    }
  }

  lemma {:induction false} RemoveFirstSubset<T>(s: seq<T>, x: T, y: T)
    requires y in RemoveFirst(s, x)
    ensures y in s
  {
    if |s| > 0 && s[0] != x && y != s[0] {
      RemoveFirstSubset(s[1..], x, y);
    }
  }

  /** Removal only ever drops elements. */
  lemma {:induction false} RemoveEachSubset<T>(s: seq<T>, xs: seq<T>, y: T)
    requires y in RemoveEach(s, xs)
    ensures y in s
  {
    if |xs| > 0 {
      var n := |xs| - 1;
      RemoveFirstSubset(RemoveEach(s, xs[..n]), xs[n], y);
      RemoveEachSubset(s, xs[..n], y);
    }
  }

  predicate Distinct<T(==)>(s: seq<T>) {
    forall i, j :: 0 <= i < j < |s| ==> s[i] != s[j]
  }

  lemma {:induction false} RemoveFirstDistinct<T>(s: seq<T>, x: T)
    requires Distinct(s)
    ensures x !in RemoveFirst(s, x)
  {
    if |s| > 0 {
      assert Distinct(s[1..]);
      if s[0] == x {
        assert forall j :: 0 <= j < |s[1..]| ==> s[1..][j] == s[j + 1] != s[0];
      } else {
        RemoveFirstDistinct(s[1..], x);
      }
    }
  }
}
