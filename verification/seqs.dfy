/** Sequence helpers shared by the pipeline stages: exact sums and means of
    real sequences, and removal of the first occurrence(s) of a value. */
module Seqs {

  function Sum(s: seq<real>): real {
    if s == [] then 0.0 else s[0] + Sum(s[1..])
  }

  /** The arithmetic mean (exact, so `np.mean` without rounding). */
  function Mean(s: seq<real>): real
    requires |s| > 0
  {
    Sum(s) / |s| as real
  }

  /** A sum of values lying in [lo, hi] lies in [|s|·lo, |s|·hi]. */
  lemma {:induction false} SumWithin(s: seq<real>, lo: real, hi: real)
    requires forall i :: 0 <= i < |s| ==> lo <= s[i] <= hi
    ensures |s| as real * lo <= Sum(s) <= |s| as real * hi
  {
    if s != [] {
      SumWithin(s[1..], lo, hi);
    }
  }

  /** The mean of values lying in [lo, hi] lies in [lo, hi]; in particular
      the mean of equal values is that value. */
  lemma MeanWithin(s: seq<real>, lo: real, hi: real)
    requires |s| > 0
    requires forall i :: 0 <= i < |s| ==> lo <= s[i] <= hi
    ensures lo <= Mean(s) <= hi
  {
    SumWithin(s, lo, hi);
    var n := |s| as real;
    assert Mean(s) * n == Sum(s);
  }

  /** The position of the first occurrence of `x` in `s`. */
  function FirstIndex<T(==)>(s: seq<T>, x: T): (k: nat)
    requires x in s
    ensures k < |s| && s[k] == x && x !in s[..k]
  {
    if s[0] == x then 0
    else
      var k := 1 + FirstIndex(s[1..], x);
      assert s[..k] == [s[0]] + s[1..][..k - 1];
      k
  }

  /** `s` without the first occurrence of `x` (Python's `list.remove`). */
  function RemoveFirst<T(==)>(s: seq<T>, x: T): (r: seq<T>)
    requires x in s
    ensures |r| == |s| - 1
    ensures multiset(r) == multiset(s) - multiset{x}
  {
    assert s == [s[0]] + s[1..];
    if s[0] == x then s[1..] else [s[0]] + RemoveFirst(s[1..], x)
  }

  /** `RemoveFirst` keeps everything before the first occurrence of `x`... */
  lemma {:induction false} RemoveFirstPrefix<T>(s: seq<T>, x: T)
    requires x in s
    ensures RemoveFirst(s, x)[..FirstIndex(s, x)] == s[..FirstIndex(s, x)]
  {
    if s[0] != x {
      var t := s[1..];
      var k := FirstIndex(s, x);
      RemoveFirstPrefix(t, x);
      assert RemoveFirst(s, x) == [s[0]] + RemoveFirst(t, x);
      assert k == FirstIndex(t, x) + 1;
      assert RemoveFirst(s, x)[..k] == [s[0]] + RemoveFirst(t, x)[..k - 1];
      assert s[..k] == [s[0]] + t[..k - 1];
    }
  }

  /** ...and everything after it, so it cuts out exactly that occurrence. */
  lemma {:induction false} RemoveFirstSuffix<T>(s: seq<T>, x: T)
    requires x in s
    ensures RemoveFirst(s, x)[FirstIndex(s, x)..] == s[FirstIndex(s, x) + 1..]
  {
    if s[0] != x {
      var t := s[1..];
      var k := FirstIndex(s, x);
      RemoveFirstSuffix(t, x);
      assert RemoveFirst(s, x) == [s[0]] + RemoveFirst(t, x);
      assert k == FirstIndex(t, x) + 1;
      assert RemoveFirst(s, x)[k..] == RemoveFirst(t, x)[k - 1..];
      assert s[k + 1..] == t[k..];
    }
  }

  /** `RemoveFirst` deletes exactly the element at the first index of `x`. */
  lemma RemoveFirstAt<T>(s: seq<T>, x: T)
    requires x in s
    ensures RemoveFirst(s, x) == s[..FirstIndex(s, x)] + s[FirstIndex(s, x) + 1..]
  {
    var r := RemoveFirst(s, x);
    var k := FirstIndex(s, x);
    RemoveFirstPrefix(s, x);
    RemoveFirstSuffix(s, x);
    assert r == r[..k] + r[k..];
  }

  /** `s` without the first `k` occurrences of `x` (`k` calls of `list.remove`). */
  function RemoveN<T(==)>(s: seq<T>, x: T, k: nat): (r: seq<T>)
    requires multiset(s)[x] >= k
    ensures multiset(r) == multiset(s)[x := multiset(s)[x] - k]
    decreases k
  {
    if k == 0 then s else RemoveN(RemoveFirst(s, x), x, k - 1)
  }

  /** Removing `k` occurrences is removing one, then `k - 1` more. */
  lemma RemoveNStep<T>(s: seq<T>, x: T, k: nat)
    requires k >= 1 && multiset(s)[x] >= k
    ensures multiset(RemoveFirst(s, x))[x] >= k - 1
    ensures RemoveN(s, x, k) == RemoveN(RemoveFirst(s, x), x, k - 1)
  {
  }

  /** `a` is `b` with some elements left out, the rest in their order. */
  predicate Subsequence<T(==)>(a: seq<T>, b: seq<T>)
    decreases |b|
  {
    a == [] || (b != [] && ((a[0] == b[0] && Subsequence(a[1..], b[1..])) || Subsequence(a, b[1..])))
  }

  /** `s` without the first `d[x]` occurrences of every `x`, the rest in
      order: the net effect of calling `list.remove(x)` `d[x]` times. */
  function RemoveFirsts<T(==)>(s: seq<T>, d: multiset<T>): seq<T>
    decreases |s|
  {
    if s == [] then []
    else if d[s[0]] > 0 then RemoveFirsts(s[1..], d[s[0] := d[s[0]] - 1])
    else [s[0]] + RemoveFirsts(s[1..], d)
  }

  /** Removing nothing keeps the sequence. */
  lemma {:induction false} RemoveFirstsNone<T>(s: seq<T>)
    ensures RemoveFirsts(s, multiset{}) == s
    decreases |s|
  {
    if s != [] {
      RemoveFirstsNone(s[1..]);
    }
  }

  /** Two rounds of removals are one round removing both. */
  lemma {:induction false} RemoveFirstsCompose<T>(s: seq<T>, d1: multiset<T>, d2: multiset<T>)
    ensures RemoveFirsts(RemoveFirsts(s, d1), d2) == RemoveFirsts(s, d1 + d2)
    decreases |s|
  {
    if s != [] {
      var c := s[0];
      var t := s[1..];
      if d1[c] > 0 {
        RemoveFirstsCompose(t, d1[c := d1[c] - 1], d2);
        assert d1[c := d1[c] - 1] + d2 == (d1 + d2)[c := (d1 + d2)[c] - 1];
      } else if d2[c] > 0 {
        RemoveFirstsCompose(t, d1, d2[c := d2[c] - 1]);
        assert RemoveFirsts(s, d1) == [c] + RemoveFirsts(t, d1);
        assert d1 + d2[c := d2[c] - 1] == (d1 + d2)[c := (d1 + d2)[c] - 1];
      } else {
        RemoveFirstsCompose(t, d1, d2);
        assert RemoveFirsts(s, d1) == [c] + RemoveFirsts(t, d1);
      }
    }
  }

  /** `list.remove(x)` is a round removing one `x`. */
  lemma {:induction false} RemoveFirstIsRemoveFirsts<T>(s: seq<T>, x: T)
    requires x in s
    ensures RemoveFirst(s, x) == RemoveFirsts(s, multiset{x})
    decreases |s|
  {
    if s[0] == x {
      assert multiset{x}[x := 0] == multiset{};
      RemoveFirstsNone(s[1..]);
    } else {
      RemoveFirstIsRemoveFirsts(s[1..], x);
    }
  }

  /** `k` copies of `x`. */
  function Copies<T>(x: T, k: nat): multiset<T> {
    if k == 0 then multiset{} else multiset{x} + Copies(x, k - 1)
  }

  /** `Copies(x, k)` holds `x` exactly `k` times and nothing else. */
  lemma {:induction false} CopiesCount<T>(x: T, k: nat, y: T)
    ensures Copies(x, k)[y] == if y == x then k else 0
  {
    if k > 0 {
      CopiesCount(x, k - 1, y);
    }
  }

  /** `k` calls of `list.remove(x)` are a round removing `k` copies of `x`. */
  lemma {:induction false} RemoveNIsRemoveFirsts<T>(s: seq<T>, x: T, k: nat)
    requires multiset(s)[x] >= k
    ensures RemoveN(s, x, k) == RemoveFirsts(s, Copies(x, k))
    decreases k
  {
    if k == 0 {
      RemoveFirstsNone(s);
    } else {
      var s1 := RemoveFirst(s, x);
      assert RemoveN(s, x, k) == RemoveN(s1, x, k - 1);
      RemoveFirstIsRemoveFirsts(s, x);
      RemoveNIsRemoveFirsts(s1, x, k - 1);
      RemoveFirstsCompose(s, multiset{x}, Copies(x, k - 1));
    }
  }
}
