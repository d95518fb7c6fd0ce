/** Sequence operations behind `Array.from(new Set(xs)).slice(0, n)`. */
module Seqs {

  predicate Distinct<T(==)>(s: seq<T>) {
    forall i, j :: 0 <= i < j < |s| ==> s[i] != s[j]
  }

  /** `a` can be obtained from `b` by deleting elements (matched greedily from the back). */
  predicate IsSubsequence<T(==)>(a: seq<T>, b: seq<T>)
    decreases |b|
  {
    if a == [] then true
    else if b == [] then false
    else if a[|a| - 1] == b[|b| - 1] then IsSubsequence(a[..|a| - 1], b[..|b| - 1])
    else IsSubsequence(a, b[..|b| - 1])
  }

  lemma {:induction false} SubsequenceExtendRight<T>(a: seq<T>, b: seq<T>, x: T)
    requires IsSubsequence(a, b)
    ensures IsSubsequence(a, b + [x])
    decreases |b|, 1
  {
    if a != [] && a[|a| - 1] == x {
      assert (b + [x])[..|b|] == b;
      SubsequenceDropLast(a, b);
    } else {
      assert (b + [x])[..|b|] == b;
    }
  }

  lemma {:induction false} SubsequenceDropLast<T>(a: seq<T>, b: seq<T>)
    requires a != [] && IsSubsequence(a, b)
    ensures IsSubsequence(a[..|a| - 1], b)
    decreases |b|, 0
  {
    var b' := b[..|b| - 1];
    assert b == b' + [b[|b| - 1]];
    if a[|a| - 1] == b[|b| - 1] {
      SubsequenceExtendRight(a[..|a| - 1], b', b[|b| - 1]);
    } else {
      SubsequenceDropLast(a, b');
      SubsequenceExtendRight(a[..|a| - 1], b', b[|b| - 1]);
    }
  }

  lemma {:induction false} SubsequenceTransitive<T>(a: seq<T>, b: seq<T>, c: seq<T>)
    requires IsSubsequence(a, b) && IsSubsequence(b, c)
    ensures IsSubsequence(a, c)
    decreases |c|
  {
    if a != [] {
      var c' := c[..|c| - 1];
      if b[|b| - 1] == c[|c| - 1] {
        var b' := b[..|b| - 1];
        if a[|a| - 1] == b[|b| - 1] {
          SubsequenceTransitive(a[..|a| - 1], b', c');
        } else {
          SubsequenceTransitive(a, b', c');
        }
      } else {
        SubsequenceTransitive(a, b, c');
        if a[|a| - 1] == c[|c| - 1] {
          SubsequenceDropLast(a, c');
        }
      }
    }
  }

  lemma {:induction false} PrefixIsSubsequence<T>(s: seq<T>, n: nat)
    requires n <= |s|
    ensures IsSubsequence(s[..n], s)
    decreases |s|
  {
    if n == |s| {
      assert s[..n] == s;
      SubsequenceReflexive(s);
    } else {
      assert s[..|s| - 1][..n] == s[..n];
      PrefixIsSubsequence(s[..|s| - 1], n);
      SubsequenceExtendRight(s[..n], s[..|s| - 1], s[|s| - 1]);
      assert s[..|s| - 1] + [s[|s| - 1]] == s;
    }
  }

  lemma {:induction false} SubsequenceReflexive<T>(s: seq<T>)
    ensures IsSubsequence(s, s)
    decreases |s|
  {
    if s != [] {
      SubsequenceReflexive(s[..|s| - 1]);
    }
  }

  /** `s.slice(0, n)`. */
  function Take<T>(s: seq<T>, n: nat): (r: seq<T>)
    ensures |r| == if |s| <= n then |s| else n
    ensures r == s[..|r|]
  {
    if |s| <= n then s else s[..n]
  }

  /** Taking a short prefix of a longer prefix is taking the short prefix directly. */
  lemma TakeOfTake<T>(s: seq<T>, m: nat, n: nat)
    requires n <= m
    ensures Take(Take(s, m), n) == Take(s, n)
  {
  }

  /**
   * `Array.from(new Set(s))`: each element once, at the place of its first occurrence.
   * The result holds no repeats, the same elements as `s`, in the order of `s`.
   */
  function Dedup<T(==)>(s: seq<T>): (r: seq<T>)
    ensures Distinct(r)
    ensures forall i :: 0 <= i < |s| ==> s[i] in r
    ensures forall i :: 0 <= i < |r| ==> r[i] in s
    ensures IsSubsequence(r, s)
    decreases |s|
  {
    if s == [] then []
    else
      var init := s[..|s| - 1];
      var last := s[|s| - 1];
      var d := Dedup(init);
      assert s == init + [last];
      SubsequenceExtendRight(d, init, last);
      if last in d then d else d + [last]
  }

  /** Duplicate-free input is kept as it is. */
  lemma {:induction false} DedupOfDistinct<T>(s: seq<T>)
    requires Distinct(s)
    ensures Dedup(s) == s
    decreases |s|
  {
    if s != [] {
      var init := s[..|s| - 1];
      assert Distinct(init);
      DedupOfDistinct(init);
      assert s[|s| - 1] !in init;
      assert s == init + [s[|s| - 1]];
    }
  }

  /**
   * First-occurrence order: wherever a later element of the result occurs in `s`, every
   * earlier element of the result has already occurred before that position.
   */
  lemma {:induction false} DedupFirstOccurrence<T>(s: seq<T>)
    ensures forall i, j, q :: 0 <= i < j < |Dedup(s)| && 0 <= q < |s| && s[q] == Dedup(s)[j] ==>
      Dedup(s)[i] in s[..q]
    decreases |s|
  {
    if s != [] {
      var init := s[..|s| - 1];
      var last := s[|s| - 1];
      var d := Dedup(init);
      var r := Dedup(s);
      DedupFirstOccurrence(init);
      assert s == init + [last];
      assert r == if last in d then d else d + [last];
      forall i, j, q | 0 <= i < j < |r| && 0 <= q < |s| && s[q] == r[j]
        ensures r[i] in s[..q]
      {
        if q < |s| - 1 {
          assert s[q] == init[q] && s[..q] == init[..q];
          assert r[i] == d[i] && r[j] == d[j];
        } else if last in d {
          var k :| 0 <= k < |init| && init[k] == last;
          assert r[i] == d[i] && r[j] == d[j] == init[k];
          assert r[i] in init[..k];
          assert init[..k] == s[..k] && s[..q] == init;
        } else {
          assert r[i] == d[i] && d[i] in init;
          assert s[..q] == init;
        }
      }
    }
  }

  /** Elements of a subsequence are elements of the sequence. */
  lemma {:induction false} SubsequenceMembers<T>(a: seq<T>, b: seq<T>)
    requires IsSubsequence(a, b)
    ensures forall i :: 0 <= i < |a| ==> a[i] in b
    decreases |b|
  {
    if a != [] {
      var b' := b[..|b| - 1];
      assert b == b' + [b[|b| - 1]];
      if a[|a| - 1] == b[|b| - 1] {
        var a' := a[..|a| - 1];
        SubsequenceMembers(a', b');
        forall i | 0 <= i < |a| - 1 ensures a[i] in b {
          assert a[i] == a'[i];
        }
      } else {
        SubsequenceMembers(a, b');
      }
    }
  }

  /** A subsequence of a duplicate-free sequence is duplicate-free. */
  lemma {:induction false} SubsequenceDistinct<T>(a: seq<T>, b: seq<T>)
    requires IsSubsequence(a, b) && Distinct(b)
    ensures Distinct(a)
    decreases |b|
  {
    if a != [] {
      var b' := b[..|b| - 1];
      assert Distinct(b');
      if a[|a| - 1] == b[|b| - 1] {
        var a' := a[..|a| - 1];
        SubsequenceDistinct(a', b');
        SubsequenceMembers(a', b');
        assert b[|b| - 1] !in b';
        forall i, j | 0 <= i < j < |a| ensures a[i] != a[j] {
          assert a[i] == a'[i];
          if j < |a| - 1 {
            assert a[j] == a'[j];
          } else {
            assert a'[i] in b';
          }
        }
      } else {
        SubsequenceDistinct(a, b');
      }
    }
  }

  /** No element of `a` is an element of `b`. */
  predicate Disjoint<T(==)>(a: seq<T>, b: seq<T>) {
    forall i, j :: 0 <= i < |a| && 0 <= j < |b| ==> a[i] != b[j]
  }

  lemma DistinctConcat<T>(a: seq<T>, b: seq<T>)
    requires Distinct(a) && Distinct(b) && Disjoint(a, b)
    ensures Distinct(a + b)
  {
  }

  lemma DisjointConcat<T>(a: seq<T>, b: seq<T>, c: seq<T>)
    requires Disjoint(a, c) && Disjoint(b, c)
    ensures Disjoint(a + b, c)
  {
  }
}
