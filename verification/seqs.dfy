/** Order-preserving selection over sequences: `Filter` keeps the elements
    a test accepts, in their original order, and `IsSubsequence` is the
    independent, order-only notion that `Filter` is checked against. */
module Seqs {
  import opened Wrappers

  /** No element occurs twice. */
  predicate Distinct<T(==)>(s: seq<T>) {
    forall i, j :: 0 <= i < j < |s| ==> s[i] != s[j]
  }

  /** `a` is obtained from `s` by deleting elements, keeping the order of
      the rest. */
  predicate IsSubsequence<T(==)>(a: seq<T>, s: seq<T>)
    decreases |s|
  {
    || |a| == 0
    || (&& |s| > 0
        && (|| (a[0] == s[0] && IsSubsequence(a[1..], s[1..]))
            || IsSubsequence(a, s[1..])))
  }

  /** Applies `f` to every element. */
  function Map<A, B>(f: A -> B, s: seq<A>): (r: seq<B>)
    ensures |r| == |s|
    ensures forall i :: 0 <= i < |s| ==> r[i] == f(s[i])
  {
    seq(|s|, i requires 0 <= i < |s| => f(s[i]))
  }

  /** The elements of `s` that `keep` accepts, in the order of `s`. */
  function Filter<T(==)>(keep: T -> bool, s: seq<T>): (r: seq<T>)
    ensures |r| <= |s|
    ensures forall i :: 0 <= i < |r| ==> r[i] in s && keep(r[i])
    ensures forall i :: 0 <= i < |s| && keep(s[i]) ==> s[i] in r
    ensures IsSubsequence(r, s)
    decreases |s|
  {
    if |s| == 0 then []
    else if keep(s[0]) then [s[0]] + Filter(keep, s[1..])
    else Filter(keep, s[1..])
  }

  /** Nothing is kept when nothing is accepted. */
  lemma {:induction false} FilterNone<T>(keep: T -> bool, s: seq<T>)
    requires forall i :: 0 <= i < |s| ==> !keep(s[i])
    ensures Filter(keep, s) == []
    decreases |s|
  {
    if |s| > 0 {
      FilterNone(keep, s[1..]);
    }
  }

  lemma MapConcat<A, B>(f: A -> B, a: seq<A>, b: seq<A>)
    ensures Map(f, a + b) == Map(f, a) + Map(f, b)
  {
  }

  /** Every element of a subsequence is an element of the whole. */
  lemma {:induction false} SubsequenceMembers<T>(a: seq<T>, s: seq<T>)
    requires IsSubsequence(a, s)
    ensures forall x :: x in a ==> x in s
    decreases |s|
  {
    if |a| > 0 {
      if a[0] == s[0] && IsSubsequence(a[1..], s[1..]) {
        SubsequenceMembers(a[1..], s[1..]);
        forall x | x in a ensures x in s {
          if x != a[0] {
            assert x in a[1..];
          }
        }
      } else {
        SubsequenceMembers(a, s[1..]);
      }
    }
  }

  /** Over a duplicate-free sequence, a subsequence is determined by its
      set of elements: there is only one way to pick them in order. */
  lemma {:induction false} SubsequenceUnique<T>(a: seq<T>, b: seq<T>, s: seq<T>)
    requires Distinct(s)
    requires IsSubsequence(a, s) && IsSubsequence(b, s)
    requires forall x :: x in a <==> x in b
    ensures a == b
    decreases |s|
  {
    if |s| == 0 {
      assert |a| == 0 && |b| == 0;
    } else {
      var h := s[0];
      var t := s[1..];
      DistinctTail(s);
      if h in a {
        HeadTaken(a, s);
        HeadTaken(b, s);
        forall x ensures x in a[1..] <==> x in b[1..] {
          SubsequenceMembers(a[1..], t);
          SubsequenceMembers(b[1..], t);
          if x in a[1..] {
            assert x in b && x != h;
            assert x == b[0] || x in b[1..];
          }
          if x in b[1..] {
            assert x in a && x != h;
            assert x == a[0] || x in a[1..];
          }
        }
        SubsequenceUnique(a[1..], b[1..], t);
        assert a == [a[0]] + a[1..] && b == [b[0]] + b[1..];
      } else {
        HeadSkipped(a, s);
        HeadSkipped(b, s);
        SubsequenceUnique(a, b, t);
      }
    }
  }

  /** If the head of a duplicate-free `s` is in the subsequence `a`, then
      `a` starts with it. */
  lemma HeadTaken<T>(a: seq<T>, s: seq<T>)
    requires Distinct(s) && |s| > 0 && s[0] in a
    requires IsSubsequence(a, s)
    ensures |a| > 0 && a[0] == s[0] && IsSubsequence(a[1..], s[1..])
  {
    DistinctTail(s);
    if !(a[0] == s[0] && IsSubsequence(a[1..], s[1..])) {
      SubsequenceMembers(a, s[1..]);
      assert false;
    }
  }

  /** The head of a duplicate-free sequence does not recur in its tail,
      and the tail is duplicate-free. */
  lemma DistinctTail<T>(s: seq<T>)
    requires Distinct(s) && |s| > 0
    ensures s[0] !in s[1..] && Distinct(s[1..])
  {
    forall k | 0 <= k < |s| - 1
      ensures s[1..][k] != s[0]
    {
      assert s[1..][k] == s[k + 1];
    }
  }

  /** If the head of `s` is not in the subsequence `a`, then `a` is a
      subsequence of the tail. */
  lemma HeadSkipped<T>(a: seq<T>, s: seq<T>)
    requires |s| > 0 && s[0] !in a
    requires IsSubsequence(a, s)
    ensures IsSubsequence(a, s[1..])
  {
    if |a| > 0 {
      assert a[0] != s[0];
    }
  }

  /** The results `f` gives, in the order of `s`, of the elements for which
      it gives one. */
  function FilterMap<A, B>(f: A -> Option<B>, s: seq<A>): (r: seq<B>)
    ensures |r| <= |s|
    decreases |s|
  {
    if |s| == 0 then []
    else
      match f(s[0])
      case None => FilterMap(f, s[1..])
      case Some(b) => [b] + FilterMap(f, s[1..])
  }

  lemma {:induction false} FilterMapConcat<A, B>(f: A -> Option<B>, a: seq<A>, b: seq<A>)
    ensures FilterMap(f, a + b) == FilterMap(f, a) + FilterMap(f, b)
    decreases |a|
  {
    if |a| == 0 {
      assert a + b == b;
    } else {
      assert (a + b)[0] == a[0];
      assert (a + b)[1..] == a[1..] + b;
      FilterMapConcat(f, a[1..], b);
    }
  }

  lemma FilterMapOne<A, B>(f: A -> Option<B>, a: A)
    ensures FilterMap(f, [a]) == if f(a).Some? then [f(a).value] else []
  {
    assert [a][1..] == [];
  }

  /** When every result of `f` carries its argument as its key, the keys of
      the results are the arguments `f` accepts (those `keep` holds for),
      in order, and each result
      is what `f` gives for its key. */
  lemma {:induction false} FilterMapKeys<A, B>(f: A -> Option<B>, key: B -> A, keep: A -> bool, s: seq<A>)
    requires forall a :: f(a).Some? <==> keep(a)
    requires forall a :: f(a).Some? ==> key(f(a).value) == a
    ensures Map(key, FilterMap(f, s)) == Filter(keep, s)
    ensures forall i :: 0 <= i < |FilterMap(f, s)| ==>
      f(key(FilterMap(f, s)[i])) == Some(FilterMap(f, s)[i])
    decreases |s|
  {
    if |s| > 0 {
      FilterMapKeys(f, key, keep, s[1..]);
      var rest := FilterMap(f, s[1..]);
      if f(s[0]).Some? {
        var r := [f(s[0]).value] + rest;
        assert FilterMap(f, s) == r;
        assert Map(key, r) == [s[0]] + Map(key, rest);
        assert forall i :: 1 <= i < |r| ==> r[i] == rest[i - 1];
      }
    }
  }
}
