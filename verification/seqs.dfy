/** Small facts about sequences used by several stages: the set of elements
    of a sequence, duplicate-freedom, and how both relate to cardinality. */
module Seqs {

  /** The elements of `s`, as a set. */
  function Elems<T>(s: seq<T>): set<T> {
    set i | 0 <= i < |s| :: s[i]
  }

  /** No element occurs twice in `s`. */
  predicate NoDup<T(==)>(s: seq<T>) {
    forall i, j :: 0 <= i < j < |s| ==> s[i] != s[j]
  }

  /** The distinct elements of `s`, computed as a keep-first
      de-duplication; the contract promises only that the result holds each
      element of `s` once, not where. */
  function Distinct<T(==)>(s: seq<T>): (r: seq<T>)
    ensures NoDup(r)
    ensures Elems(r) == Elems(s)
    ensures |r| <= |s|
  {
    if |s| == 0 then []
    else
      var prefix := s[..|s| - 1];
      var d := Distinct(prefix);
      ElemsSnoc(prefix, s[|s| - 1]);
      assert prefix + [s[|s| - 1]] == s;
      if s[|s| - 1] in Elems(d) then d
      else
        ElemsSnoc(d, s[|s| - 1]);
        d + [s[|s| - 1]]
  }

  /** Appending one element adds exactly that element to the set. */
  lemma ElemsSnoc<T>(s: seq<T>, x: T)
    ensures Elems(s + [x]) == Elems(s) + {x}
  {
    var t := s + [x];
    assert t[|s|] == x;
    forall y | y in Elems(s)
      ensures y in Elems(t)
    {
      var i :| 0 <= i < |s| && s[i] == y;
      assert t[i] == y;
    }
  }

  /** Prepending one element adds exactly that element to the set. */
  lemma ElemsCons<T>(x: T, s: seq<T>)
    ensures Elems([x] + s) == {x} + Elems(s)
  {
    var t := [x] + s;
    assert t[0] == x;
    forall y | y in Elems(s)
      ensures y in Elems(t)
    {
      var i :| 0 <= i < |s| && s[i] == y;
      assert t[i + 1] == y;
    }
  }

  /** A duplicate-free sequence has exactly as many elements as its set. */
  lemma {:induction false} NoDupCard<T>(s: seq<T>)
    requires NoDup(s)
    ensures |Elems(s)| == |s|
  {
    if |s| > 0 {
      var prefix := s[..|s| - 1];
      assert NoDup(prefix);
      NoDupCard(prefix);
      ElemsSnoc(prefix, s[|s| - 1]);
      assert prefix + [s[|s| - 1]] == s;
      assert s[|s| - 1] !in Elems(prefix);
    }
  }

  /** A sequence has at least as many positions as distinct elements. */
  lemma {:induction false} ElemsCard<T>(s: seq<T>)
    ensures |Elems(s)| <= |s|
  {
    if |s| > 0 {
      var prefix := s[..|s| - 1];
      ElemsCard(prefix);
      ElemsSnoc(prefix, s[|s| - 1]);
      assert prefix + [s[|s| - 1]] == s;
    }
  }

  /** A duplicate-free sequence stays duplicate-free in any sub-multiset. */
  lemma SubMultisetNoDup<T>(r: seq<T>, s: seq<T>)
    requires NoDup(s) && multiset(r) <= multiset(s)
    ensures NoDup(r)
  {
    forall i, j | 0 <= i < j < |r| ensures r[i] != r[j] {
      if r[i] == r[j] {
        assert r == r[..j] + r[j..];
        assert multiset(r)[r[i]] >= 2 by {
          assert r[..j][i] == r[i];
          assert r[j..][0] == r[j];
          assert multiset(r) == multiset(r[..j]) + multiset(r[j..]);
        }
        NoDupAtMostOnce(s, r[i]);
        assert false;
      }
    }
  }

  /** In a duplicate-free sequence every element occurs at most once. */
  lemma {:induction false} NoDupAtMostOnce<T>(s: seq<T>, x: T)
    requires NoDup(s)
    ensures multiset(s)[x] <= 1
  {
    if |s| > 0 {
      assert s == [s[0]] + s[1..];
      assert NoDup(s[1..]);
      NoDupAtMostOnce(s[1..], x);
      if s[0] == x {
        assert x !in s[1..] by {
          forall k | 0 <= k < |s[1..]| ensures s[1..][k] != x {
            assert s[1..][k] == s[k + 1];
          }
        }
      }
    }
  }

  /** Every element of a sub-multiset of `s` is an element of `s`. */
  lemma SubMultisetIn<T>(r: seq<T>, s: seq<T>)
    requires multiset(r) <= multiset(s)
    ensures forall i :: 0 <= i < |r| ==> r[i] in s
  {
    forall i | 0 <= i < |r| ensures r[i] in s {
      assert r[i] in multiset(r);
    }
  }

  /** Two duplicate-free sequences with the same elements are permutations
      of each other. */
  lemma SameElemsPermutation<T>(a: seq<T>, b: seq<T>)
    requires NoDup(a) && NoDup(b) && Elems(a) == Elems(b)
    ensures multiset(a) == multiset(b)
  {
    forall x ensures multiset(a)[x] == multiset(b)[x] {
      NoDupAtMostOnce(a, x);
      NoDupAtMostOnce(b, x);
      if x in a {
        var i :| 0 <= i < |a| && a[i] == x;
        assert x in Elems(a);
        assert x in b;
      } else {
        assert x !in Elems(a);
        assert x !in b;
      }
    }
  }

  /** Taking element `i` out of `s` takes one copy of it out of the
      multiset. */
  lemma RemoveAt<T>(s: seq<T>, i: nat)
    requires i < |s|
    ensures multiset(s[..i] + s[i + 1..]) == multiset(s) - multiset{s[i]}
  {
    assert s == s[..i] + [s[i]] + s[i + 1..];
  }

  /** A position of `x` in `s`. */
  lemma PositionOf<T>(s: seq<T>, x: T) returns (i: nat)
    requires x in multiset(s)
    ensures i < |s| && s[i] == x
  {
    assert x in s;
    i :| 0 <= i < |s| && s[i] == x;
  }

  /** Where the first element of `a` sits in a rearrangement `b` of it, and
      what is left of both once it is taken out. */
  lemma MatchFirst<T>(a: seq<T>, b: seq<T>) returns (i: nat)
    requires |a| > 0 && multiset(a) == multiset(b)
    ensures i < |b| && b[i] == a[0]
    ensures multiset(a[1..]) == multiset(b[..i] + b[i + 1..])
  {
    assert a[0] in a;
    i := PositionOf(b, a[0]);
    RemoveAt(b, i);
    assert a == [a[0]] + a[1..];
    assert multiset(a) == multiset{a[0]} + multiset(a[1..]);
  }

  /** A subset is no larger than its superset. */
  lemma SubsetCard<T>(a: set<T>, b: set<T>)
    requires a <= b
    ensures |a| <= |b|
  {
    assert b == a + (b - a);
  }
}
