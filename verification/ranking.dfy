/** Ordering by a numeric key, descending, and keeping the first k: what
    `ORDER BY … DESC LIMIT k` returns, stated without fixing how ties are
    broken (the store leaves tie order unspecified). */
module Ranking {
  import opened Seqs

  /** Keys never increase along `s`. */
  predicate NonIncreasing<T>(s: seq<T>, key: T -> int) {
    forall i, j :: 0 <= i < j < |s| ==> key(s[i]) >= key(s[j])
  }

  /** Puts `x` into the descending sequence `s`, before the first element
      whose key is not larger. */
  function Insert<T(==)>(x: T, s: seq<T>, key: T -> int): (r: seq<T>)
    requires NonIncreasing(s, key)
    ensures NonIncreasing(r, key)
    ensures multiset(r) == multiset(s) + multiset{x}
  {
    if |s| == 0 then [x]
    else if key(x) >= key(s[0]) then
      ConsNonIncreasing(x, s, key);
      assert multiset([x] + s) == multiset{x} + multiset(s);
      [x] + s
    else
      assert s == [s[0]] + s[1..];
      var rest := Insert(x, s[1..], key);
      HeadBoundsInsert(x, s, key, rest);
      ConsNonIncreasing(s[0], rest, key);
      assert multiset([s[0]] + rest) == multiset{s[0]} + multiset(rest);
      assert multiset(s) == multiset{s[0]} + multiset(s[1..]);
      [s[0]] + rest
  }

  /** A head whose key bounds every later key keeps a descending sequence
      descending. */
  lemma ConsNonIncreasing<T>(h: T, s: seq<T>, key: T -> int)
    requires NonIncreasing(s, key)
    requires forall i :: 0 <= i < |s| ==> key(h) >= key(s[i])
    ensures NonIncreasing([h] + s, key)
  {
    var r := [h] + s;
    forall i, j | 0 <= i < j < |r| ensures key(r[i]) >= key(r[j]) {
      assert r[j] == s[j - 1];
      if i > 0 {
        assert r[i] == s[i - 1];
      }
    }
  }

  /** The head of a descending sequence bounds every element of the rest
      with a smaller `x` inserted. */
  lemma HeadBoundsInsert<T>(x: T, s: seq<T>, key: T -> int, rest: seq<T>)
    requires |s| > 0 && NonIncreasing(s, key) && key(x) < key(s[0])
    requires multiset(rest) == multiset(s[1..]) + multiset{x}
    ensures forall i :: 0 <= i < |rest| ==> key(s[0]) >= key(rest[i])
  {
    forall i | 0 <= i < |rest| ensures key(s[0]) >= key(rest[i]) {
      assert rest[i] in multiset(rest);
      if rest[i] != x {
        assert rest[i] in multiset(s[1..]);
        var j :| 0 <= j < |s[1..]| && s[1..][j] == rest[i];
        assert s[j + 1] == rest[i];
      }
    }
  }

  /** Insertion sort, descending by key. */
  function SortDesc<T(==)>(s: seq<T>, key: T -> int): (r: seq<T>)
    ensures NonIncreasing(r, key)
    ensures multiset(r) == multiset(s)
  {
    if |s| == 0 then []
    else
      assert s == [s[0]] + s[1..];
      Insert(s[0], SortDesc(s[1..], key), key)
  }

  /** The `k` elements of largest key: as many as there are, up to `k`, in
      descending order, drawn from `s`, and no element left out has a
      larger key than any element kept. */
  function TopK<T(==)>(s: seq<T>, key: T -> int, k: nat): (r: seq<T>)
    ensures |r| == if k < |s| then k else |s|
    ensures NonIncreasing(r, key)
    ensures multiset(r) <= multiset(s)
    ensures forall x, y :: x in multiset(s) - multiset(r) && y in r ==> key(x) <= key(y)
  {
    var sorted := SortDesc(s, key);
    var n := if k < |s| then k else |s|;
    PrefixBoundsRest(sorted, n, key);
    sorted[..n]
  }

  /** In a descending sequence every element after the first `n` has a key
      no larger than any of the first `n`. */
  lemma PrefixBoundsRest<T>(sorted: seq<T>, n: nat, key: T -> int)
    requires NonIncreasing(sorted, key) && n <= |sorted|
    ensures multiset(sorted[..n]) <= multiset(sorted)
    ensures forall x, y :: x in multiset(sorted) - multiset(sorted[..n]) && y in sorted[..n] ==> key(x) <= key(y)
  {
    assert sorted == sorted[..n] + sorted[n..];
    forall x, y | x in multiset(sorted) - multiset(sorted[..n]) && y in sorted[..n] ensures key(x) <= key(y) {
      var i := PositionAfter(sorted, n, x);
      var j := PositionOf(sorted[..n], y);
      assert sorted[j] == y;
    }
  }

  /** An element left over once the first `n` are taken out sits at or
      after position `n`. */
  lemma PositionAfter<T>(s: seq<T>, n: nat, x: T) returns (i: nat)
    requires n <= |s| && x in multiset(s) - multiset(s[..n])
    ensures n <= i < |s| && s[i] == x
  {
    assert s == s[..n] + s[n..];
    assert multiset(s) == multiset(s[..n]) + multiset(s[n..]);
    var p := PositionOf(s[n..], x);
    i := n + p;
  }
}
