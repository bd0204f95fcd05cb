/** String operations the pipeline relies on: Python's `str.strip()`,
    `str.split(sep)` and `str.upper()`.  Which characters count as
    whitespace and how a character is upper-cased are Unicode tables in
    Python; here they are parameters (`ws`, `up`), so every result below
    holds for any such table. */
module Text {

  /** Every character of `s` at a position in `lo..hi` is whitespace. */
  predicate SpaceBetween(s: string, lo: nat, hi: nat, ws: char -> bool)
    requires lo <= hi <= |s|
  {
    forall k :: lo <= k < hi ==> ws(s[k])
  }

  /** `s` neither starts nor ends with whitespace. */
  predicate Trimmed(s: string, ws: char -> bool) {
    |s| == 0 || (!ws(s[0]) && !ws(s[|s| - 1]))
  }

  /** `r` is what remains of `s` once its leading and trailing whitespace
      is removed: a slice of `s`, with only whitespace around it, that
      itself neither starts nor ends with whitespace. */
  ghost predicate IsTrimOf(r: string, s: string, ws: char -> bool) {
    exists i, j :: 0 <= i <= j <= |s| && r == s[i..j]
      && SpaceBetween(s, 0, i, ws) && SpaceBetween(s, j, |s|, ws) && Trimmed(r, ws)
  }

  /** The position of the first non-whitespace character of `s` at or
      after `i` (or `|s|` when there is none). */
  function SkipSpace(s: string, i: nat, ws: char -> bool): (n: nat)
    requires i <= |s| && SpaceBetween(s, 0, i, ws)
    ensures i <= n <= |s| && SpaceBetween(s, 0, n, ws)
    ensures n < |s| ==> !ws(s[n])
    decreases |s| - i
  {
    if i == |s| || !ws(s[i]) then i else SkipSpace(s, i + 1, ws)
  }

  /** The end of `s[lo..hi]` once the whitespace before `hi` is skipped
      backwards, stopping at `lo`. */
  function SkipSpaceBack(s: string, lo: nat, hi: nat, ws: char -> bool): (m: nat)
    requires lo <= hi <= |s| && SpaceBetween(s, hi, |s|, ws)
    ensures lo <= m <= hi && SpaceBetween(s, m, |s|, ws)
    ensures m > lo ==> !ws(s[m - 1])
    decreases hi
  {
    if hi == lo || !ws(s[hi - 1]) then hi else SkipSpaceBack(s, lo, hi - 1, ws)
  }

  /** Python's `s.strip()`. */
  function Trim(s: string, ws: char -> bool): (r: string)
    ensures IsTrimOf(r, s, ws)
    ensures Trimmed(r, ws)
  {
    var i := SkipSpace(s, 0, ws);
    var j := SkipSpaceBack(s, i, |s|, ws);
    assert Trimmed(s[i..j], ws) by {
      if i < j {
        assert s[i..j][0] == s[i];
        assert s[i..j][j - i - 1] == s[j - 1];
      }
    }
    s[i..j]
  }

  /** The trim of a string is unique: `IsTrimOf` is a complete
      description of `Trim`. */
  lemma TrimUnique(s: string, r1: string, r2: string, ws: char -> bool)
    requires IsTrimOf(r1, s, ws) && IsTrimOf(r2, s, ws)
    ensures r1 == r2
  {
  }

  /** Stripping twice is stripping once. */
  lemma TrimIdempotent(s: string, ws: char -> bool)
    ensures Trim(Trim(s, ws), ws) == Trim(s, ws)
  {
    var r := Trim(s, ws);
    assert IsTrimOf(r, r, ws) by {
      assert r == r[0..|r|];
    }
    TrimUnique(r, Trim(r, ws), r, ws);
  }

  /** Joins `parts` with `sep` between neighbours (Python's
      `sep.join(parts)`). */
  function JoinWith(parts: seq<string>, sep: char): string
    requires |parts| >= 1
  {
    if |parts| == 1 then parts[0] else parts[0] + [sep] + JoinWith(parts[1..], sep)
  }

  /** The position of the first `c` in `s`. */
  function IndexOf(s: string, c: char): (i: nat)
    requires c in s
    ensures i < |s| && s[i] == c
    ensures forall k :: 0 <= k < i ==> s[k] != c
  {
    if s[0] == c then 0 else 1 + IndexOf(s[1..], c)
  }

  /** Python's `s.split(sep)` for a one-character separator: cuts `s` at
      every occurrence of `sep`.  There is one more piece than there are
      separators, no piece contains the separator, and joining the pieces
      back gives `s`. */
  function SplitAll(s: string, sep: char): (r: seq<string>)
    ensures |r| == multiset(s)[sep] + 1
    ensures forall k :: 0 <= k < |r| ==> sep !in r[k]
    ensures JoinWith(r, sep) == s
    decreases |s|
  {
    if sep !in s then
      assert multiset(s)[sep] == 0;
      [s]
    else
      var i := IndexOf(s, sep);
      assert sep !in s[..i];
      var rest := SplitAll(s[i + 1..], sep);
      assert s == s[..i] + [sep] + s[i + 1..];
      assert multiset(s) == multiset(s[..i]) + multiset{sep} + multiset(s[i + 1..]);
      var r := [s[..i]] + rest;
      assert r[1..] == rest;
      r
  }

  /** Splitting undoes joining, when no part contains the separator. */
  lemma {:induction false} SplitJoin(parts: seq<string>, sep: char)
    requires |parts| >= 1
    requires forall k :: 0 <= k < |parts| ==> sep !in parts[k]
    ensures SplitAll(JoinWith(parts, sep), sep) == parts
  {
    if |parts| > 1 {
      var s := JoinWith(parts, sep);
      var h := parts[0];
      assert s == h + [sep] + JoinWith(parts[1..], sep);
      assert sep in s by { assert s[|h|] == sep; }
      assert forall k :: 0 <= k < |h| ==> s[k] == h[k];
      assert s[|h|] == sep;
      assert IndexOf(s, sep) == |h|;
      assert s[..|h|] == h;
      assert s[|h| + 1..] == JoinWith(parts[1..], sep);
      SplitJoin(parts[1..], sep);
      assert [h] + parts[1..] == parts;
    }
  }

  /** Python's `s.upper()` with a character-wise case map `up`. */
  function Upper(s: string, up: char -> char): (r: string)
    ensures |r| == |s|
  {
    seq(|s|, i requires 0 <= i < |s| => up(s[i]))
  }
}
