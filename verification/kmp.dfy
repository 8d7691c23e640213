/** Knuth-Morris-Pratt substring search, module/data_structure/KMP.py.

    `BuildNext` computes the failure table (`next` array) and `Search` scans
    the text once with it.  Both are proved against direct definitions: the
    table holds the longest proper border of every prefix of the pattern, and
    the search answers whether the pattern occurs anywhere in the text.
 */
module Kmp {

  /** `k` is the length of a proper border of `s`: the first `k` characters
      equal the last `k`, and `k < |s|`. */
  predicate Border(s: string, k: nat)
  {
    k < |s| && s[..k] == s[|s| - k..]
  }

  /** `k` is the longest proper border of the non-empty string `s`. */
  predicate LongestBorder(s: string, k: nat)
  {
    Border(s, k) && forall b :: k < b < |s| ==> !Border(s, b)
  }

  /** Every entry of `nx` is the longest proper border of the matching prefix
      of `p`: `nx[m]` belongs to `p[..m + 1]`. */
  predicate IsNext(p: string, nx: seq<nat>)
  {
    |nx| <= |p| && forall m :: 0 <= m < |nx| ==> LongestBorder(p[..m + 1], nx[m])
  }

  /** The pattern occurs in the text starting at `pos`. */
  predicate OccursAt(t: string, p: string, pos: int)
  {
    0 <= pos && pos + |p| <= |t| && t[pos..pos + |p|] == p
  }

  /** The last `k` characters of `t[..e]` are the first `k` of `p`. */
  predicate Match(t: string, p: string, e: nat, k: nat)
  {
    k <= e <= |t| && k <= |p| && t[e - k..e] == p[..k]
  }

  lemma BorderOfBorder(s: string, j: nat, b: nat)
    requires Border(s, j) && Border(s[..j], b)
    ensures Border(s, b)
  {
    forall x | 0 <= x < b
      ensures s[x] == s[|s| - b + x]
    {
      assert s[..j][x] == s[..j][j - b + x];
      assert s[..j][j - b + x] == s[|s| - j..][j - b + x];
    }
  }

  lemma ShorterBorder(s: string, j: nat, b: nat)
    requires Border(s, j) && Border(s, b) && b < j
    ensures Border(s[..j], b)
  {
    forall x | 0 <= x < b
      ensures s[..j][x] == s[..j][j - b + x]
    {
      assert s[x] == s[|s| - b + x];
      assert s[..j][j - b + x] == s[|s| - j..][j - b + x];
    }
  }

  lemma BorderExtend(p: string, i: nat, k: nat)
    requires k < i < |p|
    ensures Border(p[..i + 1], k + 1) <==> Border(p[..i], k) && p[k] == p[i]
  {
    var s, s' := p[..i], p[..i + 1];
    if Border(s', k + 1) {
      assert s'[..k + 1][k] == s'[i - k..][k];
      forall x | 0 <= x < k
        ensures s[x] == s[i - k + x]
      {
        assert s'[..k + 1][x] == s'[i - k..][x];
      }
    }
    if Border(s, k) && p[k] == p[i] {
      forall x | 0 <= x < k + 1
        ensures s'[x] == s'[i - k + x]
      {
        if x < k {
          assert s[..k][x] == s[i - k..][x];
        }
      }
    }
  }

  lemma MatchShrink(t: string, p: string, e: nat, j: nat, b: nat)
    requires Match(t, p, e, j) && Border(p[..j], b)
    ensures Match(t, p, e, b)
  {
    forall x | 0 <= x < b
      ensures t[e - b + x] == p[x]
    {
      assert p[..j][..b][x] == p[..j][j - b..][x];
      assert t[e - j..e][j - b + x] == p[..j][j - b + x];
    }
  }

  lemma MatchPair(t: string, p: string, e: nat, j: nat, k: nat)
    requires Match(t, p, e, j) && Match(t, p, e, k) && k < j
    ensures Border(p[..j], k)
  {
    forall x | 0 <= x < k
      ensures p[..j][x] == p[..j][j - k + x]
    {
      assert t[e - k..e][x] == p[..k][x];
      assert t[e - j..e][j - k + x] == p[..j][j - k + x];
    }
  }

  lemma MatchExtend(t: string, p: string, e: nat, k: nat)
    requires e < |t| && k < |p|
    ensures Match(t, p, e + 1, k + 1) <==> Match(t, p, e, k) && t[e] == p[k]
  {
    if Match(t, p, e + 1, k + 1) {
      assert t[e + 1 - (k + 1)..e + 1][k] == p[..k + 1][k];
      forall x | 0 <= x < k
        ensures t[e - k + x] == p[x]
      {
        assert t[e + 1 - (k + 1)..e + 1][x] == p[..k + 1][x];
      }
    }
    if Match(t, p, e, k) && t[e] == p[k] {
      forall x | 0 <= x < k + 1
        ensures t[e - k + x] == p[x]
      {
        if x < k {
          assert t[e - k..e][x] == p[..k][x];
        }
      }
    }
  }

  /** One step of the fallback loop of `build_next`: from a border `j` of
      `p[..i]`, `next[j - 1]` is the next shorter border and none lies between. */
  lemma FallBack(p: string, nx: seq<nat>, i: nat, j: nat)
    requires IsNext(p, nx) && |nx| == i && 0 < j < i
    requires Border(p[..i], j)
    ensures Border(p[..i], nx[j - 1])
    ensures forall b :: nx[j - 1] < b < j ==> !Border(p[..i], b)
  {
    var s := p[..i];
    assert s[..j] == p[..j];
    var j' := nx[j - 1];
    assert LongestBorder(p[..j - 1 + 1], j');
    BorderOfBorder(s, j, j');
    forall b | j' < b < j && Border(s, b)
      ensures false
    {
      ShorterBorder(s, j, b);
    }
  }

  /** Once the fallback loop stops at `j`, the next entry of the table is
      `j + 1` when the characters match and 0 otherwise. */
  lemma NextEntry(p: string, i: nat, j: nat)
    requires j < i < |p|
    requires Border(p[..i], j)
    requires forall b :: j < b < i && Border(p[..i], b) ==> p[b] != p[i]
    requires j == 0 || p[i] == p[j]
    ensures LongestBorder(p[..i + 1], if p[i] == p[j] then j + 1 else 0)
  {
    var s' := p[..i + 1];
    forall k | 0 < k <= i && Border(s', k)
      ensures k - 1 <= j && (k - 1 == j ==> p[j] == p[i])
    {
      BorderExtend(p, i, k - 1);
    }
    if p[i] == p[j] {
      BorderExtend(p, i, j);
    } else {
      assert s'[..0] == s'[i + 1..];
    }
  }

  /** `build_next(pattern)`: an empty pattern gives an empty table; otherwise
      entry `i` is the longest proper border of `pattern[..i + 1]`. */
  method BuildNext(p: string) returns (nx: seq<nat>)
    ensures |nx| == |p|
    ensures IsNext(p, nx)
  {
    if |p| == 0 {
      return [];
    }
    nx := [0];
    var j: nat := 0;
    var i := 1;
    while i < |p|
      invariant 1 <= i <= |p|
      invariant |nx| == i
      invariant IsNext(p, nx)
      invariant j == nx[i - 1]
    {
      assert LongestBorder(p[..i], j);
      while j > 0 && p[i] != p[j]
        invariant j < i
        invariant Border(p[..i], j)
        invariant forall b :: j < b < i && Border(p[..i], b) ==> p[b] != p[i]
        decreases j
      {
        FallBack(p, nx, i, j);
        j := nx[j - 1];
      }
      NextEntry(p, i, j);
      if p[i] == p[j] {
        j := j + 1;
      }
      nx := nx + [j];
      i := i + 1;
    }
  }

  /** One step of the fallback loop of `kmp_search`. */
  lemma ScanFallBack(t: string, p: string, nx: seq<nat>, i: nat, j: nat)
    requires IsNext(p, nx) && |nx| == |p| && 0 < j < |p|
    requires Match(t, p, i, j)
    ensures Match(t, p, i, nx[j - 1])
    ensures forall k :: nx[j - 1] < k < j ==> !Match(t, p, i, k)
  {
    var j' := nx[j - 1];
    assert LongestBorder(p[..j - 1 + 1], j');
    MatchShrink(t, p, i, j, j');
    forall k | j' < k < j && Match(t, p, i, k)
      ensures false
    {
      MatchPair(t, p, i, j, k);
    }
  }

  /** Once the fallback loop stops at `j`, the longest partial match ending
      after `t[i]` is `j + 1` when the characters agree and 0 otherwise. */
  lemma ScanEntry(t: string, p: string, i: nat, j: nat, e: nat)
    requires e == i + 1
    requires i < |t| && j < |p| && Match(t, p, i, j)
    requires forall k :: j < k < |p| && Match(t, p, i, k) ==> p[k] != t[i]
    requires j == 0 || t[i] == p[j]
    ensures var j' := if t[i] == p[j] then j + 1 else 0;
      Match(t, p, e, j') && forall k :: j' < k <= |p| ==> !Match(t, p, e, k)
  {
    forall k | 0 < k <= |p| && Match(t, p, e, k)
      ensures k - 1 <= j && (k - 1 == j ==> p[j] == t[i])
    {
      MatchExtend(t, p, i, k - 1);
    }
    if t[i] == p[j] {
      MatchExtend(t, p, i, j);
    }
  }

  lemma OccursIsMatch(t: string, p: string, pos: nat)
    ensures OccursAt(t, p, pos) <==> Match(t, p, pos + |p|, |p|)
  {
    assert p[..|p|] == p;
  }

  /** `kmp_search(text, pattern)`: an empty pattern, an empty text and a
      pattern longer than the text all give false; otherwise the answer is
      whether the pattern occurs in the text. */
  method Search(t: string, p: string) returns (found: bool)
    ensures found <==> |p| > 0 && exists pos :: OccursAt(t, p, pos)
  {
    if |p| == 0 {
      return false;
    }
    if |t| == 0 || |p| > |t| {
      return false;
    }
    var nx := BuildNext(p);
    var j: nat := 0;
    var i := 0;
    while i < |t|
      invariant 0 <= i <= |t|
      invariant j < |p| && Match(t, p, i, j)
      invariant forall k :: j < k <= |p| ==> !Match(t, p, i, k)
      invariant forall e :: |p| <= e <= i ==> !Match(t, p, e, |p|)
    {
      j := ScanChar(t, p, nx, i, i + 1, j);
      if j == |p| {
        OccursIsMatch(t, p, i + 1 - |p|);
        return true;
      }
      i := i + 1;
    }
    NoOccurrence(t, p);
    return false;
  }

  /** One round of the outer loop of `kmp_search`: the longest partial
      match after `t[i]` from the longest one before it. */
  method ScanChar(t: string, p: string, nx: seq<nat>, i: nat, e: nat, j0: nat) returns (j: nat)
    requires e == i + 1
    requires IsNext(p, nx) && |nx| == |p| && i < |t| && j0 < |p| && Match(t, p, i, j0)
    requires forall k :: j0 < k <= |p| ==> !Match(t, p, i, k)
    ensures j <= |p| && Match(t, p, e, j)
    ensures forall k :: j < k <= |p| ==> !Match(t, p, e, k)
  {
    j := FallBackScan(t, p, nx, i, j0);
    ScanEntry(t, p, i, j, e);
    if t[i] == p[j] {
      j := j + 1;
    }
  }

  /** The inner loop of `kmp_search`: fall back along `next` until the
      pattern character agrees with `t[i]` or the match is empty. */
  method FallBackScan(t: string, p: string, nx: seq<nat>, i: nat, j0: nat) returns (j: nat)
    requires IsNext(p, nx) && |nx| == |p| && i < |t| && j0 < |p| && Match(t, p, i, j0)
    requires forall k :: j0 < k <= |p| ==> !Match(t, p, i, k)
    ensures j < |p| && Match(t, p, i, j)
    ensures forall k :: j < k < |p| && Match(t, p, i, k) ==> p[k] != t[i]
    ensures j == 0 || t[i] == p[j]
  {
    j := j0;
    while j > 0 && t[i] != p[j]
      invariant j < |p| && Match(t, p, i, j)
      invariant forall k :: j < k < |p| && Match(t, p, i, k) ==> p[k] != t[i]
      decreases j
    {
      ScanFallBack(t, p, nx, i, j);
      j := nx[j - 1];
    }
  }

  /** No full match ending anywhere means no occurrence. */
  lemma NoOccurrence(t: string, p: string)
    requires forall e :: |p| <= e <= |t| ==> !Match(t, p, e, |p|)
    ensures !exists pos :: OccursAt(t, p, pos)
  {
    forall pos | OccursAt(t, p, pos)
      ensures false
    {
      OccursIsMatch(t, p, pos);
    }
  }
}
