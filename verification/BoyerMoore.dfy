/** The Boyer-Moore search of recovery/recovery_updater.cpp.

  The two shift tables are filled in place by loops (`MakeDelta1`, `MakeDelta2`), the search is the
  nested loop `BmSearch`; each is proved equal to a specification function.  The main result,
  `BmSearchIsExactIff`, says for which patterns the search finds the leftmost occurrence in every text;
  `NulFreeIsExactIff` says it more simply for patterns without a NUL.
 */
module BoyerMoore {

  type byte = x: int | 0 <= x < 256

  const ALPHABET_LEN: nat := 256

  // ---------- what a search is meant to do ----------

  ghost predicate OccursAt(text: seq<byte>, pat: seq<byte>, a: int) {
    0 <= a && a + |pat| <= |text| && forall k :: 0 <= k < |pat| ==> text[a + k] == pat[k]
  }

  /** `r` is the leftmost occurrence of `pat`, or -1 (the source's NULL) if there is none. */
  ghost predicate IsLeftmost(text: seq<byte>, pat: seq<byte>, r: int) {
    && (r == -1 || OccursAt(text, pat, r))
    && (forall a {:trigger OccursAt(text, pat, a)} :: OccursAt(text, pat, a) ==> 0 <= r <= a)
  }

  predicate NulFree(s: seq<byte>) {
    forall k :: 0 <= k < |s| ==> s[k] != 0
  }

  /** The suffix of `pat` starting at `q` is also a prefix of `pat`. */
  predicate SuffixIsPrefix(pat: seq<byte>, q: nat)
    requires q <= |pat|
  {
    pat[q..] == pat[..|pat| - q]
  }

  lemma BorderAt(pat: seq<byte>, q: nat, k: nat)
    requires q <= k < |pat| && SuffixIsPrefix(pat, q)
    ensures pat[k] == pat[k - q]
  {
    assert pat[q..][k - q] == pat[..|pat| - q][k - q];
  }

  /** No proper non-empty suffix of `pat` is a prefix of it. */
  predicate Unbordered(pat: seq<byte>) {
    forall q :: 0 < q < |pat| ==> !SuffixIsPrefix(pat, q)
  }

  predicate SingleLetter(pat: seq<byte>) {
    forall k :: 0 < k < |pat| ==> pat[k] == pat[0]
  }

  // ---------- strncmp ----------

  /** `strncmp(pat + p + k, pat + k, |pat| - p - k) == 0`: equal to the end or up to a common NUL. */
  predicate StrncmpEqual(pat: seq<byte>, p: nat, k: nat)
    requires p + k <= |pat|
    decreases |pat| - k
  {
    p + k == |pat| || (pat[p + k] == pat[k] && (pat[k] == 0 || StrncmpEqual(pat, p, k + 1)))
  }

  lemma {:induction false} StrncmpIsEquality(pat: seq<byte>, p: nat, k: nat)
    requires p + k <= |pat| && NulFree(pat)
    ensures StrncmpEqual(pat, p, k) <==> pat[p + k..] == pat[k..|pat| - p]
    decreases |pat| - k
  {
    if p + k < |pat| {
      StrncmpIsEquality(pat, p, k + 1);
      assert pat[p + k..] == [pat[p + k]] + pat[p + k + 1..];
      assert pat[k..|pat| - p] == [pat[k]] + pat[k + 1..|pat| - p];
    }
  }

  // ---------- specification of the tables ----------

  /** The largest index below `hi` at which `pat` holds `c`, or -1. */
  function LastIndex(pat: seq<byte>, c: byte, hi: nat): (k: int)
    requires hi <= |pat|
    ensures -1 <= k < hi
    ensures k >= 0 ==> pat[k] == c
    ensures forall x :: k < x < hi ==> pat[x] != c
  {
    if hi == 0 then -1 else if pat[hi - 1] == c then hi - 1 else LastIndex(pat, c, hi - 1)
  }

  function Delta1(pat: seq<byte>, c: byte): int
    requires pat != []
  {
    var k := LastIndex(pat, c, |pat| - 1);
    if k < 0 then |pat| else |pat| - 1 - k
  }

  /** The last `n` characters of `pat` are also the `n` characters ending at `p`. */
  predicate EndsAt(pat: seq<byte>, p: int, n: nat)
    requires n <= p + 1 && p < |pat|
  {
    pat[p + 1 - n..p + 1] == pat[|pat| - n..]
  }

  lemma EndsAtIndex(pat: seq<byte>, p: int, n: nat, k: nat)
    requires k < n <= p + 1 && p < |pat| && EndsAt(pat, p, n)
    ensures pat[p - k] == pat[|pat| - 1 - k]
  {
    assert pat[p + 1 - n..p + 1][n - 1 - k] == pat[|pat| - n..][n - 1 - k];
  }

  /** The suffix after `j` also ends at `p`, preceded there by a character other than `pat[j]`. */
  predicate Recurs(pat: seq<byte>, j: nat, p: int)
    requires j < |pat|
  {
    var n := |pat| - 1 - j;
    && n <= p < |pat| - 1
    && EndsAt(pat, p, n)
    && pat[p - n] != pat[j]
  }

  /** The last place below `hi` where the suffix after `j` recurs, or -1. */
  function LastRecurrence(pat: seq<byte>, j: nat, hi: nat): (p: int)
    requires j < |pat|
    ensures -1 <= p < hi
    ensures p >= 0 ==> Recurs(pat, j, p)
    ensures forall x :: p < x < hi ==> !Recurs(pat, j, x)
  {
    if hi == 0 then -1 else if Recurs(pat, j, hi - 1) then hi - 1 else LastRecurrence(pat, j, hi - 1)
  }

  /** The test of the first table loop at `p`. */
  predicate Passes(pat: seq<byte>, p: nat)
    requires p <= |pat|
  {
    StrncmpEqual(pat, p, 0)
  }

  /** Every suffix that is a prefix passes; with a NUL in the pattern others may, too. */
  lemma BorderPasses(pat: seq<byte>, q: nat)
    requires q <= |pat| && SuffixIsPrefix(pat, q)
    ensures Passes(pat, q)
  {
    BorderPassesFrom(pat, q, 0);
  }

  lemma {:induction false} BorderPassesFrom(pat: seq<byte>, q: nat, k: nat)
    requires q + k <= |pat| && SuffixIsPrefix(pat, q)
    ensures StrncmpEqual(pat, q, k)
    decreases |pat| - k
  {
    if q + k < |pat| {
      BorderAt(pat, q, q + k);
      BorderPassesFrom(pat, q, k + 1);
    }
  }

  lemma NulFreePasses(pat: seq<byte>, q: nat)
    requires q <= |pat| && NulFree(pat)
    ensures Passes(pat, q) <==> SuffixIsPrefix(pat, q)
  {
    StrncmpIsEquality(pat, q, 0);
  }

  /** The variable `last_prefix` after the first loop has visited `p`: the code tests the suffix at `p`
      but stores `p + 1`. */
  function LastPrefix(pat: seq<byte>, p: nat): (l: nat)
    requires p < |pat|
    ensures 1 <= l <= |pat|
    ensures forall x :: p <= x < l - 1 ==> !Passes(pat, x)
    decreases |pat| - p
  {
    assert p == 0 ==> Passes(pat, p) by {
      if p == 0 {
        BorderPasses(pat, p);
      }
    }
    if Passes(pat, p) then p + 1
    else if p == |pat| - 1 then |pat| - 1
    else LastPrefix(pat, p + 1)
  }

  lemma {:induction false} LastPrefixOfNone(pat: seq<byte>, p: nat)
    requires p < |pat| && forall x :: p <= x < |pat| ==> !Passes(pat, x)
    ensures LastPrefix(pat, p) == |pat| - 1
    decreases |pat| - p
  {
    if p < |pat| - 1 {
      LastPrefixOfNone(pat, p + 1);
    }
  }

  lemma {:induction false} LastPrefixReaches(pat: seq<byte>, p: nat, q: nat)
    requires p <= q < |pat| && Passes(pat, q)
    ensures LastPrefix(pat, p) <= q + 1
    ensures (forall x :: p <= x < q ==> !Passes(pat, x)) ==> LastPrefix(pat, p) == q + 1
    decreases q - p
  {
    if p < q && !Passes(pat, p) {
      LastPrefixReaches(pat, p + 1, q);
    }
  }

  /** `delta2[j]` when the second loop has visited the positions below `hi`. */
  function Delta2Below(pat: seq<byte>, j: nat, hi: nat): (d: nat)
    requires j < |pat| && hi < |pat|
    ensures |pat| - j <= d <= 2 * |pat|
  {
    var p := LastRecurrence(pat, j, hi);
    (if p >= 0 then |pat| - 1 - p else LastPrefix(pat, j)) + (|pat| - 1 - j)
  }

  function Delta2(pat: seq<byte>, j: nat): nat
    requires j < |pat|
  {
    Delta2Below(pat, j, |pat| - 1)
  }

  // ---------- the table builders ----------

  /** Length of the longest suffix ending at `p`, capped at `p`. */
  method MaxSuffixLen(str: seq<byte>, p: nat) returns (i: nat)
    requires p < |str|
    ensures i <= p
    ensures EndsAt(str, p, i)
    ensures i == p || str[p - i] != str[|str| - 1 - i]
  {
    i := 0;
    while str[p - i] == str[|str| - 1 - i] && i < p
      invariant i <= p
      invariant EndsAt(str, p, i)
    {
      assert str[p - i..p + 1] == [str[p - i]] + str[p + 1 - i..p + 1];
      assert str[|str| - 1 - i..] == [str[|str| - 1 - i]] + str[|str| - i..];
      i := i + 1;
    }
  }

  /** `d` is how far the last place of `c` before the final character is from the end, or the length of `pat` if
      there is none. */
  ghost predicate IsLastDistance(pat: seq<byte>, c: byte, d: int)
    requires pat != []
  {
    && (forall k :: 0 <= k < |pat| - 1 && pat[k] == c && c !in pat[k + 1..|pat| - 1] ==> d == |pat| - 1 - k)
    && (c !in pat[..|pat| - 1] ==> d == |pat|)
  }

  lemma Delta1IsDistance(pat: seq<byte>, c: byte)
    requires pat != []
    ensures IsLastDistance(pat, c, Delta1(pat, c))
  {
    var l := LastIndex(pat, c, |pat| - 1);
    forall k | 0 <= k < l && pat[k] == c ensures c in pat[k + 1..|pat| - 1] {
      assert pat[k + 1..|pat| - 1][l - k - 1] == pat[l];
    }
    assert l >= 0 ==> pat[..|pat| - 1][l] == c;
  }

  method MakeDelta1(delta1: array<int>, pat: seq<byte>)
    requires pat != [] && delta1.Length == ALPHABET_LEN
    modifies delta1
    ensures forall c: byte :: delta1[c] == Delta1(pat, c)
    ensures forall c: byte :: IsLastDistance(pat, c, delta1[c])
  {
    var i := 0;
    while i < ALPHABET_LEN
      invariant 0 <= i <= ALPHABET_LEN
      invariant forall c: byte :: c < i ==> delta1[c] == |pat|
    {
      delta1[i] := |pat|;
      i := i + 1;
    }
    i := 0;
    while i < |pat| - 1
      invariant 0 <= i <= |pat| - 1
      invariant forall c: byte :: delta1[c] == var k := LastIndex(pat, c, i); if k < 0 then |pat| else |pat| - 1 - k
    {
      delta1[pat[i]] := |pat| - 1 - i;
      i := i + 1;
    }
    forall c: byte ensures IsLastDistance(pat, c, Delta1(pat, c)) {
      Delta1IsDistance(pat, c);
    }
  }

  method MakeDelta2(delta2: array<int>, pat: seq<byte>)
    requires pat != [] && delta2.Length == |pat|
    modifies delta2
    ensures SuffixTable(pat, delta2[..], |pat| - 1)
    ensures forall j :: 0 <= j < |pat| ==> IsShift(pat, j, delta2[j])
  {
    PrefixPass(delta2, pat);
    SuffixTableStart(pat, delta2[..]);
    SuffixPass(delta2, pat);
    forall j | 0 <= j < |pat| ensures IsShift(pat, j, delta2[j]) {
      assert delta2[..][j] == Delta2(pat, j);
      Delta2IsShift(pat, j);
    }
  }

  ghost predicate LastRecurrenceAt(pat: seq<byte>, j: nat, p: nat)
    requires j < |pat|
  {
    p < |pat| - 1 && Recurs(pat, j, p) && forall x :: p < x < |pat| - 1 ==> !Recurs(pat, j, x)
  }

  ghost predicate FirstPassAt(pat: seq<byte>, j: nat, q: nat) {
    j <= q < |pat| && Passes(pat, q) && forall x :: j <= x < q ==> !Passes(pat, x)
  }

  /** `d` is the distance from the end of the last recurrence of the suffix after `j`; without one, one more than the
      place of the next suffix that passes for a prefix; without that either, one less than the length of `pat`;
      each plus the length of the suffix after `j`. */
  ghost predicate IsShift(pat: seq<byte>, j: nat, d: int)
    requires j < |pat|
  {
    var m := |pat|;
    && (forall p: nat :: LastRecurrenceAt(pat, j, p) ==> d == (m - 1 - p) + (m - 1 - j))
    && ((forall p :: 0 <= p < m - 1 ==> !Recurs(pat, j, p)) ==>
         && (forall q: nat :: FirstPassAt(pat, j, q) ==> d == (q + 1) + (m - 1 - j))
         && ((forall q :: j <= q < m ==> !Passes(pat, q)) ==> d == (m - 1) + (m - 1 - j)))
  }

  lemma Delta2IsShift(pat: seq<byte>, j: nat)
    requires j < |pat|
    ensures IsShift(pat, j, Delta2(pat, j))
  {
    var l := LastRecurrence(pat, j, |pat| - 1);
    forall p: nat | LastRecurrenceAt(pat, j, p) ensures p == l {
    }
    forall q: nat | FirstPassAt(pat, j, q) ensures LastPrefix(pat, j) == q + 1 {
      LastPrefixReaches(pat, j, q);
    }
    if forall q :: j <= q < |pat| ==> !Passes(pat, q) {
      LastPrefixOfNone(pat, j);
    }
  }

  /** The first loop of `bm_make_delta2`. */
  method PrefixPass(delta2: array<int>, pat: seq<byte>)
    requires pat != [] && delta2.Length == |pat|
    modifies delta2
    ensures PrefixTable(pat, delta2[..], 0)
  {
    var m := |pat|;
    var lastPrefix := m - 1;
    var p := m - 1;
    while p >= 0
      invariant -1 <= p < m
      invariant lastPrefix == if p == m - 1 then m - 1 else LastPrefix(pat, p + 1)
      invariant PrefixTable(pat, delta2[..], p + 1)
    {
      if StrncmpEqual(pat, p, 0) {
        lastPrefix := p + 1;
      }
      ghost var d := delta2[..];
      delta2[p] := lastPrefix + (m - 1 - p);
      assert delta2[..] == d[p := lastPrefix + (m - 1 - p)];
      PrefixTableStep(pat, d, p, lastPrefix + (m - 1 - p));
      p := p - 1;
    }
  }

  /** The second loop of `bm_make_delta2`. */
  method SuffixPass(delta2: array<int>, pat: seq<byte>)
    requires pat != [] && delta2.Length == |pat| && SuffixTable(pat, delta2[..], 0)
    modifies delta2
    ensures SuffixTable(pat, delta2[..], |pat| - 1)
  {
    var m := |pat|;
    var p := 0;
    while p < m - 1
      invariant 0 <= p <= m - 1
      invariant SuffixTable(pat, delta2[..], p)
    {
      SuffixRound(delta2, pat, p);
      p := p + 1;
    }
  }

  method SuffixRound(delta2: array<int>, pat: seq<byte>, p: nat)
    requires delta2.Length == |pat| && p < |pat| - 1 && SuffixTable(pat, delta2[..], p)
    modifies delta2
    ensures SuffixTable(pat, delta2[..], p + 1)
  {
    var m := |pat|;
    ghost var d := delta2[..];
    var sufLen := MaxSuffixLen(pat, p);
    if pat[p - sufLen] != pat[m - 1 - sufLen] {
      delta2[m - 1 - sufLen] := m - 1 - p + sufLen;
    }
    SuffixTableStep(pat, d, delta2[..], p, sufLen);
  }

  /** The table as the first loop leaves it from `lo` on. */
  ghost predicate PrefixTable(pat: seq<byte>, d: seq<int>, lo: nat) {
    |d| == |pat| && forall j :: lo <= j < |pat| ==> d[j] == LastPrefix(pat, j) + (|pat| - 1 - j)
  }

  /** The table when the second loop has visited the positions below `hi`. */
  ghost predicate SuffixTable(pat: seq<byte>, d: seq<int>, hi: nat) {
    |d| == |pat| && hi < |pat| && forall j :: 0 <= j < |pat| ==> d[j] == Delta2Below(pat, j, hi)
  }

  lemma PrefixTableStep(pat: seq<byte>, d: seq<int>, p: nat, v: int)
    requires p < |pat| && PrefixTable(pat, d, p + 1) && v == LastPrefix(pat, p) + (|pat| - 1 - p)
    ensures PrefixTable(pat, d[p := v], p)
  {
  }

  lemma SuffixTableStart(pat: seq<byte>, d: seq<int>)
    requires pat != [] && PrefixTable(pat, d, 0)
    ensures SuffixTable(pat, d, 0)
  {
  }

  /** One round of the second loop. */
  lemma SuffixTableStep(pat: seq<byte>, d: seq<int>, d': seq<int>, p: nat, n: nat)
    requires n <= p < |pat| - 1 && SuffixTable(pat, d, p)
    requires EndsAt(pat, p, n)
    requires n == p || pat[p - n] != pat[|pat| - 1 - n]
    requires d' == if pat[p - n] != pat[|pat| - 1 - n] then d[|pat| - 1 - n := |pat| - 1 - p + n] else d
    ensures SuffixTable(pat, d', p + 1)
  {
    RecursOnlyAt(pat, p, n);
  }

  /** A position `p` can only be a recurrence for the suffix of the length `MaxSuffixLen` returns. */
  lemma RecursOnlyAt(pat: seq<byte>, p: nat, n: nat)
    requires n <= p < |pat| - 1
    requires EndsAt(pat, p, n)
    requires n == p || pat[p - n] != pat[|pat| - 1 - n]
    ensures forall j: nat :: j < |pat| ==> (Recurs(pat, j, p) <==> j == |pat| - 1 - n && pat[p - n] != pat[j])
  {
    forall j: nat | j < |pat| && j != |pat| - 1 - n
      ensures !Recurs(pat, j, p)
    {
      var n' := |pat| - 1 - j;
      if n < n' <= p && EndsAt(pat, p, n') {
        EndsAtIndex(pat, p, n', n);
      } else if n' < n {
        EndsAtIndex(pat, p, n, n');
      }
    }
  }

  // ---------- the search ----------

  /** The right-to-left comparison at alignment `a`: the last mismatching index below `hi`, or -1. */
  function Mismatch(text: seq<byte>, pat: seq<byte>, a: nat, hi: nat): (j: int)
    requires a + |pat| <= |text| && hi <= |pat|
    ensures -1 <= j < hi
    ensures j >= 0 ==> text[a + j] != pat[j]
    ensures forall k :: j < k < hi ==> text[a + k] == pat[k]
  {
    if hi == 0 then -1
    else if text[a + hi - 1] != pat[hi - 1] then hi - 1
    else Mismatch(text, pat, a, hi - 1)
  }

  datatype Tables = Tables(delta1: seq<int>, delta2: seq<int>) {
    /** What the search loop needs of its tables to make progress within `int` range. */
    ghost predicate Fit(m: nat) {
      && |delta1| == ALPHABET_LEN && (forall c: byte :: delta1[c] <= m)
      && |delta2| == m && (forall j :: 0 <= j < m ==> m - j <= delta2[j] <= 2 * m)
    }

    /** How far the alignment moves right after text character `c` mismatched `pat[j]`. */
    ghost function Shift(c: byte, j: nat): (s: int)
      requires Fit(|delta2|) && j < |delta2|
      ensures 1 <= s <= 2 * |delta2|
    {
      (if delta1[c] > delta2[j] then delta1[c] else delta2[j]) - (|delta2| - 1 - j)
    }
  }

  ghost function TablesOf(pat: seq<byte>): (t: Tables)
    requires pat != []
    ensures t.Fit(|pat|)
    ensures forall c: byte :: t.delta1[c] == Delta1(pat, c)
    ensures forall j :: 0 <= j < |pat| ==> t.delta2[j] == Delta2(pat, j)
  {
    Tables(seq(ALPHABET_LEN, c requires 0 <= c < ALPHABET_LEN => Delta1(pat, c)),
           seq(|pat|, j requires 0 <= j < |pat| => Delta2(pat, j)))
  }

  ghost function SearchFrom(text: seq<byte>, pat: seq<byte>, t: Tables, a: nat): (r: int)
    requires pat != [] && t.Fit(|pat|)
    decreases |text| - a
  {
    if a + |pat| > |text| then -1
    else
      var j := Mismatch(text, pat, a, |pat|);
      if j < 0 then a else SearchFrom(text, pat, t, a + t.Shift(text[a + j], j))
  }

  /** What `bm_search` returns: an index into `text`, or -1 for NULL. */
  ghost function Search(text: seq<byte>, pat: seq<byte>): int
    requires pat != []
  {
    SearchFrom(text, pat, TablesOf(pat), 0)
  }

  /** The search loop.  `i` stays below `|text| + 2 * |pat|`, so it fits an `int` whenever that does. */
  method BmSearch(text: seq<byte>, pat: seq<byte>) returns (r: int)
    requires pat != []
    ensures r == Search(text, pat)
    ensures r == -1 || OccursAt(text, pat, r)
    ensures !Overshoots(pat) ==> IsLeftmost(text, pat, r)
    ensures Unbordered(pat) || SingleLetter(pat) ==> IsLeftmost(text, pat, r)
  {
    var delta1 := new int[ALPHABET_LEN];
    var delta2 := new int[|pat|];
    MakeDelta1(delta1, pat);
    MakeDelta2(delta2, pat);
    SearchKeepsItsPromise(text, pat);
    if Unbordered(pat) || SingleLetter(pat) {
      SoundPatterns(pat);
    }
    r := SkipLoop(text, pat, delta1, delta2);
    assert delta1[..] == TablesOf(pat).delta1;
    assert delta2[..] == TablesOf(pat).delta2;
  }

  /** The inner loop, from the last character of an alignment, at `end`, backwards. */
  method CompareBackwards(text: seq<byte>, pat: seq<byte>, end: nat) returns (i: int, j: int)
    requires pat != [] && |pat| - 1 <= end < |text|
    ensures var a := end - (|pat| - 1);
      j == Mismatch(text, pat, a, |pat|) && i == a + j
  {
    ghost var a := end - (|pat| - 1);
    i, j := end, |pat| - 1;
    while j >= 0 && text[i] == pat[j]
      invariant -1 <= j < |pat| && i == a + j
      invariant Mismatch(text, pat, a, |pat|) == Mismatch(text, pat, a, j + 1)
    {
      i := i - 1;
      j := j - 1;
    }
  }

  /** The loop of `BmSearch`, for any tables that make it progress. */
  method SkipLoop(text: seq<byte>, pat: seq<byte>, delta1: array<int>, delta2: array<int>) returns (r: int)
    requires pat != [] && Tables(delta1[..], delta2[..]).Fit(|pat|)
    ensures r == SearchFrom(text, pat, Tables(delta1[..], delta2[..]), 0)
  {
    ghost var t := Tables(delta1[..], delta2[..]);
    var m := |pat|;
    var i := m - 1;
    while i < |text|
      invariant m - 1 <= i < |text| + 2 * m
      invariant SearchFrom(text, pat, t, 0) == SearchFrom(text, pat, t, i - (m - 1))
      decreases |text| - i
    {
      ghost var a := i - (m - 1);
      var j;
      i, j := CompareBackwards(text, pat, i);
      if j < 0 {
        return i + 1;
      }
      var d1, d2 := delta1[text[i]], delta2[j];
      i := i + if d1 > d2 then d1 else d2;
      assert i - (m - 1) == a + t.Shift(text[a + j], j);
    }
    return -1;
  }

  /** What the search does at an alignment: past the end of the text it gives up, at an occurrence it stops, and
      after a last mismatch it moves on by the larger of the two shifts. */
  lemma SearchStep(text: seq<byte>, pat: seq<byte>, t: Tables, a: nat, j: nat)
    requires pat != [] && t.Fit(|pat|)
    ensures a + |pat| > |text| ==> SearchFrom(text, pat, t, a) == -1
    ensures OccursAt(text, pat, a) ==> SearchFrom(text, pat, t, a) == a
    ensures LastMismatchIs(text, pat, a, j) ==>
      var d1, d2 := t.delta1[text[a + j]], t.delta2[j];
      SearchFrom(text, pat, t, a) == SearchFrom(text, pat, t, a + (if d1 > d2 then d1 else d2) - (|pat| - 1 - j))
  {
    if LastMismatchIs(text, pat, a, j) {
      LastMismatchAt(text, pat, a, j);
      MovesOn(text, pat, t, a, j);
    }
  }

  ghost predicate LastMismatchIs(text: seq<byte>, pat: seq<byte>, a: nat, j: nat) {
    a + |pat| <= |text| && j < |pat| && text[a + j] != pat[j] && text[a + j + 1..a + |pat|] == pat[j + 1..]
  }

  lemma MovesOn(text: seq<byte>, pat: seq<byte>, t: Tables, a: nat, j: nat)
    requires pat != [] && t.Fit(|pat|) && a + |pat| <= |text| && Mismatch(text, pat, a, |pat|) == j
    ensures SearchFrom(text, pat, t, a) == SearchFrom(text, pat, t, a + t.Shift(text[a + j], j))
  {
  }

  lemma LastMismatchAt(text: seq<byte>, pat: seq<byte>, a: nat, j: nat)
    requires LastMismatchIs(text, pat, a, j)
    ensures Mismatch(text, pat, a, |pat|) == j
  {
    forall k | j < k < |pat| ensures text[a + k] == pat[k] {
      assert text[a + j + 1..a + |pat|][k - j - 1] == pat[j + 1..][k - j - 1];
    }
    MismatchIs(text, pat, a, |pat|, j);
  }

  // ---------- soundness, for every pattern and any tables ----------

  lemma {:induction false} SearchIsSound(text: seq<byte>, pat: seq<byte>, t: Tables, a: nat)
    requires pat != [] && t.Fit(|pat|)
    ensures var r := SearchFrom(text, pat, t, a); r == -1 || (a <= r && OccursAt(text, pat, r))
    decreases |text| - a
  {
    if a + |pat| <= |text| {
      var j := Mismatch(text, pat, a, |pat|);
      if j >= 0 {
        SearchIsSound(text, pat, t, a + t.Shift(text[a + j], j));
      }
    }
  }

  // ---------- both rules give safe shifts ----------

  /** An occurrence `s` to the right of an alignment that matched after `j` and failed at `j`. */
  ghost predicate MissedBy(text: seq<byte>, pat: seq<byte>, a: nat, j: nat, s: nat) {
    && j < |pat| && a + |pat| <= |text| && 0 < s
    && text[a + j] != pat[j]
    && (forall k :: j < k < |pat| ==> text[a + k] == pat[k])
    && OccursAt(text, pat, a + s)
  }

  lemma BadCharacterIsSafe(text: seq<byte>, pat: seq<byte>, a: nat, j: nat, s: nat)
    requires MissedBy(text, pat, a, j, s)
    ensures Delta1(pat, text[a + j]) - (|pat| - 1 - j) <= s
  {
    if s <= j {
      assert text[(a + s) + (j - s)] == pat[j - s];
    }
  }

  /** An occurrence overlapping the mismatch makes the matched suffix recur in the pattern ... */
  lemma OverlapRecurs(text: seq<byte>, pat: seq<byte>, a: nat, j: nat, s: nat)
    requires MissedBy(text, pat, a, j, s) && s <= j
    ensures Recurs(pat, j, |pat| - 1 - s)
  {
    var m := |pat|;
    assert text[(a + s) + (j - s)] == pat[j - s];
    var before, after := pat[j + 1 - s..m - s], pat[j + 1..];
    forall k | 0 <= k < m - 1 - j ensures before[k] == after[k] {
      assert text[(a + s) + (j + 1 - s + k)] == pat[j + 1 - s + k];
      assert text[a + (j + 1 + k)] == pat[j + 1 + k];
    }
  }

  /** ... and one entirely to its right makes a suffix of the pattern a prefix. */
  lemma DisjointIsBorder(text: seq<byte>, pat: seq<byte>, a: nat, j: nat, s: nat)
    requires MissedBy(text, pat, a, j, s) && j < s <= |pat|
    ensures SuffixIsPrefix(pat, s)
  {
    forall k | 0 <= k < |pat| - s ensures pat[s..][k] == pat[..|pat| - s][k] {
      assert text[(a + s) + k] == pat[k];
      assert text[a + (s + k)] == pat[s + k];
    }
  }

  /** The entry at `j` is one larger than the border `s` allows: nothing between passes for a prefix, and the
      suffix after `j` does not recur, which would make the second loop replace the entry. */
  ghost predicate OvershootsAt(pat: seq<byte>, j: nat, s: nat) {
    && j < s < |pat| && SuffixIsPrefix(pat, s)
    && (forall p :: j <= p < s ==> !Passes(pat, p))
    && (forall p :: 0 <= p < |pat| - 1 ==> !Recurs(pat, j, p))
  }

  ghost predicate Overshoots(pat: seq<byte>) {
    exists j, s :: OvershootsAt(pat, j, s)
  }

  lemma OvershootIsStored(pat: seq<byte>, j: nat, s: nat)
    requires OvershootsAt(pat, j, s)
    ensures Delta2(pat, j) == (s + 1) + (|pat| - 1 - j)
  {
    BorderPasses(pat, s);
    LastPrefixReaches(pat, j, s);
  }

  /** Where no entry overshoots, the good-suffix shift passes no occurrence. */
  lemma GoodSuffixIsSafe(text: seq<byte>, pat: seq<byte>, a: nat, j: nat, s: nat)
    requires MissedBy(text, pat, a, j, s) && !Overshoots(pat)
    ensures Delta2(pat, j) - (|pat| - 1 - j) <= s
  {
    if s <= j {
      OverlapRecurs(text, pat, a, j, s);
    } else if s < |pat| && LastRecurrence(pat, j, |pat| - 1) < 0 {
      DisjointIsBorder(text, pat, a, j, s);
      BorderPasses(pat, s);
      LastPrefixReaches(pat, j, s);
      assert !OvershootsAt(pat, j, s);
    }
  }

  /** No occurrence is ever between an alignment and the next. */
  ghost predicate SafeTables(pat: seq<byte>, t: Tables)
    requires t.Fit(|pat|)
  {
    forall text, a, j, s :: MissedBy(text, pat, a, j, s) ==> t.Shift(text[a + j], j) <= s
  }

  lemma TablesAreSafe(pat: seq<byte>)
    requires pat != [] && !Overshoots(pat)
    ensures SafeTables(pat, TablesOf(pat))
  {
    forall text, a, j, s | MissedBy(text, pat, a, j, s) ensures TablesOf(pat).Shift(text[a + j], j) <= s {
      BadCharacterIsSafe(text, pat, a, j, s);
      GoodSuffixIsSafe(text, pat, a, j, s);
    }
  }

  lemma {:induction false} SearchIsComplete(text: seq<byte>, pat: seq<byte>, t: Tables, a: nat, b: nat)
    requires pat != [] && t.Fit(|pat|) && SafeTables(pat, t)
    requires a <= b && OccursAt(text, pat, b)
    ensures a <= SearchFrom(text, pat, t, a) <= b
    decreases |text| - a
  {
    var j := Mismatch(text, pat, a, |pat|);
    if j >= 0 {
      assert text[b + j] == pat[j];
      assert MissedBy(text, pat, a, j, b - a);
      SearchIsComplete(text, pat, t, a + t.Shift(text[a + j], j), b);
    }
  }

  lemma SearchKeepsItsPromise(text: seq<byte>, pat: seq<byte>)
    requires pat != []
    ensures Search(text, pat) == -1 || OccursAt(text, pat, Search(text, pat))
    ensures !Overshoots(pat) ==> IsLeftmost(text, pat, Search(text, pat))
  {
    SearchIsSound(text, pat, TablesOf(pat), 0);
    if !Overshoots(pat) {
      TablesAreSafe(pat);
      forall b | OccursAt(text, pat, b) ensures 0 <= Search(text, pat) <= b {
        SearchIsComplete(text, pat, TablesOf(pat), 0, b);
      }
    }
  }

  // ---------- every other pattern fails on some text ----------

  /** A text that contains `pat`, at `s`, but in which the search finds nothing. */
  lemma OvershootMisses(pat: seq<byte>, j: nat, s: nat) returns (text: seq<byte>)
    requires OvershootsAt(pat, j, s)
    ensures OccursAt(text, pat, s) && Search(text, pat) == -1
  {
    var m := |pat|;
    OvershootIsStored(pat, j, s);
    var c: byte := if pat[j] == 0 then 1 else 0;
    text := pat[..j] + [c] + pat[j + 1..s] + pat;
    forall k | j < k < m ensures text[k] == pat[k] {
      if k >= s {
        BorderAt(pat, s, k);
      }
    }
    assert text[j] == c != pat[j];
    MismatchIs(text, pat, 0, m, j);
    StepsOver(text, pat, TablesOf(pat), j, s);
  }

  lemma StepsOver(text: seq<byte>, pat: seq<byte>, t: Tables, j: nat, s: nat)
    requires j < |pat| && |text| == s + |pat| && t.Fit(|pat|)
    requires Mismatch(text, pat, 0, |pat|) == j && t.delta2[j] == (s + 1) + (|pat| - 1 - j)
    ensures SearchFrom(text, pat, t, 0) == -1
  {
    assert t.Shift(text[j], j) >= s + 1;
  }

  lemma {:induction false} MismatchIs(text: seq<byte>, pat: seq<byte>, a: nat, hi: nat, j: nat)
    requires a + |pat| <= |text| && j < hi <= |pat|
    requires text[a + j] != pat[j] && forall k :: j < k < hi ==> text[a + k] == pat[k]
    ensures Mismatch(text, pat, a, hi) == j
  {
  }

  /** `bm_search` finds the leftmost occurrence in every text exactly when no entry of its table overshoots. */
  lemma BmSearchIsExactIff(pat: seq<byte>)
    requires pat != []
    ensures (forall text :: IsLeftmost(text, pat, Search(text, pat))) <==> !Overshoots(pat)
  {
    if Overshoots(pat) {
      var j, s :| OvershootsAt(pat, j, s);
      var text := OvershootMisses(pat, j, s);
      assert !IsLeftmost(text, pat, Search(text, pat));
    } else {
      forall text ensures IsLeftmost(text, pat, Search(text, pat)) {
        SearchKeepsItsPromise(text, pat);
      }
    }
  }

  // ---------- which patterns those are ----------

  lemma SoundPatterns(pat: seq<byte>)
    requires Unbordered(pat) || SingleLetter(pat)
    ensures !Overshoots(pat)
  {
    forall j: nat, s: nat ensures !OvershootsAt(pat, j, s) {
      if j < s < |pat| && SingleLetter(pat) {
        forall k | 0 <= k < |pat| - j ensures pat[j..][k] == pat[..|pat| - j][k] {
          assert k > 0 ==> pat[k] == pat[0];
          assert j + k > 0 ==> pat[j + k] == pat[0];
        }
        BorderPasses(pat, j);
      }
    }
  }

  lemma {:induction false} ShiftByOneIsSingleLetter(pat: seq<byte>, k: nat)
    requires 0 < |pat| && k < |pat| && SuffixIsPrefix(pat, 1)
    ensures pat[k] == pat[0]
  {
    if k > 0 {
      BorderAt(pat, 1, k);
      ShiftByOneIsSingleLetter(pat, k - 1);
    }
  }

  /** Without a NUL, if `pat` has a proper border and two distinct letters, the entry at 1 overshoots its smallest
      border start after 1. */
  lemma BorderedOvershoots(pat: seq<byte>) returns (q: nat)
    requires pat != [] && NulFree(pat) && !Unbordered(pat) && !SingleLetter(pat)
    ensures OvershootsAt(pat, 1, q)
  {
    var m := |pat|;
    var b :| 0 < b < m && SuffixIsPrefix(pat, b);
    if SuffixIsPrefix(pat, 1) {
      forall k | 0 < k < m ensures pat[k] == pat[0] {
        ShiftByOneIsSingleLetter(pat, k);
      }
      assert false;
    }
    BorderAt(pat, b, b);
    forall p | 0 <= p < m - 1 ensures !Recurs(pat, 1, p) {
      if Recurs(pat, 1, p) {
        assert p == m - 2;
        RecursAtTwo(pat, b);
      }
    }
    q := SmallestBorder(pat, 1, b);
  }

  /** The suffix from 2 recurring one place to the left makes everything from 1 on one letter. */
  lemma RecursAtTwo(pat: seq<byte>, b: nat)
    requires 2 <= b < |pat| && Recurs(pat, 1, |pat| - 2)
    ensures pat[b] != pat[0]
  {
    var k := 1;
    while k < b
      invariant 1 <= k <= b && pat[k] == pat[1]
    {
      EndsAtIndex(pat, |pat| - 2, |pat| - 2, |pat| - 2 - k);
      k := k + 1;
    }
  }

  lemma {:induction false} SmallestBorder(pat: seq<byte>, p: nat, b: nat) returns (q: nat)
    requires p <= b < |pat| && SuffixIsPrefix(pat, b) && NulFree(pat)
    ensures p <= q <= b && SuffixIsPrefix(pat, q) && forall x :: p <= x < q ==> !Passes(pat, x)
    decreases b - p
  {
    NulFreePasses(pat, p);
    if SuffixIsPrefix(pat, p) {
      q := p;
    } else {
      q := SmallestBorder(pat, p + 1, b);
    }
  }

  /** For patterns without a NUL, the search is exact if and only if they have no proper border or are one
      repeated letter. */
  lemma NulFreeIsExactIff(pat: seq<byte>)
    requires pat != [] && NulFree(pat)
    ensures (forall text :: IsLeftmost(text, pat, Search(text, pat))) <==> Unbordered(pat) || SingleLetter(pat)
  {
    BmSearchIsExactIff(pat);
    if Unbordered(pat) || SingleLetter(pat) {
      SoundPatterns(pat);
    } else {
      var q := BorderedOvershoots(pat);
      assert Overshoots(pat);
    }
  }

  /** A NUL can hide a border from the table builder and so save the search: this pattern has a border and two
      letters, and yet the search for it is exact. */
  lemma NulSavesBordered()
    ensures var pat: seq<byte> := [0, 0, 1, 0];
      !Unbordered(pat) && !SingleLetter(pat) && forall text :: IsLeftmost(text, pat, Search(text, pat))
  {
    var pat: seq<byte> := [0, 0, 1, 0];
    assert SuffixIsPrefix(pat, 3) && !SingleLetter(pat) by {
      assert pat[3..] == [0] == pat[..1] && pat[2] != pat[0];
    }
    assert Passes(pat, 1) by {
      assert pat[1] == pat[0] == 0;
    }
    assert Recurs(pat, 2, 1) by {
      assert pat[1..2] == [0] == pat[3..];
    }
    forall j: nat, s: nat ensures !OvershootsAt(pat, j, s) {
      if j < s < 4 {
        if j == 0 {
          assert pat[0..] == pat == pat[..4];
          BorderPasses(pat, 0);
        }
      }
    }
    BmSearchIsExactIff(pat);
  }

  /** A last letter that occurs nowhere else, as in "QC_IMAGE_VERSION_STRING=", makes a pattern safe. */
  lemma FreshLastLetterIsUnbordered(pat: seq<byte>)
    requires pat != [] && forall k :: 0 <= k < |pat| - 1 ==> pat[k] != pat[|pat| - 1]
    ensures Unbordered(pat)
  {
    forall q | 0 < q < |pat| ensures !SuffixIsPrefix(pat, q) {
      if SuffixIsPrefix(pat, q) {
        BorderAt(pat, q, |pat| - 1);
      }
    }
  }
}
