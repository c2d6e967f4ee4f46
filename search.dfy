/**
 * Substring search and replace-all over the contents of C strings, as `strstr` and the
 * two passes of SafeStrReplace perform them: matches are found left to right, and after
 * each match the scan resumes just past it, so matches never overlap.
 */
module Search {
  import opened Wrappers
  import opened CLimits
  import opened CStrings

  /** `p` occurs in `s` at index `i`. */
  predicate MatchAt(s: seq<char>, p: seq<char>, i: nat) {
    i + |p| <= |s| && s[i..i + |p|] == p
  }

  /** strstr(s + from, p): the first index at or after `from` where `p` occurs. */
  function FirstMatch(s: seq<char>, p: seq<char>, from: nat): (r: Option<nat>)
    requires from <= |s|
    ensures r.Some? ==> from <= r.value && r.value + |p| <= |s|
    decreases |s| - from
  {
    if from + |p| > |s| then None
    else if MatchAt(s, p, from) then Some(from)
    else if from == |s| then None
    else FirstMatch(s, p, from + 1)
  }

  /** strstr finds the leftmost occurrence at or after `from`, and reports none only when there is none. */
  lemma {:induction false} FirstMatchIsFirst(s: seq<char>, p: seq<char>, from: nat)
    requires from <= |s|
    ensures FirstMatch(s, p, from).Some? ==> MatchAt(s, p, FirstMatch(s, p, from).value)
    ensures FirstMatch(s, p, from).Some? ==> forall j :: from <= j < FirstMatch(s, p, from).value ==> !MatchAt(s, p, j)
    ensures FirstMatch(s, p, from).None? ==> forall j :: from <= j ==> !MatchAt(s, p, j)
    decreases |s| - from
  {
    if from + |p| > |s| {
    } else if s[from..from + |p|] == p {
    } else if from == |s| {
    } else {
      FirstMatchIsFirst(s, p, from + 1);
    }
  }

  /**
   * The number of non-overlapping matches of `p` in `s[from..]`, taken leftmost first;
   * the matches counted never take more room than the rest of the string.
   */
  function CountFrom(s: seq<char>, p: seq<char>, from: nat): (c: nat)
    requires |p| > 0 && from <= |s|
    ensures Scale(c, |p|) <= |s| - from
    decreases |s| - from
  {
    match FirstMatch(s, p, from)
    case None => 0
    case Some(i) => 1 + CountFrom(s, p, i + |p|)
  }

  /** `s[from..]` with each of those matches replaced by `r`. */
  function ReplaceFrom(s: seq<char>, p: seq<char>, r: seq<char>, from: nat): seq<char>
    requires |p| > 0 && from <= |s|
    decreases |s| - from
  {
    match FirstMatch(s, p, from)
    case None => s[from..]
    case Some(i) => s[from..i] + r + ReplaceFrom(s, p, r, i + |p|)
  }

  /** The count of the first pass; the matches times the pattern length fit in the string. */
  function CountMatches(s: seq<char>, p: seq<char>): (c: nat)
    requires |p| > 0
    ensures c * |p| <= |s|
  {
    ScaleIsProduct(CountFrom(s, p, 0), |p|);
    CountFrom(s, p, 0)
  }

  /** The result of the second pass; with nothing to replace it is the string itself. */
  function ReplaceAll(s: seq<char>, p: seq<char>, r: seq<char>): (res: seq<char>)
    requires |p| > 0
    ensures CountMatches(s, p) == 0 ==> res == s
  {
    ReplaceFrom(s, p, r, 0)
  }

  /** One match: the chunk before it, the replacement, then the rest, and one more in the count. */
  lemma ReplaceFromStep(s: seq<char>, p: seq<char>, r: seq<char>, from: nat)
    requires |p| > 0 && from <= |s| && FirstMatch(s, p, from).Some?
    ensures from <= FirstMatch(s, p, from).value && FirstMatch(s, p, from).value + |p| <= |s|
    ensures ReplaceFrom(s, p, r, from) ==
              s[from..FirstMatch(s, p, from).value] + r + ReplaceFrom(s, p, r, FirstMatch(s, p, from).value + |p|)
    ensures CountFrom(s, p, from) == 1 + CountFrom(s, p, FirstMatch(s, p, from).value + |p|)
  {
  }

  /** Past the last match, the rest of the string is copied unchanged and nothing is counted. */
  lemma ReplaceFromDone(s: seq<char>, p: seq<char>, r: seq<char>, from: nat)
    requires |p| > 0 && from <= |s| && FirstMatch(s, p, from).None?
    ensures ReplaceFrom(s, p, r, from) == s[from..] && CountFrom(s, p, from) == 0
  {
  }

  /**
   * The final length SafeStrReplace predicts before building anything,
   * strLen + count * (newLen - oldLen), computed exactly; it is the length of the result.
   */
  function FinalLen(s: seq<char>, p: seq<char>, r: seq<char>): (n: nat)
    requires |p| > 0
    ensures n == |ReplaceAll(s, p, r)|
  {
    ReplaceFromLength(s, p, r, 0);
    ScaleIsProduct(CountMatches(s, p), |r| - |p|);
    |s| + CountMatches(s, p) * (|r| - |p|)
  }

  /** c copies of d added up: the product c * d, written so that the proofs about it stay linear. */
  function Scale(c: nat, d: int): int {
    if c == 0 then 0 else d + Scale(c - 1, d)
  }

  lemma {:induction false} ScaleIsProduct(c: nat, d: int)
    ensures Scale(c, d) == c * d
  {
    if c > 0 {
      ScaleIsProduct(c - 1, d);
      assert c * d == d + (c - 1) * d;
    }
  }

  /** Each replacement changes the length by |r| - |p|; everything else is copied. */
  lemma {:induction false} ReplaceFromLength(s: seq<char>, p: seq<char>, r: seq<char>, from: nat)
    requires |p| > 0 && from <= |s|
    ensures |ReplaceFrom(s, p, r, from)| == |s| - from + Scale(CountFrom(s, p, from), |r| - |p|)
    decreases |s| - from
  {
    if FirstMatch(s, p, from).Some? {
      var next := FirstMatch(s, p, from).value + |p|;
      ReplaceFromStep(s, p, r, from);
      ReplaceFromLength(s, p, r, next);
      assert Scale(CountFrom(s, p, from), |r| - |p|) == |r| - |p| + Scale(CountFrom(s, p, next), |r| - |p|);
    } else {
      ReplaceFromDone(s, p, r, from);
    }
  }

  /** A match found by strstr is an occurrence of the pattern. */
  lemma FirstMatchFound(s: seq<char>, p: seq<char>, from: nat)
    requires from <= |s| && FirstMatch(s, p, from).Some?
    ensures s[FirstMatch(s, p, from).value..FirstMatch(s, p, from).value + |p|] == p
  {
    FirstMatchIsFirst(s, p, from);
  }

  /** Cutting a suffix of `s` at two points and gluing the pieces back. */
  lemma SplitAt(s: seq<char>, a: nat, b: nat, c: nat)
    requires a <= b <= c <= |s|
    ensures s[a..b] + s[b..c] + s[c..] == s[a..]
  {
  }

  /** No match is counted exactly when `p` does not occur at all. */
  lemma CountZeroIffAbsent(s: seq<char>, p: seq<char>)
    requires |p| > 0
    ensures CountMatches(s, p) == 0 <==> forall j :: !MatchAt(s, p, j)
    ensures CountMatches(s, p) == 0 ==> ReplaceAll(s, p, []) == s
  {
    FirstMatchIsFirst(s, p, 0);
    match FirstMatch(s, p, 0)
    case None =>
    case Some(i) =>
      assert MatchAt(s, p, i);
  }

  /** Replacing a pattern by itself gives back the string. */
  lemma {:induction false} ReplaceSelf(s: seq<char>, p: seq<char>, from: nat)
    requires |p| > 0 && from <= |s|
    ensures ReplaceFrom(s, p, p, from) == s[from..]
    decreases |s| - from
  {
    match FirstMatch(s, p, from)
    case None =>
    case Some(i) =>
      ReplaceSelf(s, p, i + |p|);
      FirstMatchFound(s, p, from);
      SplitAt(s, from, i, i + |p|);
  }

  /** A NUL-free string with NUL-free replacements stays NUL-free, so a terminator after it ends it. */
  lemma {:induction false} ReplaceNulFree(s: seq<char>, p: seq<char>, r: seq<char>, from: nat)
    requires |p| > 0 && from <= |s| && NulFree(s) && NulFree(r)
    ensures NulFree(ReplaceFrom(s, p, r, from))
    decreases |s| - from
  {
    match FirstMatch(s, p, from)
    case None =>
      NulFreeSlice(s, from, |s|);
    case Some(i) =>
      var rest := ReplaceFrom(s, p, r, i + |p|);
      ReplaceNulFree(s, p, r, i + |p|);
      NulFreeSlice(s, from, i);
      NulFreeConcat(s[from..i], r);
      NulFreeConcat(s[from..i] + r, rest);
  }

  /**
   * The size_t expression strLen + count * (newLen - oldLen) of the source, each
   * operation reduced modulo 2^64 as unsigned C arithmetic does.
   */
  function FinalLenAsWritten(strLen: SizeT, count: SizeT, oldLen: SizeT, newLen: SizeT): (n: SizeT)
    ensures (strLen + count * (newLen - oldLen) - n) % (SIZE_MAX + 1) == 0
    ensures newLen >= oldLen && strLen + count * (newLen - oldLen) <= SIZE_MAX ==>
              n == strLen + count * (newLen - oldLen)
  {
    WrapCongruent(strLen, count, newLen - oldLen);
    var diff := (newLen - oldLen) % (SIZE_MAX + 1);
    var prod := (count * diff) % (SIZE_MAX + 1);
    (strLen + prod) % (SIZE_MAX + 1)
  }

  /**
   * Reducing the difference, the product and the sum modulo 2^64 one after another gives
   * the exact value reduced modulo 2^64, and the exact value itself when nothing wraps.
   */
  lemma WrapCongruent(strLen: nat, count: nat, d: int)
    ensures var m := SIZE_MAX + 1;
            (strLen + count * d - (strLen + (count * (d % m)) % m) % m) % m == 0
    ensures var m := SIZE_MAX + 1;
            0 <= d < m && strLen + count * d < m ==> (strLen + (count * (d % m)) % m) % m == strLen + count * d
  {
    var m := SIZE_MAX + 1;
    var diff := d % m;
    var prod := (count * diff) % m;
    var n := (strLen + prod) % m;
    DivMod(d);
    DivMod(count * diff);
    DivMod(strLen + prod);
    MulDistrib(count, diff, d / m);
    var k := (strLen + prod) / m + (count * diff) / m + count * (d / m);
    assert strLen + count * d - n == m * k;
    MultipleMod(k);
    if 0 <= d < m && strLen + count * d < m {
      assert diff == d;
      NonNegProduct(count, d);
    }
  }

  lemma DivMod(x: int)
    ensures x == x % (SIZE_MAX + 1) + (SIZE_MAX + 1) * (x / (SIZE_MAX + 1))
  {
  }

  lemma MulDistrib(c: int, a: int, q: int)
    ensures c * (a + (SIZE_MAX + 1) * q) == c * a + (SIZE_MAX + 1) * (c * q)
  {
  }

  lemma MultipleMod(k: int)
    ensures ((SIZE_MAX + 1) * k) % (SIZE_MAX + 1) == 0
  {
  }

  lemma NonNegProduct(a: nat, b: nat)
    ensures a * b >= 0
  {
  }

  /**
   * A buffer of 2^32 + 1 bytes holding 2^32 copies of "a", with "a" replaced by a string of
   * 2^32 + 1 characters: the true final length is 2^64 + 2^32, but the wrapped size_t value
   * is 2^32, which passes the check finalLen < strSize.
   */
  lemma FinalLenWrapsPastCheck()
    ensures FinalLenAsWritten(0x1_0000_0000, 0x1_0000_0000, 1, 0x1_0000_0001) == 0x1_0000_0000
    ensures FinalLenAsWritten(0x1_0000_0000, 0x1_0000_0000, 1, 0x1_0000_0001) < 0x1_0000_0001
    ensures 0x1_0000_0000 + 0x1_0000_0000 * (0x1_0000_0001 - 1) == 0x1_0000_0000_0000_0000 + 0x1_0000_0000
  {
  }
}
