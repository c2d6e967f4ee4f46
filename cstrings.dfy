/**
 * NUL-terminated strings over the contents of a buffer. A buffer is a `seq<char>`
 * (the snapshot `a[..]` of an array); its C string is everything before the first NUL.
 * Narrow (char) and wide (wchar_t) strings are both sequences of Dafny `char`.
 */
module CStrings {
  import opened Wrappers

  const NUL: char := '\0'

  predicate NulFree(s: seq<char>) {
    forall i :: 0 <= i < |s| ==> s[i] != NUL
  }

  predicate HasNul(s: seq<char>) {
    exists i :: 0 <= i < |s| && s[i] == NUL
  }

  /** The index of the first NUL at or after `k`, if any. */
  function FirstNulFrom(s: seq<char>, k: nat): (r: Option<nat>)
    requires k <= |s|
    ensures r.Some? ==> k <= r.value < |s| && s[r.value] == NUL
    ensures r.Some? ==> forall j :: k <= j < r.value ==> s[j] != NUL
    ensures r.None? ==> forall j :: k <= j < |s| ==> s[j] != NUL
    decreases |s| - k
  {
    if k == |s| then None
    else if s[k] == NUL then Some(k)
    else FirstNulFrom(s, k + 1)
  }

  /** strlen: the index of the first NUL. */
  function StrLen(s: seq<char>): (n: nat)
    requires HasNul(s)
    ensures n < |s| && s[n] == NUL && NulFree(s[..n])
  {
    var r := FirstNulFrom(s, 0);
    assert r.Some? by {
      var i :| 0 <= i < |s| && s[i] == NUL;
    }
    r.value
  }

  /** The characters of the C string held in `s`, without its terminator. */
  function CStr(s: seq<char>): (c: seq<char>)
    requires HasNul(s)
    ensures NulFree(c) && |c| < |s| && s[..|c| + 1] == c + [NUL]
  {
    s[..StrLen(s)]
  }

  /** A terminator sits at an index no greater than `bound`. */
  predicate NulWithin(s: seq<char>, bound: nat) {
    HasNul(s) && StrLen(s) <= bound
  }

  /**
   * Every index a scan bounded by `bound` reads is inside `s`: the scan reads up to the
   * first NUL, and index `bound` itself when no NUL comes earlier.
   */
  predicate ReadableUpTo(s: seq<char>, bound: nat) {
    bound < |s| || NulWithin(s, bound)
  }

  function Zeros(n: nat): (z: seq<char>)
    ensures |z| == n && forall i :: 0 <= i < n ==> z[i] == NUL
  {
    seq(n, _ => NUL)
  }

  /** `d` with `c` written over it starting at index `at` (the effect of a memcpy). */
  function Splice(d: seq<char>, at: nat, c: seq<char>): (r: seq<char>)
    requires at + |c| <= |d|
    ensures |r| == |d|
    ensures forall i :: 0 <= i < |r| ==> r[i] == if at <= i < at + |c| then c[i - at] else d[i]
  {
    d[..at] + c + d[at + |c|..]
  }

  /** The first NUL is at `k` exactly when `s[k]` is NUL and nothing before it is. */
  lemma StrLenIs(s: seq<char>, k: nat)
    requires k < |s| && s[k] == NUL && NulFree(s[..k])
    ensures HasNul(s) && StrLen(s) == k
  {
    assert HasNul(s);
  }

  /**
   * Writing a NUL-free `c` and a terminator at `at`, behind a NUL-free prefix, leaves a
   * buffer whose C string is the prefix followed by `c`.
   */
  lemma CStrOfSplice(d: seq<char>, at: nat, c: seq<char>, tail: seq<char>)
    requires at + |c| + 1 + |tail| <= |d|
    requires NulFree(d[..at]) && NulFree(c)
    ensures HasNul(Splice(d, at, c + [NUL] + tail))
    ensures CStr(Splice(d, at, c + [NUL] + tail)) == d[..at] + c
    ensures StrLen(Splice(d, at, c + [NUL] + tail)) == at + |c|
  {
    var w := c + [NUL] + tail;
    var r := Splice(d, at, w);
    assert r[at + |c|] == w[|c|] == NUL;
    forall i | 0 <= i < at + |c| ensures r[i] != NUL {
      if i < at {
        assert r[i] == d[..at][i];
      } else {
        assert r[i] == c[i - at];
      }
    }
    assert NulFree(r[..at + |c|]);
    StrLenIs(r, at + |c|);
    assert r[..at + |c|] == d[..at] + c;
  }

  /** A NUL-free `c` written with its terminator at the start of `d` is the C string there. */
  lemma TerminatedAtStart(d: seq<char>, c: seq<char>)
    requires |c| < |d| && NulFree(c)
    ensures HasNul(Splice(d, 0, c + [NUL])) && StrLen(Splice(d, 0, c + [NUL])) == |c|
    ensures CStr(Splice(d, 0, c + [NUL])) == c
    ensures Splice(d, 0, c + [NUL])[|c| + 1..] == d[|c| + 1..]
  {
    assert NulFree(d[..0]);
    CStrOfSplice(d, 0, c, []);
    assert c + [NUL] + [] == c + [NUL];
  }

  /** A NUL-free `c` written with its terminator over the terminator of `d` extends the C string there. */
  lemma AppendedAtEnd(d: seq<char>, c: seq<char>)
    requires HasNul(d) && StrLen(d) + |c| < |d| && NulFree(c)
    ensures HasNul(Splice(d, StrLen(d), c + [NUL]))
    ensures CStr(Splice(d, StrLen(d), c + [NUL])) == CStr(d) + c
  {
    CStrOfSplice(d, StrLen(d), c, []);
    assert c + [NUL] + [] == c + [NUL];
  }

  lemma NulFreeSlice(s: seq<char>, i: nat, j: nat)
    requires i <= j <= |s| && NulFree(s)
    ensures NulFree(s[i..j])
  {
    assert forall k :: 0 <= k < j - i ==> s[i..j][k] == s[i + k];
  }

  lemma NulFreeConcat(a: seq<char>, b: seq<char>)
    requires NulFree(a) && NulFree(b)
    ensures NulFree(a + b)
  {
    assert forall k :: 0 <= k < |a + b| ==> (a + b)[k] == if k < |a| then a[k] else b[k - |a|];
  }

  /**
   * A buffer with no NUL cannot be scanned with its own length as the bound: the scan of
   * SafeStrLen and SafeWStrLen then reads index `bound`, one element past the buffer.
   */
  lemma UnterminatedScanReadsPast(d: seq<char>)
    requires NulFree(d)
    ensures !ReadableUpTo(d, |d|)
  {
  }
}
