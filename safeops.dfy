/**
 * The library's state and operations: the last-error cell, errno, the logger hook,
 * the heap of live allocations, and every bounds-checked operation that reads or
 * updates them.
 */
module SafeOperations {
  import opened Wrappers
  import opened CLimits
  import opened CStrings
  import opened Search
  import opened CheckedArith

  /** The error codes the library reports through the last-error cell. */
  datatype ErrorCode =
    | Ok
    | NullPointer
    | OutOfBounds
    | Overflow
    | InvalidParam
    | AllocationFailed
    | FileAccess
    | Overlap
    | Unknown

  /** What SafeStrReplace does: it fails with a code, or succeeds with a length and new buffer contents. */
  datatype ReplaceOutcome = Fail(code: ErrorCode) | Done(len: nat, buf: seq<char>)

  /**
   * The outcome of SafeStrReplace on a buffer `buf` of capacity `strSize` holding a C string,
   * replacing the C string `o` by `n`, when the allocator would succeed exactly if `allocatorSucceeds`.
   */
  function ReplaceSpec(buf: seq<char>, strSize: nat, o: seq<char>, n: seq<char>, allocatorSucceeds: bool): (r: ReplaceOutcome)
    requires HasNul(buf) && strSize <= |buf| && NulFree(n)
    ensures r.Fail? ==> r.code in {InvalidParam, OutOfBounds, Overflow, AllocationFailed}
    ensures r.Done? ==> |o| > 0 && r.len < strSize && r.len == FinalLen(CStr(buf), o, n)
  {
    var s := CStr(buf);
    if |o| == 0 then Fail(InvalidParam)
    else if FinalLen(s, o, n) >= strSize then Fail(OutOfBounds)
    else if CountMatches(s, o) == 0 then Done(|s|, buf)
    else if strSize > SIZE_MAX - SIZEOF_SIZE_T then Fail(Overflow)
    else if !allocatorSucceeds then Fail(AllocationFailed)
    else
      var res := ReplaceAll(s, o, n);
      Done(|res|, Splice(buf, 0, res + [NUL]))
  }

  /**
   * On success the buffer keeps its size, holds the replaced string with its terminator,
   * and is unchanged past that terminator.
   */
  lemma ReplaceSpecBuffer(buf: seq<char>, strSize: nat, o: seq<char>, n: seq<char>, allocatorSucceeds: bool)
    requires HasNul(buf) && strSize <= |buf| && NulFree(n)
    requires ReplaceSpec(buf, strSize, o, n, allocatorSucceeds).Done?
    ensures var r := ReplaceSpec(buf, strSize, o, n, allocatorSucceeds);
            |r.buf| == |buf| && HasNul(r.buf) && StrLen(r.buf) == r.len &&
            CStr(r.buf) == ReplaceAll(CStr(buf), o, n) && r.buf[r.len + 1..] == buf[r.len + 1..]
  {
    var s := CStr(buf);
    if CountMatches(s, o) == 0 {
      StrLenIs(buf, |s|);
    } else {
      ReplaceNulFree(s, o, n, 0);
      TerminatedAtStart(buf, ReplaceAll(s, o, n));
    }
  }

  /** Replacing a pattern by itself succeeds with the original length and leaves the buffer as it was. */
  lemma ReplaceSelfUnchanged(buf: seq<char>, strSize: nat, x: seq<char>)
    requires HasNul(buf) && strSize <= |buf| && NulFree(x) && |x| > 0
    requires StrLen(buf) < strSize <= SIZE_MAX - SIZEOF_SIZE_T
    ensures ReplaceSpec(buf, strSize, x, x, true) == Done(StrLen(buf), buf)
  {
    var s := CStr(buf);
    ReplaceSelf(s, x, 0);
    assert ReplaceAll(s, x, x) == s;
    if CountMatches(s, x) != 0 {
      var r := ReplaceSpec(buf, strSize, x, x, true);
      assert r.buf == buf by {
        assert buf[..|s| + 1] == s + [NUL];
        forall i | 0 <= i < |buf| ensures r.buf[i] == buf[i] {
          if i < |s| + 1 {
            assert r.buf[i] == (s + [NUL])[i] == buf[..|s| + 1][i];
          }
        }
      }
    }
  }

  /** A length failure leaves nothing to write, and every success stays inside the capacity. */
  lemma ReplaceOverCapacityFails(buf: seq<char>, strSize: nat, o: seq<char>, n: seq<char>, allocatorSucceeds: bool)
    requires HasNul(buf) && strSize <= |buf| && NulFree(n) && |o| > 0
    ensures ReplaceSpec(buf, strSize, o, n, allocatorSucceeds).Done? ==> |ReplaceAll(CStr(buf), o, n)| < strSize
    ensures |ReplaceAll(CStr(buf), o, n)| >= strSize ==> ReplaceSpec(buf, strSize, o, n, allocatorSucceeds) == Fail(OutOfBounds)
  {
  }

  /**
   * What SafeStrFind reports for the haystack `h` and the needle `nd`: the index of the first
   * occurrence of `nd` in `h`, or `haystackLen` when there is none.
   */
  function FindIndex(h: seq<char>, nd: seq<char>, haystackLen: nat): (k: nat)
    ensures (exists j :: MatchAt(h, nd, j)) ==> MatchAt(h, nd, k) && forall j :: 0 <= j < k ==> !MatchAt(h, nd, j)
    ensures (forall j :: !MatchAt(h, nd, j)) ==> k == haystackLen
  {
    FirstMatchIsFirst(h, nd, 0);
    match FirstMatch(h, nd, 0)
    case None => haystackLen
    case Some(i) => i
  }

  /** When the length passed is the haystack's own, "not found" cannot be mistaken for an index. */
  lemma FindIndexSentinel(h: seq<char>, nd: seq<char>)
    requires |nd| > 0
    ensures FindIndex(h, nd, |h|) == |h| <==> forall j :: !MatchAt(h, nd, j)
  {
    if exists j :: MatchAt(h, nd, j) {
      var k := FindIndex(h, nd, |h|);
      assert MatchAt(h, nd, k);
    }
  }

  /** The cell a caller passes by address to the free functions (`void **ptrRef`). */
  class PtrCell {
    var ptr: array?<char>

    constructor (p: array?<char>)
      ensures ptr == p
    {
      ptr := p;
    }
  }

  /** The memory regions [destOff, +destSize) and [srcOff, +srcSize) overlap as SafeMemCopy tests it. */
  predicate Overlapping(dest: array<char>, destOff: nat, destSize: nat, src: array<char>, srcOff: nat, srcSize: nat) {
    dest == src &&
    ((srcOff < destOff && srcOff + srcSize > destOff) || (destOff < srcOff && destOff + destSize > srcOff))
  }

  /**
   * The test catches every real overlap of the copy: when the `srcSize` elements read and
   * the `srcSize` elements written share an element at different offsets, it reports overlap.
   */
  lemma OverlapDetected(a: array<char>, destOff: nat, destSize: nat, srcOff: nat, srcSize: nat, k: nat)
    requires srcSize <= destSize && destOff != srcOff
    requires destOff <= k < destOff + srcSize && srcOff <= k < srcOff + srcSize
    ensures Overlapping(a, destOff, destSize, a, srcOff, srcSize)
  {
  }

  /** The counting pass of SafeStrReplace: one strstr per match, resuming after it. */
  method CountPass(s: seq<char>, o: seq<char>) returns (count: nat)
    requires |o| > 0
    ensures count == CountMatches(s, o)
  {
    count := 0;
    var pos := 0;
    var m := FirstMatch(s, o, pos);
    while m.Some?
      invariant pos <= |s| && m == FirstMatch(s, o, pos)
      invariant count + CountFrom(s, o, pos) == CountMatches(s, o)
      decreases |s| - pos
    {
      count := count + 1;
      pos := m.value + |o|;
      m := FirstMatch(s, o, pos);
    }
  }

  lemma ConcatAssoc(a: seq<char>, b: seq<char>, c: seq<char>, d: seq<char>)
    ensures a + b + c + d == a + (b + c + d)
  {
  }

  /** memcpy of `c` to `buf + at`, as the building pass of SafeStrReplace issues it. */
  method CopyInto(buf: array<char>, at: nat, c: seq<char>)
    requires at + |c| <= buf.Length
    modifies buf
    ensures buf[..] == Splice(old(buf[..]), at, c)
    ensures buf[..at + |c|] == old(buf[..at]) + c
  {
    forall k | 0 <= k < |c| {
      buf[at + k] := c[k];
    }
    assert buf[..] == Splice(old(buf[..]), at, c);
  }

  /**
   * One iteration of the building pass of SafeStrReplace: the chunk before the next match
   * and then the replacement are copied to `buf + writePos`, and reading resumes after the match.
   */
  method CopyMatch(buf: array<char>, s: seq<char>, o: seq<char>, n: seq<char>, readPos: nat, writePos: nat)
      returns (nextRead: nat, nextWrite: nat)
    requires |o| > 0 && readPos <= |s| && FirstMatch(s, o, readPos).Some?
    requires writePos + |ReplaceFrom(s, o, n, readPos)| <= buf.Length
    modifies buf
    ensures nextRead == FirstMatch(s, o, readPos).value + |o| <= |s|
    ensures nextWrite + |ReplaceFrom(s, o, n, nextRead)| == writePos + |ReplaceFrom(s, o, n, readPos)|
    ensures buf[..nextWrite] + ReplaceFrom(s, o, n, nextRead) == old(buf[..writePos]) + ReplaceFrom(s, o, n, readPos)
  {
    var i := FirstMatch(s, o, readPos).value;
    ReplaceFromStep(s, o, n, readPos);
    CopyInto(buf, writePos, s[readPos..i]);
    nextWrite := writePos + (i - readPos);
    CopyInto(buf, nextWrite, n);
    nextWrite := nextWrite + |n|;
    nextRead := i + |o|;
    ConcatAssoc(old(buf[..writePos]), s[readPos..i], n, ReplaceFrom(s, o, n, nextRead));
  }

  /**
   * The loop of the building pass of SafeStrReplace: one CopyMatch per match, stopping at the
   * first position after which nothing matches.
   */
  method CopyMatches(buf: array<char>, s: seq<char>, o: seq<char>, n: seq<char>)
      returns (readPos: nat, writePos: nat)
    requires |o| > 0 && |ReplaceAll(s, o, n)| < buf.Length
    modifies buf
    ensures readPos <= |s| && FirstMatch(s, o, readPos).None?
    ensures writePos + (|s| - readPos) == |ReplaceAll(s, o, n)|
    ensures buf[..writePos] + s[readPos..] == ReplaceAll(s, o, n)
  {
    readPos, writePos := 0, 0;
    ghost var target := ReplaceAll(s, o, n);
    var m := FirstMatch(s, o, readPos);
    while m.Some?
      invariant readPos <= |s| && m == FirstMatch(s, o, readPos)
      invariant writePos + |ReplaceFrom(s, o, n, readPos)| == |target| < buf.Length
      invariant buf[..writePos] + ReplaceFrom(s, o, n, readPos) == target
      decreases |s| - readPos
    {
      readPos, writePos := CopyMatch(buf, s, o, n, readPos, writePos);
      m := FirstMatch(s, o, readPos);
    }
    ReplaceFromDone(s, o, n, readPos);
  }

  /** The building pass of SafeStrReplace: the matches, then strcpy of the remainder. */
  method BuildPass(buf: array<char>, s: seq<char>, o: seq<char>, n: seq<char>)
    requires |o| > 0 && |ReplaceAll(s, o, n)| < buf.Length
    modifies buf
    ensures buf[..|ReplaceAll(s, o, n)| + 1] == ReplaceAll(s, o, n) + [NUL]
  {
    var readPos, writePos := CopyMatches(buf, s, o, n);
    ghost var done := buf[..writePos];
    CopyInto(buf, writePos, s[readPos..] + [NUL]);
    assert done + (s[readPos..] + [NUL]) == ReplaceAll(s, o, n) + [NUL];
  }

  class SafeOps {
    /** The thread's last-error cell, written only by SetError. */
    var lastError: ErrorCode
    /** The C errno, written by the functions that do not report through SetError. */
    var errno: int
    /** Whether a logger callback is installed. */
    var loggerInstalled: bool
    /** The codes the installed logger has been called with, oldest first. */
    ghost var reports: seq<ErrorCode>
    /** The allocations obtained from SafeMalloc and not yet freed. */
    ghost var live: set<array<char>>

    constructor ()
      ensures lastError == Ok && errno == 0 && !loggerInstalled && reports == [] && live == {}
    {
      lastError := Ok;
      errno := 0;
      loggerInstalled := false;
      reports := [];
      live := {};
    }

    /** `e` was stored in the last-error cell and, if a logger is installed, passed to it. */
    twostate predicate Reported(e: ErrorCode)
      reads this
    {
      lastError == e &&
      reports == (if old(loggerInstalled) then old(reports) + [e] else old(reports))
    }

    /** Neither the last-error cell nor the logger saw anything. */
    twostate predicate Quiet()
      reads this
    {
      lastError == old(lastError) && reports == old(reports)
    }

    method SetError(e: ErrorCode)
      modifies this`lastError, this`reports
      ensures Reported(e)
    {
      lastError := e;
      if loggerInstalled {
        reports := reports + [e];
      }
    }

    method SafeOpsSetLogger(installed: bool)
      modifies this`loggerInstalled
      ensures loggerInstalled == installed
    {
      loggerInstalled := installed;
    }

    method SafeOpsGetLastError() returns (e: ErrorCode)
      ensures e == lastError
    {
      e := lastError;
    }

    // ---------------------------------------------------------------- allocation

    /** calloc-backed allocation: the checks come in the order zero size, overflow, allocator failure. */
    method SafeMalloc(size: SizeT, allocatorSucceeds: bool) returns (p: array?<char>)
      modifies this`lastError, this`reports, this`live
      ensures size == 0 ==> p == null && Reported(InvalidParam)
      ensures 0 < size && size > SIZE_MAX - SIZEOF_SIZE_T ==> p == null && Reported(Overflow)
      ensures 0 < size <= SIZE_MAX - SIZEOF_SIZE_T && !allocatorSucceeds ==> p == null && Reported(AllocationFailed)
      ensures p != null <==> 0 < size <= SIZE_MAX - SIZEOF_SIZE_T && allocatorSucceeds
      ensures p != null ==> fresh(p) && p.Length == size && Quiet() && live == old(live) + {p}
      ensures p != null ==> forall i :: 0 <= i < size ==> p[i] == NUL
      ensures p == null ==> live == old(live)
    {
      if size == 0 {
        SetError(InvalidParam);
        return null;
      }
      if size > SIZE_MAX - SIZEOF_SIZE_T {
        SetError(Overflow);
        return null;
      }
      if !allocatorSucceeds {
        SetError(AllocationFailed);
        return null;
      }
      p := new char[size](_ => NUL);
      live := live + {p};
    }

    /** malloc-backed allocation: the same checks as SafeMalloc; the contents are unspecified. */
    method SafeMallocUninitialized(size: SizeT, allocatorSucceeds: bool) returns (p: array?<char>)
      modifies this`lastError, this`reports, this`live
      ensures size == 0 ==> p == null && Reported(InvalidParam)
      ensures 0 < size && size > SIZE_MAX - SIZEOF_SIZE_T ==> p == null && Reported(Overflow)
      ensures 0 < size <= SIZE_MAX - SIZEOF_SIZE_T && !allocatorSucceeds ==> p == null && Reported(AllocationFailed)
      ensures p != null <==> 0 < size <= SIZE_MAX - SIZEOF_SIZE_T && allocatorSucceeds
      ensures p != null ==> fresh(p) && p.Length == size && Quiet() && live == old(live) + {p}
      ensures p == null ==> live == old(live)
    {
      if size == 0 {
        SetError(InvalidParam);
        return null;
      }
      if size > SIZE_MAX - SIZEOF_SIZE_T {
        SetError(Overflow);
        return null;
      }
      if !allocatorSucceeds {
        SetError(AllocationFailed);
        return null;
      }
      p := new char[size];
      live := live + {p};
    }

    /** Frees the allocation the cell holds and clears the cell; a null cell or null pointer is left alone. */
    method SafeFree(ptrRef: PtrCell?)
      requires ptrRef != null && ptrRef.ptr != null ==> ptrRef.ptr in live
      modifies this`live, ptrRef
      ensures ptrRef != null ==> ptrRef.ptr == null
      ensures live == if ptrRef != null && old(ptrRef.ptr) != null then old(live) - {old(ptrRef.ptr)} else old(live)
    {
      if ptrRef == null || ptrRef.ptr == null {
        return;
      }
      live := live - {ptrRef.ptr};
      ptrRef.ptr := null;
    }

    /** Zeroes the first `size` bytes of the allocation, frees it and clears the cell; fails on a null cell or pointer. */
    method SafeFreeTyped(ptrRef: PtrCell?, size: nat) returns (ok: bool)
      requires ptrRef != null && ptrRef.ptr != null ==> ptrRef.ptr in live && size <= ptrRef.ptr.Length
      modifies this`errno, this`live, ptrRef
      modifies if ptrRef != null && ptrRef.ptr != null then {ptrRef.ptr} else {}
      ensures ok <==> ptrRef != null && old(ptrRef.ptr) != null
      ensures ptrRef != null ==> ptrRef.ptr == null
      ensures !ok ==> errno == EINVAL && live == old(live)
      ensures ok ==> ptrRef.ptr == null && errno == old(errno) && live == old(live) - {old(ptrRef.ptr)}
      ensures ok ==> old(ptrRef.ptr)[..] == Zeros(size) + old(ptrRef.ptr[size..])
    {
      if ptrRef == null || ptrRef.ptr == null {
        errno := EINVAL;
        return false;
      }
      var p := ptrRef.ptr;
      forall i | 0 <= i < size {
        p[i] := NUL;
      }
      live := live - {p};
      ptrRef.ptr := null;
      ok := true;
    }

    // ---------------------------------------------------------------- copy

    /**
     * memmove of `srcSize` bytes from offset `srcOff` of `src` to offset `destOff` of `dest`;
     * the regions may be the same array. Overlap is only passed to the logger, as code Ok.
     */
    method SafeMemCopy(dest: array?<char>, destOff: nat, destSize: nat, src: array?<char>, srcOff: nat, srcSize: nat)
      returns (ok: bool)
      requires dest != null ==> destOff + destSize <= dest.Length
      requires src != null ==> srcOff + srcSize <= src.Length
      modifies this`lastError, this`reports, dest
      ensures dest == null || src == null ==> !ok && Reported(NullPointer)
      ensures ok <==> dest != null && src != null && srcSize <= destSize
      ensures dest != null && src != null && srcSize > destSize ==> Reported(OutOfBounds)
      ensures dest != null && !ok ==> dest[..] == old(dest[..])
      ensures ok ==> dest[..] == Splice(old(dest[..]), destOff, old(src[srcOff..srcOff + srcSize]))
      ensures ok ==> lastError == old(lastError)
      ensures ok && old(loggerInstalled) && Overlapping(dest, destOff, destSize, src, srcOff, srcSize) ==>
                reports == old(reports) + [Ok]
      ensures ok && !(old(loggerInstalled) && Overlapping(dest, destOff, destSize, src, srcOff, srcSize)) ==>
                reports == old(reports)
    {
      if dest == null || src == null {
        SetError(NullPointer);
        return false;
      }
      if srcSize > destSize {
        SetError(OutOfBounds);
        return false;
      }
      if Overlapping(dest, destOff, destSize, src, srcOff, srcSize) {
        if loggerInstalled {
          reports := reports + [Ok];
        }
      }
      ghost var before := dest[..];
      var moved := src[srcOff..srcOff + srcSize];
      forall k | 0 <= k < srcSize {
        dest[destOff + k] := moved[k];
      }
      assert dest[..] == Splice(before, destOff, moved);
      ok := true;
    }

    // ---------------------------------------------------------------- bounded length

    /**
     * Counts characters up to the first NUL, scanning at most `maxLen` of them and then
     * looking at index `maxLen` itself; fails when no NUL is found at an index up to `maxLen`.
     */
    method SafeStrLen(str: array?<char>, maxLen: nat) returns (r: Option<nat>)
      requires str != null ==> ReadableUpTo(str[..], maxLen)
      modifies this`lastError, this`reports
      ensures str == null ==> r.None? && Reported(NullPointer)
      ensures str != null ==> (r.Some? <==> NulWithin(str[..], maxLen))
      ensures str != null && r.None? ==> Reported(OutOfBounds)
      ensures r.Some? ==> str != null && r.value == StrLen(str[..]) && Quiet()
    {
      if str == null {
        SetError(NullPointer);
        return None;
      }
      var len := 0;
      while len < maxLen && str[len] != NUL
        invariant len <= maxLen && len < str.Length
        invariant forall j :: 0 <= j < len ==> str[j] != NUL
      {
        len := len + 1;
      }
      if len == maxLen && str[len] != NUL {
        SetError(OutOfBounds);
        return None;
      }
      assert str[..][..len] == str[..len];
      StrLenIs(str[..], len);
      r := Some(len);
    }

    /** The wide-character scan: the same loop over wchar_t elements. */
    method SafeWStrLen(str: array?<char>, maxLen: nat) returns (r: Option<nat>)
      requires str != null ==> ReadableUpTo(str[..], maxLen)
      modifies this`lastError, this`reports
      ensures str == null ==> r.None? && Reported(NullPointer)
      ensures str != null ==> (r.Some? <==> NulWithin(str[..], maxLen))
      ensures str != null && r.None? ==> Reported(OutOfBounds)
      ensures r.Some? ==> str != null && r.value == StrLen(str[..]) && Quiet()
    {
      if str == null {
        SetError(NullPointer);
        return None;
      }
      var len := 0;
      while len < maxLen && str[len] != NUL
        invariant len <= maxLen && len < str.Length
        invariant forall j :: 0 <= j < len ==> str[j] != NUL
      {
        len := len + 1;
      }
      if len == maxLen && str[len] != NUL {
        SetError(OutOfBounds);
        return None;
      }
      assert str[..][..len] == str[..len];
      StrLenIs(str[..], len);
      r := Some(len);
    }

    /**
     * The bounded scan as the concatenations need it: it reads only indices below `maxLen`,
     * so that a buffer of `maxLen` elements with no NUL is rejected without reading past it.
     */
    method StrLenBelow(str: array<char>, maxLen: nat) returns (r: Option<nat>)
      requires maxLen <= str.Length
      modifies this`lastError, this`reports
      ensures r.Some? <==> HasNul(str[..]) && StrLen(str[..]) < maxLen
      ensures r.None? ==> Reported(OutOfBounds)
      ensures r.Some? ==> r.value == StrLen(str[..]) && Quiet()
    {
      var len := 0;
      while len < maxLen && str[len] != NUL
        invariant len <= maxLen
        invariant forall j :: 0 <= j < len ==> str[j] != NUL
      {
        len := len + 1;
      }
      if len == maxLen {
        assert NulFree(str[..][..maxLen]);
        SetError(OutOfBounds);
        return None;
      }
      assert str[..][..len] == str[..len];
      StrLenIs(str[..], len);
      r := Some(len);
    }

    // ---------------------------------------------------------------- copy and concatenate

    /**
     * strcat with the capacity checked first: the length of `dest` is scanned below
     * `destSize` (by StrLenBelow, which does not read `dest[destSize]`), the length of `src`
     * within SIZE_MAX, and `src` with its NUL is copied to the end of `dest` only when the
     * result fits.
     */
    method SafeStrCat(dest: array?<char>, destSize: nat, src: array?<char>) returns (ok: bool)
      requires dest != null ==> destSize <= dest.Length
      requires src != null ==> ReadableUpTo(src[..], SIZE_MAX)
      requires dest != null && src != null ==> dest != src
      modifies this`lastError, this`reports, dest
      ensures dest == null || src == null ==> !ok && Reported(NullPointer)
      ensures ok <==> dest != null && src != null && NulWithin(old(dest[..]), destSize) &&
                      NulWithin(src[..], SIZE_MAX) && StrLen(old(dest[..])) + StrLen(src[..]) < destSize
      ensures dest != null && src != null && !ok ==> Reported(OutOfBounds)
      ensures dest != null && !ok ==> dest[..] == old(dest[..])
      ensures ok ==> Quiet() && dest[..] == Splice(old(dest[..]), StrLen(old(dest[..])), CStr(src[..]) + [NUL])
      ensures ok ==> HasNul(dest[..]) && CStr(dest[..]) == CStr(old(dest[..])) + CStr(src[..])
    {
      if dest == null || src == null {
        SetError(NullPointer);
        return false;
      }
      var destLen := StrLenBelow(dest, destSize);
      if destLen.None? {
        return false;
      }
      var srcLen := SafeStrLen(src, SIZE_MAX);
      if srcLen.None? {
        return false;
      }
      if destLen.value + srcLen.value >= destSize {
        SetError(OutOfBounds);
        return false;
      }
      ghost var before := dest[..];
      var dl, sl := destLen.value, srcLen.value;
      assert src[..sl + 1] == CStr(src[..]) + [NUL];
      CopyInto(dest, dl, src[..sl + 1]);
      AppendedAtEnd(before, CStr(src[..]));
      ok := true;
    }

    /**
     * strcpy with the capacity checked first. The copy is strncpy(dest, src, destSize - 1),
     * which pads with NUL, followed by a NUL at destSize - 1. Reports only through errno.
     */
    method SafeStrCopy(dest: array?<char>, destSize: nat, src: array?<char>) returns (ok: bool)
      requires dest != null ==> destSize <= dest.Length
      requires src != null ==> HasNul(src[..])
      requires dest != null && src != null ==> dest != src
      modifies this`errno, dest
      ensures lastError == old(lastError) && reports == old(reports)
      ensures dest == null || src == null || destSize == 0 ==> !ok && errno == EINVAL
      ensures ok <==> dest != null && src != null && destSize > 0 && StrLen(src[..]) < destSize
      ensures dest != null && src != null && destSize > 0 && !ok ==> errno == EOVERFLOW
      ensures dest != null && !ok ==> dest[..] == old(dest[..])
      ensures ok ==> errno == old(errno)
      ensures ok ==> dest[..] == Splice(old(dest[..]), 0, CStr(src[..]) + Zeros(destSize - StrLen(src[..])))
      ensures ok ==> HasNul(dest[..]) && CStr(dest[..]) == CStr(src[..]) && StrLen(dest[..]) < destSize
    {
      if !(dest != null && src != null && destSize > 0) {
        errno := EINVAL;
        return false;
      }
      var srcLen := StrLen(src[..]);
      if srcLen >= destSize {
        errno := EOVERFLOW;
        return false;
      }
      ghost var before, sv, c := dest[..], src[..], CStr(src[..]);
      forall k | 0 <= k < srcLen {
        dest[k] := src[k];
      }
      forall k | srcLen <= k < destSize - 1 {
        dest[k] := NUL;
      }
      dest[destSize - 1] := NUL;
      assert dest[..] == Splice(before, 0, c + Zeros(destSize - srcLen));
      assert Zeros(destSize - srcLen) == [NUL] + Zeros(destSize - srcLen - 1);
      assert c + Zeros(destSize - srcLen) == c + [NUL] + Zeros(destSize - srcLen - 1);
      assert NulFree(before[..0]);
      CStrOfSplice(before, 0, c, Zeros(destSize - srcLen - 1));
      assert src[..] == sv;
      ok := true;
    }

    /**
     * wcsncpy of a wide string whose length is scanned within `count`: an unterminated
     * source is rejected, not truncated, and the copy must leave room for the NUL.
     */
    method SafeWStrNCopy(dest: array?<char>, destSize: nat, src: array?<char>, count: nat) returns (ok: bool)
      requires dest != null ==> destSize <= dest.Length
      requires src != null ==> ReadableUpTo(src[..], count)
      requires dest != null && src != null ==> dest != src
      modifies this`lastError, this`reports, dest
      ensures dest == null || src == null ==> !ok && Reported(NullPointer)
      ensures dest != null && src != null && destSize == 0 ==> !ok && Reported(InvalidParam)
      ensures ok <==> dest != null && src != null && destSize > 0 && NulWithin(src[..], count) && StrLen(src[..]) < destSize
      ensures dest != null && src != null && destSize > 0 && !ok ==> Reported(OutOfBounds)
      ensures dest != null && !ok ==> dest[..] == old(dest[..])
      ensures ok ==> Quiet() && dest[..] == Splice(old(dest[..]), 0, CStr(src[..]) + [NUL])
      ensures ok ==> HasNul(dest[..]) && CStr(dest[..]) == CStr(src[..]) && StrLen(dest[..]) < destSize
    {
      if dest == null || src == null {
        SetError(NullPointer);
        return false;
      }
      if destSize == 0 {
        SetError(InvalidParam);
        return false;
      }
      var srcLen := SafeWStrLen(src, count);
      if srcLen.None? {
        return false;
      }
      var copyLen := if srcLen.value < count then srcLen.value else count;
      if copyLen >= destSize {
        SetError(OutOfBounds);
        return false;
      }
      ghost var before := dest[..];
      assert src[..copyLen] == CStr(src[..]);
      CopyInto(dest, 0, src[..copyLen] + [NUL]);
      TerminatedAtStart(before, CStr(src[..]));
      ok := true;
    }

    /**
     * wcsncat of a wide string whose length is scanned within `count` onto `dest`, whose
     * length is scanned below `destSize` by StrLenBelow; the result must leave room for the NUL.
     */
    method SafeWStrNCat(dest: array?<char>, destSize: nat, src: array?<char>, count: nat) returns (ok: bool)
      requires dest != null ==> destSize <= dest.Length
      requires src != null ==> ReadableUpTo(src[..], count)
      requires dest != null && src != null ==> dest != src
      modifies this`lastError, this`reports, dest
      ensures dest == null || src == null ==> !ok && Reported(NullPointer)
      ensures ok <==> dest != null && src != null && NulWithin(old(dest[..]), destSize) &&
                      NulWithin(src[..], count) && StrLen(old(dest[..])) + StrLen(src[..]) < destSize
      ensures dest != null && src != null && !ok ==> Reported(OutOfBounds)
      ensures dest != null && !ok ==> dest[..] == old(dest[..])
      ensures ok ==> Quiet() && dest[..] == Splice(old(dest[..]), StrLen(old(dest[..])), CStr(src[..]) + [NUL])
      ensures ok ==> HasNul(dest[..]) && CStr(dest[..]) == CStr(old(dest[..])) + CStr(src[..])
    {
      if dest == null || src == null {
        SetError(NullPointer);
        return false;
      }
      var destLen := StrLenBelow(dest, destSize);
      if destLen.None? {
        return false;
      }
      var srcLen := SafeWStrLen(src, count);
      if srcLen.None? {
        return false;
      }
      var copyLen := if srcLen.value < count then srcLen.value else count;
      if destLen.value + copyLen >= destSize {
        SetError(OutOfBounds);
        return false;
      }
      ghost var before := dest[..];
      var dl := destLen.value;
      assert src[..copyLen] == CStr(src[..]);
      CopyInto(dest, dl, src[..copyLen] + [NUL]);
      AppendedAtEnd(before, CStr(src[..]));
      ok := true;
    }

    // ---------------------------------------------------------------- search and replace

    /**
     * strstr over the whole NUL-terminated haystack, after checking that the needle is
     * non-empty and no longer than `haystackLen`; "not found" is reported as `haystackLen`.
     */
    method SafeStrFind(haystack: array?<char>, haystackLen: nat, needle: array?<char>) returns (r: Option<nat>)
      requires haystack != null ==> HasNul(haystack[..])
      requires needle != null ==> HasNul(needle[..])
      modifies this`lastError, this`reports
      ensures haystack == null || needle == null ==> r.None? && Reported(NullPointer)
      ensures haystack != null && needle != null ==>
                (r.None? <==> |CStr(needle[..])| == 0 || |CStr(needle[..])| > haystackLen)
      ensures haystack != null && needle != null && r.None? ==> Reported(InvalidParam)
      ensures r.Some? ==> haystack != null && needle != null && Quiet()
      ensures r.Some? ==> r.value == FindIndex(CStr(haystack[..]), CStr(needle[..]), haystackLen)
    {
      if haystack == null || needle == null {
        SetError(NullPointer);
        return None;
      }
      var needleLen := StrLen(needle[..]);
      if needleLen == 0 || needleLen > haystackLen {
        SetError(InvalidParam);
        return None;
      }
      var found := FirstMatch(CStr(haystack[..]), CStr(needle[..]), 0);
      if found.None? {
        return Some(haystackLen);
      }
      r := Some(found.value);
    }

    /**
     * Replaces every non-overlapping match of `oldStr` in `str` by `newStr`. The first pass
     * counts the matches and checks the final length against `strSize` before anything is
     * written; the second builds the result in a scratch buffer from SafeMalloc, which is
     * copied back and freed.
     */
    method SafeStrReplace(str: array?<char>, strSize: SizeT, oldStr: array?<char>, newStr: array?<char>,
                          allocatorSucceeds: bool) returns (r: Option<nat>)
      requires str != null ==> strSize <= str.Length && HasNul(str[..])
      requires oldStr != null ==> HasNul(oldStr[..])
      requires newStr != null ==> HasNul(newStr[..])
      modifies this`lastError, this`reports, this`live, str
      ensures live == old(live)
      ensures str == null || oldStr == null || newStr == null ==> r.None? && Reported(NullPointer)
      ensures str != null && r.None? ==> str[..] == old(str[..])
      ensures str != null && oldStr != null && newStr != null ==>
                var out := ReplaceSpec(old(str[..]), strSize, old(CStr(oldStr[..])), old(CStr(newStr[..])), allocatorSucceeds);
                (out.Fail? ==> r.None? && Reported(out.code) && str[..] == old(str[..])) &&
                (out.Done? ==> r == Some(out.len) && str[..] == out.buf && Quiet())
    {
      if str == null || oldStr == null || newStr == null {
        SetError(NullPointer);
        return None;
      }
      var s, o, n := CStr(str[..]), CStr(oldStr[..]), CStr(newStr[..]);
      if |o| == 0 {
        SetError(InvalidParam);
        return None;
      }

      var count := CountPass(s, o);
      var finalLen := |s| + count * (|n| - |o|);
      assert finalLen == FinalLen(s, o, n);
      if finalLen >= strSize {
        SetError(OutOfBounds);
        return None;
      }
      if count == 0 {
        return Some(|s|);
      }

      var ok := ReplaceThroughScratch(str, strSize, s, o, n, allocatorSucceeds);
      if !ok {
        return None;
      }
      r := Some(finalLen);
    }

    /**
     * The second half of SafeStrReplace, once the result is known to fit: the scratch buffer
     * from SafeMalloc, the building pass, the copy back and the SafeFree.
     */
    method ReplaceThroughScratch(str: array<char>, strSize: SizeT, s: seq<char>, o: seq<char>, n: seq<char>,
                                 allocatorSucceeds: bool) returns (ok: bool)
      requires |o| > 0 && |ReplaceAll(s, o, n)| < strSize <= str.Length
      modifies this`lastError, this`reports, this`live, str
      ensures live == old(live)
      ensures ok <==> strSize <= SIZE_MAX - SIZEOF_SIZE_T && allocatorSucceeds
      ensures !ok && strSize > SIZE_MAX - SIZEOF_SIZE_T ==> Reported(Overflow)
      ensures !ok && strSize <= SIZE_MAX - SIZEOF_SIZE_T ==> Reported(AllocationFailed)
      ensures !ok ==> str[..] == old(str[..])
      ensures ok ==> str[..] == Splice(old(str[..]), 0, ReplaceAll(s, o, n) + [NUL]) && Quiet()
    {
      var tempBuf := SafeMalloc(strSize, allocatorSucceeds);
      if tempBuf == null {
        return false;
      }
      BuildPass(tempBuf, s, o, n);
      CopyInto(str, 0, tempBuf[..|ReplaceAll(s, o, n)| + 1]);
      var cell := new PtrCell(tempBuf);
      SafeFree(cell);
      ok := true;
    }

    // ---------------------------------------------------------------- indexed and pointer access

    /** array[index] = value after checking the array and the index; failures set errno only. */
    method SafeWriteInt(arr: array?<Int32>, arraySize: nat, index: nat, value: Int32) returns (ok: bool)
      requires arr != null ==> arraySize <= arr.Length
      modifies this`errno, arr
      ensures lastError == old(lastError) && reports == old(reports)
      ensures ok <==> arr != null && index < arraySize
      ensures !ok ==> errno == EINVAL
      ensures arr != null && !ok ==> arr[..] == old(arr[..])
      ensures ok ==> errno == old(errno) && arr[..] == old(arr[..])[index := value]
    {
      if arr == null || index >= arraySize {
        errno := EINVAL;
        return false;
      }
      arr[index] := value;
      ok := true;
    }

    /** array[index] after checking the array and the index; failures set errno only. */
    method SafeReadInt(arr: array?<Int32>, arraySize: nat, index: nat) returns (r: Option<Int32>)
      requires arr != null ==> arraySize <= arr.Length
      modifies this`errno
      ensures lastError == old(lastError) && reports == old(reports)
      ensures r.Some? <==> arr != null && index < arraySize
      ensures r.Some? ==> r.value == arr[index] && errno == old(errno)
      ensures r.None? ==> errno == EINVAL
    {
      if arr == null || index >= arraySize {
        errno := EINVAL;
        return None;
      }
      r := Some(arr[index]);
    }

    /** base + offset as an address, or NULL with errno EINVAL (NULL base) or EOVERFLOW. */
    method SafePointerOffset(base: UIntPtr, baseSize: SizeT, offset: SizeT) returns (p: UIntPtr)
      modifies this`errno
      ensures lastError == old(lastError) && reports == old(reports)
      ensures p == OffsetChecked(base, baseSize, offset)
      ensures base == 0 ==> errno == EINVAL
      ensures base != 0 && p == 0 ==> errno == EOVERFLOW
      ensures p != 0 ==> errno == old(errno)
    {
      if base == 0 {
        errno := EINVAL;
        return 0;
      }
      p := OffsetChecked(base, baseSize, offset);
      if p == 0 {
        errno := EOVERFLOW;
      }
    }

    // ---------------------------------------------------------------- checked arithmetic

    /** a + b when it fits in an int; otherwise errno EOVERFLOW and nothing stored. */
    method SafeAddInt(a: Int32, b: Int32) returns (r: Option<Int32>)
      modifies this`errno
      ensures lastError == old(lastError) && reports == old(reports)
      ensures r == AddChecked(a, b)
      ensures r.None? ==> errno == EOVERFLOW
      ensures r.Some? ==> errno == old(errno)
    {
      r := AddChecked(a, b);
      if r.None? {
        errno := EOVERFLOW;
      }
    }

    /** The long long as an int when it is in range; otherwise errno EOVERFLOW and nothing stored. */
    method SafeCastLongLongToInt(v: Int64) returns (r: Option<Int32>)
      modifies this`errno
      ensures lastError == old(lastError) && reports == old(reports)
      ensures r == CastChecked(v)
      ensures r.None? ==> errno == EOVERFLOW
      ensures r.Some? ==> errno == old(errno)
    {
      r := CastChecked(v);
      if r.None? {
        errno := EOVERFLOW;
      }
    }
  }
}
