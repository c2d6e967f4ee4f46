/**
 * The string scenario of the library's test program, stated about the model: a 50-byte
 * buffer holding "Hello, World! How are you?" in which "World" is searched for and then
 * replaced by "Everyone".
 */
module Scenarios {
  import opened Wrappers
  import opened CLimits
  import opened CStrings
  import opened Search
  import opened SafeOperations

  const Before := "Hello, "
  const After := "! How are you?"
  /** "Hello, World! How are you?" */
  const Hello := Before + "World" + After
  /** "Hello, Everyone! How are you?" */
  const Greeting := Before + "Everyone" + After

  /** strstr moves on from any position whose character differs from the pattern's first. */
  lemma Skip(s: seq<char>, p: seq<char>, from: nat)
    requires from < |s| && |p| > 0 && s[from] != p[0]
    ensures FirstMatch(s, p, from) == FirstMatch(s, p, from + 1)
  {
    if from + |p| <= |s| {
      assert s[from..from + |p|][0] == s[from];
    }
  }

  lemma WorldAt7(s: seq<char>, p: seq<char>)
    requires s == Hello && p == "World"
    ensures FirstMatch(s, p, 7) == Some(7)
  {
    assert s[7..12] == p by {
      assert s[7] == 'W' && s[8] == 'o' && s[9] == 'r' && s[10] == 'l' && s[11] == 'd';
    }
  }

  lemma WorldFirst(s: seq<char>, p: seq<char>)
    requires s == Hello && p == "World"
    ensures FirstMatch(s, p, 0) == Some(7)
  {
    WorldAt7(s, p);
    assert s[0] == 'H' && s[1] == 'e' && s[2] == 'l' && s[3] == 'l' && s[4] == 'o' && s[5] == ',' && s[6] == ' ';
    Skip(s, p, 0); Skip(s, p, 1); Skip(s, p, 2); Skip(s, p, 3); Skip(s, p, 4); Skip(s, p, 5); Skip(s, p, 6);
  }

  lemma WorldOnce(s: seq<char>, p: seq<char>)
    requires s == Hello && p == "World"
    ensures FirstMatch(s, p, 12) == None
  {
    assert s[12] == '!' && s[13] == ' ' && s[14] == 'H' && s[15] == 'o' && s[16] == 'w';
    assert s[17] == ' ' && s[18] == 'a' && s[19] == 'r' && s[20] == 'e' && s[21] == ' ';
    Skip(s, p, 12); Skip(s, p, 13); Skip(s, p, 14); Skip(s, p, 15); Skip(s, p, 16);
    Skip(s, p, 17); Skip(s, p, 18); Skip(s, p, 19); Skip(s, p, 20); Skip(s, p, 21);
  }

  lemma Pieces(s: seq<char>)
    requires s == Hello
    ensures s[..7] == Before && s[12..] == After
  {
    assert |Before| == 7;
    assert s[..7] == Before;
    assert s[12..] == After;
  }

  /** SafeStrFind reports "World" at position 7 of the test string. */
  lemma FindWorld(s: seq<char>, p: seq<char>)
    requires s == Hello && p == "World"
    ensures FindIndex(s, p, |s|) == 7
  {
    WorldFirst(s, p);
  }

  /** "World" occurs once, and replacing it gives the greeting the test program prints. */
  lemma {:induction false} ReplaceWorld(s: seq<char>, p: seq<char>, r: seq<char>)
    requires s == Hello && p == "World" && r == "Everyone"
    ensures CountMatches(s, p) == 1
    ensures ReplaceAll(s, p, r) == Greeting
  {
    WorldFirst(s, p);
    WorldOnce(s, p);
    Pieces(s);
    ReplaceFromDone(s, p, r, 12);
    ReplaceFromStep(s, p, r, 0);
  }

  /** The whole SafeStrReplace call of the test program on its 50-byte buffer. */
  lemma ReplaceInTestBuffer(buf: seq<char>, o: seq<char>, n: seq<char>)
    requires buf == Hello + Zeros(24) && o == "World" && n == "Everyone"
    ensures HasNul(buf) && CStr(buf) == Hello && NulFree(n)
    ensures var out := ReplaceSpec(buf, 50, o, n, true);
            out.Done? && out.len == 29 && HasNul(out.buf) && CStr(out.buf) == Greeting
  {
    assert buf[..26] == Hello;
    assert NulFree(buf[..26]) by {
      assert forall i :: 0 <= i < 26 ==> buf[i] != NUL;
    }
    StrLenIs(buf, 26);
    assert NulFree(n) by {
      assert n[0] == 'E' && n[1] == 'v' && n[2] == 'e' && n[3] == 'r' && n[4] == 'y' && n[5] == 'o' && n[6] == 'n' && n[7] == 'e';
    }
    ReplaceWorld(Hello, o, n);
    ReplaceSpecBuffer(buf, 50, o, n, true);
  }

  /**
   * The allocation test: memory from SafeMalloc freed twice through the same cell. The
   * first SafeFree releases it and clears the cell, so the second does nothing.
   */
  method MallocThenFreeTwice(ops: SafeOps, size: SizeT, allocatorSucceeds: bool) returns (cell: PtrCell)
    modifies ops
    ensures fresh(cell) && cell.ptr == null
    ensures ops.live == old(ops.live)
  {
    var p := ops.SafeMalloc(size, allocatorSucceeds);
    cell := new PtrCell(p);
    ops.SafeFree(cell);
    ops.SafeFree(cell);
  }
}
