/**
 * The pure part of SafeFOpen: its default options and the choice of open(2) flags from
 * the fopen-style mode string.
 */
module FileOpts {
  datatype SafeFileOpts = SafeFileOpts(
    followSymlinks: bool,
    requireRegularFile: bool,
    createMode: nat,
    secureDelete: bool)

  /** The options used when the caller passes none; createMode is octal 0644. */
  const DefaultFileOpts: SafeFileOpts := SafeFileOpts(false, true, 0x1A4, false)

  datatype Access = ReadOnly | WriteOnly | ReadWrite

  datatype OpenFlags = OpenFlags(access: Access, create: bool, truncate: bool, append: bool, noFollow: bool)

  /**
   * The descriptor access fdopen accepts for a mode: the first character says reading
   * ('r') or writing ('w', 'a'), and a later '+' asks for both.
   */
  predicate StreamAllowed(mode: string, a: Access)
    requires |mode| > 0
  {
    if '+' in mode[1..] then a == ReadWrite
    else if mode[0] == 'r' then a == ReadOnly || a == ReadWrite
    else a == WriteOnly || a == ReadWrite
  }

  /** The flags SafeFOpen computes on POSIX: 'w' wins over 'a', anything else opens read-only. */
  function OpenFlagsAsWritten(mode: string, opts: SafeFileOpts): (f: OpenFlags)
    ensures f.noFollow <==> !opts.followSymlinks
    ensures f.access != ReadWrite
    ensures f.access == WriteOnly <==> f.create
    ensures f.truncate ==> f.create && !f.append
    ensures f.access == ReadOnly <==> 'w' !in mode && 'a' !in mode
  {
    var base :=
      if 'w' in mode then OpenFlags(WriteOnly, true, true, false, false)
      else if 'a' in mode then OpenFlags(WriteOnly, true, false, true, false)
      else OpenFlags(ReadOnly, false, false, false, false);
    base.(noFollow := !opts.followSymlinks)
  }

  /**
   * Mode "w+" opens the descriptor write-only (truncating the file) although fdopen with
   * "w+" needs a read-write descriptor, so the call fails after the file is truncated.
   */
  lemma PlusModeMismatch()
    ensures !StreamAllowed("w+", OpenFlagsAsWritten("w+", DefaultFileOpts).access)
    ensures OpenFlagsAsWritten("w+", DefaultFileOpts).truncate
    ensures !StreamAllowed("r+", OpenFlagsAsWritten("r+", DefaultFileOpts).access)
  {
  }

  /**
   * The flag choice that agrees with fopen's reading of the mode: the first character
   * picks read, write-truncate or append, and a later '+' opens for reading and writing.
   */
  function OpenFlagsFor(mode: string, opts: SafeFileOpts): (f: OpenFlags)
    requires |mode| > 0 && mode[0] in {'r', 'w', 'a'}
    ensures f.noFollow <==> !opts.followSymlinks
    ensures f.create <==> mode[0] != 'r'
    ensures f.truncate <==> mode[0] == 'w'
    ensures f.append <==> mode[0] == 'a'
    ensures StreamAllowed(mode, f.access)
  {
    var plus := '+' in mode[1..];
    var f :=
      if mode[0] == 'w' then OpenFlags(if plus then ReadWrite else WriteOnly, true, true, false, false)
      else if mode[0] == 'a' then OpenFlags(if plus then ReadWrite else WriteOnly, true, false, true, false)
      else OpenFlags(if plus then ReadWrite else ReadOnly, false, false, false, false);
    f.(noFollow := !opts.followSymlinks)
  }

  /** For the plain modes "r", "w" and "a" the corrected choice is the one the source makes. */
  lemma OpenFlagsForPlainModes(opts: SafeFileOpts)
    ensures OpenFlagsFor("r", opts) == OpenFlagsAsWritten("r", opts)
    ensures OpenFlagsFor("w", opts) == OpenFlagsAsWritten("w", opts)
    ensures OpenFlagsFor("a", opts) == OpenFlagsAsWritten("a", opts)
  {
  }
}
