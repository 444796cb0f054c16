/**
 * The name handling of the parallel compressor
 * (Assignment3/Miniz_Code/utility.hpp and minizpar.cpp): which directory
 * entries the walk descends into, which files a run compresses or
 * decompresses, the name a decompressed file gets, and the `getOption`
 * lookup over the argument vector.
 *
 * C strings are `string`s here, with no NUL inside, so `strlen` is the
 * length of the sequence.
 */
module MinizNames {
  import opened Outcomes
  import opened Search

  /** The suffix of compressed files (Assignment3/Miniz_Code/config.hpp:7). */
  const SUFFIX: string := ".zip"

  /** `std::string::npos`, and the modulus of `size_t` arithmetic. */
  const SIZE_WORD: nat := 0x1_0000_0000_0000_0000

  // ---------------------------------------------------------------------
  // Directory entries the walk skips
  // ---------------------------------------------------------------------

  /** The two entries every directory lists: itself and its parent. */
  predicate IsDotEntry(name: string) {
    name == "." || name == ".."
  }

  /**
   * `isdot` as written: true for any nonempty name whose last character is
   * a dot.  It does cover the two special entries.
   */
  function IsDot(name: string): (r: bool)
    ensures IsDotEntry(name) ==> r
  {
    |name| > 0 && name[|name| - 1] == '.'
  }

  /** A name is skipped exactly when it ends in a dot. */
  lemma IsDotEndsInDot(name: string)
    ensures IsDot(name) <==> exists stem :: name == stem + "."
  {
    if IsDot(name) {
      assert name == name[..|name| - 1] + ".";
    }
  }

  /** `isdot` also skips ordinary names that happen to end in a dot. */
  lemma IsDotOverreaches()
    ensures IsDot("a.") && !IsDotEntry("a.")
  {
  }

  /** Whether the walk skips a subdirectory: by `isdot` as written, or by the corrected test. */
  predicate SkipDir(name: string, asWritten: bool) {
    if asWritten then IsDot(name) else IsDotEntry(name)
  }

  /**
   * The subdirectories `walkDir` descends into, in listing order: every
   * directory entry that the skip test does not reject.
   */
  function Descend(dirs: seq<string>, asWritten: bool): (r: seq<string>)
    ensures |r| <= |dirs|
    ensures forall x :: x in r <==> x in dirs && !SkipDir(x, asWritten)
    decreases |dirs|
  {
    if |dirs| == 0 then []
    else
      var rest := Descend(dirs[1..], asWritten);
      assert forall x :: x in dirs <==> x == dirs[0] || x in dirs[1..];
      if SkipDir(dirs[0], asWritten) then rest else [dirs[0]] + rest
  }

  /** With the corrected test the walk visits every real subdirectory. */
  lemma DescendVisitsAll(dirs: seq<string>, name: string)
    requires name in dirs && !IsDotEntry(name)
    ensures name in Descend(dirs, false)
  {
  }

  /** As written, the walk never enters a subdirectory called `a.`. */
  lemma DescendMissesTrailingDot(dirs: seq<string>)
    ensures "a." !in Descend(dirs, true)
  {
  }

  /** Every subdirectory the as-written walk enters, the corrected walk enters too. */
  lemma DescendAsWrittenFewer(dirs: seq<string>)
    ensures forall x :: x in Descend(dirs, true) ==> x in Descend(dirs, false)
  {
  }

  // ---------------------------------------------------------------------
  // Files a run works on
  // ---------------------------------------------------------------------

  /** `fname` is longer than the suffix and ends in it. */
  predicate HasSuffix(fname: string) {
    |fname| > |SUFFIX| && fname[|fname| - |SUFFIX|..] == SUFFIX
  }

  /**
   * `discardIt(fname, comp)`: a compressing run skips names that already
   * carry the suffix, a decompressing run skips names that do not.
   */
  function DiscardIt(fname: string, comp: bool): (r: bool)
    ensures comp ==> (r <==> exists stem :: |stem| > 0 && fname == stem + SUFFIX)
    ensures !comp ==> (r <==> forall stem :: |stem| > 0 ==> fname != stem + SUFFIX)
  {
    if HasSuffix(fname) then
      assert fname == fname[..|fname| - |SUFFIX|] + SUFFIX;
      comp
    else
      SuffixedNamesHaveSuffix();
      !comp
  }

  /** Every nonempty stem followed by the suffix carries it. */
  lemma SuffixedNamesHaveSuffix()
    ensures forall stem :: |stem| > 0 ==> HasSuffix(stem + SUFFIX)
  {
    forall stem | |stem| > 0
      ensures HasSuffix(stem + SUFFIX)
    {
      var f := stem + SUFFIX;
      assert f[|f| - |SUFFIX|..] == SUFFIX;
    }
  }

  /** The two modes discard complementary sets of names. */
  lemma DiscardComplement(fname: string)
    ensures DiscardIt(fname, true) != DiscardIt(fname, false)
  {
  }

  /**
   * What a compressing run writes is skipped by the next compressing run
   * and taken by a decompressing one.
   */
  lemma DiscardCompressedName(stem: string)
    requires |stem| > 0
    ensures DiscardIt(stem + SUFFIX, true) && !DiscardIt(stem + SUFFIX, false)
  {
  }

  /** A name that is only the suffix does not count as carrying it. */
  lemma DiscardBareSuffix()
    ensures !DiscardIt(SUFFIX, true) && DiscardIt(SUFFIX, false)
  {
    assert !HasSuffix(SUFFIX);
  }

  /**
   * The file list of the driver (one argument or one directory listing at a
   * time): the names `discardIt` keeps, in their order.
   */
  function ToProcess(files: seq<string>, comp: bool): (r: seq<string>)
    ensures |r| <= |files|
    ensures forall x :: x in r <==> x in files && !DiscardIt(x, comp)
    decreases |files|
  {
    if |files| == 0 then []
    else
      var rest := ToProcess(files[1..], comp);
      assert forall x :: x in files <==> x == files[0] || x in files[1..];
      if DiscardIt(files[0], comp) then rest else [files[0]] + rest
  }

  // ---------------------------------------------------------------------
  // The name of a decompressed file
  // ---------------------------------------------------------------------

  /**
   * `std::string::substr(0, count)`: at most `count` characters from the
   * front.
   */
  function Prefix(s: string, count: nat): (r: string)
    ensures |r| <= |s| && r == s[..|r|]
    ensures |r| == if count < |s| then count else |s|
  {
    if count < |s| then s[..count] else s
  }

  /**
   * The count of characters kept: `len - k` in `size_t` arithmetic, which
   * wraps to a huge value (so `substr` keeps everything) when the name is
   * shorter than `k`.
   */
  function KeepCount(len: nat, k: nat): nat
    requires len < SIZE_WORD && k < SIZE_WORD
  {
    (len - k) % SIZE_WORD
  }

  /**
   * The output name of `decompressParallelFile`: the input name with its
   * last `strlen(SUFFIX)` characters removed.  A name is a C string, so its
   * length fits in `size_t`.
   */
  function DecompressedName(fname: string): (r: string)
    requires |fname| < SIZE_WORD
    ensures |fname| >= |SUFFIX| ==> fname == r + fname[|fname| - |SUFFIX|..]
    ensures |fname| < |SUFFIX| ==> r == fname
  {
    Prefix(fname, KeepCount(|fname|, |SUFFIX|))
  }

  /** `decompressData`'s variant of the same name, with the suffix length written as 4. */
  function DecompressedNameFixed(fname: string): (r: string)
    requires |fname| < SIZE_WORD
    ensures |fname| >= 4 ==> |r| == |fname| - 4
  {
    Prefix(fname, KeepCount(|fname|, 4))
  }

  /** The hard-coded 4 is the suffix length, so both variants name the output alike. */
  lemma DecompressedNamesAgree(fname: string)
    requires |fname| < SIZE_WORD
    ensures DecompressedNameFixed(fname) == DecompressedName(fname)
  {
  }

  /** Decompressing `stem + SUFFIX` writes `stem` back. */
  lemma DecompressedNameRoundTrip(stem: string)
    requires |stem + SUFFIX| < SIZE_WORD
    ensures DecompressedName(stem + SUFFIX) == stem
  {
    assert (stem + SUFFIX)[..|stem|] == stem;
  }

  /** Every name a decompressing run keeps is its output name plus the suffix. */
  lemma KeptNameSplits(fname: string)
    requires |fname| < SIZE_WORD && !DiscardIt(fname, false)
    ensures |DecompressedName(fname)| > 0 && fname == DecompressedName(fname) + SUFFIX
  {
    var stem :| |stem| > 0 && fname == stem + SUFFIX;
    DecompressedNameRoundTrip(stem);
  }

  // ---------------------------------------------------------------------
  // Options in the argument vector
  // ---------------------------------------------------------------------

  /**
   * `getOption(begin, end, option)`: the argument right after the first
   * occurrence of `option`; `None` (a null pointer) when `option` is absent
   * or that occurrence is the last argument.
   */
  function GetOption(args: seq<string>, option: string): (r: Option<string>)
    ensures r.None? <==> option !in args || (args[|args| - 1] == option && option !in args[..|args| - 1])
  {
    match Find(args, option)
    case None => None
    case Some(i) =>
      if i + 1 < |args| then
        assert args[i] != args[|args| - 1] || option in args[..|args| - 1] by {
          assert args[..|args| - 1][i] == args[i];
        }
        Some(args[i + 1])
      else None
  }

  /** The value after the first occurrence is returned, whatever follows. */
  lemma GetOptionValue(pre: seq<string>, option: string, value: string, post: seq<string>)
    requires option !in pre
    ensures GetOption(pre + [option, value] + post, option) == Some(value)
  {
    FindAfter(pre, option, [value] + post);
    assert pre + [option, value] + post == pre + [option] + ([value] + post);
  }

  /** An option given last has no value. */
  lemma GetOptionLast(pre: seq<string>, option: string)
    requires option !in pre
    ensures GetOption(pre + [option], option) == None
  {
    FindAfter(pre, option, []);
    assert pre + [option] + [] == pre + [option];
  }

  /** Only the first occurrence counts: a later one is read as a value or ignored. */
  lemma GetOptionFirstWins(pre: seq<string>, option: string, value: string, later: string)
    requires option !in pre
    ensures GetOption(pre + [option, value, option, later], option) == Some(value)
  {
    GetOptionValue(pre, option, value, [option, later]);
    assert pre + [option, value] + [option, later] == pre + [option, value, option, later];
  }
}
