// hash.cpp: the older hashing engine. Exclude patterns live in two global
// sets, folders are walked with std::filesystem and XXH64 digests of the
// relative paths of files are XOR-ed into a running hash; an input file lists
// folders (after a "[files]" header) and exclude patterns.

module LegacyHash {
  import opened Digest
  import opened Unicode
  import opened Paths
  import opened FileTree
  import opened Util

  // ---------------------------------------------------------------------------
  // HashHex

  /** `digit_map`: the sixteen upper-case hexadecimal digits. */
  const DIGIT_MAP: string := "0123456789ABCDEF"

  predicate IsHexDigit(c: char)
  {
    ('0' <= c <= '9') || ('A' <= c <= 'F')
  }

  /** The value of one upper-case hexadecimal digit: its index in `DIGIT_MAP`. */
  function DigitValue(c: char): (v: nat)
    requires IsHexDigit(c)
    ensures v < 16
  {
    if c <= '9' then c as int - '0' as int else c as int - 'A' as int + 10
  }

  /** The low `n` hexadecimal digits of `h`, the most significant first. */
  function HexDigits(h: nat, n: nat): (r: string)
    ensures |r| == n
    ensures forall k :: 0 <= k < n ==> IsHexDigit(r[k])
  {
    if n == 0 then [] else HexDigits(h / 16, n - 1) + [DIGIT_MAP[h % 16]]
  }

  /** What `HashHex(hash)` returns: sixteen digits, the most significant first. */
  function Hex(h: Hash): (r: string)
    ensures |r| == 16 && forall k :: 0 <= k < 16 ==> IsHexDigit(r[k])
  {
    HexDigits(h, 16)
  }

  /** Reading a string of hexadecimal digits back in base 16. */
  function ParseHex(s: string): (v: nat)
    requires forall k :: 0 <= k < |s| ==> IsHexDigit(s[k])
  {
    if s == [] then 0 else 16 * ParseHex(s[..|s| - 1]) + DigitValue(s[|s| - 1])
  }

  lemma Pow2Four(n: nat)
    ensures Pow2(4 * n + 4) == 16 * Pow2(4 * n)
  {
    Pow2Add(4 * n, 4);
    assert Pow2(4) == 16;
  }

  /** `h >> k` on an unsigned value: `k` halvings. */
  function ShiftRight(h: nat, k: nat): nat
  {
    if k == 0 then h else ShiftRight(h, k - 1) / 2
  }

  /** Shifting four more bits drops one more hexadecimal digit. */
  lemma ShiftRightFour(h: nat, k: nat)
    ensures ShiftRight(h, k + 4) == ShiftRight(h, k) / 16
  {
    var x := ShiftRight(h, k);
    assert ShiftRight(h, k + 1) == x / 2;
    assert ShiftRight(h, k + 2) == x / 2 / 2;
    assert ShiftRight(h, k + 3) == x / 2 / 2 / 2;
    assert ShiftRight(h, k + 4) == x / 2 / 2 / 2 / 2;
  }

  /** Each digit of the table reads back as its own index. */
  lemma DigitValueOfDigit(d: nat)
    requires d < 16
    ensures DigitValue(DIGIT_MAP[d]) == d
  {
  }

  /** Each digit is the table entry at its own value. */
  lemma DigitOfValue(c: char)
    requires IsHexDigit(c)
    ensures DIGIT_MAP[DigitValue(c)] == c
  {
  }

  /** Reading back the `n` digits of a value below 16^n gives the value. */
  lemma {:induction false} HexDigitsRoundTrip(h: nat, n: nat)
    requires h < Pow2(4 * n)
    ensures ParseHex(HexDigits(h, n)) == h
  {
    if n > 0 {
      Pow2Four(n - 1);
      HexDigitsRoundTrip(h / 16, n - 1);
      var r := HexDigits(h, n);
      assert r[..n - 1] == HexDigits(h / 16, n - 1);
      DigitValueOfDigit(h % 16);
      assert h == 16 * (h / 16) + h % 16;
    }
  }

  /** Appending digit `d` to `q` in base 16: the quotient and remainder by 16
      give `q` and `d` back, and a bound on `q` grows sixteen-fold. */
  lemma AppendDigit(q: nat, d: nat, bound: nat)
    requires d < 16 && q < bound
    ensures (16 * q + d) / 16 == q && (16 * q + d) % 16 == d
    ensures 16 * q + d < 16 * bound
  {
  }

  /** The digits of `16 * q + d` are those of `q` followed by the digit `d`. */
  lemma HexDigitsAppend(v: nat, q: nat, d: nat, n: nat)
    requires d < 16 && v == 16 * q + d
    ensures HexDigits(v, n + 1) == HexDigits(q, n) + [DIGIT_MAP[d]]
  {
    AppendDigit(q, d, q + 1);
  }

  /** `n` digits read in base 16 give a value below 16^n. */
  lemma {:induction false} ParseHexBound(s: string)
    requires forall k :: 0 <= k < |s| ==> IsHexDigit(s[k])
    ensures ParseHex(s) < Pow2(4 * |s|)
  {
    if s != [] {
      var init := s[..|s| - 1];
      ParseHexBound(init);
      Pow2Four(|init|);
      assert 4 * |s| == 4 * |init| + 4;
      AppendDigit(ParseHex(init), DigitValue(s[|s| - 1]), Pow2(4 * |init|));
    }
  }

  /** The `n` digits of what `n` digits read as are those digits again. */
  lemma {:induction false} ParseHexRoundTrip(s: string)
    requires forall k :: 0 <= k < |s| ==> IsHexDigit(s[k])
    ensures HexDigits(ParseHex(s), |s|) == s
  {
    if s != [] {
      var init, last := s[..|s| - 1], s[|s| - 1];
      ParseHexRoundTrip(init);
      var v, q, d := ParseHex(s), ParseHex(init), DigitValue(last);
      assert v == 16 * q + d;
      HexDigitsAppend(v, q, d, |init|);
      assert DIGIT_MAP[d] == last by {
        DigitOfValue(last);
      }
      assert s == init + [last];
    }
  }

  /** `HashHex` is lossless: its sixteen digits read back in base 16 give the hash. */
  lemma HexRoundTrip(h: Hash)
    ensures ParseHex(Hex(h)) == h
  {
    Pow2Is64();
    HexDigitsRoundTrip(h, 16);
  }

  /** ... and every string of sixteen upper-case digits is the rendering of
      exactly the hash it reads as. */
  lemma HexOnto(s: string)
    requires |s| == 16 && forall k :: 0 <= k < 16 ==> IsHexDigit(s[k])
    ensures ParseHex(s) < HASH_MODULUS && Hex(ParseHex(s)) == s
  {
    Pow2Is64();
    ParseHexBound(s);
    ParseHexRoundTrip(s);
  }

  /** `HashHex`: for `i` from 15 down to 0 the digit `(hash >> 4i) & 0xF` is
      appended; the mask with 0xF keeps the remainder by 16. */
  method HashHex(hash: Hash) returns (output: string)
    ensures output == Hex(hash)
  {
    output := "";
    var i := 15;
    while i >= 0
      invariant -1 <= i <= 15
      invariant output == HexDigits(ShiftRight(hash, 4 * (i + 1)), 15 - i)
    {
      var digit := ShiftRight(hash, 4 * i) % 16;
      ShiftRightFour(hash, 4 * i);
      output := output + [DIGIT_MAP[digit]];
      i := i - 1;
    }
  }

  // ---------------------------------------------------------------------------
  // Exclude patterns

  /** `g_excluded_extensions` and `g_excluded_files`. */
  datatype Excludes = Excludes(extensions: set<string>, files: set<string>)

  /** What `IsExcluded` decides for the relative path `path`: a filename
      starting with '.', an extension in the extension set, or a filename in
      the file set. */
  predicate Excluded(ex: Excludes, path: string)
  {
    var filename := Filename(path);
    StartsWithDot(filename) || Extension(path) in ex.extensions || filename in ex.files
  }

  /** The sets after `AddExclude(pattern)`: nothing for an empty pattern, the
      extension set for a pattern starting with '.', the file set otherwise. */
  function WithExclude(ex: Excludes, pattern: string): (r: Excludes)
    ensures pattern == [] ==> r == ex
    ensures StartsWithDot(pattern) ==> r == ex.(extensions := ex.extensions + {pattern})
    ensures pattern != [] && !StartsWithDot(pattern) ==> r == ex.(files := ex.files + {pattern})
  {
    if pattern == [] then ex
    else if pattern[0] == '.' then ex.(extensions := ex.extensions + {pattern})
    else ex.(files := ex.files + {pattern})
  }

  /** The two sets `ResetExcludes` leaves: the patterns split by a leading '.',
      the empty pattern in neither. */
  function Partition(patterns: seq<string>): Excludes
  {
    Excludes(set p | p in patterns && StartsWithDot(p),
             set p | p in patterns && p != [] && !StartsWithDot(p))
  }

  /** Adding the patterns one at a time from empty sets gives their partition. */
  lemma {:induction false} PartitionByAdding(patterns: seq<string>, i: nat)
    requires i < |patterns|
    ensures Partition(patterns[..i + 1]) == WithExclude(Partition(patterns[..i]), patterns[i])
  {
    assert patterns[..i + 1] == patterns[..i] + [patterns[i]];
  }

  /** A non-empty extension starts with its '.'. */
  lemma ExtensionStartsWithDot(path: string)
    ensures Extension(path) == [] || StartsWithDot(Extension(path))
  {
  }

  /** With the sets the options give, a path is excluded exactly when its
      filename starts with '.', its (non-empty) extension is one of the
      patterns, or its (non-empty) filename is one of the patterns. */
  lemma ExcludedByPatterns(patterns: seq<string>, path: string)
    ensures Excluded(Partition(patterns), path) <==>
            StartsWithDot(Filename(path))
            || (Extension(path) != [] && Extension(path) in patterns)
            || (Filename(path) != [] && Filename(path) in patterns)
  {
    ExtensionStartsWithDot(path);
  }

  // ---------------------------------------------------------------------------
  // AddFolder

  /** How a call ends: with a hash, by an exception thrown out of
      `directory_iterator` (a folder that cannot be opened), or by `exit`. */
  datatype Outcome = Hashed(value: Hash) | Threw | Exited(code: int)

  /** What the engine runs against: XXH64, `lexically_relative(opt_basepath)`
      and the file system. */
  datatype Env = Env(xxh64: Digester, relative: string -> string, fs: FileSystem)

  /** `AddFolder(hash, dir, recursive)` over the entries `listing` of `dir`. */
  function FolderOutcome(ex: Excludes, env: Env, hash: Hash, dir: string, listing: Listing, recursive: bool): Outcome
    decreases listing
  {
    match listing
    case Unreadable => Threw
    case Entries(items) => ItemsOutcome(ex, env, hash, dir, items, recursive)
  }

  /** The loop of `AddFolder` from the running hash `hash` over `items`. */
  function ItemsOutcome(ex: Excludes, env: Env, hash: Hash, dir: string, items: seq<Entry>, recursive: bool): Outcome
    decreases items
  {
    if items == [] then Hashed(hash)
    else
      match EntryOutcome(ex, env, hash, dir, items[0], recursive)
      case Hashed(h) => ItemsOutcome(ex, env, h, dir, items[1..], recursive)
      case other => other
  }

  /** One pass of the loop: a directory, when recursive, is XOR-ed with the
      result of `AddFolder` started from the running hash itself; a regular
      file whose relative path is not excluded XORs in the XXH64 of that path;
      anything else leaves the hash alone. */
  function EntryOutcome(ex: Excludes, env: Env, hash: Hash, dir: string, e: Entry, recursive: bool): Outcome
    decreases e
  {
    match e
    case Dir(name, listing) =>
      if recursive then
        match FolderOutcome(ex, env, hash, Join(dir, name), listing, recursive)
        case Hashed(sub) => Hashed(Xor(hash, sub))
        case other => other
      else Hashed(hash)
    case File(name) =>
      var path := env.relative(Join(dir, name));
      if Excluded(ex, path) then Hashed(hash) else Hashed(Xor(hash, env.xxh64(Utf8(path), HASH_SEED)))
    case Special(_) => Hashed(hash)
  }

  /** What a file entry adds when nothing is descended into. */
  function FileDigest(ex: Excludes, env: Env, dir: string, e: Entry): Hash
  {
    if e.File? && !Excluded(ex, env.relative(Join(dir, e.name)))
    then env.xxh64(Utf8(env.relative(Join(dir, e.name))), HASH_SEED)
    else 0
  }

  /** The XOR of what the files among `items` add. */
  function FilesDigest(ex: Excludes, env: Env, dir: string, items: seq<Entry>): Hash
  {
    if items == [] then 0 else Xor(FileDigest(ex, env, dir, items[0]), FilesDigest(ex, env, dir, items[1..]))
  }

  /** Without descending, the loop is a plain XOR fold: the result is the
      running hash XOR the digests of the files. */
  lemma {:induction false} FlatFolderIsXorFold(ex: Excludes, env: Env, hash: Hash, dir: string,
                                               items: seq<Entry>, recursive: bool)
    requires forall i :: 0 <= i < |items| ==> !(items[i].Dir? && recursive)
    ensures ItemsOutcome(ex, env, hash, dir, items, recursive) ==
            Hashed(Xor(hash, FilesDigest(ex, env, dir, items)))
    decreases |items|
  {
    if items == [] {
      XorZero(hash);
    } else {
      var c := FileDigest(ex, env, dir, items[0]);
      var rest := FilesDigest(ex, env, dir, items[1..]);
      if items[0].File? && !Excluded(ex, env.relative(Join(dir, items[0].name))) {
        assert EntryOutcome(ex, env, hash, dir, items[0], recursive) == Hashed(Xor(hash, c));
      } else {
        XorZero(hash);
        assert EntryOutcome(ex, env, hash, dir, items[0], recursive) == Hashed(Xor(hash, c));
      }
      FlatFolderIsXorFold(ex, env, Xor(hash, c), dir, items[1..], recursive);
      XorAssoc(hash, c, rest);
    }
  }

  /** A subdirectory replaces the running hash: because `AddFolder` is handed
      the running hash and its result is XOR-ed into that same hash, a
      readable subdirectory holding only files leaves exactly the XOR of its
      files' digests, and everything accumulated before it is lost. */
  lemma SubdirectoryDropsRunningHash(ex: Excludes, env: Env, hash: Hash, dir: string,
                                     name: string, items: seq<Entry>)
    requires forall i :: 0 <= i < |items| ==> !items[i].Dir?
    ensures EntryOutcome(ex, env, hash, dir, Dir(name, Entries(items)), true) ==
            Hashed(FilesDigest(ex, env, Join(dir, name), items))
  {
    var path := Join(dir, name);
    var sub := FilesDigest(ex, env, path, items);
    FlatFolderIsXorFold(ex, env, hash, path, items, true);
    assert FolderOutcome(ex, env, hash, path, Entries(items), true) == Hashed(Xor(hash, sub));
    assert Xor(hash, Xor(hash, sub)) == sub by {
      XorAssoc(hash, hash, sub);
      XorSelf(hash);
      XorZero(sub);
    }
  }

  /** Not a plain XOR fold: a file followed by a subdirectory holding a
      single file leaves only the digest of the second file. */
  lemma FileBeforeSubdirectoryLost(ex: Excludes, env: Env, dir: string, first: string, sub: string, second: string)
    requires !Excluded(ex, env.relative(Join(dir, first)))
    requires !Excluded(ex, env.relative(Join(Join(dir, sub), second)))
    ensures ItemsOutcome(ex, env, 0, dir, [File(first), Dir(sub, Entries([File(second)]))], true) ==
            Hashed(env.xxh64(Utf8(env.relative(Join(Join(dir, sub), second))), HASH_SEED))
  {
    var items := [File(first), Dir(sub, Entries([File(second)]))];
    var h := Xor(0, env.xxh64(Utf8(env.relative(Join(dir, first))), HASH_SEED));
    assert EntryOutcome(ex, env, 0, dir, items[0], true) == Hashed(h);
    var inner := [File(second)];
    var d := env.xxh64(Utf8(env.relative(Join(Join(dir, sub), second))), HASH_SEED);
    assert FilesDigest(ex, env, Join(dir, sub), inner) == Xor(d, 0) by {
      assert inner[1..] == [];
    }
    XorZero(d);
    SubdirectoryDropsRunningHash(ex, env, h, dir, sub, inner);
    assert EntryOutcome(ex, env, h, dir, items[1], true) == Hashed(d);
    assert items[1..] == [items[1]] && items[1..][1..] == [];
    assert ItemsOutcome(ex, env, h, dir, items[1..], true) == Hashed(d);
  }

  /** `AddFolder` never calls `exit`: its loop either hashes or throws. */
  lemma {:induction false} ItemsNeverExit(ex: Excludes, env: Env, hash: Hash, dir: string,
                                          items: seq<Entry>, recursive: bool)
    ensures !ItemsOutcome(ex, env, hash, dir, items, recursive).Exited?
    decreases items
  {
    if items != [] {
      EntryNeverExits(ex, env, hash, dir, items[0], recursive);
      match EntryOutcome(ex, env, hash, dir, items[0], recursive)
      case Hashed(h) => ItemsNeverExit(ex, env, h, dir, items[1..], recursive);
      case _ =>
    }
  }

  /** One entry of the loop never ends in `exit` either. */
  lemma {:induction false} EntryNeverExits(ex: Excludes, env: Env, hash: Hash, dir: string,
                                           e: Entry, recursive: bool)
    ensures !EntryOutcome(ex, env, hash, dir, e, recursive).Exited?
    decreases e
  {
    if e.Dir? && recursive && e.listing.Entries? {
      ItemsNeverExit(ex, env, hash, Join(dir, e.name), e.listing.items, recursive);
    }
  }

  /** A folder that cannot be opened makes the whole recursive loop throw,
      wherever it sits among the entries: the entries before it either hash
      or throw themselves, and none of them exits. */
  lemma {:induction false} UnreadableSubfolderThrows(ex: Excludes, env: Env, hash: Hash, dir: string,
                                                     items: seq<Entry>, i: nat)
    requires i < |items| && items[i].Dir? && items[i].listing.Unreadable?
    ensures EntryOutcome(ex, env, hash, dir, items[i], true) == Threw
    ensures ItemsOutcome(ex, env, hash, dir, items, true) == Threw
    decreases i
  {
    EntryNeverExits(ex, env, hash, dir, items[0], true);
    var first := EntryOutcome(ex, env, hash, dir, items[0], true);
    if i > 0 && first.Hashed? {
      UnreadableSubfolderThrows(ex, env, first.value, dir, items[1..], i - 1);
    }
  }

  // ---------------------------------------------------------------------------
  // ProcessInputFile

  /** `input_mode`. The variable is never initialised and nothing sets it to
      EXCLUDES: `Unset` stands for a value that is neither. */
  datatype Mode = Unset | Folders | ExcludeLines

  const FILES_HEADER: string := "[files]"

  /** A folder line, already trimmed and non-empty: a trailing '*' asks for a
      recursive scan of the folder named by the rest. */
  function FolderRequest(line: string): (r: (string, bool))
    requires line != []
    ensures r.1 <==> line[|line| - 1] == '*'
    ensures r.0 == if r.1 then line[..|line| - 1] else line
    ensures line == r.0 + (if r.1 then "*" else "")
  {
    if line[|line| - 1] == '*' then (line[..|line| - 1], true) else (line, false)
  }

  /** Where the line loop stands: the mode, the exclude sets, the running
      hash, and whether an exception has escaped. */
  datatype Reader = Reader(mode: Mode, ex: Excludes, hash: Hash, threw: bool)

  /** One line of the input file. The header is recognised only as written,
      before trimming; every other line is trimmed and skipped when empty. */
  function LineStep(env: Env, r: Reader, line: string): Reader
  {
    if line == FILES_HEADER then r.(mode := Folders)
    else
      var t := Trimmed(line);
      if t == [] then r
      else if r.mode == Folders then
        var (dir, recursive) := FolderRequest(t);
        match FolderOutcome(r.ex, env, r.hash, dir, Open(env.fs, dir), recursive)
        case Hashed(h) => r.(hash := Xor(r.hash, h))
        case _ => r.(threw := true)
      else if r.mode == ExcludeLines then r.(ex := WithExclude(r.ex, t))
      else r
  }

  /** The line loop: lines are read until the end or until an exception. */
  function RunLines(env: Env, r: Reader, lines: seq<string>): Reader
    decreases |lines|
  {
    if r.threw || lines == [] then r else RunLines(env, LineStep(env, r, lines[0]), lines[1..])
  }

  /** Only the exact, unpadded header switches to folder mode: from any other
      mode, a line that leaves the reader in folder mode is the header. */
  lemma OnlyExactHeaderSwitches(env: Env, r: Reader, line: string)
    requires r.mode != Folders
    ensures LineStep(env, r, line).mode == Folders ==> line == FILES_HEADER
  {
    if line != FILES_HEADER {
      var t := Trimmed(line);
      if t != [] {
        assert r.mode == ExcludeLines ==> LineStep(env, r, line) == r.(ex := WithExclude(r.ex, t));
      }
    }
  }

  /** A header padded with whitespace on either side (a Windows "[files]\r"
      line, say) is no header: the trimmed text is an ordinary line, so in
      folder mode it is scanned as a folder called "[files]", in exclude
      mode it becomes an exclude pattern, and before either it is skipped. */
  lemma PaddedHeaderIsAFolder(env: Env, r: Reader, lead: string, trail: string)
    requires AllSpace(lead) && AllSpace(trail) && lead + trail != []
    ensures r.mode == Folders ==>
            LineStep(env, r, lead + FILES_HEADER + trail) ==
            match FolderOutcome(r.ex, env, r.hash, FILES_HEADER, Open(env.fs, FILES_HEADER), false)
            case Hashed(h) => r.(hash := Xor(r.hash, h))
            case _ => r.(threw := true)
    ensures r.mode == ExcludeLines ==>
            LineStep(env, r, lead + FILES_HEADER + trail) == r.(ex := WithExclude(r.ex, FILES_HEADER))
    ensures r.mode == Unset ==> LineStep(env, r, lead + FILES_HEADER + trail) == r
  {
    assert |lead + FILES_HEADER + trail| == |lead| + |FILES_HEADER| + |trail|;
    assert |lead + trail| == |lead| + |trail|;
    TrimmedUnique(lead, FILES_HEADER, trail);
  }

  /** In folder mode any other line whose trimmed text does not end in '*'
      scans the folder it names without descending into subfolders. */
  lemma PlainLineScansFlat(env: Env, r: Reader, line: string)
    requires r.mode == Folders && line != FILES_HEADER
    requires Trimmed(line) != [] && Trimmed(line)[|Trimmed(line)| - 1] != '*'
    ensures LineStep(env, r, line) ==
            match FolderOutcome(r.ex, env, r.hash, Trimmed(line), Open(env.fs, Trimmed(line)), false)
            case Hashed(h) => r.(hash := Xor(r.hash, h))
            case _ => r.(threw := true)
  {
  }

  /** A line ending in '*' and then whitespace is never the header, which ends in ']'. */
  lemma StarLineIsNoHeader(head: string, trail: string)
    requires AllSpace(trail)
    ensures head + "*" + trail != FILES_HEADER
  {
    var line := head + "*" + trail;
    if trail == [] {
      assert line[|line| - 1] == '*';
    } else {
      assert line[|line| - 1] == trail[|trail| - 1];
    }
    assert FILES_HEADER[|FILES_HEADER| - 1] == ']';
  }

  /** In folder mode a line ending in '*' scans the folder before the '*'
      recursively, whatever whitespace surrounds it. */
  lemma StarLineScansRecursively(env: Env, r: Reader, lead: string, dir: string, trail: string)
    requires r.mode == Folders && AllSpace(lead) && AllSpace(trail)
    requires dir != [] && !IsSpace(dir[0])
    ensures LineStep(env, r, lead + dir + "*" + trail) ==
            match FolderOutcome(r.ex, env, r.hash, dir, Open(env.fs, dir), true)
            case Hashed(h) => r.(hash := Xor(r.hash, h))
            case _ => r.(threw := true)
  {
    StarLineIsNoHeader(lead + dir, trail);
    assert lead + (dir + "*") + trail == lead + dir + "*" + trail;
    TrimmedUnique(lead, dir + "*", trail);
  }

  // ---------------------------------------------------------------------------
  // The engine's global state

  /** The globals of hash.cpp: the two exclude sets, with `opt_excludes`. */
  class LegacyHasher {
    var extensions: set<string>
    var files: set<string>
    const excludes: seq<string>

    function Current(): Excludes
      reads this
    {
      Excludes(extensions, files)
    }

    /** The sets start empty. */
    constructor(excludes: seq<string>)
      ensures this.excludes == excludes && extensions == {} && files == {}
    {
      this.excludes := excludes;
      extensions, files := {}, {};
    }

    /** `AddExclude`: an empty pattern is ignored; one starting with '.' goes
        into the extension set only, any other into the file set only. */
    method AddExclude(pattern: string)
      modifies this
      ensures Current() == WithExclude(old(Current()), pattern)
    {
      if pattern == [] {
        return;
      }
      if pattern[0] == '.' {
        extensions := extensions + {pattern};
      } else {
        files := files + {pattern};
      }
    }

    /** `ResetExcludes`: both sets are cleared and every option pattern is
        added again, so the sets end up as the partition of the options,
        whatever they held before. */
    method ResetExcludes()
      modifies this
      ensures Current() == Partition(excludes)
    {
      extensions, files := {}, {};
      var i := 0;
      while i < |excludes|
        invariant i <= |excludes|
        invariant Current() == Partition(excludes[..i])
      {
        PartitionByAdding(excludes, i);
        AddExclude(excludes[i]);
        i := i + 1;
      }
      assert excludes[..i] == excludes;
    }

    /** `AddFolder`: the entries of `dir` (`listing`, what `directory_iterator`
        yields for it) in order, from the running hash `hash`. */
    method AddFolder(env: Env, hash: Hash, dir: string, listing: Listing, recursive: bool) returns (r: Outcome)
      ensures r == FolderOutcome(Current(), env, hash, dir, listing, recursive)
      decreases listing
    {
      if listing.Unreadable? {
        return Threw;
      }
      var items := listing.items;
      var running := hash;
      var i := 0;
      while i < |items|
        invariant i <= |items|
        invariant FolderOutcome(Current(), env, hash, dir, listing, recursive) ==
                  ItemsOutcome(Current(), env, running, dir, items[i..], recursive)
      {
        var e := items[i];
        assert items[i..][1..] == items[i + 1..];
        if e.Dir? && recursive {
          var sub := AddFolder(env, running, Join(dir, e.name), e.listing, recursive);
          if !sub.Hashed? {
            return sub;
          }
          running := Xor(running, sub.value);
        } else if e.File? {
          var path := env.relative(Join(dir, e.name));
          if !Excluded(Current(), path) {
            running := Xor(running, env.xxh64(Utf8(path), HASH_SEED));
          }
        }
        i := i + 1;
      }
      return Hashed(running);
    }

    /** `ProcessInputFile`: the sets are reset, then the lines are read in
        turn. Whatever the folders hash to, the result is 0, unless an
        exception escapes. */
    method ProcessInputFile(env: Env, lines: seq<string>, initialMode: Mode) returns (r: Outcome)
      modifies this
      ensures var end := RunLines(env, Reader(initialMode, Partition(excludes), HASH_SEED, false), lines);
              Current() == end.ex && r == if end.threw then Threw else Hashed(0)
    {
      ResetExcludes();
      var hash: Hash := HASH_SEED;
      var mode := initialMode;
      ghost var start := Reader(initialMode, Partition(excludes), HASH_SEED, false);
      var i := 0;
      while i < |lines|
        invariant i <= |lines|
        invariant RunLines(env, start, lines) == RunLines(env, Reader(mode, Current(), hash, false), lines[i..])
      {
        ghost var before := Reader(mode, Current(), hash, false);
        assert lines[i..][1..] == lines[i + 1..];
        var line := lines[i];
        i := i + 1;
        if line == FILES_HEADER {
          mode := Folders;
          continue;
        }
        var t := Trim(line);
        if t == [] {
          continue;
        }
        if mode == Folders {
          var (dir, recursive) := FolderRequest(t);
          var sub := AddFolder(env, hash, dir, Open(env.fs, dir), recursive);
          if !sub.Hashed? {
            return Threw;
          }
          hash := Xor(hash, sub.value);
        } else if mode == ExcludeLines {
          AddExclude(t);
        }
      }
      return Hashed(0);
    }

    /** `HashInput`: a regular file is read as an input list, a directory is
        hashed recursively from 0 with the option excludes, and anything else
        ends the process with status 1. The exclude sets are left as the input
        list leaves them, as the options give them, or untouched. */
    method HashInput(env: Env, input: string, initialMode: Mode) returns (r: Outcome)
      modifies this
      ensures input in env.fs && env.fs[input].RegularFile? ==>
                r == (if RunLines(env, Reader(initialMode, Partition(excludes), HASH_SEED, false),
                                  env.fs[input].lines).threw
                      then Threw else Hashed(0))
      ensures input in env.fs && env.fs[input].Directory? ==>
                r == FolderOutcome(Partition(excludes), env, 0, input, env.fs[input].listing, true)
      ensures input !in env.fs ==> r == Exited(1)
      ensures input in env.fs && env.fs[input].RegularFile? ==>
                Current() == RunLines(env, Reader(initialMode, Partition(excludes), HASH_SEED, false),
                                      env.fs[input].lines).ex
      ensures input in env.fs && env.fs[input].Directory? ==> Current() == Partition(excludes)
      ensures input !in env.fs ==> Current() == old(Current())
    {
      if input in env.fs && env.fs[input].RegularFile? {
        r := ProcessInputFile(env, env.fs[input].lines, initialMode);
      } else if input in env.fs && env.fs[input].Directory? {
        ResetExcludes();
        r := AddFolder(env, 0, input, env.fs[input].listing, true);
      } else {
        r := Exited(1);
      }
    }
  }
}
