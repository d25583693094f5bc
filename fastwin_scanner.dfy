// fastwin_scanner.h: the Windows scanner. It builds every path in one
// fixed wide-character buffer, tests extensions with 128-bit mask registers
// and compares ignore entries as wide C strings held in a fixed table.

module FastwinBackend {
  import opened Digest
  import opened Unicode
  import opened FileTree
  import opened RunOptions

  const MAX_EXT_FILTERS: nat := 64
  const MAX_IGNORE_FILTERS: nat := 64
  const PATHSIZE: nat := 32768
  const IGNORE_FIELDSIZE: nat := 64

  /** Capacity, in UTF-16 units, that `AddExt` converts an extension into. */
  const EXT_CAPACITY: nat := 8

  const DOT: Unit := 0x2E
  const STAR: Unit := 0x2A
  const SLASH: Unit := 0x2F
  const BACKSLASH: Unit := 0x5C

  /** An `__m128i`, as the natural number its 128 bits spell, byte `k` of
      memory being bits `8 * k` to `8 * k + 7`. */
  type Register = nat

  const REGISTER_BITS: nat := 128
  const ZERO: Register := 0

  /** `_mm_set1_epi8((char)0xFF)`: every byte 0xFF. */
  const ALL_ONES: Register := 0xFFFF_FFFF_FFFF_FFFF_FFFF_FFFF_FFFF_FFFF

  /** Bitwise and of the low `n` bits of `a` and `b`. */
  function AndBits(a: nat, b: nat, n: nat): (r: nat)
    ensures r < Pow2(n)
  {
    if n == 0 then 0
    else 2 * AndBits(a / 2, b / 2, n - 1) + (if a % 2 == 1 && b % 2 == 1 then 1 else 0)
  }

  lemma {:induction false} AndBitsZero(a: nat, n: nat)
    ensures AndBits(a, 0, n) == 0
  {
    if n > 0 {
      AndBitsZero(a / 2, n - 1);
    }
  }

  lemma {:induction false} AndBitsSelf(a: nat, n: nat)
    requires a < Pow2(n)
    ensures AndBits(a, a, n) == a
  {
    if n > 0 {
      AndBitsSelf(a / 2, n - 1);
    }
  }

  lemma {:induction false} XorBitsZeroIff(a: nat, b: nat, n: nat)
    requires a < Pow2(n) && b < Pow2(n)
    ensures XorBits(a, b, n) == 0 <==> a == b
  {
    if n > 0 {
      XorBitsZeroIff(a / 2, b / 2, n - 1);
    }
  }

  /** `_mm_and_si128`. */
  function And(a: Register, b: Register): Register
  {
    AndBits(a, b, REGISTER_BITS)
  }

  /** `_mm_xor_si128`. */
  function XorRegisters(a: Register, b: Register): Register
  {
    XorBits(a, b, REGISTER_BITS)
  }

  /** `_mm_test_all_zeros(a, b)`: whether `a & b` has no bit set. */
  predicate TestAllZeros(a: Register, b: Register)
  {
    And(a, b) == 0
  }

  /** `_mm_srli_si128(r, n)`: shift right by `n` bytes, filling with zeros; a
      count above 15 clears the register. */
  function ShiftRightBytes(r: Register, n: nat): Register
  {
    if n == 0 then r else if n >= 16 then 0 else ShiftRightBytes(r / 0x100, n - 1)
  }

  /** The eight units of `buf` starting at `at`, the memory `_mm_loadu_si128`
      reads for the extension test. Positions before the buffer's start read
      as zero: the buffer is preceded by a zero-filled pad. */
  function Window(buf: seq<Unit>, at: int): (w: seq<Unit>)
    requires at + 8 <= |buf|
    ensures |w| == 8
  {
    seq(8, k requires 0 <= k < 8 => if at + k < 0 then 0 else buf[at + k])
  }

  /** `_mm_loadu_si128` of eight units: unit `k` fills bytes `2 * k` and
      `2 * k + 1`, low byte first. */
  function Load(window: seq<Unit>): Register
    requires |window| == 8
  {
    Pack(window)
  }

  function Pack(w: seq<Unit>): Register
  {
    if w == [] then 0 else w[0] + 0x1_0000 * Pack(w[1..])
  }

  /** The window only sees the units below `at + 8`. */
  lemma WindowPrefix(buf: seq<Unit>, n: nat, at: int)
    requires at + 8 <= n <= |buf|
    ensures Window(buf, at) == Window(buf[..n], at)
  {
  }

  /** A snapshot of the scanner's filter state: the extension slots, the
      ignore table read as C strings, and how many of each are in use. */
  datatype FilterState = FilterState(
    extCount: nat, masks: seq<Register>, exts: seq<Register>,
    ignoreCount: nat, ignores: seq<seq<Unit>>)

  predicate WellFormed(f: FilterState)
  {
    |f.masks| == MAX_EXT_FILTERS && |f.exts| == MAX_EXT_FILTERS
    && f.extCount <= MAX_EXT_FILTERS
    && |f.ignores| == IGNORE_FIELDSIZE && f.ignoreCount <= MAX_IGNORE_FILTERS
  }

  /** Extension slot `i` accepts the loaded register `ext`: `ext` under the
      slot's mask equals the slot's pattern. */
  predicate SlotMatches(f: FilterState, i: nat, window: seq<Unit>)
    requires WellFormed(f) && i < MAX_EXT_FILTERS && |window| == 8
  {
    var ext := Load(window);
    var neq := XorRegisters(And(ext, f.masks[i]), f.exts[i]);
    TestAllZeros(neq, neq)
  }

  /** Some slot below `n` accepts the window: the verdict of the extension
      loop after trying slots 0 to `n - 1` in turn. */
  predicate SlotHit(f: FilterState, window: seq<Unit>, n: nat)
    requires WellFormed(f) && |window| == 8 && n <= MAX_EXT_FILTERS
  {
    n > 0 && (SlotHit(f, window, n - 1) || SlotMatches(f, n - 1, window))
  }

  /** `name` or `whole` equals one of the first `n` ignore strings: the
      verdict of the ignore loop after comparing rows 0 to `n - 1`. */
  predicate IgnoreHit(f: FilterState, name: seq<Unit>, whole: seq<Unit>, n: nat)
    requires WellFormed(f) && n <= IGNORE_FIELDSIZE
  {
    n > 0 && (IgnoreHit(f, name, whole, n - 1) || name == f.ignores[n - 1] || whole == f.ignores[n - 1])
  }

  /** The extension loop finds a slot exactly when some slot below `n` matches. */
  lemma {:induction false} SlotHitIff(f: FilterState, window: seq<Unit>, n: nat)
    requires WellFormed(f) && |window| == 8 && n <= MAX_EXT_FILTERS
    ensures SlotHit(f, window, n) <==> exists i :: 0 <= i < n && SlotMatches(f, i, window)
  {
    if n > 0 {
      SlotHitIff(f, window, n - 1);
      if SlotMatches(f, n - 1, window) {
        assert exists i :: 0 <= i < n && SlotMatches(f, i, window);
      }
    }
  }

  /** The ignore loop hits exactly when some row below `n` equals the name or
      the whole path. */
  lemma {:induction false} IgnoreHitIff(f: FilterState, name: seq<Unit>, whole: seq<Unit>, n: nat)
    requires WellFormed(f) && n <= IGNORE_FIELDSIZE
    ensures IgnoreHit(f, name, whole, n) <==>
            exists i :: 0 <= i < n && (name == f.ignores[i] || whole == f.ignores[i])
  {
    if n > 0 {
      IgnoreHitIff(f, name, whole, n - 1);
      if name == f.ignores[n - 1] || whole == f.ignores[n - 1] {
        assert exists i :: 0 <= i < n && (name == f.ignores[i] || whole == f.ignores[i]);
      }
    }
  }

  /** What `FastwinScanner::IsExcluded` decides for an entry whose name is
      `name`, whose whole path is `whole` and whose extension window (the
      eight units ending eight units before the end) is `window`: a file,
      when extension slots are in use and none accepts the window, or
      anything whose name or whole path equals an ignore string. */
  predicate FastExcluded(f: FilterState, name: seq<Unit>, whole: seq<Unit>, window: seq<Unit>, isDir: bool)
    requires WellFormed(f) && |window| == 8
  {
    (!isDir && f.extCount > 0 && !SlotHit(f, window, f.extCount))
    || IgnoreHit(f, name, whole, f.ignoreCount)
  }

  /** Every extension slot holds an all-zero mask and an all-zero pattern. */
  predicate SlotsCleared(f: FilterState)
    requires WellFormed(f)
  {
    forall i :: 0 <= i < MAX_EXT_FILTERS ==> f.masks[i] == ZERO && f.exts[i] == ZERO
  }

  /** With cleared slots the extension test never excludes: a zero mask and a
      zero pattern match any register, so as soon as one extension is in use
      every file passes, and only the ignore strings decide. */
  lemma ExtensionTestInert(f: FilterState, name: seq<Unit>, whole: seq<Unit>, window: seq<Unit>, isDir: bool)
    requires WellFormed(f) && SlotsCleared(f) && |window| == 8
    ensures FastExcluded(f, name, whole, window, isDir) <==> IgnoreHit(f, name, whole, f.ignoreCount)
  {
    if f.extCount > 0 {
      AndBitsZero(Load(window), REGISTER_BITS);
      XorBitsSelf(0, REGISTER_BITS);
      AndBitsZero(0, REGISTER_BITS);
      assert SlotMatches(f, 0, window);
      SlotHitIff(f, window, f.extCount);
    }
  }

  /** What a slot's test decides: the loaded register, under the slot's
      mask, equals the slot's pattern. */
  lemma SlotMatchesMeans(f: FilterState, i: nat, window: seq<Unit>)
    requires WellFormed(f) && i < MAX_EXT_FILTERS && |window| == 8
    requires f.exts[i] < Pow2(REGISTER_BITS)
    ensures SlotMatches(f, i, window) <==> And(Load(window), f.masks[i]) == f.exts[i]
  {
    var masked := And(Load(window), f.masks[i]);
    var neq := XorRegisters(masked, f.exts[i]);
    AndBitsSelf(neq, REGISTER_BITS);
    XorBitsZeroIff(masked, f.exts[i], REGISTER_BITS);
  }

  /** `cFileName` of WIN32_FIND_DATAW for an entry: its name in UTF-16, NUL-terminated. */
  function FoundName(e: Entry): (w: seq<Unit>)
    ensures |w| >= 1 && w[|w| - 1] == 0
  {
    Utf16(e.name) + [0]
  }

  /** What one entry found in the directory whose path (with its trailing
      separator) is `prefix` adds to the digest. Names starting with '.' are
      skipped; a directory, when recursive and not excluded, contributes its own
      digest; anything else not excluded (a directory when not recursive, a
      device, a file) contributes XXH64 of the UTF-16 bytes of its whole path. */
  function FastEntryHash(f: FilterState, xxh64: Digester, prefix: seq<Unit>, e: Entry, recursive: bool): Hash
    requires WellFormed(f)
    decreases e
  {
    var found := FoundName(e);
    if found[0] == DOT then 0
    else
      var name := CString(found);
      var full := prefix + name;
      var asDir := e.Dir? && recursive;
      if FastExcluded(f, name, CString(full), Window(full, |full| - 16), asDir) then 0
      else if asDir then FastListingHash(f, xxh64, full + [BACKSLASH], e.listing, recursive)
      else xxh64(LittleEndian(full), HASH_SEED)
  }

  /** A directory matched by an ignore filter contributes nothing, whatever
      its subtree holds: the scanner never descends into it. */
  lemma IgnoredDirectoryHidesSubtree(f: FilterState, xxh64: Digester, prefix: seq<Unit>, n: string,
                                     listing: Listing, recursive: bool)
    requires WellFormed(f)
    requires var name := CString(FoundName(Dir(n, listing)));
             IgnoreHit(f, name, CString(prefix + name), f.ignoreCount)
    ensures FastEntryHash(f, xxh64, prefix, Dir(n, listing), recursive) == 0
  {
  }

  /** Unfolds `FastEntryHash` for an entry whose name does not start with '.'. */
  lemma EntryHashCases(f: FilterState, xxh64: Digester, prefix: seq<Unit>, e: Entry, recursive: bool)
    requires WellFormed(f) && FoundName(e)[0] != DOT
    ensures var full := prefix + CString(FoundName(e));
            var asDir := e.Dir? && recursive;
            FastEntryHash(f, xxh64, prefix, e, recursive)
            == if FastExcluded(f, CString(FoundName(e)), CString(full), Window(full, |full| - 16), asDir) then 0
               else if asDir then FastListingHash(f, xxh64, full + [BACKSLASH], e.listing, recursive)
               else xxh64(LittleEndian(full), HASH_SEED)
  {
  }

  /** The digest of a directory: 0 when FindFirstFileEx fails. */
  function FastListingHash(f: FilterState, xxh64: Digester, prefix: seq<Unit>, listing: Listing, recursive: bool): Hash
    requires WellFormed(f)
    decreases listing
  {
    match listing
    case Unreadable => 0
    case Entries(items) => FastEntriesHash(f, xxh64, prefix, items, recursive)
  }

  /** The XOR of the contributions of `items`, in enumeration order. */
  function FastEntriesHash(f: FilterState, xxh64: Digester, prefix: seq<Unit>, items: seq<Entry>, recursive: bool): Hash
    requires WellFormed(f)
    decreases items
  {
    if items == [] then 0
    else
      Xor(FastEntriesHash(f, xxh64, prefix, items[..|items| - 1], recursive),
          FastEntryHash(f, xxh64, prefix, items[|items| - 1], recursive))
  }

  /** One more entry of the enumeration adds exactly its own contribution. */
  lemma FastEntriesHashStep(f: FilterState, xxh64: Digester, prefix: seq<Unit>, items: seq<Entry>, i: nat,
                            recursive: bool, sofar: Hash, c: Hash)
    requires WellFormed(f) && i < |items|
    requires sofar == FastEntriesHash(f, xxh64, prefix, items[..i], recursive)
    requires c == FastEntryHash(f, xxh64, prefix, items[i], recursive)
    ensures Xor(sofar, c) == FastEntriesHash(f, xxh64, prefix, items[..i + 1], recursive)
  {
    assert items[..i + 1][..i] == items[..i];
  }

  /** The digest of a directory is the XOR fold of its entries' contributions. */
  lemma {:induction false} FastEntriesHashIsFold(f: FilterState, xxh64: Digester, prefix: seq<Unit>,
                                                 items: seq<Entry>, recursive: bool)
    requires WellFormed(f)
    ensures FastEntriesHash(f, xxh64, prefix, items, recursive)
         == XorMap(e => FastEntryHash(f, xxh64, prefix, e, recursive), items)
    decreases |items|
  {
    if items != [] {
      FastEntriesHashIsFold(f, xxh64, prefix, items[..|items| - 1], recursive);
    }
  }

  /** Enumeration-order independence: the same entries in any order give the
      same digest. */
  lemma FastListingHashOrderIndependent(f: FilterState, xxh64: Digester, prefix: seq<Unit>,
                                        a: seq<Entry>, b: seq<Entry>, recursive: bool)
    requires WellFormed(f) && multiset(a) == multiset(b)
    ensures FastListingHash(f, xxh64, prefix, Entries(a), recursive)
         == FastListingHash(f, xxh64, prefix, Entries(b), recursive)
  {
    FastEntriesHashIsFold(f, xxh64, prefix, a, recursive);
    FastEntriesHashIsFold(f, xxh64, prefix, b, recursive);
    XorMapPermutation(e => FastEntryHash(f, xxh64, prefix, e, recursive), a, b);
  }

  /** Without recursion a directory is hashed exactly as a file of the same
      name would be: its path goes into the digest, its contents do not. */
  lemma NonRecursiveDirectoryHashedAsFile(f: FilterState, xxh64: Digester, prefix: seq<Unit>,
                                          name: string, listing: Listing)
    requires WellFormed(f)
    ensures FastEntryHash(f, xxh64, prefix, Dir(name, listing), false)
         == FastEntryHash(f, xxh64, prefix, File(name), false)
  {
  }

  /** With cleared slots and no ignore entries, every entry not starting with
      '.' that is not traversed contributes the digest of its whole path,
      whatever its extension. */
  lemma EveryPlainEntryHashed(f: FilterState, xxh64: Digester, prefix: seq<Unit>, e: Entry, recursive: bool)
    requires WellFormed(f) && SlotsCleared(f) && f.ignoreCount == 0
    requires FoundName(e)[0] != DOT && !(e.Dir? && recursive)
    ensures FastEntryHash(f, xxh64, prefix, e, recursive)
         == xxh64(LittleEndian(prefix + CString(FoundName(e))), HASH_SEED)
  {
    var full := prefix + CString(FoundName(e));
    ExtensionTestInert(f, CString(FoundName(e)), CString(full), Window(full, |full| - 16), false);
  }

  /** The path buffer has room for every write the scan of `listing` makes
      below `prefix`: the "*" query, each copied name with its NUL, and the
      separator and query of each subdirectory that may be traversed. */
  predicate Fits(prefix: seq<Unit>, listing: Listing, recursive: bool)
    decreases listing
  {
    |prefix| + 1 < PATHSIZE
    && (listing.Entries? ==>
          forall i :: 0 <= i < |listing.items| ==> EntryFits(prefix, listing.items[i], recursive))
  }

  predicate EntryFits(prefix: seq<Unit>, e: Entry, recursive: bool)
    decreases e
  {
    var found := FoundName(e);
    found[0] == DOT
    || (var full := prefix + CString(found);
        |full| < PATHSIZE
        && (e.Dir? && recursive ==> Fits(full + [BACKSLASH], e.listing, recursive)))
  }

  /** The root as `Scan` leaves it in the buffer: the converted path with a
      trailing backslash added unless it already ends in one. */
  function RootPrefix(root: seq<Unit>): (p: seq<Unit>)
    requires root != []
    ensures p == root || p == root + [BACKSLASH]
    ensures root[|root| - 1] == BACKSLASH ==> p == root
    ensures |p| > 0 && p[|p| - 1] == BACKSLASH
  {
    if root[|root| - 1] == BACKSLASH then root else root + [BACKSLASH]
  }

  /** The digest `Scan` returns for the path `root`: 0 when the path does not
      convert to at most PATHSIZE UTF-16 units. */
  function FastScanHash(f: FilterState, xxh64: Digester, root: string, listing: Listing, recursive: bool): Hash
    requires WellFormed(f)
  {
    match Widen(root, PATHSIZE)
    case None => 0
    case Some(units) => FastListingHash(f, xxh64, RootPrefix(units), listing, recursive)
  }

  predicate ScanFits(root: string, listing: Listing, recursive: bool)
  {
    match Widen(root, PATHSIZE)
    case None => true
    case Some(units) => Fits(RootPrefix(units), listing, recursive)
  }

  /** `/` turned into `\\`, every other unit kept. */
  function Backslashed(w: seq<Unit>): (r: seq<Unit>)
    ensures |r| == |w|
    ensures forall k :: 0 <= k < |w| ==> r[k] == (if w[k] == SLASH then BACKSLASH else w[k])
  {
    seq(|w|, k requires 0 <= k < |w| => if w[k] == SLASH then BACKSLASH else w[k])
  }

  /** The ignore-table row `AddIgnore` leaves behind for the converted units
      `u`: the units written, a NUL after them, the rest of `before` untouched, and
      every '/' before the first NUL turned into '\\'. */
  function StoredRow(before: seq<Unit>, u: seq<Unit>): (r: seq<Unit>)
    requires |u| < |before|
    ensures |r| == |before|
  {
    seq(|before|, k requires 0 <= k < |before| => StoredCell(before, u, |CString(u)|, k))
  }

  /** Unit `k` of the row once the units `u` and their NUL are written over
      `before` and the slash scan has passed the first `scanned` units. */
  function StoredCell(before: seq<Unit>, u: seq<Unit>, scanned: nat, k: nat): Unit
    requires |u| < |before| && scanned <= |u| && k < |before|
  {
    if k < scanned && u[k] == SLASH then BACKSLASH
    else if k < |u| then u[k]
    else if k == |u| then 0
    else before[k]
  }

  /** The ignore string a row holds after `AddIgnore`: the converted text, cut
      at its first NUL, with every '/' turned into the Windows separator. */
  lemma StoredRowString(before: seq<Unit>, u: seq<Unit>)
    requires |u| < |before|
    ensures CString(StoredRow(before, u)) == Backslashed(CString(u))
  {
    var r := StoredRow(before, u);
    var c := CString(u);
    var n := |c|;
    assert n < |u| ==> u[n] == 0;
    assert r[n] == 0;
    CStringAtNul(r, n);
    var b := Backslashed(c);
    forall k | 0 <= k < n
      ensures r[k] == b[k] && b[k] != 0
    {
      assert c[k] == u[k] && c[k] != 0;
    }
    assert r[..n] == b;
    CStringOfNulFree(b);
  }

  /** The strings of `es` that convert into at most `capacity` UTF-16 units,
      in order: those `AddExt` or `AddIgnore` accepts. */
  function Accepted(es: seq<string>, capacity: nat): (r: seq<string>)
    ensures |r| <= |es|
    ensures forall e :: e in r ==> e in es && Widen(e, capacity).Some?
  {
    if es == [] then []
    else
      var last := es[|es| - 1];
      Accepted(es[..|es| - 1], capacity) + (if Widen(last, capacity).Some? then [last] else [])
  }

  function Min(a: nat, b: nat): nat
  {
    if a < b then a else b
  }

  /** Reading the buffer after a name has been copied behind `prefix` and
      NUL-terminated: the short name, the whole path and the extension window
      are those of `prefix + name`, whatever follows the NUL. */
  lemma BufferAfterCopy(buf: seq<Unit>, prefix: seq<Unit>, name: seq<Unit>)
    requires 0 !in name
    requires |prefix| + |name| < |buf| && buf[..|prefix| + |name| + 1] == prefix + name + [0]
    ensures CString(buf[|prefix|..]) == name
    ensures CString(buf) == CString(prefix + name)
    ensures Window(buf, |prefix| + |name| - 16) == Window(prefix + name, |prefix| + |name| - 16)
  {
    var full := prefix + name;
    var n := |full|;
    assert buf[..n] == buf[..n + 1][..n];
    assert (full + [0])[..n] == full;
    WholeAfterCopy(buf, full);
    NameAfterCopy(buf, prefix, name);
    WindowPrefix(buf, n, n - 16);
  }

  lemma WholeAfterCopy(buf: seq<Unit>, full: seq<Unit>)
    requires |full| < |buf| && buf[..|full|] == full && buf[|full|] == 0
    ensures CString(buf) == CString(full)
  {
    CStringAtNul(buf, |full|);
  }

  lemma NameAfterCopy(buf: seq<Unit>, prefix: seq<Unit>, name: seq<Unit>)
    requires 0 !in name
    requires |prefix| + |name| < |buf| && buf[..|prefix| + |name| + 1] == prefix + name + [0]
    ensures CString(buf[|prefix|..]) == name
  {
    var n := |prefix| + |name|;
    var tail := buf[|prefix|..];
    assert tail[|name|] == buf[n] == (prefix + name + [0])[n] == 0;
    assert tail[..|name|] == buf[..n + 1][|prefix|..n] == (prefix + name + [0])[|prefix|..n] == name;
    CStringAtNul(tail, |name|);
    CStringOfNulFree(name);
  }

  lemma TakeOfTake(s: seq<Unit>, n: nat, m: nat)
    requires m <= n <= |s|
    ensures s[..n][..m] == s[..m]
  {
  }

  /** Overwriting unit `j` keeps everything before it. */
  lemma WriteAfter(before: seq<Unit>, after: seq<Unit>, j: nat, v: Unit)
    requires j < |before| && after == before[j := v]
    ensures after[..j + 1] == before[..j] + [v]
  {
  }

  /** `r` after `n` rounds of `_mm_srli_si128(r, 16)`. A shift by the whole
      width of the register leaves nothing of it. */
  function Shifted(r: Register, n: nat): (s: Register)
    ensures n > 0 ==> s == ZERO
  {
    if n == 0 then r else ShiftRightBytes(Shifted(r, n - 1), 16)
  }

  /** The eight zero units of `AddExt`'s `work`, which nothing writes. */
  const ZERO_WORK: seq<Unit> := [0, 0, 0, 0, 0, 0, 0, 0]

  /** The mask and the pattern `AddExt` stores for `ext`: the all-ones
      register and the load of `work`, each shifted once per byte of `ext`. */
  function StoredMask(ext: string): Register
  {
    Shifted(ALL_ONES, |Utf8(ext)|)
  }

  function StoredPattern(ext: string): Register
  {
    Shifted(Load(ZERO_WORK), |Utf8(ext)|)
  }

  /** Every extension `AddExt` accepts is stored as a zero mask and a zero
      pattern: the slot carries nothing of the extension itself. */
  lemma StoredSlotIsZero(ext: string, capacity: nat)
    requires Widen(ext, capacity).Some?
    ensures StoredMask(ext) == ZERO && StoredPattern(ext) == ZERO
  {
    assert |Utf8(ext)| >= |ext| > 0;
  }

  /** `AddExt` or `AddIgnore` takes `s` while fewer than `limit` entries are
      in use and `s` converts into at most `capacity` UTF-16 units. */
  predicate Admits(count: nat, limit: nat, s: string, capacity: nat)
  {
    count < limit && Widen(s, capacity).Some?
  }

  /** Adding the strings of `es` one by one, starting from zero entries in use:
      the count ends at the number accepted, capped at `limit`. */
  function AddedCount(es: seq<string>, limit: nat, capacity: nat): nat
  {
    Min(|Accepted(es, capacity)|, limit)
  }

  /** One more string offered to the loop of the constructor. */
  lemma {:induction false} AddedCountStep(es: seq<string>, i: nat, limit: nat, capacity: nat)
    requires i < |es|
    ensures Accepted(es[..i + 1], capacity) ==
            Accepted(es[..i], capacity) + (if Widen(es[i], capacity).Some? then [es[i]] else [])
    ensures AddedCount(es[..i + 1], limit, capacity) ==
            AddedCount(es[..i], limit, capacity)
            + (if Admits(AddedCount(es[..i], limit, capacity), limit, es[i], capacity) then 1 else 0)
  {
    assert es[..i + 1][..i] == es[..i];
  }

  /** Resetting a count to the number of option strings keeps every entry
      the constructor stored, since at most one entry is stored per string;
      it restores the constructor's count exactly when every option string
      was accepted. */
  lemma {:induction false} ResetKeepsConstructed(es: seq<string>, limit: nat, capacity: nat)
    requires |es| <= limit
    ensures AddedCount(es, limit, capacity) <= |es|
    ensures AddedCount(es, limit, capacity) == |es| <==>
            forall i :: 0 <= i < |es| ==> Widen(es[i], capacity).Some?
  {
    if es != [] {
      var init := es[..|es| - 1];
      ResetKeepsConstructed(init, limit, capacity);
      if !Widen(es[|es| - 1], capacity).Some? {
        assert |Accepted(es, capacity)| < |es|;
      } else if forall i :: 0 <= i < |init| ==> Widen(init[i], capacity).Some? {
        assert forall i :: 0 <= i < |es| ==> Widen(es[i], capacity).Some? by {
          forall i | 0 <= i < |es|
            ensures Widen(es[i], capacity).Some?
          {
            if i < |init| {
              assert es[i] == init[i];
            }
          }
        }
      } else {
        var j :| 0 <= j < |init| && !Widen(init[j], capacity).Some?;
        assert es[j] == init[j];
      }
    }
  }

  /** Overwriting unit `j` keeps everything before it, untouched. */
  lemma WriteBeyond(before: seq<Unit>, after: seq<Unit>, j: nat, v: Unit)
    requires j < |before| && after == before[j := v]
    ensures after[..j] == before[..j]
  {
  }

  /** `FastwinScanner`. The registers of the extension slots, the ignore table
      and the path buffer are arrays the methods update in place. */
  class FastwinScanner {
    /** `m_current_path`. */
    const path: array<Unit>
    /** `m_ext_masks` and `m_exts`. */
    const extMasks: array<Register>
    const exts: array<Register>
    var extCount: nat
    /** `m_ignores`: one NUL-terminated wide string per row. */
    const ignores: array2<Unit>
    var ignoreCount: nat
    var recursive: bool
    const opts: Options

    /** The buffers have their declared sizes and the counts stay within them. */
    predicate Valid()
      reads this`extCount, this`ignoreCount
    {
      path.Length == PATHSIZE
      && extMasks.Length == MAX_EXT_FILTERS && exts.Length == MAX_EXT_FILTERS
      && ignores.Length0 == IGNORE_FIELDSIZE && ignores.Length1 == MAX_IGNORE_FILTERS
      && extCount <= MAX_EXT_FILTERS && ignoreCount <= MAX_IGNORE_FILTERS
    }

    /** Every extension slot holds zero registers. */
    predicate Cleared()
      requires Valid()
      reads this`extCount, this`ignoreCount, extMasks, exts
    {
      forall i :: 0 <= i < MAX_EXT_FILTERS ==> extMasks[i] == ZERO && exts[i] == ZERO
    }

    /** Row `r` of the ignore table. */
    function Row(r: nat): (w: seq<Unit>)
      requires ignores.Length0 == IGNORE_FIELDSIZE && ignores.Length1 == MAX_IGNORE_FILTERS
      requires r < IGNORE_FIELDSIZE
      reads ignores
      ensures |w| == MAX_IGNORE_FILTERS
    {
      seq(MAX_IGNORE_FILTERS, k requires 0 <= k < MAX_IGNORE_FILTERS reads ignores => ignores[r, k])
    }

    function Filters(): (f: FilterState)
      requires Valid()
      reads this`extCount, this`ignoreCount, extMasks, exts, ignores
      ensures WellFormed(f)
      ensures Cleared() <==> SlotsCleared(f)
    {
      FilterState(extCount, extMasks[..], exts[..], ignoreCount,
                  seq(IGNORE_FIELDSIZE, r requires 0 <= r < IGNORE_FIELDSIZE reads ignores =>
                        CString(Row(r))))
    }

    /** MultiByteToWideChar into the front of the path buffer: on success the
        units of `s` are written from index 0 and their number is returned;
        on failure 0 is returned. */
    method ConvertIntoPath(s: string, capacity: nat) returns (length: nat)
      requires path.Length == PATHSIZE && capacity <= PATHSIZE
      modifies path
      ensures Widen(s, capacity).None? ==> length == 0 && path[..] == old(path[..])
      ensures Widen(s, capacity).Some? ==>
                length == |Utf16(s)| && path[..length] == Utf16(s)
                && path[length..] == old(path[length..])
    {
      var w := Widen(s, capacity);
      if w.None? {
        return 0;
      }
      var u := w.value;
      forall k | 0 <= k < |u| {
        path[k] := u[k];
      }
      length := |u|;
    }

    /** `AddExt`: nothing happens once 64 slots are in use. Otherwise `ext`
        is converted into the front of the path buffer, used as scratch; when
        it does not convert into eight units nothing more happens, else the
        next slot receives the mask and the pattern, both shifted once per
        byte of `ext`. */
    method AddExt(ext: string)
      requires Valid()
      modifies this`extCount, path, extMasks, exts
      ensures Valid()
      ensures Admits(old(extCount), MAX_EXT_FILTERS, ext, EXT_CAPACITY) ==>
                extCount == old(extCount) + 1
                && extMasks[..] == old(extMasks[..])[old(extCount) := StoredMask(ext)]
                && exts[..] == old(exts[..])[old(extCount) := StoredPattern(ext)]
      ensures !Admits(old(extCount), MAX_EXT_FILTERS, ext, EXT_CAPACITY) ==>
                extCount == old(extCount)
                && extMasks[..] == old(extMasks[..]) && exts[..] == old(exts[..])
      ensures old(extCount) == MAX_EXT_FILTERS || Widen(ext, EXT_CAPACITY).None? ==> path[..] == old(path[..])
      ensures Admits(old(extCount), MAX_EXT_FILTERS, ext, EXT_CAPACITY) ==>
                path[..|Utf16(ext)|] == Utf16(ext) && path[|Utf16(ext)|..] == old(path[|Utf16(ext)|..])
      ensures old(Cleared()) ==> Cleared()
    {
      if extCount == MAX_EXT_FILTERS {
        return;
      }
      var length := ConvertIntoPath(ext, EXT_CAPACITY);
      if length == 0 {
        return;
      }
      var mask := ALL_ONES;
      var mext := Load(ZERO_WORK);
      var bytes := |Utf8(ext)|;
      var i := 0;
      while i < bytes
        invariant i <= bytes
        invariant mask == Shifted(ALL_ONES, i) && mext == Shifted(Load(ZERO_WORK), i)
      {
        mask := ShiftRightBytes(mask, 16);
        mext := ShiftRightBytes(mext, 16);
        i := i + 1;
      }
      StoredSlotIsZero(ext, EXT_CAPACITY);
      extMasks[extCount] := mask;
      exts[extCount] := mext;
      extCount := extCount + 1;
    }

    /** `AddIgnore`: nothing happens once 64 rows are in use or when `ignore`
        does not convert into 63 units; otherwise the next row receives the
        units and a NUL after them, every '/' before the first NUL is turned
        into '\\', and the count goes up by one. No other row changes. */
    method AddIgnore(ignore: string)
      requires Valid()
      modifies this`ignoreCount, ignores
      ensures Valid()
      ensures Admits(old(ignoreCount), MAX_IGNORE_FILTERS, ignore, IGNORE_FIELDSIZE - 1) ==>
                ignoreCount == old(ignoreCount) + 1
                && Row(old(ignoreCount)) == StoredRow(old(Row(ignoreCount)), Utf16(ignore))
                && CString(Row(old(ignoreCount))) == Backslashed(CString(Utf16(ignore)))
      ensures !Admits(old(ignoreCount), MAX_IGNORE_FILTERS, ignore, IGNORE_FIELDSIZE - 1) ==>
                ignoreCount == old(ignoreCount)
                && forall r :: 0 <= r < IGNORE_FIELDSIZE ==> Row(r) == old(Row(r))
      ensures forall r :: 0 <= r < IGNORE_FIELDSIZE && r != old(ignoreCount) ==> Row(r) == old(Row(r))
    {
      if ignoreCount == MAX_IGNORE_FILTERS {
        return;
      }
      var w := Widen(ignore, IGNORE_FIELDSIZE - 1);
      if w.None? {
        return;
      }
      var u := w.value;
      var row := ignoreCount;
      ghost var before := Row(row);
      StoreUnits(row, u);
      BackslashRow(row, u, before);
      assert Row(row) == StoredRow(before, u);
      StoredRowString(before, u);
      ignoreCount := ignoreCount + 1;
    }

    /** The first half of `AddIgnore`: the units of the converted string, then
        a NUL, are copied into row `row`. */
    method StoreUnits(row: nat, u: seq<Unit>)
      requires Valid() && row < IGNORE_FIELDSIZE && |u| < MAX_IGNORE_FILTERS
      modifies ignores
      ensures forall k :: 0 <= k < MAX_IGNORE_FILTERS ==> ignores[row, k] == StoredCell(old(Row(row)), u, 0, k)
      ensures forall r, k :: 0 <= r < IGNORE_FIELDSIZE && r != row && 0 <= k < MAX_IGNORE_FILTERS ==>
                ignores[r, k] == old(ignores[r, k])
    {
      forall k | 0 <= k < |u| {
        ignores[row, k] := u[k];
      }
      ignores[row, |u|] := 0;
    }

    /** The second half of `AddIgnore`: each '/' before the first NUL of row
        `row` becomes '\\'. */
    method BackslashRow(row: nat, ghost u: seq<Unit>, ghost before: seq<Unit>)
      requires Valid() && row < IGNORE_FIELDSIZE && |u| < MAX_IGNORE_FILTERS && |before| == MAX_IGNORE_FILTERS
      requires forall k :: 0 <= k < MAX_IGNORE_FILTERS ==> ignores[row, k] == StoredCell(before, u, 0, k)
      modifies ignores
      ensures forall k :: 0 <= k < MAX_IGNORE_FILTERS ==>
                ignores[row, k] == StoredCell(before, u, |CString(u)|, k)
      ensures forall r, k :: 0 <= r < IGNORE_FIELDSIZE && r != row && 0 <= k < MAX_IGNORE_FILTERS ==>
                ignores[r, k] == old(ignores[r, k])
    {
      var scan := 0;
      while ignores[row, scan] != 0
        invariant scan <= |CString(u)|
        invariant forall k :: 0 <= k < MAX_IGNORE_FILTERS ==> ignores[row, k] == StoredCell(before, u, scan, k)
        invariant forall r, k :: 0 <= r < IGNORE_FIELDSIZE && r != row && 0 <= k < MAX_IGNORE_FILTERS ==>
                    ignores[r, k] == old(ignores[r, k])
        decreases |CString(u)| - scan
      {
        if ignores[row, scan] == SLASH {
          ignores[row, scan] := BACKSLASH;
        }
        scan := scan + 1;
      }
    }

    /** The constructor: every option extension is offered to `AddExt`, then
        every option ignore string to `AddIgnore`, in order. The tables start
        zeroed and the scanner starts non-recursive. */
    constructor(opts: Options)
      ensures Valid() && Cleared() && this.opts == opts && !recursive
      ensures extCount == AddedCount(opts.exts, MAX_EXT_FILTERS, EXT_CAPACITY)
      ensures ignoreCount == AddedCount(opts.ignores, MAX_IGNORE_FILTERS, IGNORE_FIELDSIZE - 1)
      ensures forall r :: 0 <= r < ignoreCount ==>
                CString(Row(r)) ==
                Backslashed(CString(Utf16(Accepted(opts.ignores, IGNORE_FIELDSIZE - 1)[r])))
    {
      path := new Unit[PATHSIZE](_ => 0);
      extMasks := new Register[MAX_EXT_FILTERS](_ => ZERO);
      exts := new Register[MAX_EXT_FILTERS](_ => ZERO);
      ignores := new Unit[IGNORE_FIELDSIZE, MAX_IGNORE_FILTERS]((_, _) => 0);
      extCount := 0;
      ignoreCount := 0;
      recursive := false;
      this.opts := opts;
      new;
      AddOptionExts();
      AddOptionIgnores();
    }

    /** The constructor's first loop: each option extension offered to `AddExt`. */
    method AddOptionExts()
      requires Valid() && Cleared() && extCount == 0
      modifies this`extCount, path, extMasks, exts
      ensures Valid() && Cleared()
      ensures extCount == AddedCount(opts.exts, MAX_EXT_FILTERS, EXT_CAPACITY)
    {
      var i := 0;
      while i < |opts.exts|
        invariant i <= |opts.exts|
        invariant Valid() && Cleared()
        invariant extCount == AddedCount(opts.exts[..i], MAX_EXT_FILTERS, EXT_CAPACITY)
      {
        AddedCountStep(opts.exts, i, MAX_EXT_FILTERS, EXT_CAPACITY);
        AddExt(opts.exts[i]);
        i := i + 1;
      }
      assert opts.exts[..i] == opts.exts;
    }

    /** The constructor's second loop: each option ignore string offered to
        `AddIgnore`; row `r` ends up holding the `r`-th accepted one. */
    method AddOptionIgnores()
      requires Valid() && ignoreCount == 0
      modifies this`ignoreCount, ignores
      ensures Valid()
      ensures ignoreCount == AddedCount(opts.ignores, MAX_IGNORE_FILTERS, IGNORE_FIELDSIZE - 1)
      ensures forall r :: 0 <= r < ignoreCount ==>
                CString(Row(r)) ==
                Backslashed(CString(Utf16(Accepted(opts.ignores, IGNORE_FIELDSIZE - 1)[r])))
    {
      var i := 0;
      ghost var cap := IGNORE_FIELDSIZE - 1;
      ghost var held: seq<string> := [];
      while i < |opts.ignores|
        invariant i <= |opts.ignores| && Valid()
        invariant held == Accepted(opts.ignores[..i], cap)
        invariant ignoreCount == Min(|held|, MAX_IGNORE_FILTERS)
        invariant RowsHold(held, ignoreCount)
      {
        AddedCountStep(opts.ignores, i, MAX_IGNORE_FILTERS, cap);
        held := OfferIgnore(opts.ignores[i], held);
        i := i + 1;
      }
      assert opts.ignores[..i] == opts.ignores;
    }

    /** One pass of the constructor's second loop: `AddIgnore(s)` after the
        strings of `held` were accepted in turn. */
    method OfferIgnore(s: string, ghost held: seq<string>) returns (ghost now: seq<string>)
      requires Valid() && ignoreCount == Min(|held|, MAX_IGNORE_FILTERS) && RowsHold(held, ignoreCount)
      modifies this`ignoreCount, ignores
      ensures now == held + (if Widen(s, IGNORE_FIELDSIZE - 1).Some? then [s] else [])
      ensures Valid() && ignoreCount == Min(|now|, MAX_IGNORE_FILTERS) && RowsHold(now, ignoreCount)
    {
      now := held + (if Widen(s, IGNORE_FIELDSIZE - 1).Some? then [s] else []);
      ghost var row := ignoreCount;
      ghost var admitted := Admits(row, MAX_IGNORE_FILTERS, s, IGNORE_FIELDSIZE - 1);
      label added:
      AddIgnore(s);
      assert ignoreCount == if admitted then row + 1 else row;
      forall r | 0 <= r < ignoreCount
        ensures CString(Row(r)) == Backslashed(CString(Utf16(now[r])))
      {
        if r == row {
          assert admitted && now[r] == s;
        } else {
          assert Row(r) == old@added(Row(r)) && now[r] == held[r];
        }
      }
    }

    /** Rows 0 to `n - 1` hold, as C strings, the strings of `held` with each
        '/' turned into '\\'. */
    ghost predicate RowsHold(held: seq<string>, n: nat)
      requires ignores.Length0 == IGNORE_FIELDSIZE && ignores.Length1 == MAX_IGNORE_FILTERS
      requires n <= IGNORE_FIELDSIZE && n <= |held|
      reads ignores
    {
      forall r :: 0 <= r < n ==> CString(Row(r)) == Backslashed(CString(Utf16(held[r])))
    }

    /** `ResetExts`: the count of slots in use becomes the number of option
        extensions, whatever was added or rejected since. */
    method ResetExts()
      requires Valid() && |opts.exts| <= MAX_EXT_FILTERS
      modifies this`extCount
      ensures Valid() && extCount == |opts.exts|
    {
      extCount := |opts.exts|;
    }

    /** `ResetIgnores`: likewise for the rows of the ignore table. */
    method ResetIgnores()
      requires Valid() && |opts.ignores| <= MAX_IGNORE_FILTERS
      modifies this`ignoreCount
      ensures Valid() && ignoreCount == |opts.ignores|
    {
      ignoreCount := |opts.ignores|;
    }

    /** `Scan`: convert `root` into the path buffer (returning 0 when it does
        not convert), record `rec`, end the root with exactly one backslash,
        NUL-terminate it and scan the directory `root` names in `fs`. */
    method Scan(xxh64: Digester, fs: FileSystem, root: string, rec: bool) returns (hash: Hash)
      requires Valid() && ScanFits(root, Open(fs, root), rec)
      modifies this`recursive, path
      ensures hash == FastScanHash(Filters(), xxh64, root, Open(fs, root), rec)
      ensures Widen(root, PATHSIZE).None? ==> recursive == old(recursive) && path[..] == old(path[..])
      ensures Widen(root, PATHSIZE).Some? ==>
                recursive == rec
                && path[..|RootPrefix(Utf16(root))|] == RootPrefix(Utf16(root))
    {
      var listing := Open(fs, root);
      var length := ConvertIntoPath(root, PATHSIZE);
      if length == 0 {
        return 0;
      }
      recursive := rec;
      var start := EndRoot(length, Utf16(root));
      ghost var f := Filters();
      ghost var prefix := RootPrefix(Utf16(root));
      assert Fits(prefix, listing, rec)
             && FastScanHash(f, xxh64, root, listing, rec) == FastListingHash(f, xxh64, prefix, listing, rec);
      hash := ScanInner(xxh64, start, listing, f, prefix);
    }

    /** The root's end in `Scan`: a backslash is added after the `length`
        converted units unless the last of them is one, and a NUL follows. */
    method EndRoot(length: nat, ghost root: seq<Unit>) returns (start: nat)
      requires path.Length == PATHSIZE && root != [] && length == |root|
      requires |RootPrefix(root)| < PATHSIZE && path[..length] == root
      modifies path
      ensures start == |RootPrefix(root)| && path[..start] == RootPrefix(root)
    {
      ghost var converted := path[..];
      TakeOfTake(converted, length, length);
      start := length;
      if path[start - 1] != BACKSLASH {
        path[start] := BACKSLASH;
        WriteAfter(converted, path[..], start, BACKSLASH);
        start := start + 1;
      }
      ghost var ended := path[..];
      path[start] := 0;
      WriteBeyond(ended, path[..], start, 0);
    }

    /** `IsExcluded`: for a file with extension slots in use, the register
        loaded from sixteen units before `end` is tried against each slot in
        turn and excludes when none matches; then each ignore row is compared,
        as a wide C string, with the name starting at `nameStart` and with the
        whole buffer. */
    method IsExcluded(nameStart: nat, end: nat, isDirectory: bool) returns (r: bool)
      requires Valid()
      requires nameStart <= end < PATHSIZE
      ensures r == FastExcluded(Filters(), CString(path[nameStart..]), CString(path[..]),
                                Window(path[..], end - 16), isDirectory)
    {
      var window := Window(path[..], end - 16);
      if !isDirectory && extCount > 0 {
        var found := MatchSlots(window);
        if !found {
          return true;
        }
      }
      r := MatchIgnores(CString(path[nameStart..]), CString(path[..]));
    }

    /** The extension loop of `IsExcluded`: the register loaded from `window`
        is tried against slots 0 to `extCount - 1` in turn, stopping at the
        first whose masked value equals its pattern. */
    method MatchSlots(window: seq<Unit>) returns (found: bool)
      requires Valid() && |window| == 8
      ensures found == SlotHit(Filters(), window, extCount)
    {
      ghost var f := Filters();
      var ext := Load(window);
      var i := 0;
      while i < extCount
        invariant i <= extCount
        invariant !SlotHit(f, window, i)
      {
        assert f.masks[i] == extMasks[i] && f.exts[i] == exts[i];
        var masked := And(ext, extMasks[i]);
        var neq := XorRegisters(masked, exts[i]);
        if TestAllZeros(neq, neq) {
          assert SlotMatches(f, i, window);
          SlotHitIff(f, window, extCount);
          return true;
        }
        i := i + 1;
      }
      return false;
    }

    /** The ignore loop of `IsExcluded`: rows 0 to `ignoreCount - 1`, each read
        as a wide C string, are compared with the short name and then with the
        whole path. */
    method MatchIgnores(pathShort: seq<Unit>, whole: seq<Unit>) returns (hit: bool)
      requires Valid()
      ensures hit == IgnoreHit(Filters(), pathShort, whole, ignoreCount)
    {
      ghost var f := Filters();
      IgnoreHitIff(f, pathShort, whole, ignoreCount);
      var i := 0;
      while i < ignoreCount
        invariant i <= ignoreCount
        invariant !IgnoreHit(f, pathShort, whole, i)
      {
        var ignoreString := CString(Row(i));
        assert ignoreString == f.ignores[i];
        if pathShort == ignoreString {
          return true;
        }
        if whole == ignoreString {
          return true;
        }
        i := i + 1;
      }
      return false;
    }

    /** `ScanInner`: append the "*" query at `start`, enumerate the directory
        (`listing` is what FindFirstFileEx/FindNextFile report for it) and XOR
        in what each entry contributes. The part of the buffer before `start`
        is left as it was. */
    method ScanInner(xxh64: Digester, start: nat, listing: Listing, ghost f: FilterState, ghost prefix: seq<Unit>)
        returns (hash: Hash)
      requires Valid()
      requires f == Filters() && start <= PATHSIZE && path[..start] == prefix
      requires Fits(prefix, listing, recursive)
      modifies path
      ensures path[..start] == prefix
      ensures hash == FastListingHash(f, xxh64, prefix, listing, recursive)
      decreases listing, 2
    {
      path[start] := STAR;
      path[start + 1] := 0;
      assert path[..start] == prefix;
      if listing.Unreadable? {
        return 0;
      }
      hash := 0;
      var items := listing.items;
      var i := 0;
      while i < |items|
        invariant i <= |items|
        invariant Filters() == f && path[..start] == prefix
        invariant hash == FastEntriesHash(f, xxh64, prefix, items[..i], recursive)
      {
        assert EntryFits(prefix, items[i], recursive);
        var c := ScanEntry(xxh64, start, items[i], f, prefix);
        assert c == FastEntryHash(f, xxh64, prefix, items[i], recursive);
        FastEntriesHashStep(f, xxh64, prefix, items, i, recursive, hash, c);
        hash := Xor(hash, c);
        i := i + 1;
      }
      assert items[..i] == items;
    }

    /** The copy loop of `ScanInner`: the units of `found` up to its first NUL
        are written from `start` on and a NUL after them; `end` is where
        that NUL went. */
    method CopyName(start: nat, found: seq<Unit>) returns (end: nat)
      requires path.Length == PATHSIZE && 0 in found
      requires start + |CString(found)| < PATHSIZE
      modifies path
      ensures end == start + |CString(found)|
      ensures path[..end + 1] == old(path[..start]) + CString(found) + [0]
    {
      ghost var prefix := path[..start];
      ghost var name := CString(found);
      end := start;
      var k := 0;
      while found[k] != 0
        invariant k <= |name| && found[..k] == name[..k]
        invariant end == start + k
        invariant path[..end] == prefix + found[..k]
        decreases |name| - k
      {
        path[end] := found[k];
        assert found[..k + 1] == found[..k] + [found[k]];
        end := end + 1;
        k := k + 1;
      }
      assert found[..k] == name;
      path[end] := 0;
    }

    /** One pass of `ScanInner`'s enumeration loop, for the entry `e` found in
        the directory whose path ends at `start`: skip a name starting with
        '.', copy the name behind `start` up to its NUL, then either recurse
        into a directory or hash the whole path. */
    method ScanEntry(xxh64: Digester, start: nat, e: Entry, ghost f: FilterState, ghost prefix: seq<Unit>)
        returns (c: Hash)
      requires Valid()
      requires f == Filters() && start <= PATHSIZE && path[..start] == prefix
      requires EntryFits(prefix, e, recursive)
      modifies path
      ensures path[..start] == prefix
      ensures c == FastEntryHash(f, xxh64, prefix, e, recursive)
      decreases e, 1
    {
      var found := FoundName(e);
      if found[0] == DOT {
        return 0;
      }
      ghost var name := CString(found);
      var end := CopyName(start, found);
      if e.Dir? && recursive {
        c := ScanSubdirectory(xxh64, start, end, e, f, prefix);
      } else {
        c := ScanFile(xxh64, start, end, e, f, prefix);
      }
    }

    /** The file branch of `ScanInner`'s loop, taken by anything but a
        directory being traversed, once its name has been copied behind
        `start` and NUL-terminated at `end`: unless excluded, XXH64 of the
        bytes of the path before the NUL. */
    method ScanFile(xxh64: Digester, start: nat, end: nat, e: Entry,
                    ghost f: FilterState, ghost prefix: seq<Unit>) returns (c: Hash)
      requires Valid()
      requires f == Filters() && !(e.Dir? && recursive) && FoundName(e)[0] != DOT
      requires start == |prefix| && end == start + |CString(FoundName(e))| && end < PATHSIZE
      requires path[..end + 1] == prefix + CString(FoundName(e)) + [0]
      ensures path[..start] == prefix
      ensures c == FastEntryHash(f, xxh64, prefix, e, recursive)
    {
      ghost var name := CString(FoundName(e));
      ghost var full := prefix + name;
      assert path[..end] == full && path[..start] == prefix by {
        ghost var copied := path[..];
        TakeOfTake(copied, end + 1, end);
        TakeOfTake(copied, end + 1, start);
        assert (full + [0])[..end] == full && (full + [0])[..start] == prefix;
      }
      var excluded := ExcludedAfterCopy(start, end, false, f, prefix, name);
      EntryHashCases(f, xxh64, prefix, e, recursive);
      if excluded {
        c := 0;
      } else {
        c := xxh64(LittleEndian(path[..end]), HASH_SEED);
      }
    }

    /** `IsExcluded` called right after a name has been copied behind
        `prefix` and NUL-terminated: it decides on the name and the path
        themselves, whatever the buffer holds past the NUL. */
    method ExcludedAfterCopy(start: nat, end: nat, isDirectory: bool,
                             ghost f: FilterState, ghost prefix: seq<Unit>, ghost name: seq<Unit>)
        returns (excluded: bool)
      requires Valid()
      requires f == Filters() && 0 !in name
      requires start == |prefix| && end == start + |name| && end < PATHSIZE
      requires path[..end + 1] == prefix + name + [0]
      ensures excluded == FastExcluded(f, name, CString(prefix + name),
                                       Window(prefix + name, end - 16), isDirectory)
    {
      BufferAfterCopy(path[..], prefix, name);
      excluded := IsExcluded(start, end, isDirectory);
    }

    /** The directory branch of `ScanInner`'s loop, once the name of the
        directory `e` has been copied behind `start` and NUL-terminated at
        `end`: unless excluded, a backslash replaces the NUL and the
        subdirectory is scanned from there. */
    method ScanSubdirectory(xxh64: Digester, start: nat, end: nat, e: Entry,
                            ghost f: FilterState, ghost prefix: seq<Unit>) returns (c: Hash)
      requires Valid()
      requires f == Filters() && e.Dir? && recursive && FoundName(e)[0] != DOT
      requires start == |prefix| && end == start + |CString(FoundName(e))| && end < PATHSIZE
      requires path[..end + 1] == prefix + CString(FoundName(e)) + [0]
      requires EntryFits(prefix, e, recursive)
      modifies path
      ensures path[..start] == prefix
      ensures c == FastEntryHash(f, xxh64, prefix, e, recursive)
      decreases e, 0
    {
      ghost var name := CString(FoundName(e));
      ghost var full := prefix + name;
      c := 0;
      var excluded := ExcludedAfterCopy(start, end, true, f, prefix, name);
      ghost var copied := path[..];
      TakeOfTake(copied, end + 1, start);
      assert (full + [0])[..start] == prefix;
      if !excluded {
        path[end] := BACKSLASH;
        WriteAfter(copied, path[..], end, BACKSLASH);
        c := ScanInner(xxh64, end + 1, e.listing, f, full + [BACKSLASH]);
        ghost var after := path[..];
        TakeOfTake(after, end + 1, start);
        assert (full + [BACKSLASH])[..start] == prefix;
      }
      EntryHashCases(f, xxh64, prefix, e, recursive);
    }
  }
}
