# treehash in Dafny

treehash computes a single 64-bit digest for a directory tree. Each regular
file that survives a set of filters contributes the XXH64 digest of its path
(seed `HASH_SEED = 0`). The contributions are combined with XOR. This project
models the tree-hashing engines of treehash and proves what they compute:

- `DefaultBackend` (default_scanner.h) is the portable scanner. Its filter
  state is two sets: an extension allow-set and the ignore entries.
  - `IsExcluded` applies a fixed order of rules: a dot-prefixed name, then
    the extension allow-set (files only), then an exact ignore match on the
    filename or on the whole generic path.
  - `ScanRecursion` XOR-folds the digests of included files and, when
    recursive, of included subdirectories.
- `FastwinBackend` (fastwin_scanner.h) is the Windows scanner.
  - Its filter state lives in fixed arrays with counters: 64 pairs of
    128-bit extension masks and patterns, and a 64 x 64 table of wide ignore
    strings.
  - Every path is built in place in one 32768-unit wide-character buffer.
  - The extension test is a masked compare of a 128-bit register loaded from
    the buffer.
  - The model keeps the arrays and the buffer as Dafny arrays updated in
    place. The methods are proved against specification functions
    (`FastListingHash`, `FastExcluded`).
- `LegacyHash` (hash.cpp) is the older engine. It has:
  - global exclude sets;
  - `AddFolder`, which starts each recursive call from the running hash;
  - an input-file reader with a `[files]` header, trimmed lines and a
    trailing `*` for recursion;
  - `HashHex`, the 16-digit upper-case hexadecimal rendering.
- `Util` (util.h) holds `trim` and `InplaceTrim` with the C-locale `isspace`.

Supporting modules:
- `Digest`: `Hash` as a 64-bit value, XOR on 64 bits, and XOR folds over
  sequences (a fold does not depend on the order).
- `Unicode`: UTF-8 and UTF-16 encoding, `MultiByteToWideChar` as a partial
  conversion, and C strings.
- `Paths`: `filename()`, `extension()` and `operator/` of `std::filesystem`
  for POSIX paths, as sections [fs.path.decompose] (`filename()`,
  `extension()`) and [fs.path.append] (`operator/`) of ISO/IEC 14882:2017
  define them.
- `FileTree`: an abstract file system of entries that are files,
  directories (with a listing, or unreadable) or other objects.
- `RunOptions`: the `opt_exts` and `opt_ignores` defaults.

How the model is set up:
- A C++ `std::string` is the sequence of characters its UTF-8 bytes decode to.
- The bytes given to XXH64 are `Utf8(path)` in the portable and legacy
  engines, and the little-endian bytes of the wide buffer in the Windows
  scanner.
- XXH64 is a parameter of type `Digester`. So are `lexically_relative` and
  the file system, inside `Env`.
- The two scanners are modelled independently. They do not agree: the
  Windows scanner hashes UTF-16 paths, sends non-recursive directories down
  the file branch, and its extension slots are always zero.

Behaviours of the source that the model reproduces as written and proves:
- `AddExt` of the Windows scanner stores an all-zero mask and an all-zero
  pattern for every accepted extension (`StoredSlotIsZero`). As a
  consequence, once any extension is in use the extension test lets every
  file through (`ExtensionTestInert`, `EveryPlainEntryHashed`).
- Without recursion, the Windows scanner hashes a directory exactly as it
  would hash a file of the same name (`NonRecursiveDirectoryHashedAsFile`).
- `AddFolder` in hash.cpp XORs each subdirectory's result, computed from the
  running hash, into that running hash. This cancels what came before
  (`SubdirectoryDropsRunningHash`, `FileBeforeSubdirectoryLost`).
- `ProcessInputFile` returns 0 whatever it scanned.
- Only an exact, unpadded `[files]` line switches `ProcessInputFile` to
  folder mode (`OnlyExactHeaderSwitches`). A padded one, such as the
  `[files]\r` of a file with CRLF line ends, is trimmed and read as an
  ordinary line (`PaddedHeaderIsAFolder`).
- hash.cpp reads `opt_excludes` and `opt_basepath`. options.h does not declare
  `opt_excludes`, so the model takes the exclude patterns as a constructor
  argument of `LegacyHasher`.

## Model

| member | source | states |
|---|---|---|
| DefaultBackend.DotNamesExcluded | source/default_scanner.h:28-32 | a path whose filename starts with '.' is excluded, file or directory, whatever the two sets hold |
| DefaultBackend.DirectoriesSkipExtensionRule | source/default_scanner.h:34-47 | a directory is excluded iff its filename starts with '.', or its filename or whole path is an ignore entry; the extension rule never applies |
| DefaultBackend.ExtensionRule | source/default_scanner.h:37-40 | for a file not starting with '.': with a non-empty allow-set, an extension outside it excludes; with an empty allow-set, exclusion is decided by the ignore entries alone |
| DefaultBackend.IgnoreRule | source/default_scanner.h:43-49 | an entry that passes the dot and extension rules is excluded iff its filename or its whole path equals an ignore entry |
| DefaultBackend.EntriesHashIsFold | source/default_scanner.h:53-88 | a directory's digest is the XOR fold of the contributions of its entries |
| DefaultBackend.ListingHashOrderIndependent | source/default_scanner.h:65-86 | two listings with the same entries in any order give the same digest |
| DefaultBackend.NothingListedHashesToZero | source/default_scanner.h:57-63 | an empty directory and a directory the iterator cannot open both hash to 0 |
| DefaultBackend.NonRecursiveHashesOnlyFiles | source/default_scanner.h:66-69 | without recursion the digest equals the digest of the regular files alone: subdirectories are neither traversed nor hashed |
| DefaultBackend.DotEntryContributesNothing | source/default_scanner.h:66-71 | an entry named with a leading '.' contributes 0, recursive or not, whatever the filters hold |
| DefaultBackend.PlainFileContributes | source/default_scanner.h:69-80 | with an empty allow-set, a non-dot, non-ignored regular file contributes XXH64 of its generic path with seed 0 |
| DefaultBackend.DefaultScanner.constructor | source/default_scanner.h:123-126 | the two sets start as exactly the elements of the option extensions and the option ignores |
| DefaultBackend.DefaultScanner.ResetExts | source/default_scanner.h:97-102 | the extension set becomes exactly the elements of the option extensions, so earlier additions are gone; the ignore set is unchanged |
| DefaultBackend.DefaultScanner.ResetIgnores | source/default_scanner.h:105-110 | the ignore set becomes exactly the elements of the option ignores; the extension set is unchanged |
| DefaultBackend.DefaultScanner.AddExt | source/default_scanner.h:113-115 | set insertion (adding a value twice equals adding it once); the ignore set is untouched |
| DefaultBackend.DefaultScanner.AddIgnore | source/default_scanner.h:118-120 | set insertion; the extension set is untouched |
| DefaultBackend.DefaultScanner.IsExcluded | source/default_scanner.h:25-50 | the loop over the ignore set returns the precedence rule `Excluded` on the current sets |
| DefaultBackend.DefaultScanner.ScanRecursion | source/default_scanner.h:53-88 | the loop returns `ListingHash`, the XOR of the contributions of included files and (when recursive) included subdirectories, and 0 for an unreadable directory |
| DefaultBackend.DefaultScanner.Scan | source/default_scanner.h:92-94 | the digest of the directory the path names in the file system |
| Paths.FilenameOfJoin | source/default_scanner.h:28 | the filename of `dir / name` is `name` for a non-empty, separator-free name |
| Paths.ExtensionOfName | source/default_scanner.h:38 | the extension of `dir / stem.suffix` is `.suffix` when the suffix has no dot |
| Util.SkipLeading | source/util.h:10-11 | the forward scan stops at the first non-space (or the end), with only spaces before it |
| Util.SkipTrailing | source/util.h:13-14 | the backward scan stops after the last non-space, never below the forward iterator |
| Util.Trimmed | source/util.h:8-17 | the result neither starts nor ends with whitespace and is no longer than the input |
| Util.TrimmedSplit | source/util.h:16 | the input is a run of whitespace, the result, and a run of whitespace: only whitespace is removed, before and after a contiguous slice |
| Util.TrimmedEmptyIffAllSpace | source/util.h:11-14 | empty or all-whitespace input, and only such input, trims to the empty string |
| Util.TrimmedUnique | source/util.h:8-17 | for any split into whitespace, a core that neither starts nor ends with a space, and whitespace, trimming gives that core |
| Util.TrimmedIdempotent | source/util.h:8-17 | trimming twice equals trimming once |
| Util.Trim | source/util.h:8-17 | the two iterator loops and the slice return `Trimmed(s)` |
| Util.InplaceTrim | source/util.h:20-28 | after the two in-place erasures the string equals `Trimmed` of its old value |
| LegacyHash.HexDigits | source/hash.cpp:26-29 | `n` digits, each an upper-case hexadecimal digit |
| LegacyHash.Hex | source/hash.cpp:19-31 | exactly 16 characters, each in 0-9A-F |
| LegacyHash.HexDigitsRoundTrip | source/hash.cpp:26-29 | the `n` digits of a value below 16^n, read back in base 16, give the value |
| LegacyHash.ParseHexRoundTrip | source/hash.cpp:26-29 | the `n` digits of the value that `n` digits read as are those digits again |
| LegacyHash.HexRoundTrip | source/hash.cpp:26-29 | lossless: the 16 digits, most significant first, read back in base 16 give the hash |
| LegacyHash.HexOnto | source/hash.cpp:19-31 | every string of 16 upper-case hex digits is the rendering of exactly the 64-bit value it reads as |
| LegacyHash.HashHex | source/hash.cpp:19-31 | the loop from i = 15 down to 0 over `(hash >> 4i) & 0xF` returns `Hex(hash)` |
| LegacyHash.WithExclude | source/hash.cpp:74-82 | an empty pattern changes nothing; a pattern starting with '.' goes only into the extension set, any other only into the file set |
| LegacyHash.PartitionByAdding | source/hash.cpp:85-92 | adding the patterns one at a time builds their partition by a leading '.' |
| LegacyHash.ExcludedByPatterns | source/hash.cpp:34-53 | with the sets from the patterns, a path is excluded iff its filename starts with '.', or its non-empty extension is a pattern, or its non-empty filename is a pattern |
| LegacyHash.FlatFolderIsXorFold | source/hash.cpp:56-70 | when nothing is descended into, the loop gives the running hash XOR the digests of the non-excluded files |
| LegacyHash.SubdirectoryDropsRunningHash | source/hash.cpp:58-59 | a recursive subdirectory of plain files turns the running hash into that subdirectory's file digests alone: the running hash cancels |
| LegacyHash.FileBeforeSubdirectoryLost | source/hash.cpp:56-70 | a file followed by a subdirectory with one file yields only the second file's digest, so the loop is not a plain XOR fold |
| LegacyHash.ItemsNeverExit | source/hash.cpp:56-70 | the loop of `AddFolder` never ends in `exit`: it hashes or throws |
| LegacyHash.EntryNeverExits | source/hash.cpp:57-67 | no single entry of the loop, a subdirectory included, ends in `exit` |
| LegacyHash.UnreadableSubfolderThrows | source/hash.cpp:56-59 | a subfolder that cannot be opened, at any position among the entries, makes the whole recursive loop throw |
| LegacyHash.FolderRequest | source/hash.cpp:117-121 | the folder is recursive iff the trimmed line ends in '*', and the folder name is the line without that '*' |
| LegacyHash.OnlyExactHeaderSwitches | source/hash.cpp:106-124 | from any mode but folders, a line leaves the reader in folder mode only if it is exactly "[files]" |
| LegacyHash.PaddedHeaderIsAFolder | source/hash.cpp:107-124 | the header is compared before trimming: "[files]" with whitespace before or after (such as a CRLF line's "[files]\r") is scanned as a folder named "[files]" in folder mode, becomes an exclude pattern in exclude mode, and is skipped otherwise |
| LegacyHash.StarLineScansRecursively | source/hash.cpp:113-122 | in folder mode, a line ending in '*' (with any surrounding whitespace) scans the folder before the '*' recursively and XORs the result into the hash |
| LegacyHash.PlainLineScansFlat | source/hash.cpp:112-121 | in folder mode, a non-header line whose trimmed text does not end in '*' scans the folder it names non-recursively and XORs the result into the hash |
| LegacyHash.LegacyHasher.constructor | source/hash.cpp:16-17 | both exclude sets start empty |
| LegacyHash.LegacyHasher.AddExclude | source/hash.cpp:74-82 | the sets become `WithExclude` of the old sets |
| LegacyHash.LegacyHasher.ResetExcludes | source/hash.cpp:85-92 | whatever the sets held before, they become the partition of the exclude patterns |
| LegacyHash.LegacyHasher.AddFolder | source/hash.cpp:56-70 | the loop returns `FolderOutcome`: entries in order from the running hash, each recursive call started from the running hash, and a throw for an unreadable folder |
| LegacyHash.LegacyHasher.ProcessInputFile | source/hash.cpp:95-129 | the sets end as the line loop `RunLines` leaves them, and the result is 0 unless an exception escaped |
| LegacyHash.LegacyHasher.HashInput | source/hash.cpp:132-145 | a regular file gives `ProcessInputFile`'s result; a directory gives `AddFolder` from 0, recursive, with the reset excludes; anything else exits with status 1; the exclude sets are left as the input list leaves them, as the options give them, or unchanged |
| FastwinBackend.SlotHitIff | source/fastwin_scanner.h:53-59 | the extension loop finds a slot iff some slot below the count matches |
| FastwinBackend.SlotMatchesMeans | source/fastwin_scanner.h:54-56 | a slot matches iff the loaded register, ANDed with the slot's mask, equals the slot's pattern |
| FastwinBackend.IgnoreHitIff | source/fastwin_scanner.h:66-75 | the ignore loop hits iff the short name or the whole path equals one of the first `m_ignore_count` rows |
| FastwinBackend.ExtensionTestInert | source/fastwin_scanner.h:48-61 | with zero slots, `IsExcluded` holds iff an ignore row matches, for files and directories alike |
| FastwinBackend.IgnoredDirectoryHidesSubtree | source/fastwin_scanner.h:108-113 | a directory whose name or whole path equals an ignore row contributes 0, whatever its listing holds |
| FastwinBackend.StoredSlotIsZero | source/fastwin_scanner.h:138-159 | every accepted extension is stored as a zero mask and a zero pattern, because `work` is never written and each shift is by 16 bytes |
| FastwinBackend.Shifted | source/fastwin_scanner.h:153-156 | one or more shifts by 16 bytes leave a zero register |
| FastwinBackend.FastEntriesHashIsFold | source/fastwin_scanner.h:88-126 | a directory's digest is the XOR fold of its entries' contributions |
| FastwinBackend.FastListingHashOrderIndependent | source/fastwin_scanner.h:88-126 | the same entries in any enumeration order give the same digest |
| FastwinBackend.NonRecursiveDirectoryHashedAsFile | source/fastwin_scanner.h:107-120 | without recursion a directory contributes exactly what a file of the same name would |
| FastwinBackend.EveryPlainEntryHashed | source/fastwin_scanner.h:107-120 | with zero slots and no ignore rows, every non-dot entry not traversed contributes XXH64 of its whole path, whatever its extension |
| FastwinBackend.RootPrefix | source/fastwin_scanner.h:211-215 | a backslash is appended exactly when the root does not already end in one, so the prefix always ends in a backslash and never gains a second one |
| FastwinBackend.StoredRowString | source/fastwin_scanner.h:183-186 | the row read as a C string is the converted text with every '/' replaced by '\' |
| FastwinBackend.AddedCountStep | source/fastwin_scanner.h:191-198 | each option string offered raises the count by one iff fewer than 64 are in use and it converts |
| FastwinBackend.ResetKeepsConstructed | source/fastwin_scanner.h:221-228 | resetting the count to the number of options never drops an entry the constructor stored, and restores the constructor's count exactly when every option converted |
| FastwinBackend.FastwinScanner.ConvertIntoPath | source/fastwin_scanner.h:203-205 | on success the UTF-16 units are at the front of the buffer and their number is returned; on failure 0 is returned and the buffer is unchanged |
| FastwinBackend.FastwinScanner.AddExt | source/fastwin_scanner.h:132-161 | at 64 slots, or when the conversion fails, the count and the slots are unchanged; otherwise the next slot gets the shifted mask and pattern and the count rises by one; slots stay zero |
| FastwinBackend.FastwinScanner.AddIgnore | source/fastwin_scanner.h:164-188 | at 64 rows, or when the conversion fails, nothing changes; otherwise the next row holds the units, a NUL and '/' turned into '\', the count rises by exactly one, and no other row changes |
| FastwinBackend.FastwinScanner.StoreUnits | source/fastwin_scanner.h:173-183 | the row holds the converted units and a NUL after them; other rows are unchanged |
| FastwinBackend.FastwinScanner.BackslashRow | source/fastwin_scanner.h:184-186 | every '/' before the first NUL of the row becomes '\'; other rows are unchanged |
| FastwinBackend.FastwinScanner.constructor | source/fastwin_scanner.h:191-198 | the counts are the number of accepted option strings, capped at 64, and row r holds the r-th accepted ignore string with '/' turned into '\' |
| FastwinBackend.FastwinScanner.AddOptionExts | source/fastwin_scanner.h:192-194 | after offering every option extension, the count is the number accepted, capped at 64, and the slots stay zero |
| FastwinBackend.FastwinScanner.AddOptionIgnores | source/fastwin_scanner.h:195-197 | after offering every option ignore string, the count is the number accepted, capped at 64, and each row holds its accepted string |
| FastwinBackend.FastwinScanner.OfferIgnore | source/fastwin_scanner.h:196 | one `AddIgnore` extends the accepted strings by the offered one iff it converts, keeping every row in step |
| FastwinBackend.FastwinScanner.ResetExts | source/fastwin_scanner.h:221-223 | the count of slots in use becomes the number of option extensions |
| FastwinBackend.FastwinScanner.ResetIgnores | source/fastwin_scanner.h:226-228 | the count of ignore rows in use becomes the number of option ignores |
| FastwinBackend.FastwinScanner.Scan | source/fastwin_scanner.h:201-218 | returns 0 with nothing changed when the root does not convert; otherwise records `recursive`, leaves the root with one trailing backslash in the buffer, and returns `FastScanHash` |
| FastwinBackend.FastwinScanner.EndRoot | source/fastwin_scanner.h:211-215 | the buffer starts with the root ending in exactly one backslash |
| FastwinBackend.FastwinScanner.IsExcluded | source/fastwin_scanner.h:43-77 | the decision equals `FastExcluded`: a file with slots in use and no matching slot, or a short name or whole path equal to an ignore row |
| FastwinBackend.FastwinScanner.MatchSlots | source/fastwin_scanner.h:48-61 | the slot loop finds a match iff `SlotHit` over the slots in use |
| FastwinBackend.FastwinScanner.MatchIgnores | source/fastwin_scanner.h:66-75 | the row loop hits iff `IgnoreHit` over the rows in use |
| FastwinBackend.FastwinScanner.ScanInner | source/fastwin_scanner.h:79-127 | returns `FastListingHash` of the directory (0 if enumeration fails, dot names skipped) and leaves the buffer before the query untouched |
| FastwinBackend.FastwinScanner.CopyName | source/fastwin_scanner.h:100-105 | the name up to its NUL is copied behind the prefix and NUL-terminated; the end index is returned |
| FastwinBackend.FastwinScanner.ScanEntry | source/fastwin_scanner.h:98-120 | one entry contributes `FastEntryHash` and the buffer before the entry is kept |
| FastwinBackend.FastwinScanner.ScanFile | source/fastwin_scanner.h:114-120 | unless excluded, XXH64 of the buffer's bytes up to the name's end |
| FastwinBackend.FastwinScanner.ExcludedAfterCopy | source/fastwin_scanner.h:109 | after a copy, the exclusion decision depends only on the name and the path, not on what lies past the NUL |
| FastwinBackend.FastwinScanner.ScanSubdirectory | source/fastwin_scanner.h:107-113 | unless excluded, a backslash replaces the NUL and the subdirectory's digest is returned; the buffer before the entry is kept |

## Left out

- XXH64 is foreign code (hash/xxh3.h). It is a `Digester` parameter, and nothing about its internals is modelled.
- Real file-system access is a `FileSystem` map and `Entry`/`Listing` trees. This covers `directory_iterator`, `FindFirstFileEx`, `FindNextFile`, `FindClose`, symbolic links that lead to a directory, and permission errors. The order of a listing is whatever the tree holds.
- `lexically_relative(opt_basepath)` in hash.cpp is the `relative` function of `Env`.
- Console output (`std::cout`, `opt_verbose` echoes) is not modelled.
- options.cpp, treehash.cpp, usage.cpp and scanner.cpp are not part of this model. They are command-line parsing, the process driver, help text and the backend factory.
- SSE intrinsics are modelled as arithmetic on 128-bit values (`And`, `XorRegisters`, `ShiftRightBytes`, `Load`), not as hardware operations.
- `MultiByteToWideChar` is total UTF-16 encoding that fails on empty input and on output over the capacity. Invalid UTF-8 cannot occur, because strings are sequences of characters.
- The `m_path_prepadding` read before the buffer is modelled as zero units before the buffer (`Window`).
- `std::string_view` lifetimes in DefaultScanner's sets are not modelled: the sets hold string values.
- FastwinBackend.FastwinScanner.constructor: the extension slots start zero and `m_recursive` starts false. The source leaves both uninitialised. A slot that was never written is read only after `ResetExts` raises the count past the number of stored slots; the model reads it as zero. `Scan` sets `m_recursive` before it is read.
- FastwinBackend.FastwinScanner.ResetExts: requires at most 64 option extensions. The source sets the count unchecked, and a larger count makes `IsExcluded` read past the arrays.
- FastwinBackend.FastwinScanner.ResetIgnores: requires at most 64 option ignore strings, for the same reason.
- FastwinBackend.FastwinScanner.Scan: requires that every path the scan builds fits in the 32768-unit buffer (`ScanFits`). A longer path overruns the buffer in the source.
- FastwinBackend.FastwinScanner.ScanInner: requires `Fits`, for the same reason.
- FastwinBackend.FastwinScanner.ConvertIntoPath: a failed conversion leaves the buffer unchanged. Windows may leave a partial result in it, but nothing reads the buffer before the next successful conversion.
- FastwinBackend.FastwinScanner.AddIgnore: a failed conversion leaves the next ignore row unchanged. Windows may leave a partial result in that row, but the count is not raised, so no lookup reads it.
- FastwinBackend.FastwinScanner.MatchIgnores: `lstrcmpW` is modelled as exact equality of the two wide strings. Locale-aware collation that could equate different strings is not modelled.
- LegacyHash.LegacyHasher.ProcessInputFile: `input_mode` is uninitialised in the source. The first mode is a parameter, and `Unset` stands for a value that is neither mode. Nothing in the file sets the exclude mode, so only a parameter of `ExcludeLines` reaches `AddExclude`.
- LegacyHash.LegacyHasher.AddFolder: an exception from `directory_iterator` is the `Threw` outcome, and `std::exit(1)` is `Exited(1)`. Stack exhaustion on deep trees is not modelled.
- Windows `std::filesystem::path` semantics (backslash separators, drive and root names such as `C:`) are not modelled for `DefaultBackend` and `LegacyHash`. `Paths` treats '/' as the only separator.
- A listing never fails part-way through: an error from `directory_iterator::operator++` or from `is_directory` after the first entry is not modelled. In the source it would call `std::terminate` from the `noexcept` `ScanRecursion`, or throw out of `AddFolder`.
- Symbolic-link cycles are not modelled. A finite entry tree cannot hold one, while `ScanRecursion` (which follows directory links) and `AddFolder` would recurse without bound on one until the stack runs out.
