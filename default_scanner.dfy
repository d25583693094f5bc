// default_scanner.h: the portable scanner over std::filesystem.

module DefaultBackend {
  import opened Digest
  import opened Unicode
  import opened Paths
  import opened FileTree
  import opened RunOptions

  /** The scanner's filter state: `m_exts` (empty means every extension is
      accepted) and `m_ignores`. */
  datatype FilterSet = FilterSet(exts: set<string>, ignores: set<string>)

  /** What `DefaultScanner::IsExcluded` decides: a dot-prefixed filename first,
      then (files only) an extension outside a non-empty allow-set, then an
      ignore entry equal to the filename or to the whole generic path. */
  predicate Excluded(f: FilterSet, path: string, directory: bool)
  {
    var filename := Filename(path);
    if StartsWithDot(filename) then true
    else if !directory && f.exts != {} && Extension(path) !in f.exts then true
    else filename in f.ignores || path in f.ignores
  }

  /** A dot-prefixed filename is excluded, file or directory, whatever the filters hold. */
  lemma DotNamesExcluded(f: FilterSet, path: string, directory: bool)
    requires StartsWithDot(Filename(path))
    ensures Excluded(f, path, directory)
  {
  }

  /** Directories are never excluded by the extension rule: only the dot rule
      and the ignore rule apply to them. */
  lemma DirectoriesSkipExtensionRule(f: FilterSet, path: string)
    ensures Excluded(f, path, true) <==>
      StartsWithDot(Filename(path)) || Filename(path) in f.ignores || path in f.ignores
  {
  }

  /** For a file whose name has no leading dot: with a non-empty allow-set an
      extension outside it excludes; with an empty one the extension rule
      excludes nothing. */
  lemma ExtensionRule(f: FilterSet, path: string)
    requires !StartsWithDot(Filename(path))
    ensures f.exts != {} && Extension(path) !in f.exts ==> Excluded(f, path, false)
    ensures f.exts == {} ==>
      (Excluded(f, path, false) <==> Filename(path) in f.ignores || path in f.ignores)
  {
  }

  /** An entry that passes the dot and extension rules is excluded exactly when
      its filename or its whole generic path is an ignore entry. */
  lemma IgnoreRule(f: FilterSet, path: string, directory: bool)
    requires !StartsWithDot(Filename(path))
    requires directory || f.exts == {} || Extension(path) in f.exts
    ensures Excluded(f, path, directory) <==> Filename(path) in f.ignores || path in f.ignores
  {
  }

  /** What one entry of the directory `dir` adds to that directory's digest: a
      regular file its XXH64 path digest, a directory (when recursive) its own
      digest, anything excluded or of another kind nothing. */
  function EntryHash(f: FilterSet, xxh64: Digester, dir: string, e: Entry, recursive: bool): Hash
    decreases e
  {
    var path := Join(dir, e.name);
    match e
    case Dir(_, listing) =>
      if recursive && !Excluded(f, path, true) then ListingHash(f, xxh64, path, listing, recursive) else 0
    case File(_) =>
      if Excluded(f, path, false) then 0 else xxh64(Utf8(path), HASH_SEED)
    case Special(_) => 0
  }

  /** The digest of the directory `dir`: 0 when it cannot be opened. */
  function ListingHash(f: FilterSet, xxh64: Digester, dir: string, listing: Listing, recursive: bool): Hash
    decreases listing
  {
    match listing
    case Unreadable => 0
    case Entries(items) => EntriesHash(f, xxh64, dir, items, recursive)
  }

  /** The XOR of the contributions of `items`, in enumeration order. */
  function EntriesHash(f: FilterSet, xxh64: Digester, dir: string, items: seq<Entry>, recursive: bool): Hash
    decreases items
  {
    if items == [] then 0
    else
      Xor(EntriesHash(f, xxh64, dir, items[..|items| - 1], recursive),
          EntryHash(f, xxh64, dir, items[|items| - 1], recursive))
  }

  /** One more entry of the loop adds exactly its own contribution. */
  lemma EntriesHashStep(f: FilterSet, xxh64: Digester, dir: string, items: seq<Entry>, i: nat, recursive: bool,
                        sofar: Hash, c: Hash)
    requires i < |items|
    requires sofar == EntriesHash(f, xxh64, dir, items[..i], recursive)
    requires c == EntryHash(f, xxh64, dir, items[i], recursive)
    ensures Xor(sofar, c) == EntriesHash(f, xxh64, dir, items[..i + 1], recursive)
  {
    assert items[..i + 1][..i] == items[..i];
  }

  /** The digest of a directory is the XOR fold of its entries' contributions. */
  lemma {:induction false} EntriesHashIsFold(f: FilterSet, xxh64: Digester, dir: string, items: seq<Entry>, recursive: bool)
    ensures EntriesHash(f, xxh64, dir, items, recursive)
         == XorMap(e => EntryHash(f, xxh64, dir, e, recursive), items)
    decreases |items|
  {
    if items != [] {
      EntriesHashIsFold(f, xxh64, dir, items[..|items| - 1], recursive);
    }
  }

  /** Enumeration-order independence: the same entries listed in any order give
      the same digest. */
  lemma ListingHashOrderIndependent(f: FilterSet, xxh64: Digester, dir: string,
                                    a: seq<Entry>, b: seq<Entry>, recursive: bool)
    requires multiset(a) == multiset(b)
    ensures ListingHash(f, xxh64, dir, Entries(a), recursive) == ListingHash(f, xxh64, dir, Entries(b), recursive)
  {
    EntriesHashIsFold(f, xxh64, dir, a, recursive);
    EntriesHashIsFold(f, xxh64, dir, b, recursive);
    XorMapPermutation(e => EntryHash(f, xxh64, dir, e, recursive), a, b);
  }

  /** An empty directory and a directory that cannot be opened both hash to 0. */
  lemma NothingListedHashesToZero(f: FilterSet, xxh64: Digester, dir: string, recursive: bool)
    ensures ListingHash(f, xxh64, dir, Entries([]), recursive) == 0
    ensures ListingHash(f, xxh64, dir, Unreadable, recursive) == 0
  {
  }

  /** The regular files among `items`, in order. */
  function Files(items: seq<Entry>): (r: seq<Entry>)
    ensures forall e :: e in r ==> e.File? && e in items
  {
    if items == [] then []
    else if items[|items| - 1].File? then Files(items[..|items| - 1]) + [items[|items| - 1]]
    else Files(items[..|items| - 1])
  }

  /** Without recursion subdirectories contribute nothing: they are neither
      traversed nor hashed, so only the directory's own regular files count. */
  lemma {:induction false} NonRecursiveHashesOnlyFiles(f: FilterSet, xxh64: Digester, dir: string, items: seq<Entry>)
    ensures EntriesHash(f, xxh64, dir, items, false) == EntriesHash(f, xxh64, dir, Files(items), false)
    decreases |items|
  {
    if items != [] {
      var n := |items|;
      var init, last := items[..n - 1], items[n - 1];
      NonRecursiveHashesOnlyFiles(f, xxh64, dir, init);
      if last.File? {
        var r := Files(init) + [last];
        assert r[..|r| - 1] == Files(init);
      } else {
        assert EntryHash(f, xxh64, dir, last, false) == 0;
        XorZero(EntriesHash(f, xxh64, dir, init, false));
      }
    }
  }

  /** An entry whose name starts with '.' contributes nothing, whatever the
      filters hold and whether or not the scan recurses. */
  lemma DotEntryContributesNothing(f: FilterSet, xxh64: Digester, dir: string, e: Entry, recursive: bool)
    requires ValidName(e.name) && StartsWithDot(e.name)
    ensures EntryHash(f, xxh64, dir, e, recursive) == 0
  {
    FilenameOfJoin(dir, e.name);
  }

  /** With an empty allow-set, a regular file that is not dot-prefixed and not
      ignored contributes the digest of its generic path. */
  lemma PlainFileContributes(f: FilterSet, xxh64: Digester, dir: string, name: string, recursive: bool)
    requires f.exts == {} && ValidName(name) && !StartsWithDot(name)
    requires name !in f.ignores && Join(dir, name) !in f.ignores
    ensures EntryHash(f, xxh64, dir, File(name), recursive) == xxh64(Utf8(Join(dir, name)), HASH_SEED)
  {
    FilenameOfJoin(dir, name);
  }

  /** `DefaultScanner`: the filter state as two sets, reset from the run's
      defaults and extended one entry at a time. */
  class DefaultScanner {
    var exts: set<string>
    var ignores: set<string>
    const opts: Options

    function Filter(): FilterSet
      reads this
    {
      FilterSet(exts, ignores)
    }

    /** The constructor resets both sets to the run's defaults. */
    constructor (opts: Options)
      ensures this.opts == opts
      ensures exts == (set e | e in opts.exts) && ignores == (set i | i in opts.ignores)
    {
      this.opts := opts;
      exts, ignores := {}, {};
      new;
      ResetExts();
      ResetIgnores();
    }

    /** `ResetExts`: the extension set becomes exactly the defaults; earlier
        additions are gone and the ignore set is untouched. */
    method ResetExts()
      modifies this
      ensures exts == (set e | e in opts.exts)
      ensures ignores == old(ignores)
    {
      exts := {};
      var i := 0;
      while i < |opts.exts|
        invariant i <= |opts.exts|
        invariant exts == (set e | e in opts.exts[..i])
        invariant ignores == old(ignores)
      {
        assert opts.exts[..i + 1] == opts.exts[..i] + [opts.exts[i]];
        exts := exts + {opts.exts[i]};
        i := i + 1;
      }
      assert opts.exts[..i] == opts.exts;
    }

    /** `ResetIgnores`: the ignore set becomes exactly the defaults; the
        extension set is untouched. */
    method ResetIgnores()
      modifies this
      ensures ignores == (set i | i in opts.ignores)
      ensures exts == old(exts)
    {
      ignores := {};
      var i := 0;
      while i < |opts.ignores|
        invariant i <= |opts.ignores|
        invariant ignores == (set x | x in opts.ignores[..i])
        invariant exts == old(exts)
      {
        assert opts.ignores[..i + 1] == opts.ignores[..i] + [opts.ignores[i]];
        ignores := ignores + {opts.ignores[i]};
        i := i + 1;
      }
      assert opts.ignores[..i] == opts.ignores;
    }

    /** `AddExt`: set insertion, so adding a value again changes nothing more;
        the ignore set is untouched. */
    method AddExt(ext: string)
      modifies this
      ensures exts == old(exts) + {ext} && ignores == old(ignores)
    {
      exts := exts + {ext};
    }

    /** `AddIgnore`: set insertion; the extension set is untouched. */
    method AddIgnore(ignore: string)
      modifies this
      ensures ignores == old(ignores) + {ignore} && exts == old(exts)
    {
      ignores := ignores + {ignore};
    }

    /** `IsExcluded`: the dot test, the extension test for files, then a walk
        over the ignore entries comparing each with the filename and with the
        whole path. */
    method IsExcluded(path: string, directory: bool) returns (r: bool)
      ensures r == Excluded(Filter(), path, directory)
    {
      var filename := Filename(path);
      if StartsWithDot(filename) {
        return true;
      }
      if !directory {
        if exts != {} && Extension(path) !in exts {
          return true;
        }
      }
      var rest := ignores;
      while rest != {}
        invariant rest <= ignores
        invariant filename !in ignores - rest && path !in ignores - rest
        decreases |rest|
      {
        var i :| i in rest;
        if filename == i {
          return true;
        }
        if path == i {
          return true;
        }
        rest := rest - {i};
      }
      return false;
    }

    /** `ScanRecursion`: walk the entries of `path`, XOR-ing the digest of every
        included regular file and, when recursive, the digest of every included
        subdirectory. A directory that cannot be opened yields 0. */
    method ScanRecursion(xxh64: Digester, path: string, listing: Listing, recursive: bool) returns (hash: Hash)
      ensures hash == ListingHash(Filter(), xxh64, path, listing, recursive)
      decreases listing
    {
      hash := 0;
      if listing.Unreadable? {
        return 0;
      }
      var f := Filter();
      var items := listing.items;
      var i := 0;
      while i < |items|
        invariant i <= |items|
        invariant hash == EntriesHash(f, xxh64, path, items[..i], recursive)
      {
        var file := items[i];
        var filePath := Join(path, file.name);
        var c: Hash := 0;
        if file.Dir? && recursive {
          var excluded := IsExcluded(filePath, true);
          if !excluded {
            c := ScanRecursion(xxh64, filePath, file.listing, recursive);
          }
        } else if file.File? {
          var excluded := IsExcluded(filePath, false);
          if !excluded {
            c := xxh64(Utf8(filePath), HASH_SEED);
          }
        }
        EntriesHashStep(f, xxh64, path, items, i, recursive, hash, c);
        hash := Xor(hash, c);
        i := i + 1;
      }
      assert items[..i] == items;
    }

    /** `Scan`: the digest of the directory named `path` in `fs`. */
    method Scan(xxh64: Digester, fs: FileSystem, path: string, recursive: bool) returns (hash: Hash)
      ensures hash == ListingHash(Filter(), xxh64, path, Open(fs, path), recursive)
    {
      hash := ScanRecursion(xxh64, path, Open(fs, path), recursive);
    }
  }
}
