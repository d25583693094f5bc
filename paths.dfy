// The parts of std::filesystem::path the scanners use, for POSIX paths
// (separator '/', generic format equal to the native one): `operator/`,
// `filename()` and `extension()` as C++17 [fs.path.decompose] defines them.

module Paths {

  /** Index just past the last '/' of `p`, or 0 when `p` has none. */
  function FilenameStart(p: string): (k: nat)
    ensures k <= |p|
    ensures k > 0 ==> p[k - 1] == '/'
    ensures forall j :: k <= j < |p| ==> p[j] != '/'
  {
    if p == [] then 0
    else if p[|p| - 1] == '/' then |p|
    else FilenameStart(p[..|p| - 1])
  }

  /** `path.filename()`: the last element; empty when the path ends in a separator. */
  function Filename(p: string): (f: string)
    ensures '/' !in f
    ensures |f| <= |p| && f == p[|p| - |f|..]
  {
    p[FilenameStart(p)..]
  }

  /** A name beginning with '.': a hidden entry. The test reads the first
      character, so the empty name never passes it. */
  predicate StartsWithDot(name: string)
  {
    name != [] && name[0] == '.'
  }

  /** Index of the last '.' of `f`, or -1 when there is none. */
  function LastDot(f: string): (k: int)
    ensures -1 <= k < |f|
    ensures k >= 0 ==> f[k] == '.'
    ensures forall j :: k < j < |f| ==> f[j] != '.'
  {
    if f == [] then -1
    else if f[|f| - 1] == '.' then |f| - 1
    else LastDot(f[..|f| - 1])
  }

  /** `path.extension()`: the filename's suffix from its last '.', empty when it has
      no '.', when that '.' is its first character, or when it is "..". */
  function Extension(p: string): (e: string)
  {
    var f := Filename(p);
    var k := LastDot(f);
    if f == ".." || k <= 0 then "" else f[k..]
  }

  /** `dir / name` for a relative `name`: a separator is inserted unless `dir` is
      empty or already ends in one. */
  function Join(dir: string, name: string): (p: string)
  {
    if dir == [] || dir[|dir| - 1] == '/' then dir + name else dir + "/" + name
  }

  /** Joining a separator-free, non-empty name makes that name the filename. */
  lemma FilenameOfJoin(dir: string, name: string)
    requires name != [] && '/' !in name
    ensures Filename(Join(dir, name)) == name
  {
    var p := Join(dir, name);
    var base := |p| - |name|;
    assert p[base..] == name;
    assert base > 0 ==> p[base - 1] == '/';
    FilenameStartAfterSeparator(p, base);
  }

  /** When every character from `base` on is not a separator and `base` follows one
      (or is 0), the filename starts exactly at `base`. */
  lemma {:induction false} FilenameStartAfterSeparator(p: string, base: nat)
    requires base <= |p|
    requires base > 0 ==> p[base - 1] == '/'
    requires forall j :: base <= j < |p| ==> p[j] != '/'
    ensures FilenameStart(p) == base
    decreases |p|
  {
    if |p| > base {
      assert p[..|p| - 1][..base] == p[..base];
      FilenameStartAfterSeparator(p[..|p| - 1], base);
    }
  }

  /** The last '.' is at `k` when `f[k]` is one and none follows it. */
  lemma {:induction false} LastDotAt(f: string, k: nat)
    requires k < |f| && f[k] == '.'
    requires forall j :: k < j < |f| ==> f[j] != '.'
    ensures LastDot(f) == k
    decreases |f|
  {
    if |f| > k + 1 {
      assert f[..|f| - 1][k] == f[k];
      LastDotAt(f[..|f| - 1], k);
    }
  }

  /** A name made of a non-empty stem, a '.' and dot-free text has the
      dotted suffix as its extension (".." excepted). */
  lemma ExtensionOfName(dir: string, stem: string, suffix: string)
    requires stem != [] && '/' !in stem && '/' !in suffix && '.' !in suffix
    requires stem + "." + suffix != ".."
    ensures Extension(Join(dir, stem + "." + suffix)) == "." + suffix
  {
    var name := stem + "." + suffix;
    FilenameOfJoin(dir, name);
    forall j | |stem| < j < |name| ensures name[j] != '.' {
      assert name[j] == suffix[j - |stem| - 1];
    }
    LastDotAt(name, |stem|);
    assert name[|stem|..] == "." + suffix;
  }
}
