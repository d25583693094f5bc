// Text encodings the scanners rely on. A C++ `std::string` of the source is
// modelled as the sequence of Unicode scalar values its UTF-8 bytes decode to;
// the encoders below give back the bytes (for XXH64) and the UTF-16 code
// units (for the Win32 wide-character calls).

module Unicode {
  import opened Digest

  /** A UTF-16 code unit: a Windows `wchar_t`. */
  type Unit = u: int | 0 <= u < 0x1_0000

  /** UTF-8 encoding of one scalar value. */
  function Utf8Char(c: char): (r: seq<Byte>)
    ensures 1 <= |r| <= 4
  {
    var n := c as int;
    if n < 0x80 then [n]
    else if n < 0x800 then [0xC0 + n / 0x40, 0x80 + n % 0x40]
    else if n < 0x1_0000 then
      [0xE0 + n / 0x1000, 0x80 + (n / 0x40) % 0x40, 0x80 + n % 0x40]
    else
      [0xF0 + n / 0x4_0000, 0x80 + (n / 0x1000) % 0x40, 0x80 + (n / 0x40) % 0x40, 0x80 + n % 0x40]
  }

  /** The bytes of a `std::string`: what `data()`/`size()` hand to XXH64. */
  function Utf8(s: string): (r: seq<Byte>)
    ensures |r| >= |s|
  {
    if s == [] then [] else Utf8(s[..|s| - 1]) + Utf8Char(s[|s| - 1])
  }

  /** UTF-16 encoding of one scalar value: one unit, or a surrogate pair. */
  function Utf16Char(c: char): (r: seq<Unit>)
    ensures |r| == 1 || |r| == 2
    ensures |r| == 1 <==> (c as int) < 0x1_0000
  {
    var n := c as int;
    if n < 0x1_0000 then [n]
    else [0xD800 + (n - 0x1_0000) / 0x400, 0xDC00 + (n - 0x1_0000) % 0x400]
  }

  /** UTF-16 code units of a string, as MultiByteToWideChar produces them. */
  function Utf16(s: string): (r: seq<Unit>)
    ensures |r| >= |s|
    ensures s == [] <==> r == []
  {
    if s == [] then [] else Utf16(s[..|s| - 1]) + Utf16Char(s[|s| - 1])
  }

  /** The in-memory bytes of a `wchar_t` buffer (little-endian, two per unit). */
  function LittleEndian(w: seq<Unit>): (r: seq<Byte>)
    ensures |r| == 2 * |w|
  {
    if w == [] then []
    else LittleEndian(w[..|w| - 1]) + [w[|w| - 1] % 0x100, w[|w| - 1] / 0x100]
  }

  /** MultiByteToWideChar(CP_UTF8, 0, s, |s|, buffer, capacity): fails (returns 0)
      on empty input and when the result needs more than `capacity` units. */
  function Widen(s: string, capacity: nat): (r: Option<seq<Unit>>)
    ensures r.Some? <==> s != [] && |Utf16(s)| <= capacity
    ensures r.Some? ==> r.value == Utf16(s) && 0 < |r.value| <= capacity
  {
    var w := Utf16(s);
    if s == [] || |w| > capacity then None else Some(w)
  }

  datatype Option<+T> = None | Some(value: T)

  /** The C string starting at the front of `w`: everything before the first NUL. */
  function CString(w: seq<Unit>): (r: seq<Unit>)
    ensures r <= w
    ensures 0 !in r
    ensures |r| < |w| ==> w[|r|] == 0
  {
    if w == [] || w[0] == 0 then [] else [w[0]] + CString(w[1..])
  }

  /** A string without NUL is its own C string. */
  lemma {:induction false} CStringOfNulFree(w: seq<Unit>)
    requires 0 !in w
    ensures CString(w) == w
  {
    if w != [] {
      CStringOfNulFree(w[1..]);
    }
  }

  /** A NUL at `n` ends the C string there or earlier: what follows never matters. */
  lemma {:induction false} CStringAtNul(w: seq<Unit>, n: nat)
    requires n < |w| && w[n] == 0
    ensures CString(w) == CString(w[..n])
  {
    if n > 0 && w[0] != 0 {
      assert w[1..][..n - 1] == w[..n][1..];
      CStringAtNul(w[1..], n - 1);
    }
  }
}
