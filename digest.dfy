// The 64-bit digest of hash.h and the XOR combination every scanner uses.

module Digest {

  /** 2^64: one more than the largest `uint64_t`. */
  const HASH_MODULUS: int := 0x1_0000_0000_0000_0000

  /** `Hash` of hash.h: a 64-bit unsigned value. */
  type Hash = h: int | 0 <= h < HASH_MODULUS

  /** `HASH_SEED` of hash.h: the fixed seed handed to XXH64. */
  const HASH_SEED: Hash := 0

  /** An unsigned byte. */
  type Byte = b: int | 0 <= b < 0x100

  /** XXH64(data, size, seed). The hash function itself is foreign code; the
      model only knows that it maps a byte string and a seed to a 64-bit value. */
  type Digester = (seq<Byte>, Hash) -> Hash

  function Pow2(n: nat): (p: nat)
    ensures p >= 1
  {
    if n == 0 then 1 else 2 * Pow2(n - 1)
  }

  lemma Pow2Is64()
    ensures Pow2(64) == HASH_MODULUS
  {
    assert Pow2(4) == 16;
    Pow2Add(4, 4);
    assert Pow2(8) == 0x100;
    Pow2Add(8, 8);
    assert Pow2(16) == 0x1_0000;
    Pow2Add(16, 16);
    assert Pow2(32) == 0x1_0000_0000;
    Pow2Add(32, 32);
  }

  lemma {:induction false} Pow2Add(m: nat, n: nat)
    ensures Pow2(m + n) == Pow2(m) * Pow2(n)
    decreases n
  {
    if n > 0 {
      Pow2Add(m, n - 1);
      assert Pow2(m + n) == 2 * Pow2(m + n - 1);
    }
  }

  /** Bitwise exclusive or of the low `n` bits of `a` and `b`, lowest bit last
      in the recursion: bit `i` of the result is set exactly when bit `i` of
      one operand is set and bit `i` of the other is clear. */
  function XorBits(a: nat, b: nat, n: nat): (r: nat)
    ensures r < Pow2(n)
  {
    if n == 0 then 0
    else 2 * XorBits(a / 2, b / 2, n - 1) + (if a % 2 == b % 2 then 0 else 1)
  }

  /** `a ^ b` on two 64-bit values. */
  function Xor(a: Hash, b: Hash): Hash
  {
    Pow2Is64();
    XorBits(a, b, 64)
  }

  lemma {:induction false} XorBitsComm(a: nat, b: nat, n: nat)
    ensures XorBits(a, b, n) == XorBits(b, a, n)
  {
    if n > 0 {
      XorBitsComm(a / 2, b / 2, n - 1);
    }
  }

  lemma {:induction false} XorBitsAssoc(a: nat, b: nat, c: nat, n: nat)
    ensures XorBits(XorBits(a, b, n), c, n) == XorBits(a, XorBits(b, c, n), n)
  {
    if n > 0 {
      var ab, bc := XorBits(a, b, n), XorBits(b, c, n);
      assert ab / 2 == XorBits(a / 2, b / 2, n - 1);
      assert bc / 2 == XorBits(b / 2, c / 2, n - 1);
      XorBitsAssoc(a / 2, b / 2, c / 2, n - 1);
    }
  }

  lemma {:induction false} XorBitsSelf(a: nat, n: nat)
    ensures XorBits(a, a, n) == 0
  {
    if n > 0 {
      XorBitsSelf(a / 2, n - 1);
    }
  }

  lemma {:induction false} XorBitsZero(a: nat, n: nat)
    requires a < Pow2(n)
    ensures XorBits(a, 0, n) == a
  {
    if n > 0 {
      XorBitsZero(a / 2, n - 1);
    }
  }

  /** 0 is the identity of `^`. */
  lemma XorZero(a: Hash)
    ensures Xor(a, 0) == a && Xor(0, a) == a
  {
    Pow2Is64();
    XorBitsZero(a, 64);
    XorBitsComm(a, 0, 64);
  }

  /** `^` is commutative. */
  lemma XorComm(a: Hash, b: Hash)
    ensures Xor(a, b) == Xor(b, a)
  {
    XorBitsComm(a, b, 64);
  }

  /** `^` is associative. */
  lemma XorAssoc(a: Hash, b: Hash, c: Hash)
    ensures Xor(Xor(a, b), c) == Xor(a, Xor(b, c))
  {
    XorBitsAssoc(a, b, c, 64);
  }

  /** Every value is its own inverse under `^`. */
  lemma XorSelf(a: Hash)
    ensures Xor(a, a) == 0
  {
    XorBitsSelf(a, 64);
  }

  /** Left-to-right XOR fold of the contributions `c(x)` of the elements of `s`,
      in the order a directory loop visits them. */
  function XorMap<T>(c: T -> Hash, s: seq<T>): Hash
  {
    if s == [] then 0 else Xor(XorMap(c, s[..|s| - 1]), c(s[|s| - 1]))
  }

  /** Prepending an element contributes it like appending does. */
  lemma {:induction false} XorMapCons<T>(c: T -> Hash, x: T, s: seq<T>)
    ensures XorMap(c, [x] + s) == Xor(c(x), XorMap(c, s))
    decreases |s|
  {
    if s == [] {
      XorZero(c(x));
    } else {
      var n := |s|;
      assert ([x] + s)[..n] == [x] + s[..n - 1];
      XorMapCons(c, x, s[..n - 1]);
      XorAssoc(c(x), XorMap(c, s[..n - 1]), c(s[n - 1]));
    }
  }

  /** The fold of a concatenation is the XOR of the folds. */
  lemma {:induction false} XorMapConcat<T>(c: T -> Hash, a: seq<T>, b: seq<T>)
    ensures XorMap(c, a + b) == Xor(XorMap(c, a), XorMap(c, b))
    decreases |b|
  {
    if b == [] {
      assert a + b == a;
      XorZero(XorMap(c, a));
    } else {
      var n := |b|;
      assert (a + b)[..|a + b| - 1] == a + b[..n - 1];
      XorMapConcat(c, a, b[..n - 1]);
      XorAssoc(XorMap(c, a), XorMap(c, b[..n - 1]), c(b[n - 1]));
    }
  }

  /** Taking one element out of the middle takes its contribution out of the fold. */
  lemma XorMapRemove<T>(c: T -> Hash, s: seq<T>, i: nat)
    requires i < |s|
    ensures XorMap(c, s) == Xor(XorMap(c, s[..i] + s[i + 1..]), c(s[i]))
  {
    var a, b := s[..i], s[i + 1..];
    assert s == a + ([s[i]] + b);
    XorMapConcat(c, a, [s[i]] + b);
    XorMapCons(c, s[i], b);
    XorMapConcat(c, a, b);
    XorAssoc(XorMap(c, a), c(s[i]), XorMap(c, b));
    XorComm(c(s[i]), XorMap(c, b));
    XorAssoc(XorMap(c, a), XorMap(c, b), c(s[i]));
  }

  /** Taking out the element at `i` takes one copy of it out of the multiset. */
  lemma MultisetRemove<T>(s: seq<T>, i: nat)
    requires i < |s|
    ensures multiset(s[..i] + s[i + 1..]) == multiset(s) - multiset{s[i]}
  {
    assert s == s[..i] + [s[i]] + s[i + 1..];
  }

  /** Enumeration-order independence: two sequences holding the same elements,
      in any order, fold to the same digest. */
  lemma {:induction false} XorMapPermutation<T>(c: T -> Hash, a: seq<T>, b: seq<T>)
    requires multiset(a) == multiset(b)
    ensures XorMap(c, a) == XorMap(c, b)
    decreases |a|
  {
    if a != [] {
      var n := |a|;
      var x := a[n - 1];
      assert x in multiset(b);
      var i :| 0 <= i < |b| && b[i] == x;
      MultisetRemove(a, n - 1);
      assert a[..n - 1] + a[n..] == a[..n - 1];
      MultisetRemove(b, i);
      XorMapPermutation(c, a[..n - 1], b[..i] + b[i + 1..]);
      XorMapRemove(c, b, i);
    }
  }

  /** Self-cancellation: folding the same contributions twice gives the identity. */
  lemma XorMapTwiceCancels<T>(c: T -> Hash, s: seq<T>)
    ensures XorMap(c, s + s) == 0
  {
    XorMapConcat(c, s, s);
    XorSelf(XorMap(c, s));
  }
}
