/** Machine words of a 64-bit ARM target and the unchecked C# conversions and
    additions between them. Dafny integers are unbounded, so every wrap-around
    the scanners rely on is written out here, once. */
module Words {

  const TWO_TO_THE_63: int := 0x8000_0000_0000_0000
  const TWO_TO_THE_64: int := 0x1_0000_0000_0000_0000

  /** C#'s `ulong`: instruction addresses and resolved targets. */
  newtype uint64 = x: int | 0 <= x < 0x1_0000_0000_0000_0000

  /** C#'s `long`, and `nint`/`IntPtr` on a 64-bit target: immediates,
      displacements and the pointers the scanners hand back. */
  newtype int64 = x: int | -0x8000_0000_0000_0000 <= x < 0x8000_0000_0000_0000

  /** Two integers denote the same 64-bit pattern. */
  predicate SameBits(a: int, b: int) {
    (a - b) % TWO_TO_THE_64 == 0
  }

  /** Unchecked `(ulong)v`: the bits of a `long` read as unsigned. */
  function AsUnsigned(v: int64): (r: uint64)
    ensures SameBits(r as int, v as int)
    ensures v >= 0 ==> r as int == v as int
  {
    if v >= 0 then v as uint64 else (v as int + TWO_TO_THE_64) as uint64
  }

  /** Unchecked `(long)u` / `(nint)u`: the bits of a `ulong` read as signed. */
  function AsSigned(u: uint64): (r: int64)
    ensures SameBits(r as int, u as int)
    ensures AsUnsigned(r) == u
    ensures r == 0 <==> u == 0
  {
    if u as int < TWO_TO_THE_63 then u as int64 else (u as int - TWO_TO_THE_64) as int64
  }

  /** Unchecked `a + (ulong)d`: a displacement added to an address modulo 2^64. */
  function WrapAdd(a: uint64, d: int64): (r: uint64)
    ensures SameBits(r as int, a as int + d as int)
  {
    ((a as int + d as int) % TWO_TO_THE_64) as uint64
  }

  /** Unchecked `a + b` on two `long`s, wrapping into the signed range. */
  function SignedWrapAdd(a: int64, b: int64): (r: int64)
    ensures SameBits(r as int, a as int + b as int)
  {
    var m := (a as int + b as int) % TWO_TO_THE_64;
    if m < TWO_TO_THE_63 then m as int64 else (m - TWO_TO_THE_64) as int64
  }

  /** The managed-pointer sum `(long)a + d`, read back as unsigned, is the
      unsigned modular sum `a + (ulong)d`: the signed and unsigned spellings of
      address arithmetic in the scanners agree bit for bit. */
  lemma SignedAndUnsignedAdditionAgree(a: uint64, d: int64)
    ensures AsUnsigned(SignedWrapAdd(AsSigned(a), d)) == WrapAdd(a, d)
  {
  }

  /** Pc-relative resolution loses nothing: two displacements from the same
      address reach the same word only if they are equal. */
  lemma WrapAddInjective(a: uint64, d: int64, e: int64)
    requires WrapAdd(a, d) == WrapAdd(a, e)
    ensures d == e
  {
  }
}
