/** src/resource.c and the Rlimit module of src/extUnix.pp.ml: limits cross between
    the kernel's unsigned 64-bit numbers and OCaml's `int64 option`. RLIM_INFINITY is
    the system's: `inf` is any number, 2^64 - 1 on Linux and 2^63 - 1 on macOS. */
module Rlimit {

  const TWO63 := 0x8000_0000_0000_0000
  const TWO64 := 0x1_0000_0000_0000_0000

  /** rlim_t and int64. */
  type rlim = x: int | 0 <= x < TWO64
  type int64 = x: int | -TWO63 <= x < TWO63

  /** `int64 option`. */
  datatype Limit = Infinity | Fixed(value: int64)

  /** The int64 with the bits of v: what caml_copy_int64 makes of an rlim_t. */
  function Signed(v: rlim): int64 {
    if v < TWO63 then v else v - TWO64
  }

  function EncodeLimit(inf: rlim, v: rlim): Limit {
    if v == inf then Infinity else Fixed(Signed(v))
  }

  function DecodeLimit(inf: rlim, l: Limit): rlim {
    match l
    case Infinity => inf
    case Fixed(v) => if v >= 0 then v else v + TWO64
  }

  /** Int64.compare. */
  function Sign(a: int, b: int): int {
    if a < b then -1 else if a > b then 1 else 0
  }

  /** Rlimit.compare. */
  function Compare(l1: Limit, l2: Limit): int {
    match (l1, l2)
    case (Fixed(a), Fixed(b)) => Sign(a, b)
    case (Infinity, Infinity) => 0
    case (Fixed(_), Infinity) => -1
    case (Infinity, Fixed(_)) => 1
  }

  /** A limit the kernel reported is set back unchanged. */
  lemma DecodeEncode(inf: rlim, v: rlim)
    ensures DecodeLimit(inf, EncodeLimit(inf, v)) == v
  {
  }

  /** Of OCaml's limits one alone does not come back: the number with the bits of
      infinity, -1 on Linux. */
  lemma EncodeDecodeIff(inf: rlim, l: Limit)
    ensures EncodeLimit(inf, DecodeLimit(inf, l)) == l <==> l != Fixed(Signed(inf))
  {
  }

  /** Two numbers are on the same side of 2^63. */
  predicate SameHalf(a: rlim, b: rlim) {
    a < TWO63 <==> b < TWO63
  }

  /** `compare` is the kernel's unsigned order, just unless a finite limit of 2^63 or
      more meets one below, or one above the number of infinity meets infinity. */
  lemma CompareIsUnsignedIff(inf: rlim, a: rlim, b: rlim)
    ensures Compare(EncodeLimit(inf, a), EncodeLimit(inf, b)) == Sign(a, b)
      <==> if a == inf || b == inf then a <= inf && b <= inf else SameHalf(a, b)
  {
  }

  /** On infinity and everything below it and 2^63 the soft limit is found below the hard
      one when the kernel has it so. */
  lemma CompareMatchesKernel(inf: rlim, a: rlim, b: rlim)
    requires (a < TWO63 && a < inf) || a == inf
    requires (b < TWO63 && b < inf) || b == inf
    ensures Compare(EncodeLimit(inf, a), EncodeLimit(inf, b)) == Sign(a, b)
  {
    CompareIsUnsignedIff(inf, a, b);
  }

  /** A total order, whatever the limits. */
  lemma CompareIsTotalOrder(x: Limit, y: Limit, z: Limit)
    ensures Compare(x, y) == 0 <==> x == y
    ensures Compare(x, y) == -Compare(y, x)
    ensures Compare(x, y) <= 0 && Compare(y, z) <= 0 ==> Compare(x, z) <= 0
  {
  }

  /** With Linux's infinity and with macOS's a limit of 2^63 compares below 0. */
  lemma HugeLimitComparesBelow(inf: rlim)
    requires inf == TWO64 - 1 || inf == TWO63 - 1
    ensures Compare(EncodeLimit(inf, TWO63), EncodeLimit(inf, 0)) == -1
    ensures Sign(TWO63, 0) == 1
  {
  }
}
