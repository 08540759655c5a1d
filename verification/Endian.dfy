/**
 * src/endian.c, src/endianba.c and src/endian_helper.h: the CONV, GET and SET macros
 * and what their instances are made of, on a host of either byte order with 64-bit
 * words.
 */
module Endian {
  import opened Bytes

  datatype Order = Big | Little

  /** The byte order a function is named after; HostEndian functions convert by `id`. */
  datatype Target = BigEndian | LittleEndian | HostEndian

  datatype Width = W8 | W16 | W32 | W64 {
    function Size(): nat {
      match this case W8 => 1 case W16 => 2 case W32 => 4 case W64 => 8
    }

    function Modulus(): nat {
      match this
      case W8 => 0x100
      case W16 => 0x1_0000
      case W32 => 0x1_0000_0000
      case W64 => 0x1_0000_0000_0000_0000
    }
  }

  // ---- Positional values ------------------------------------------------------------

  function ValueBE(bs: seq<byte>): nat {
    if bs == [] then 0 else 256 * ValueBE(bs[..|bs| - 1]) + bs[|bs| - 1]
  }

  function ValueLE(bs: seq<byte>): nat {
    if bs == [] then 0 else bs[0] + 256 * ValueLE(bs[1..])
  }

  function BytesBE(n: nat, x: nat): (bs: seq<byte>)
    ensures |bs| == n
  {
    if n == 0 then [] else BytesBE(n - 1, x / 256) + [x % 256]
  }

  function BytesLE(n: nat, x: nat): (bs: seq<byte>)
    ensures |bs| == n
  {
    if n == 0 then [] else [x % 256] + BytesLE(n - 1, x / 256)
  }

  // ---- The machine -------------------------------------------------------------------

  /** `memcpy` from memory into an unsigned object of |bs| bytes. */
  function Load(host: Order, bs: seq<byte>): nat {
    if host == Big then ValueBE(bs) else ValueLE(bs)
  }

  /** `memcpy` from an unsigned object of n bytes to memory. */
  function Store(host: Order, n: nat, x: nat): (bs: seq<byte>)
    ensures |bs| == n
  {
    if host == Big then BytesBE(n, x) else BytesLE(n, x)
  }

  /** bswapN: the low bytes of x are shifted out and shifted in, first to last. */
  function Swap(n: nat, x: nat, acc: nat): nat {
    if n == 0 then acc else Swap(n - 1, x / 256, 256 * acc + x % 256)
  }

  /** htobeN, htoleN, beNtoh, leNtoh and `id`: either nothing or a byte swap. */
  function Conv(host: Order, target: Target, n: nat, x: nat): nat {
    match target
    case HostEndian => x
    case BigEndian => if host == Big then x else Swap(n, x, 0)
    case LittleEndian => if host == Little then x else Swap(n, x, 0)
  }

  /** C's conversion to uintN_t. */
  function Unsigned(w: Width, x: int): nat {
    x % w.Modulus()
  }

  /** C's conversion to intN_t. */
  function Signed(w: Width, x: int): int {
    var u := Unsigned(w, x);
    if u < w.Modulus() / 2 then u else u - w.Modulus()
  }

  function Convert(w: Width, signed: bool, x: int): int {
    if signed then Signed(w, x) else Unsigned(w, x)
  }

  // ---- OCaml values --------------------------------------------------------------------

  /** Val_long: shifted left over the tag bit, in a machine word. */
  function ValLong(x: int): nat {
    Unsigned(W64, 2 * Signed(W64, x) + 1)
  }

  /** Long_val: shifted back arithmetically. */
  function LongVal(word: nat): int {
    Signed(W64, word) / 2
  }

  /** How an integer crosses into OCaml: as a tagged int, or in an int32 or int64 box. */
  datatype Repr = Tagged | Boxed

  function ToOCaml(w: Width, repr: Repr, x: int): int {
    match repr
    case Tagged => LongVal(ValLong(x))
    case Boxed => Signed(w, x)
  }

  // ---- The macros ------------------------------------------------------------------------

  predicate InBounds(size: nat, w: Width, off: int) {
    0 <= off && off + w.Size() <= size
  }

  /** CONV: from host order or to host order, which are the same function. */
  function Conversion(host: Order, target: Target, w: Width, signed: bool, repr: Repr, v: int): int {
    var x := Convert(w, signed, v);
    var y := Convert(w, signed, Conv(host, target, w.Size(), Unsigned(w, x)));
    ToOCaml(w, repr, y)
  }

  /** GET. */
  function Get(host: Order, target: Target, w: Width, signed: bool, repr: Repr, buf: seq<byte>, off: nat): int
    requires InBounds(|buf|, w, off)
  {
    var x := Convert(w, signed, Load(host, Slice(buf, off, w.Size())));
    var y := Convert(w, signed, Conv(host, target, w.Size(), Unsigned(w, x)));
    ToOCaml(w, repr, y)
  }

  /** SET: the types are all unsigned. */
  function Encode(host: Order, target: Target, w: Width, v: int): (bs: seq<byte>)
    ensures |bs| == w.Size()
  {
    Store(host, w.Size(), Conv(host, target, w.Size(), Unsigned(w, v)))
  }

  function Set(host: Order, target: Target, w: Width, buf: seq<byte>, off: nat, v: int): (r: seq<byte>)
    requires InBounds(|buf|, w, off)
    ensures |r| == |buf|
  {
    Splice(buf, off, Encode(host, target, w, v))
  }

  // ---- The bounds-checking wrappers --------------------------------------------------------

  /** get_uint16 and the rest: Invalid_argument outside the string or bigarray. */
  method CheckedGet(host: Order, target: Target, w: Width, signed: bool, repr: Repr, buf: array<byte>, off: int)
    returns (ok: bool, v: int)
    ensures ok <==> 0 <= off && off + w.Size() <= buf.Length
    ensures ok ==> v == Get(host, target, w, signed, repr, buf[..], off)
  {
    if off < 0 || off > buf.Length - w.Size() { return false, 0; }
    return true, Get(host, target, w, signed, repr, buf[..], off);
  }

  /** set_uint16 and the rest, in place. */
  method CheckedSet(host: Order, target: Target, w: Width, buf: array<byte>, off: int, v: int) returns (ok: bool)
    modifies buf
    ensures ok <==> 0 <= off && off + w.Size() <= buf.Length
    ensures ok ==> buf[..] == Set(host, target, w, old(buf[..]), off, v)
    ensures !ok ==> buf[..] == old(buf[..])
  {
    if off < 0 || off > buf.Length - w.Size() { return false; }
    var x := Store(host, w.Size(), Conv(host, target, w.Size(), Unsigned(w, v)));
    var local := new byte[w.Size()](i requires 0 <= i < |x| => x[i]);
    assert local[..] == x;
    Memcpy(buf, off, local, 0, w.Size());
    assert Slice(local[..], 0, w.Size()) == x;
    return true;
  }
}
