/** Laws of the endian functions: none of them depends on the byte order of the host. */
module EndianLaws {
  import opened Bytes
  import opened OCamlInt
  import opened Endian

  // ---- Positional notation -------------------------------------------------------------

  function Reverse(bs: seq<byte>): (r: seq<byte>)
    ensures |r| == |bs|
  {
    if bs == [] then [] else Reverse(bs[1..]) + [bs[0]]
  }

  /** 256^n. */
  function Pow256(n: nat): (p: nat)
    ensures p > 0
  {
    if n == 0 then 1 else 256 * Pow256(n - 1)
  }

  lemma ModulusIsPow(w: Width)
    ensures w.Modulus() == Pow256(w.Size())
  {
    assert Pow256(1) == 0x100;
    assert Pow256(2) == 0x1_0000;
    assert Pow256(3) == 0x100_0000;
    assert Pow256(4) == 0x1_0000_0000;
    assert Pow256(5) == 0x100_0000_0000;
    assert Pow256(6) == 0x1_0000_0000_0000;
    assert Pow256(7) == 0x100_0000_0000_0000;
    assert Pow256(8) == 0x1_0000_0000_0000_0000;
  }

  /** Little endian is big endian backwards. */
  lemma {:induction false} LittleIsBigReversed(bs: seq<byte>)
    ensures ValueLE(bs) == ValueBE(Reverse(bs))
  {
    if bs != [] {
      LittleIsBigReversed(bs[1..]);
      var r := Reverse(bs);
      assert r[..|r| - 1] == Reverse(bs[1..]) && r[|r| - 1] == bs[0];
    }
  }

  lemma {:induction false} ReverseAppend(bs: seq<byte>, b: byte)
    ensures Reverse(bs + [b]) == [b] + Reverse(bs)
  {
    if bs != [] {
      assert (bs + [b])[1..] == bs[1..] + [b];
      ReverseAppend(bs[1..], b);
    }
  }

  lemma {:induction false} ReverseTwice(bs: seq<byte>)
    ensures Reverse(Reverse(bs)) == bs
  {
    if bs != [] {
      ReverseTwice(bs[1..]);
      ReverseAppend(Reverse(bs[1..]), bs[0]);
    }
  }

  lemma {:induction false} BytesReversed(n: nat, x: nat)
    ensures BytesLE(n, x) == Reverse(BytesBE(n, x))
  {
    if n > 0 {
      BytesReversed(n - 1, x / 256);
      ReverseAppend(BytesBE(n - 1, x / 256), x % 256);
    }
  }

  lemma {:induction false} LittleRoundTrip(bs: seq<byte>)
    ensures ValueLE(bs) < Pow256(|bs|)
    ensures BytesLE(|bs|, ValueLE(bs)) == bs
  {
    if bs != [] {
      LittleRoundTrip(bs[1..]);
      var x := ValueLE(bs);
      assert x % 256 == bs[0] && x / 256 == ValueLE(bs[1..]);
    }
  }

  lemma {:induction false} ValueOfBytes(n: nat, x: nat)
    requires x < Pow256(n)
    ensures ValueLE(BytesLE(n, x)) == x
  {
    if n > 0 {
      ValueOfBytes(n - 1, x / 256);
      assert BytesLE(n, x)[1..] == BytesLE(n - 1, x / 256);
    }
  }

  lemma BigRoundTrip(bs: seq<byte>)
    ensures ValueBE(bs) < Pow256(|bs|)
    ensures BytesBE(|bs|, ValueBE(bs)) == bs
  {
    var n, r := |bs|, Reverse(bs);
    ReverseTwice(bs);
    LittleIsBigReversed(r);
    LittleRoundTrip(r);
    var x := ValueBE(bs);
    BytesReversed(n, x);
    ReverseTwice(BytesBE(n, x));
  }

  lemma ValueOfBigBytes(n: nat, x: nat)
    requires x < Pow256(n)
    ensures ValueBE(BytesBE(n, x)) == x
  {
    ValueOfBytes(n, x);
    BytesReversed(n, x);
    LittleIsBigReversed(BytesLE(n, x));
    ReverseTwice(BytesBE(n, x));
  }

  /** Little endian: what comes later counts more. */
  lemma {:induction false} LittleSplits(a: seq<byte>, b: seq<byte>)
    ensures ValueLE(a + b) == ValueLE(a) + Pow256(|a|) * ValueLE(b)
  {
    if a == [] {
      assert a + b == b;
    } else {
      assert (a + b)[1..] == a[1..] + b && (a + b)[0] == a[0];
      LittleSplits(a[1..], b);
      TimesTimes(Pow256(|a| - 1), ValueLE(b));
    }
  }

  lemma TimesTimes(p: nat, v: nat)
    ensures 256 * (p * v) == (256 * p) * v
  {
  }

  /** Big endian: what comes earlier counts more. */
  lemma {:induction false} BigSplits(a: seq<byte>, b: seq<byte>)
    ensures ValueBE(a + b) == Pow256(|b|) * ValueBE(a) + ValueBE(b)
  {
    if b == [] {
      assert a + b == a;
    } else {
      var b' := b[..|b| - 1];
      assert (a + b)[..|a + b| - 1] == a + b' && (a + b)[|a + b| - 1] == b[|b| - 1];
      BigSplits(a, b');
      TimesTimes(Pow256(|b| - 1), ValueBE(a));
    }
  }

  /** The most significant byte, which comes first in big endian and last in little
      endian, tells whether a value is in the upper half. */
  lemma TopByte(order: Order, bs: seq<byte>)
    requires bs != []
    ensures var top := if order == Big then bs[0] else bs[|bs| - 1];
      top >= 128 <==> 2 * Load(order, bs) >= Pow256(|bs|)
  {
    hide Pow256;
    var low := if order == Big then bs[1..] else bs[..|bs| - 1];
    TopSplits(order, bs);
    UpperHalf(Pow256(|low|), if order == Big then bs[0] else bs[|bs| - 1], Load(order, low));
  }

  lemma TopSplits(order: Order, bs: seq<byte>)
    requires bs != []
    ensures var top := if order == Big then bs[0] else bs[|bs| - 1];
      var low := if order == Big then bs[1..] else bs[..|bs| - 1];
      && Load(order, bs) == Pow256(|low|) * top + Load(order, low)
      && Load(order, low) < Pow256(|low|)
      && Pow256(|bs|) == 256 * Pow256(|low|)
  {
    if order == Big {
      assert bs == [bs[0]] + bs[1..];
      BigSplits([bs[0]], bs[1..]);
      BigRoundTrip(bs[1..]);
      OneByte(bs[0]);
    } else {
      var last := |bs| - 1;
      assert bs == bs[..last] + [bs[last]];
      LittleSplits(bs[..last], [bs[last]]);
      LittleRoundTrip(bs[..last]);
      OneByte(bs[last]);
    }
    hide ValueBE, ValueLE;
  }

  lemma OneByte(b: byte)
    ensures ValueBE([b]) == b && ValueLE([b]) == b
  {
    assert [b][..0] == [] && [b][1..] == [];
  }

  lemma UpperHalf(p: nat, top: nat, low: nat)
    requires low < p
    ensures top >= 128 <==> 2 * (p * top + low) >= 256 * p
  {
    if top >= 128 {
      Product(p, top - 128);
      assert p * top == 128 * p + p * (top - 128);
    } else {
      Product(p, 127 - top);
      assert p * top == 127 * p - p * (127 - top);
    }
  }

  lemma Product(p: nat, q: nat)
    ensures p * q >= 0
  {
  }

  // ---- Byte swaps ------------------------------------------------------------------------

  lemma {:induction false} SwapShiftsIn(n: nat, x: nat, prefix: seq<byte>)
    ensures Swap(n, x, ValueBE(prefix)) == ValueBE(prefix + BytesLE(n, x))
    decreases n
  {
    if n == 0 {
      assert prefix + BytesLE(0, x) == prefix;
    } else {
      var longer := prefix + [x % 256];
      assert longer[..|longer| - 1] == prefix;
      var rest := BytesLE(n - 1, x / 256);
      assert ValueBE(longer) == 256 * ValueBE(prefix) + x % 256;
      SwapShiftsIn(n - 1, x / 256, longer);
      assert longer + rest == prefix + ([x % 256] + rest);
    }
  }

  /** A swap reads big-endian what was little-endian. */
  lemma SwapReads(n: nat, x: nat)
    ensures Swap(n, x, 0) == ValueBE(BytesLE(n, x))
  {
    SwapShiftsIn(n, x, []);
    assert [] + BytesLE(n, x) == BytesLE(n, x);
  }

  /** The byte order a function is named after; loading and storing on a host of that
      order is what the functions do on every host. */
  function OrderOf(host: Order, target: Target): Order {
    match target case BigEndian => Big case LittleEndian => Little case HostEndian => host
  }

  /** Loading in host order and converting reads the window in the target order. */
  lemma ConvAfterLoad(host: Order, target: Target, bs: seq<byte>)
    ensures Conv(host, target, |bs|, Load(host, bs)) == Load(OrderOf(host, target), bs) < Pow256(|bs|)
    ensures Load(host, bs) < Pow256(|bs|)
  {
    LittleRoundTrip(bs);
    BigRoundTrip(bs);
    SwapReads(|bs|, Load(host, bs));
    BytesReversed(|bs|, ValueBE(bs));
    LittleIsBigReversed(bs);
  }

  /** Converting and storing in host order writes the window in the target order. */
  lemma ConvBeforeStore(host: Order, target: Target, n: nat, x: nat)
    requires x < Pow256(n)
    ensures Conv(host, target, n, x) < Pow256(n)
    ensures Store(host, n, Conv(host, target, n, x)) == Store(OrderOf(host, target), n, x)
  {
    SwapReads(n, x);
    var swapped := BytesLE(n, x);
    BigRoundTrip(swapped);
    BytesReversed(n, x);
    BytesReversed(n, ValueBE(swapped));
    ReverseTwice(BytesBE(n, x));
  }

  /** A conversion undoes itself. */
  lemma ConvTwice(host: Order, target: Target, n: nat, x: nat)
    requires x < Pow256(n)
    ensures Conv(host, target, n, Conv(host, target, n, x)) == x
  {
    SwapReads(n, x);
    var swapped := BytesLE(n, x);
    BigRoundTrip(swapped);
    var y := ValueBE(swapped);
    SwapReads(n, y);
    BytesReversed(n, y);
    ValueOfBytes(n, x);
    LittleIsBigReversed(swapped);
  }

  // ---- Widths ----------------------------------------------------------------------------

  lemma InRange(w: Width, u: int)
    requires 0 <= u < w.Modulus()
    ensures Unsigned(w, u) == u && Unsigned(w, u - w.Modulus()) == u
  {
    match w {
      case W8 =>
      case W16 =>
      case W32 =>
      case W64 =>
    }
  }

  lemma UnsignedRange(w: Width, x: int)
    ensures 0 <= Unsigned(w, x) < w.Modulus()
  {
  }

  /** Signed and unsigned readings of a type stand for the same bits. */
  lemma Wraps(w: Width, signed: bool, x: int)
    ensures Unsigned(w, Convert(w, signed, x)) == Unsigned(w, x)
    ensures Unsigned(w, Unsigned(w, x)) == Unsigned(w, x)
    ensures Convert(w, signed, Unsigned(w, x)) == Convert(w, signed, x)
    ensures 0 <= x < w.Modulus() ==> Unsigned(w, x) == x
  {
    hide Unsigned;
    UnsignedRange(w, x);
    InRange(w, Unsigned(w, x));
    if 0 <= x < w.Modulus() {
      InRange(w, x);
    }
  }

  /** r is x wrapped into the range of a type of the width: what C's conversion promises
      of unsigned types, and does for signed ones. */
  predicate WrapsTo(w: Width, signed: bool, x: int, r: int) {
    var m: int := Pow256(w.Size());
    (r - x) % m == 0 && if signed then -m <= 2 * r < m else 0 <= r < m
  }

  lemma ConvertWraps(w: Width, signed: bool, x: int)
    ensures WrapsTo(w, signed, x, Convert(w, signed, x))
  {
    ModulusIsPow(w);
    Congruent(w.Modulus(), x, Convert(w, signed, x));
    hide Pow256, Convert;
  }

  lemma Congruent(m: int, x: int, r: int)
    requires m > 0 && (r == x % m || r == x % m - m)
    ensures (r - x) % m == 0
  {
    var k := -(x / m) - if r == x % m then 0 else 1;
    assert r - x == m * k;
    Multiple(m, k);
  }

  /** A multiple of m from 0 to below m is 0. */
  lemma AtMostOnce(m: int, d: int)
    requires 0 <= m * d < m
    ensures d == 0
  {
  }

  lemma Multiple(m: int, k: int)
    requires m > 0
    ensures m * k % m == 0
  {
    var d := k - m * k / m;
    assert m * d == m * k % m;
    AtMostOnce(m, d);
  }

  lemma ConvertInRange(w: Width, signed: bool, u: nat)
    requires u < Pow256(w.Size())
    ensures var m := Pow256(w.Size());
      Convert(w, signed, u) == if signed && 2 * u >= m then u - m else u
  {
    ModulusIsPow(w);
    hide Pow256;
    InRange(w, u);
    match w {
      case W8 =>
      case W16 =>
      case W32 =>
      case W64 =>
    }
  }

  function Wrap63(x: int): int {
    var m := x % 0x8000_0000_0000_0000;
    if m <= MAX_INT then m else m - 0x8000_0000_0000_0000
  }

  /** The only OCaml int that differs from x by a multiple of 2^63. */
  lemma Wrap63Is(x: int, q: int, r: int)
    requires IsInt(r) && r == x - 0x8000_0000_0000_0000 * q
    ensures r == Wrap63(x) && (r - x) % 0x8000_0000_0000_0000 == 0
  {
    assert r - x == 0x8000_0000_0000_0000 * -q;
    if r >= 0 {
      assert x / 0x8000_0000_0000_0000 == q;
    } else {
      assert x / 0x8000_0000_0000_0000 == q - 1;
    }
  }

  lemma SignedIs(x: int) returns (q: int)
    ensures Signed(W64, x) == x - 0x1_0000_0000_0000_0000 * q
    ensures -0x8000_0000_0000_0000 <= Signed(W64, x) < 0x8000_0000_0000_0000
  {
    q := x / 0x1_0000_0000_0000_0000;
    if Signed(W64, x) < 0 { q := q + 1; }
  }

  lemma UnsignedIs(x: int) returns (q: int)
    ensures Unsigned(W64, x) == x - 0x1_0000_0000_0000_0000 * q
  {
    q := x / 0x1_0000_0000_0000_0000;
  }

  /** Crossing into OCaml as a tagged int wraps at 63 bits. */
  lemma TaggingWraps(x: int)
    ensures LongVal(ValLong(x)) == Wrap63(x)
    ensures IsInt(LongVal(ValLong(x))) && (LongVal(ValLong(x)) - x) % 0x8000_0000_0000_0000 == 0
    ensures IsInt(x) <==> LongVal(ValLong(x)) == x
  {
    hide Signed, Unsigned, Wrap63;
    var p := SignedIs(x);
    var q := UnsignedIs(2 * Signed(W64, x) + 1);
    var q' := SignedIs(ValLong(x));
    var r := LongVal(ValLong(x));
    assert 2 * r + 1 == Signed(W64, ValLong(x));
    Wrap63Is(x, 2 * p + q + q', r);
    if IsInt(x) { Wrap63Is(x, 0, x); }
  }
}
