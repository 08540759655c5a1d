/** The endian functions as programs see them, composed of conversions, copies, byte
    swaps and tags. */
module EndianTheorems {
  import opened Bytes
  import opened OCamlInt
  import opened Endian
  import opened EndianLaws

  // ---- Crossing into OCaml ------------------------------------------------------------

  /** A value of the C type reaches OCaml unchanged, except that 64 bits do not fit a
      tagged int. */
  lemma CrossesUnchanged(w: Width, signed: bool, repr: Repr, x: int)
    requires repr == Boxed ==> signed
    requires repr == Tagged ==> w != W64
    ensures ToOCaml(w, repr, Convert(w, signed, x)) == Convert(w, signed, x)
  {
    hide LongVal, ValLong, Wrap63, Unsigned;
    UnsignedRange(w, x);
    Wraps(w, signed, x);
    TaggingWraps(Convert(w, signed, x));
  }

  /** Whatever crosses keeps its bits at the type's width, unless it is 64 bits wide
      and tagged. */
  lemma CrossingKeepsBits(w: Width, signed: bool, repr: Repr, x: int)
    requires repr == Tagged ==> w != W64
    ensures Unsigned(w, ToOCaml(w, repr, Convert(w, signed, x))) == Unsigned(w, x)
  {
    hide LongVal, ValLong, Wrap63, Unsigned;
    UnsignedRange(w, x);
    TaggingWraps(Convert(w, signed, x));
    Wraps(w, signed, x);
    Wraps(w, true, Convert(w, signed, x));
  }

  // ---- Get ------------------------------------------------------------------------------

  /** A get reads the window in the order the function is named after, on either host. */
  lemma GetReads(host: Order, target: Target, w: Width, signed: bool, repr: Repr, buf: seq<byte>, off: nat)
    requires InBounds(|buf|, w, off)
    ensures Get(host, target, w, signed, repr, buf, off)
         == ToOCaml(w, repr, Convert(w, signed, Load(OrderOf(host, target), Slice(buf, off, w.Size()))))
  {
    hide Load, Conv, ToOCaml, Convert, Unsigned;
    var bs := Slice(buf, off, w.Size());
    var u := Load(host, bs);
    ConvAfterLoad(host, target, bs);
    ModulusIsPow(w);
    Wraps(w, signed, u);
  }

  /**
   * What a get answers, unless 64 bits go into a tagged int: the window's positional
   * value, less 256^size if the type is signed and the most significant byte is 128 or
   * more. So it lies in the type's range.
   */
  lemma GetIs(host: Order, target: Target, w: Width, signed: bool, repr: Repr, buf: seq<byte>, off: nat)
    requires InBounds(|buf|, w, off)
    requires (repr == Boxed ==> signed) && (repr == Tagged ==> w != W64)
    ensures var r := Get(host, target, w, signed, repr, buf, off);
      var m: int := Pow256(w.Size());
      var big := target == BigEndian || (target == HostEndian && host == Big);
      var u := if big then ValueBE(buf[off..off + w.Size()]) else ValueLE(buf[off..off + w.Size()]);
      var top := if big then buf[off] else buf[off + w.Size() - 1];
      && r == (if signed && top >= 128 then u - m else u)
      && if signed then -m <= 2 * r < m else 0 <= r < m
  {
    hide Get, ToOCaml, Convert, Pow256;
    var bs, order := Slice(buf, off, w.Size()), OrderOf(host, target);
    var u := Load(order, bs);
    GetReads(host, target, w, signed, repr, buf, off);
    CrossesUnchanged(w, signed, repr, u);
    ConvAfterLoad(host, target, bs);
    TopByte(order, bs);
    ConvertInRange(w, signed, u);
  }

  /** The host's byte order cannot be told from BigEndian or LittleEndian gets. */
  lemma GetIsHostIndependent(
    host: Order, host': Order, target: Target, w: Width, signed: bool, repr: Repr, buf: seq<byte>, off: nat)
    requires InBounds(|buf|, w, off) && target != HostEndian
    ensures Get(host, target, w, signed, repr, buf, off) == Get(host', target, w, signed, repr, buf, off)
  {
    GetReads(host, target, w, signed, repr, buf, off);
    GetReads(host', target, w, signed, repr, buf, off);
  }

  /** A little-endian get is the big-endian get of the window backwards. */
  lemma LittleGetIsBigGetReversed(
    host: Order, host': Order, w: Width, signed: bool, repr: Repr, buf: seq<byte>, off: nat)
    requires InBounds(|buf|, w, off)
    ensures Get(host, LittleEndian, w, signed, repr, buf, off)
         == Get(host', BigEndian, w, signed, repr, Reverse(Slice(buf, off, w.Size())), 0)
  {
    hide Get, ToOCaml, Convert;
    var bs := Slice(buf, off, w.Size());
    GetReads(host, LittleEndian, w, signed, repr, buf, off);
    GetReads(host', BigEndian, w, signed, repr, Reverse(bs), 0);
    LittleIsBigReversed(bs);
    assert Slice(Reverse(bs), 0, w.Size()) == Reverse(bs);
  }

  // ---- Set -------------------------------------------------------------------------------

  /** A set writes the low bytes of the value in the order the function is named after. */
  lemma EncodeWrites(host: Order, target: Target, w: Width, v: int)
    ensures Encode(host, target, w, v) == Store(OrderOf(host, target), w.Size(), Unsigned(w, v))
  {
    ModulusIsPow(w);
    ConvBeforeStore(host, target, w.Size(), Unsigned(w, v));
  }

  lemma WindowAfterSet(host: Order, target: Target, w: Width, buf: seq<byte>, off: nat, v: int)
    requires InBounds(|buf|, w, off)
    ensures var window := Slice(Set(host, target, w, buf, off, v), off, w.Size());
      && window == Store(OrderOf(host, target), w.Size(), Unsigned(w, v))
      && Load(OrderOf(host, target), window) == Unsigned(w, v)
  {
    hide Splice;
    var bs := Encode(host, target, w, v);
    EncodeWrites(host, target, w, v);
    SliceOfSplice(buf, off, bs, w.Size());
    assert Slice(bs, 0, w.Size()) == bs;
    ModulusIsPow(w);
    ValueOfBytes(w.Size(), Unsigned(w, v));
    ValueOfBigBytes(w.Size(), Unsigned(w, v));
  }

  /**
   * What was set is got, wrapped at the type's width and read as signed or unsigned.
   * The bytes may have been written on a host of the other byte order, except by the
   * HostEndian functions.
   */
  lemma SetThenGet(writer: Order, reader: Order, target: Target, w: Width, signed: bool, repr: Repr,
                   buf: seq<byte>, off: nat, v: int)
    requires InBounds(|buf|, w, off)
    requires target == HostEndian ==> writer == reader
    ensures Get(reader, target, w, signed, repr, Set(writer, target, w, buf, off, v), off)
         == ToOCaml(w, repr, Convert(w, signed, v))
    ensures (repr == Boxed ==> signed) && (repr == Tagged ==> w != W64) ==>
      var r := Get(reader, target, w, signed, repr, Set(writer, target, w, buf, off, v), off);
      r == Convert(w, signed, v) && WrapsTo(w, signed, v, r)
  {
    hide Get, Set, ToOCaml, Convert, WrapsTo;
    ConvertWraps(w, signed, v);
    GetReads(reader, target, w, signed, repr, Set(writer, target, w, buf, off, v), off);
    WindowAfterSet(writer, target, w, buf, off, v);
    Wraps(w, signed, v);
    if (repr == Boxed ==> signed) && (repr == Tagged ==> w != W64) {
      CrossesUnchanged(w, signed, repr, v);
    }
  }

  /** A set changes no byte outside its window. */
  lemma SetFrame(host: Order, target: Target, w: Width, buf: seq<byte>, off: nat, v: int)
    requires InBounds(|buf|, w, off)
    ensures forall i :: 0 <= i < |buf| && !(off <= i < off + w.Size()) ==>
      Set(host, target, w, buf, off, v)[i] == buf[i]
  {
    SpliceBytes(buf, off, Encode(host, target, w, v));
  }

  /** Setting what represents the window's own bits leaves the buffer alone; setting
      anything else does not. */
  lemma SetRestoresIff(host: Order, target: Target, w: Width, buf: seq<byte>, off: nat, v: int)
    requires InBounds(|buf|, w, off)
    ensures Set(host, target, w, buf, off, v) == buf
      <==> Unsigned(w, v) == Load(OrderOf(host, target), Slice(buf, off, w.Size()))
  {
    hide Set, Unsigned, Load, Store;
    var order, window, set' := OrderOf(host, target), Slice(buf, off, w.Size()), Set(host, target, w, buf, off, v);
    WindowAfterSet(host, target, w, buf, off, v);
    if Unsigned(w, v) == Load(order, window) {
      BytesOfValue(order, window);
      SetFrame(host, target, w, buf, off, v);
      forall i | 0 <= i < |buf| ensures set'[i] == buf[i] {
        if off <= i < off + w.Size() {
          assert set'[i] == Slice(set', off, w.Size())[i - off] == window[i - off];
        }
      }
    }
  }

  lemma BytesOfValue(order: Order, bs: seq<byte>)
    ensures Store(order, |bs|, Load(order, bs)) == bs
  {
    LittleRoundTrip(bs);
    BigRoundTrip(bs);
  }

  /** Getting and setting back restores the bytes, where the value fits OCaml's type. */
  lemma GetThenSet(host: Order, target: Target, w: Width, signed: bool, repr: Repr, buf: seq<byte>, off: nat)
    requires InBounds(|buf|, w, off)
    requires repr == Tagged ==> w != W64
    ensures Set(host, target, w, buf, off, Get(host, target, w, signed, repr, buf, off)) == buf
  {
    hide Get, Set, ToOCaml, Convert, Load;
    var u := Load(OrderOf(host, target), Slice(buf, off, w.Size()));
    GetReads(host, target, w, signed, repr, buf, off);
    CrossingKeepsBits(w, signed, repr, u);
    ConvAfterLoad(host, target, Slice(buf, off, w.Size()));
    ModulusIsPow(w);
    Wraps(w, signed, u);
    SetRestoresIff(host, target, w, buf, off, Get(host, target, w, signed, repr, buf, off));
  }

  // ---- 63-bit integers ----------------------------------------------------------------------

  /** get_uint63 and get_int63 are the same function: the tag drops the bit in which
      they differ. */
  lemma Uint63IsInt63(host: Order, target: Target, buf: seq<byte>, off: nat)
    requires InBounds(|buf|, W64, off)
    ensures Get(host, target, W64, false, Tagged, buf, off) == Get(host, target, W64, true, Tagged, buf, off)
  {
    hide Get, LongVal;
    var u := Load(OrderOf(host, target), Slice(buf, off, 8));
    GetReads(host, target, W64, false, Tagged, buf, off);
    GetReads(host, target, W64, true, Tagged, buf, off);
    Wraps(W64, true, u);
    Wraps(W64, false, u);
    assert Signed(W64, Unsigned(W64, u)) == Signed(W64, Signed(W64, u));
  }

  /** They answer an OCaml int that is the window's positional value modulo 2^63. */
  lemma Get63Is(host: Order, target: Target, signed: bool, buf: seq<byte>, off: nat)
    requires InBounds(|buf|, W64, off)
    ensures var r := Get(host, target, W64, signed, Tagged, buf, off);
      && IsInt(r)
      && (r - Load(OrderOf(host, target), Slice(buf, off, 8))) % 0x8000_0000_0000_0000 == 0
  {
    hide Get, LongVal, ValLong, Load, Wrap63, Convert, WrapsTo;
    var u := Load(OrderOf(host, target), Slice(buf, off, 8));
    GetReads(host, target, W64, signed, Tagged, buf, off);
    TaggingWraps(Convert(W64, signed, u));
    ConvertWraps(W64, signed, u);
    CongruentModHalf(u, Convert(W64, signed, u), Get(host, target, W64, signed, Tagged, buf, off));
  }

  lemma CongruentModHalf(u: int, x: int, r: int)
    requires WrapsTo(W64, true, u, x) || WrapsTo(W64, false, u, x)
    requires (r - x) % 0x8000_0000_0000_0000 == 0
    ensures (r - u) % 0x8000_0000_0000_0000 == 0
  {
    ModulusIsPow(W64);
    hide Pow256;
    var q := (x - u) / 0x1_0000_0000_0000_0000;
    var p := (r - x) / 0x8000_0000_0000_0000;
    assert r - u == 0x8000_0000_0000_0000 * (p + 2 * q);
  }

  /** Every OCaml int survives set_int63 followed by get_int63 or get_uint63. */
  lemma Set63ThenGet63(writer: Order, reader: Order, target: Target, signed: bool, buf: seq<byte>, off: nat, v: int)
    requires InBounds(|buf|, W64, off) && IsInt(v)
    requires target == HostEndian ==> writer == reader
    ensures Get(reader, target, W64, signed, Tagged, Set(writer, target, W64, buf, off, v), off) == v
  {
    hide Get, Set, LongVal, ValLong;
    SetThenGet(writer, reader, target, W64, signed, Tagged, buf, off, v);
    Uint63IsInt63(reader, target, Set(writer, target, W64, buf, off, v), off);
    SetThenGet(writer, reader, target, W64, true, Tagged, buf, off, v);
    TaggingWraps(Signed(W64, v));
  }

  /** What the tag costs 64 bits. */
  lemma TopBits(u: nat)
    requires u < 0x1_0000_0000_0000_0000
    ensures Unsigned(W64, Wrap63(Signed(W64, u))) == u
      <==> u / 0x8000_0000_0000_0000 == u / 0x4000_0000_0000_0000 % 2
  {
    var quarter := u / 0x4000_0000_0000_0000;
    var r := u - 0x4000_0000_0000_0000 * quarter;
    var x := Wrap63(Signed(W64, u));
    if quarter == 0 {
      assert x == r;
    } else if quarter == 1 {
      assert x == r - 0x4000_0000_0000_0000;
    } else if quarter == 2 {
      assert Signed(W64, u) == r - 0x8000_0000_0000_0000;
      assert x == r;
    } else {
      assert Signed(W64, u) == r - 0x4000_0000_0000_0000;
      assert x == r - 0x4000_0000_0000_0000;
    }
  }

  /** Eight bytes survive get_int63 followed by set_int63 just when the top two bits of
      the integer they hold are equal. */
  lemma Get63ThenSet63(host: Order, target: Target, signed: bool, buf: seq<byte>, off: nat)
    requires InBounds(|buf|, W64, off)
    ensures var u := Load(OrderOf(host, target), Slice(buf, off, 8));
      Set(host, target, W64, buf, off, Get(host, target, W64, signed, Tagged, buf, off)) == buf
      <==> u / 0x8000_0000_0000_0000 == u / 0x4000_0000_0000_0000 % 2
  {
    hide Get, Set, LongVal, ValLong, Load, Wrap63, Unsigned, Signed;
    var bs := Slice(buf, off, 8);
    var u := Load(OrderOf(host, target), bs);
    ConvAfterLoad(host, target, bs);
    ModulusIsPow(W64);
    Uint63IsInt63(host, target, buf, off);
    GetReads(host, target, W64, true, Tagged, buf, off);
    TaggingWraps(Signed(W64, u));
    TopBits(u);
    SetRestoresIff(host, target, W64, buf, off, Get(host, target, W64, signed, Tagged, buf, off));
  }

  // ---- Conversions ------------------------------------------------------------------------------

  /** The conversions there are: 64 bits only in a box, and boxes are signed. */
  predicate IsConversion(w: Width, signed: bool, repr: Repr) {
    (repr == Tagged ==> w != W64) && (repr == Boxed ==> signed)
  }

  lemma ConversionSwaps(host: Order, target: Target, w: Width, signed: bool, repr: Repr, v: int)
    requires IsConversion(w, signed, repr)
    ensures Conversion(host, target, w, signed, repr, v)
         == Convert(w, signed, Conv(host, target, w.Size(), Unsigned(w, v)))
  {
    hide Conv, ToOCaml, Unsigned, Convert;
    Wraps(w, signed, v);
    CrossesUnchanged(w, signed, repr, Conv(host, target, w.Size(), Unsigned(w, v)));
  }

  lemma ValueOfStored(order: Order, n: nat, x: nat)
    requires x < Pow256(n)
    ensures Load(order, Store(order, n, x)) == x
  {
    ValueOfBytes(n, x);
    ValueOfBigBytes(n, x);
  }

  lemma WrappedDown(c: int, m: int)
    requires m > 0
    ensures (c - c) % m == 0 && (c - m - c) % m == 0
  {
    assert -m == -1 * m;
  }

  /** A conversion answers the number of its type whose bytes on the host are the value's
      in the order the function is named after; its sign is that of the top byte. */
  lemma ConversionIs(host: Order, target: Target, w: Width, signed: bool, repr: Repr, v: int)
    requires IsConversion(w, signed, repr)
    ensures var r := Conversion(host, target, w, signed, repr, v);
      var bs := Store(OrderOf(host, target), w.Size(), v % Pow256(w.Size()));
      var m: int := Pow256(w.Size());
      && (r - Load(host, bs)) % m == 0
      && (if signed then -m <= 2 * r < m else 0 <= r < m)
      && (r < 0 <==> signed && (if host == Big then bs[0] else bs[w.Size() - 1]) >= 128)
  {
    hide Conversion, Conv, Convert, Load, Store, Pow256, WrapsTo;
    var n, u := w.Size(), Unsigned(w, v);
    var c, bs := Conv(host, target, n, u), Store(OrderOf(host, target), n, u);
    ModulusIsPow(w);
    ConversionSwaps(host, target, w, signed, repr, v);
    ConvBeforeStore(host, target, n, u);
    ValueOfStored(host, n, c);
    TopByte(host, bs);
    ConvertInRange(w, signed, c);
    WrappedDown(c, Pow256(n));
  }

  /** From host order and back is the identity up to wrapping at the type's width. */
  lemma ConversionTwice(host: Order, target: Target, w: Width, signed: bool, repr: Repr, v: int)
    requires IsConversion(w, signed, repr)
    ensures var r := Conversion(host, target, w, signed, repr, Conversion(host, target, w, signed, repr, v));
      r == Convert(w, signed, v) && WrapsTo(w, signed, v, r)
  {
    hide Conversion, Conv, Convert, Unsigned, WrapsTo;
    ConvertWraps(w, signed, v);
    var n, u := w.Size(), Unsigned(w, v);
    var c := Conv(host, target, n, u);
    ModulusIsPow(w);
    assert 0 <= u < w.Modulus() by { UnsignedRange(w, v); }
    ConvBeforeStore(host, target, n, u);
    ConvTwice(host, target, n, u);
    ConversionSwaps(host, target, w, signed, repr, v);
    ConversionSwaps(host, target, w, signed, repr, Convert(w, signed, c));
    Wraps(w, signed, c);
    Wraps(w, signed, v);
  }

  /** Converting first and setting in host order is setting in the target order. */
  lemma ConversionThenHostSet(
    host: Order, target: Target, w: Width, signed: bool, repr: Repr, buf: seq<byte>, off: nat, v: int)
    requires InBounds(|buf|, w, off) && IsConversion(w, signed, repr)
    ensures Set(host, HostEndian, w, buf, off, Conversion(host, target, w, signed, repr, v))
         == Set(host, target, w, buf, off, v)
  {
    hide Conversion, Convert, Unsigned, Splice;
    var c := Conv(host, target, w.Size(), Unsigned(w, v));
    UnsignedRange(w, v);
    ModulusIsPow(w);
    ConvBeforeStore(host, target, w.Size(), Unsigned(w, v));
    ConversionSwaps(host, target, w, signed, repr, v);
    Wraps(w, signed, c);
  }

  // ---- Sets on disjoint windows -------------------------------------------------------------------

  datatype Write = Write(target: Target, w: Width, off: nat, v: int)

  predicate AllInBounds(size: nat, ops: seq<Write>) {
    forall k :: 0 <= k < |ops| ==> InBounds(size, ops[k].w, ops[k].off)
  }

  function Apply(host: Order, buf: seq<byte>, ops: seq<Write>): (r: seq<byte>)
    requires AllInBounds(|buf|, ops)
    ensures |r| == |buf|
    decreases |ops|
  {
    if ops == [] then buf
    else Apply(host, Set(host, ops[0].target, ops[0].w, buf, ops[0].off, ops[0].v), ops[1..])
  }

  predicate Covers(op: Write, i: int) {
    op.off <= i < op.off + op.w.Size()
  }

  ghost predicate PairwiseDisjoint(ops: seq<Write>) {
    forall j, k, i :: 0 <= j < k < |ops| && Covers(ops[j], i) ==> !Covers(ops[k], i)
  }

  /** A byte no set covers stays; a byte only equal sets cover is theirs. */
  lemma {:induction false} ApplyByte(host: Order, buf: seq<byte>, ops: seq<Write>, i: nat, op: Write)
    requires AllInBounds(|buf|, ops) && i < |buf|
    requires forall k :: 0 <= k < |ops| && Covers(ops[k], i) ==> ops[k] == op
    ensures Apply(host, buf, ops)[i]
      == if op in ops && Covers(op, i) then Encode(host, op.target, op.w, op.v)[i - op.off] else buf[i]
    decreases |ops|
  {
    if ops != [] {
      hide Encode;
      var next := Set(host, ops[0].target, ops[0].w, buf, ops[0].off, ops[0].v);
      SpliceBytes(buf, ops[0].off, Encode(host, ops[0].target, ops[0].w, ops[0].v));
      ApplyByte(host, next, ops[1..], i, op);
      assert op in ops <==> op == ops[0] || op in ops[1..];
    }
  }

  /** Sets on pairwise disjoint windows give the same buffer in every order: `ops'` has
      the same sets, in any sequence. */
  lemma DisjointSetsCommute(host: Order, buf: seq<byte>, ops: seq<Write>, ops': seq<Write>)
    requires AllInBounds(|buf|, ops) && PairwiseDisjoint(ops)
    requires multiset(ops) == multiset(ops')
    ensures AllInBounds(|buf|, ops') && Apply(host, buf, ops) == Apply(host, buf, ops')
  {
    SameMembers(ops, ops');
    forall k | 0 <= k < |ops'| ensures InBounds(|buf|, ops'[k].w, ops'[k].off) {
      assert ops'[k] in ops;
    }
    forall i: nat | i < |buf| ensures Apply(host, buf, ops)[i] == Apply(host, buf, ops')[i] {
      var op := if exists k :: 0 <= k < |ops| && Covers(ops[k], i)
        then var k :| 0 <= k < |ops| && Covers(ops[k], i); ops[k] else Write(HostEndian, W8, i + 1, 0);
      OnlyOneCovers(ops, ops', i, op);
      ApplyByte(host, buf, ops, i, op);
      ApplyByte(host, buf, ops', i, op);
    }
  }

  lemma SameMembers(ops: seq<Write>, ops': seq<Write>)
    requires multiset(ops) == multiset(ops')
    ensures forall op :: op in ops <==> op in ops'
  {
    forall op ensures op in ops <==> op in ops' {
      assert op in ops <==> op in multiset(ops);
      assert op in ops' <==> op in multiset(ops');
    }
  }

  lemma OnlyOneCovers(ops: seq<Write>, ops': seq<Write>, i: nat, op: Write)
    requires PairwiseDisjoint(ops) && forall o :: o in ops <==> o in ops'
    requires (op in ops && Covers(op, i)) || forall k :: 0 <= k < |ops| ==> !Covers(ops[k], i)
    ensures forall k :: 0 <= k < |ops| && Covers(ops[k], i) ==> ops[k] == op
    ensures forall k :: 0 <= k < |ops'| && Covers(ops'[k], i) ==> ops'[k] == op
  {
    forall k | 0 <= k < |ops| && Covers(ops[k], i) ensures ops[k] == op {
      var j :| 0 <= j < |ops| && ops[j] == op;
      assert !(j < k) && !(k < j);
    }
    forall k | 0 <= k < |ops'| && Covers(ops'[k], i) ensures ops'[k] == op {
      assert ops'[k] in ops;
    }
  }
}
