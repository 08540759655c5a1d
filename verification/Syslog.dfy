/** src/syslog.c and the Syslog module of src/extUnix.pp.ml: priority masks. */
module Syslog {

  /** An int used as a mask, by its one bits: `|` is union, `&` intersection. */
  type Mask = set<nat>

  /** What a mask table must be. The system's entries are single bits. */
  ghost predicate IsTable(masks: seq<Mask>) {
    && (forall i :: 0 <= i < |masks| ==> masks[i] != {})
    && (forall i, j :: 0 <= i < j < |masks| ==> masks[i] !! masks[j])
  }

  /** Levels are numbers of entries in the table: LOG_EMERG is 0, LOG_DEBUG is 7. */
  predicate AreLevels(levels: seq<nat>, size: nat) {
    forall k :: 0 <= k < |levels| ==> levels[k] < size
  }

  /** caml_convert_flag_list. */
  function MaskOf(masks: seq<Mask>, levels: seq<nat>): Mask
    requires AreLevels(levels, |masks|)
  {
    if levels == [] then {} else masks[levels[0]] + MaskOf(masks, levels[1..])
  }

  /** The levels below n that are in a mask, highest first. */
  function LevelsBelow(masks: seq<Mask>, mask: Mask, n: nat): seq<nat>
    requires n <= |masks|
  {
    if n == 0 then []
    else (if masks[n - 1] <= mask then [n - 1] else []) + LevelsBelow(masks, mask, n - 1)
  }

  predicate Descending(levels: seq<nat>) {
    forall j, k :: 0 <= j < k < |levels| ==> levels[j] > levels[k]
  }

  lemma {:induction false} LevelsBelowAre(masks: seq<Mask>, mask: Mask, n: nat)
    requires n <= |masks|
    ensures forall i: nat :: i in LevelsBelow(masks, mask, n) <==> i < n && masks[i] <= mask
    ensures Descending(LevelsBelow(masks, mask, n))
  {
    if n > 0 {
      var rest := LevelsBelow(masks, mask, n - 1);
      LevelsBelowAre(masks, mask, n - 1);
      assert forall k :: 0 <= k < |rest| ==> rest[k] in rest;
    }
  }

  /** The mask of a list has the bits of its entries. */
  lemma {:induction false} MaskOfBits(masks: seq<Mask>, levels: seq<nat>)
    requires AreLevels(levels, |masks|)
    ensures forall b: nat :: b in MaskOf(masks, levels) <==> exists l | l in levels :: b in masks[l]
  {
    if levels != [] {
      MaskOfBits(masks, levels[1..]);
      assert forall l :: l in levels <==> l == levels[0] || l in levels[1..];
    }
  }

  /** The process's log mask. */
  class Logger {
    const masks: seq<Mask>
    var mask: Mask

    constructor (masks: seq<Mask>, mask: Mask)
      ensures this.masks == masks && this.mask == mask
    {
      this.masks, this.mask := masks, mask;
    }

    /** caml_extunix_setlogmask: the system call gives the previous mask and ignores an
        empty one; the loop makes a list of it by consing as it goes up the table. */
    method SetLogMask(levels: seq<nat>) returns (cli: seq<nat>)
      requires AreLevels(levels, |masks|)
      modifies this`mask
      ensures cli == LevelsBelow(masks, old(mask), |masks|)
      ensures mask == if MaskOf(masks, levels) == {} then old(mask) else MaskOf(masks, levels)
      ensures Descending(cli) && forall i: nat :: i in cli <==> i < |masks| && masks[i] <= old(mask)
      ensures forall b: nat :: b in mask <==>
        if exists l | l in levels :: masks[l] != {} then exists l | l in levels :: b in masks[l] else b in old(mask)
    {
      LevelsBelowAre(masks, mask, |masks|);
      MaskOfBits(masks, levels);
      var m := MaskOf(masks, levels);
      var nmask := mask;
      if m != {} { mask := m; }
      cli := [];
      var i := 0;
      while i < |masks|
        invariant i <= |masks|
        invariant cli == LevelsBelow(masks, nmask, i)
      {
        if masks[i] * nmask == masks[i] {
          cli := [i] + cli;
        }
        i := i + 1;
      }
    }
  }

  // ---- Masks and lists are inverse ------------------------------------------------------

  /** The mask of a list has all of an entry's bits or none. */
  lemma {:induction false} MaskAtEntry(masks: seq<Mask>, levels: seq<nat>, i: nat)
    requires IsTable(masks) && AreLevels(levels, |masks|) && i < |masks|
    ensures if i in levels then masks[i] <= MaskOf(masks, levels) else masks[i] !! MaskOf(masks, levels)
  {
    if levels != [] {
      MaskAtEntry(masks, levels[1..], i);
      assert i in levels <==> i == levels[0] || i in levels[1..];
      assert i != levels[0] ==> masks[i] !! masks[levels[0]];
    }
  }

  /** Encoding a list of levels and decoding the mask gives the levels of the list, each
      once, in strictly descending order. */
  lemma DecodeEncode(masks: seq<Mask>, levels: seq<nat>)
    requires IsTable(masks) && AreLevels(levels, |masks|)
    ensures var ls := LevelsBelow(masks, MaskOf(masks, levels), |masks|);
      (forall i: nat :: i in ls <==> i in levels) && Descending(ls)
  {
    hide MaskOf, LevelsBelow;
    LevelsBelowAre(masks, MaskOf(masks, levels), |masks|);
    forall i: nat | i < |masks| ensures masks[i] <= MaskOf(masks, levels) <==> i in levels {
      MaskAtEntry(masks, levels, i);
    }
    assert forall i: nat | i in levels :: i < |masks|;
  }

  /** A descending list is determined by its members. */
  lemma {:induction false} DescendingUnique(a: seq<nat>, b: seq<nat>)
    requires Descending(a) && Descending(b) && forall i :: i in a <==> i in b
    ensures a == b
  {
    var first := if a != [] then a[0] else if b != [] then b[0] else 0;
    if a == [] || b == [] {
      assert first in a <==> first in b;
    } else {
      assert a[0] in b && b[0] in a;
      assert a[0] == b[0];
      forall i ensures i in a[1..] <==> i in b[1..] {
        assert i in a <==> i == a[0] || i in a[1..];
        assert i in b <==> i == b[0] || i in b[1..];
        assert a[0] !in a[1..] && b[0] !in b[1..];
      }
      DescendingUnique(a[1..], b[1..]);
    }
  }

  /** A list in descending order, such as setlogmask returns, is restored exactly: what
      one call set the next one reports. */
  lemma DescendingIsFixed(masks: seq<Mask>, levels: seq<nat>)
    requires IsTable(masks) && AreLevels(levels, |masks|) && Descending(levels)
    ensures LevelsBelow(masks, MaskOf(masks, levels), |masks|) == levels
  {
    DecodeEncode(masks, levels);
    DescendingUnique(LevelsBelow(masks, MaskOf(masks, levels), |masks|), levels);
  }

  // ---- log_upto ------------------------------------------------------------------------------

  /** LOG_MASK of the severities of section 6.2.1 of RFC 5424. */
  const TABLE: seq<Mask> := seq(8, i => {i})

  /** The search through the levels from LOG_DEBUG down; its `assert false` is never
      reached. */
  function From(levels: seq<nat>, x: nat): seq<nat>
    requires x in levels
  {
    if levels[0] == x then levels else From(levels[1..], x)
  }

  function LogUpto(l: nat): seq<nat>
    requires l < 8
  {
    From([7, 6, 5, 4, 3, 2, 1, 0], l)
  }

  function DownFrom(l: nat): (r: seq<nat>)
    ensures |r| == l + 1
    ensures forall k :: 0 <= k <= l ==> r[k] == l - k
  {
    if l == 0 then [0] else [l] + DownFrom(l - 1)
  }

  lemma {:induction false} FromDown(n: nat, l: nat)
    requires l <= n
    ensures l in DownFrom(n) && From(DownFrom(n), l) == DownFrom(l)
  {
    assert DownFrom(n)[n - l] == l;
    if l < n {
      hide DownFrom;
      var down := DownFrom(n);
      assert down[0] == n && down[1..] == DownFrom(n - 1);
      FromDown(n - 1, l);
    }
  }

  /** log_upto gives the level and all more severe ones, least severe first. */
  lemma LogUptoIs(l: nat)
    requires l < 8
    ensures LogUpto(l) == DownFrom(l)
  {
    hide From, DownFrom;
    assert [7, 6, 5, 4, 3, 2, 1, 0] == DownFrom(7);
    FromDown(7, l);
  }

  function Power2(n: nat): nat {
    if n == 0 then 1 else 2 * Power2(n - 1)
  }

  /** The number whose one bits, among the lowest n, are `bits`. */
  function Number(bits: Mask, n: nat): nat {
    if n == 0 then 0 else Number(bits, n - 1) + if n - 1 in bits then Power2(n - 1) else 0
  }

  lemma {:induction false} LowBits(bits: Mask, l: nat, n: nat)
    requires forall b: nat :: b in bits <==> b <= l
    ensures Number(bits, n) == if n <= l + 1 then Power2(n) - 1 else Power2(l + 1) - 1
  {
    if n > 0 {
      LowBits(bits, l, n - 1);
    }
  }

  lemma {:induction false} MaskUpto(l: nat)
    requires l < 8
    ensures AreLevels(DownFrom(l), 8)
    ensures forall b: nat :: b in MaskOf(TABLE, DownFrom(l)) <==> b <= l
  {
    if l == 0 {
      assert DownFrom(0)[1..] == [];
    } else {
      MaskUpto(l - 1);
      assert DownFrom(l)[1..] == DownFrom(l - 1);
    }
  }

  /** The mask of log_upto l is 2^(l+1) - 1, as an int of any width above l, and
      setting it is reported back as log_upto l. */
  lemma LogUptoIsFixed(l: nat, width: nat)
    requires l < 8 && width > l
    ensures AreLevels(LogUpto(l), 8)
    ensures Number(MaskOf(TABLE, LogUpto(l)), width) == Power2(l + 1) - 1
    ensures LevelsBelow(TABLE, MaskOf(TABLE, LogUpto(l)), 8) == LogUpto(l)
  {
    hide MaskOf, LevelsBelow, Number, LogUpto;
    LogUptoIs(l);
    MaskUpto(l);
    LowBits(MaskOf(TABLE, DownFrom(l)), l, width);
    DescendingIsFixed(TABLE, DownFrom(l));
  }
}
