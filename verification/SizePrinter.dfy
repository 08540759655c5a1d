/** src/extUnix.pp.ml: Rlimit.string_of_bytes, and the reader that inverts it. */
module SizePrinter {

  // ---- OCaml's integers and strings -----------------------------------------------------

  /** Int64.div and Int64.rem by 1024 truncate toward zero. */
  function Div(n: int): int {
    if n >= 0 then n / 1024 else -(-n / 1024)
  }

  function Rem(n: int): int {
    n - 1024 * Div(n)
  }

  function Digit(d: nat): char
    requires d < 10
  {
    '0' + d as char
  }

  function Digits(n: nat): string {
    if n < 10 then [Digit(n)] else Digits(n / 10) + [Digit(n % 10)]
  }

  /** "%Ld". */
  function Decimal(n: int): string {
    if n < 0 then "-" + Digits(-n) else Digits(n)
  }

  /** String.concat " ". */
  function Concat(words: seq<string>): string {
    if words == [] then ""
    else if |words| == 1 then words[0]
    else words[0] + " " + Concat(words[1..])
  }

  // ---- string_of_bytes ---------------------------------------------------------------------

  /** "%Ld %s". */
  function Amount(count: int, u: string): string {
    Decimal(count) + " " + u
  }

  /** List.fold_left over the units. */
  function Fold(units: seq<string>, sz: int, acc: seq<string>): (int, seq<string>) {
    if units == [] then (sz, acc)
    else
      var q, r := Div(sz), Rem(sz);
      Fold(units[1..], q, if r != 0 then [Amount(r, units[0])] + acc else acc)
  }

  function StringOfBytes(n: int): string {
    var (sz, acc) := Fold(["B", "KB", "MB", "GB"], n, []);
    var acc' := if sz != 0 then [Amount(sz, "TB")] + acc else acc;
    if acc' == [] then "0 B" else Concat(acc')
  }

  // ---- What is printed -------------------------------------------------------------------------

  datatype Part = Part(count: int, u: string)

  function Part1(count: int, u: string): seq<Part> {
    if count != 0 then [Part(count, u)] else []
  }

  /** The parts of the text, largest unit first. */
  function Parts(n: int): seq<Part> {
    var kb := Div(n);
    var mb := Div(kb);
    var gb := Div(mb);
    Part1(Div(gb), "TB") + (Part1(Rem(gb), "GB") + (Part1(Rem(mb), "MB") + (Part1(Rem(kb), "KB") + Part1(Rem(n), "B"))))
  }

  function Print(parts: seq<Part>): seq<string> {
    seq(|parts|, i requires 0 <= i < |parts| => Amount(parts[i].count, parts[i].u))
  }

  lemma PrintPrepend(count: int, u: string, parts: seq<Part>)
    ensures Print(Part1(count, u) + parts)
         == if count != 0 then [Amount(count, u)] + Print(parts) else Print(parts)
  {
    if count == 0 {
      assert Part1(count, u) + parts == parts;
    }
  }

  lemma FoldStep(units: seq<string>, sz: int, parts: seq<Part>)
    requires units != []
    ensures Fold(units, sz, Print(parts)) == Fold(units[1..], Div(sz), Print(Part1(Rem(sz), units[0]) + parts))
  {
    PrintPrepend(Rem(sz), units[0], parts);
  }

  /** The text is the parts, printed one after the other. */
  lemma FoldPrintsParts(n: int)
    ensures StringOfBytes(n) == if Parts(n) == [] then "0 B" else Concat(Print(Parts(n)))
  {
    hide Fold, Div, Rem;
    var units := ["B", "KB", "MB", "GB"];
    var kb := Div(n);
    var mb := Div(kb);
    var gb := Div(mb);
    var p0 := Part1(Rem(n), "B");
    var p1 := Part1(Rem(kb), "KB") + p0;
    var p2 := Part1(Rem(mb), "MB") + p1;
    var p3 := Part1(Rem(gb), "GB") + p2;
    assert Print([]) == [] && p0 + [] == p0;
    assert units[1..] == ["KB", "MB", "GB"];
    assert ["KB", "MB", "GB"][1..] == ["MB", "GB"];
    assert ["MB", "GB"][1..] == ["GB"];
    assert ["GB"][1..] == [];
    FoldStep(units, n, []);
    FoldStep(["KB", "MB", "GB"], kb, p0);
    FoldStep(["MB", "GB"], mb, p1);
    FoldStep(["GB"], gb, p2);
    FoldEnd([], Div(gb), Print(p3));
    PrintPrepend(Div(gb), "TB", p3);
    assert Parts(n) == Part1(Div(gb), "TB") + p3;
  }

  lemma FoldEnd(units: seq<string>, sz: int, acc: seq<string>)
    requires units == []
    ensures Fold(units, sz, acc) == (sz, acc)
  {
  }

  // ---- The parts are the number ---------------------------------------------------------------

  const KB := 1024
  const MB := 1024 * KB
  const GB := 1024 * MB
  const TB := 1024 * GB

  function UnitSize(u: string): nat {
    if u == "TB" then TB else if u == "GB" then GB else if u == "MB" then MB else if u == "KB" then KB else 1
  }

  function Total(parts: seq<Part>): int {
    if parts == [] then 0 else parts[0].count * UnitSize(parts[0].u) + Total(parts[1..])
  }

  lemma TotalPrepend(count: int, u: string, parts: seq<Part>)
    ensures Total(Part1(count, u) + parts) == count * UnitSize(u) + Total(parts)
  {
    if count == 0 {
      assert Part1(count, u) + parts == parts;
    } else {
      assert (Part1(count, u) + parts)[1..] == parts;
    }
  }

  /** Each count times its unit, summed, is the number printed. */
  lemma PartsTotal(n: int)
    ensures Total(Parts(n)) == n
  {
    hide Total;
    var kb := Div(n);
    var mb := Div(kb);
    var gb := Div(mb);
    var p0 := Part1(Rem(n), "B");
    var p1 := Part1(Rem(kb), "KB") + p0;
    var p2 := Part1(Rem(mb), "MB") + p1;
    var p3 := Part1(Rem(gb), "GB") + p2;
    TotalPrepend(Rem(n), "B", []);
    assert p0 + [] == p0 && Total([]) == 0 by { TotalOfNone(); }
    TotalPrepend(Rem(kb), "KB", p0);
    TotalPrepend(Rem(mb), "MB", p1);
    TotalPrepend(Rem(gb), "GB", p2);
    TotalPrepend(Div(gb), "TB", p3);
  }

  lemma TotalOfNone()
    ensures Total([]) == 0
  {
  }

  predicate IsUnit(u: string) {
    u in {"TB", "GB", "MB", "KB", "B"}
  }

  /** Parts as they should be: units strictly decrease; no count is zero and all have
      the sign of the number; below TB they stay under 1024. */
  ghost predicate Canonical(ps: seq<Part>, n: int) {
    && (forall i :: 0 <= i < |ps| ==> IsUnit(ps[i].u))
    && (forall i, j :: 0 <= i < j < |ps| ==> UnitSize(ps[i].u) > UnitSize(ps[j].u))
    && (forall i :: 0 <= i < |ps| ==> ps[i].count != 0 && (ps[i].count > 0 <==> n > 0))
    && (forall i :: 0 <= i < |ps| && ps[i].u != "TB" ==> -1024 < ps[i].count < 1024)
  }

  ghost predicate AllBelow(ps: seq<Part>, size: nat) {
    forall i :: 0 <= i < |ps| ==> UnitSize(ps[i].u) < size
  }

  lemma PrependCanonical(count: int, u: string, ps: seq<Part>, n: int)
    requires Canonical(ps, n) && IsUnit(u) && AllBelow(ps, UnitSize(u))
    requires (count > 0 ==> n > 0) && (count < 0 ==> n < 0)
    requires u == "TB" || -1024 < count < 1024
    ensures Canonical(Part1(count, u) + ps, n) && AllBelow(Part1(count, u) + ps, UnitSize(u) + 1)
  {
    if count == 0 {
      assert Part1(count, u) + ps == ps;
    }
  }

  lemma PartsAreCanonical(n: int)
    ensures Canonical(Parts(n), n)
  {
    hide Canonical;
    var kb := Div(n);
    var mb := Div(kb);
    var gb := Div(mb);
    SameSign(n);
    SameSign(kb);
    SameSign(mb);
    SameSign(gb);
    hide Div, Rem;
    var p0 := Part1(Rem(n), "B");
    var p1 := Part1(Rem(kb), "KB") + p0;
    var p2 := Part1(Rem(mb), "MB") + p1;
    var p3 := Part1(Rem(gb), "GB") + p2;
    NoPartsCanonical(n);
    assert p0 + [] == p0;
    PrependCanonical(Rem(n), "B", [], n);
    PrependCanonical(Rem(kb), "KB", p0, n);
    PrependCanonical(Rem(mb), "MB", p1, n);
    PrependCanonical(Rem(gb), "GB", p2, n);
    PrependCanonical(Div(gb), "TB", p3, n);
  }

  lemma NoPartsCanonical(n: int)
    ensures Canonical([], n)
  {
  }

  lemma SameSign(n: int)
    ensures n >= 0 ==> 0 <= Rem(n) < 1024 && 0 <= Div(n) <= n
    ensures n <= 0 ==> -1024 < Rem(n) <= 0 && n <= Div(n) <= 0
  {
  }

  // ---- Reading it back ----------------------------------------------------------------------------

  function ReadDigits(s: string): int {
    if s == [] then 0 else 10 * ReadDigits(s[..|s| - 1]) + (s[|s| - 1] as int - '0' as int)
  }

  function ReadDecimal(s: string): int {
    if s != [] && s[0] == '-' then -ReadDigits(s[1..]) else ReadDigits(s)
  }

  /** The words between spaces. */
  function Split(s: string, word: string): seq<string> {
    if s == [] then [word]
    else if s[0] == ' ' then [word] + Split(s[1..], "")
    else Split(s[1..], word + [s[0]])
  }

  /** Counts and units, alternating. */
  function ReadWords(words: seq<string>): int {
    if |words| < 2 then 0 else ReadDecimal(words[0]) * UnitSize(words[1]) + ReadWords(words[2..])
  }

  function ReadSize(s: string): int {
    ReadWords(Split(s, ""))
  }

  lemma {:induction false} DigitsRead(n: nat)
    ensures ReadDigits(Digits(n)) == n
    ensures Digits(n) != [] && forall c | c in Digits(n) :: '0' <= c <= '9'
  {
    if n < 10 {
      assert Digits(n)[..0] == [];
    } else {
      DigitsRead(n / 10);
      assert Digits(n)[..|Digits(n)| - 1] == Digits(n / 10);
    }
  }

  /** No number but 0 starts with the digit 0. */
  lemma {:induction false} NoLeadingZero(n: nat)
    ensures Digits(n) != [] && (Digits(n)[0] == '0' <==> n == 0)
  {
    if n >= 10 {
      NoLeadingZero(n / 10);
    }
  }

  /** Decimal notation: a sign for negative numbers alone, digits, no leading zero. */
  lemma DecimalIsPlain(n: int)
    ensures var s := Decimal(n);
      var digits := if n < 0 then s[1..] else s;
      && (n < 0 ==> s[0] == '-')
      && digits != []
      && (forall c | c in digits :: '0' <= c <= '9')
      && (digits[0] == '0' <==> n == 0)
  {
    var m := if n < 0 then -n else n;
    DigitsRead(m);
    NoLeadingZero(m);
    if n < 0 {
      assert Decimal(n)[1..] == Digits(m);
    }
  }

  lemma DecimalReads(n: int)
    ensures ReadDecimal(Decimal(n)) == n
    ensures forall c | c in Decimal(n) :: c != ' '
  {
    DigitsRead(if n < 0 then -n else n);
    if n < 0 {
      assert Decimal(n)[1..] == Digits(-n);
    } else {
      assert Digits(n)[0] in Digits(n);
    }
  }

  lemma {:induction false} SplitWord(w: string, rest: string, word: string)
    requires forall c | c in w :: c != ' '
    ensures Split(w, word) == [word + w]
    ensures Split(w + " " + rest, word) == [word + w] + Split(rest, "")
    decreases |w|
  {
    var s := w + " " + rest;
    if w == [] {
      assert s[1..] == rest && word + w == word;
    } else {
      assert w[0] in w && forall c | c in w[1..] :: c in w;
      assert s[0] == w[0] && s[1..] == w[1..] + " " + rest;
      assert word + [w[0]] + w[1..] == word + w;
      SplitWord(w[1..], rest, word + [w[0]]);
    }
  }

  lemma SplitAmount(p: Part, rest: string)
    requires forall c | c in p.u :: c != ' '
    ensures Split(Amount(p.count, p.u), "") == [Decimal(p.count), p.u]
    ensures Split(Amount(p.count, p.u) + " " + rest, "") == [Decimal(p.count), p.u] + Split(rest, "")
  {
    hide Split, Decimal;
    var d := Decimal(p.count);
    DecimalReads(p.count);
    SplitWord(d, p.u, "");
    SplitWord(p.u, rest, "");
    SplitWord(d, p.u + " " + rest, "");
    assert "" + d == d && "" + p.u == p.u;
    assert Amount(p.count, p.u) + " " + rest == d + " " + (p.u + " " + rest);
  }

  /** Counts and units, as they follow each other in the text. */
  function WordsOf(parts: seq<Part>): seq<string> {
    if parts == [] then [] else [Decimal(parts[0].count), parts[0].u] + WordsOf(parts[1..])
  }

  lemma {:induction false} SplitParts(parts: seq<Part>)
    requires parts != [] && forall p | p in parts :: forall c | c in p.u :: c != ' '
    ensures Split(Concat(Print(parts)), "") == WordsOf(parts)
  {
    hide Split, Decimal, Amount;
    var p, rest := parts[0], parts[1..];
    var text := Print(parts);
    if rest == [] {
      SplitAmount(p, "");
      assert Concat(text) == Amount(p.count, p.u);
    } else {
      assert text[1..] == Print(rest);
      SplitAmount(p, Concat(Print(rest)));
      SplitParts(rest);
    }
  }

  lemma {:induction false} ReadWordsOf(parts: seq<Part>)
    ensures ReadWords(WordsOf(parts)) == Total(parts)
  {
    hide Decimal, ReadDecimal, UnitSize;
    if parts != [] {
      DecimalReads(parts[0].count);
      assert WordsOf(parts)[2..] == WordsOf(parts[1..]);
      ReadWordsOf(parts[1..]);
    }
  }

  lemma UnitHasNoSpace(u: string)
    requires IsUnit(u)
    ensures forall c | c in u :: c != ' '
  {
  }

  lemma ReadNothing()
    ensures ReadSize("0 B") == 0
  {
    assert "0 B" == "0" + " " + "B";
    SplitWord("0", "B", "");
    SplitWord("B", "", "");
    assert "" + "0" == "0" && "" + "B" == "B";
    var words := ["0", "B"];
    assert words[2..] == [];
    DecimalReads(0);
    assert Digits(0) == "0";
  }

  /** The text is the counts and the units of the parts, in their order, with one space
      between any two; 0 is "0 B". */
  lemma TextIs(n: int)
    ensures n == 0 <==> Parts(n) == []
    ensures n == 0 ==> StringOfBytes(n) == "0 B"
    ensures n != 0 ==> Split(StringOfBytes(n), "") == WordsOf(Parts(n))
  {
    FoldPrintsParts(n);
    PartsTotal(n);
    PartsAreCanonical(n);
    if Parts(n) != [] {
      assert Parts(n)[0].count != 0;
      forall p | p in Parts(n) ensures forall c | c in p.u :: c != ' ' {
        UnitHasNoSpace(p.u);
      }
      hide Parts, StringOfBytes, Split;
      SplitParts(Parts(n));
    }
  }

  /** The text says the number: reading it back gives the int64 that was printed. */
  lemma ReadInvertsPrint(n: int)
    ensures ReadSize(StringOfBytes(n)) == n
  {
    hide Parts, StringOfBytes, Split, Decimal, ReadDecimal, UnitSize;
    FoldPrintsParts(n);
    PartsTotal(n);
    if Parts(n) == [] {
      ReadNothing();
    } else {
      PartsAreCanonical(n);
      forall p | p in Parts(n) ensures forall c | c in p.u :: c != ' ' {
        UnitHasNoSpace(p.u);
      }
      SplitParts(Parts(n));
      ReadWordsOf(Parts(n));
    }
  }

  /** Hence different sizes print differently. */
  lemma PrintingIsInjective(m: int, n: int)
    requires StringOfBytes(m) == StringOfBytes(n)
    ensures m == n
  {
    ReadInvertsPrint(m);
    ReadInvertsPrint(n);
  }
}
