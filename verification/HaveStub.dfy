/** ppx_have/ppx_have.ml: the function that stands in for an external that is missing. */
module HaveStub {

  datatype Label = Positional | Labelled(name: string) | Optional(name: string)

  datatype Typ =
    | Arrow(lab: Label, arg: Typ, ret: Typ)
    | OptionOf(of: Typ)
    | Other(code: string)

  /** `fun l (_ : pat) -> body`, `(body : typ)`, `raise (Not_available name)`, code that
      is not looked into, and the table of `have`. */
  datatype Expr =
    | Fun(lab: Label, pat: Typ, body: Expr)
    | Constrained(inner: Expr, typ: Typ)
    | RaiseNotAvailable(name: string)
    | Code(text: string, codeType: Typ)
    | Lookup(cases: seq<(string, bool)>)

  /** Inside a function an optional argument is an option. */
  function InsideType(l: Label, arg: Typ): Typ {
    if l.Optional? then OptionOf(arg) else arg
  }

  function MakeDummy(name: string, typ: Typ): Expr {
    match typ
    case Arrow(l, arg, ret) => Fun(l, InsideType(l, arg), MakeDummy(name, ret))
    case _ => Constrained(RaiseNotAvailable(name), typ)
  }

  // ---- Typing ------------------------------------------------------------------------

  const HAVE_TYPE := Arrow(Positional, Other("string"), OptionOf(Other("bool")))

  /** OCaml's typing of these expressions; raising has any type. */
  predicate HasType(e: Expr, t: Typ) {
    match e
    case Fun(l, pat, body) =>
      && t.Arrow?
      && t.lab == l
      && pat == (if l.Optional? then OptionOf(t.arg) else t.arg)
      && HasType(body, t.ret)
    case Constrained(inner, typ) => t == typ && HasType(inner, t)
    case RaiseNotAvailable(_) => true
    case Code(_, typ) => t == typ
    case Lookup(_) => t == HAVE_TYPE
  }

  /** The stub has the declared type of the external and no other. */
  lemma {:induction false} StubHasDeclaredType(name: string, typ: Typ, t: Typ)
    ensures HasType(MakeDummy(name, typ), t) <==> t == typ
  {
    if typ.Arrow? && t.Arrow? {
      StubHasDeclaredType(name, typ.ret, t.ret);
    }
  }

  /** The type a binding is exported with. */
  function TypeOf(e: Expr): Typ {
    match e
    case Fun(l, pat, body) => Arrow(l, if l.Optional? && pat.OptionOf? then pat.of else pat, TypeOf(body))
    case Constrained(_, typ) => typ
    case RaiseNotAvailable(_) => Other("'a")
    case Code(_, typ) => typ
    case Lookup(_) => HAVE_TYPE
  }

  predicate Raising(e: Expr) {
    match e
    case RaiseNotAvailable(_) => true
    case Fun(_, _, body) => Raising(body)
    case _ => false
  }

  /** An expression that does not leave its result open has one type, the exported one. */
  lemma {:induction false} TypeIsUnique(e: Expr, t: Typ)
    requires HasType(e, t) && !Raising(e)
    ensures t == TypeOf(e)
  {
    if e.Fun? {
      TypeIsUnique(e.body, t.ret);
    }
  }

  lemma {:induction false} StubIsNotOpen(name: string, typ: Typ)
    ensures !Raising(MakeDummy(name, typ))
  {
    if typ.Arrow? {
      StubIsNotOpen(name, typ.ret);
    }
  }

  lemma StubExportsDeclaredType(name: string, typ: Typ)
    ensures TypeOf(MakeDummy(name, typ)) == typ
  {
    StubHasDeclaredType(name, typ, typ);
    StubIsNotOpen(name, typ);
    TypeIsUnique(MakeDummy(name, typ), typ);
  }

  // ---- Application ---------------------------------------------------------------------

  /** What an argument is passed as: by position, or as ~name or ?name. */
  datatype Key = Pos | Name(name: string)

  function KeyOf(l: Label): Key {
    if l.Positional? then Pos else Name(l.name)
  }

  /** `Waiting`: the value is a function of the parameters that are still missing. */
  datatype Outcome = Waiting | Raised(name: string) | Value

  /**
   * One application to the arguments `args`, in any order. A parameter takes its
   * argument if it is there; an optional one that is not there counts as omitted when a
   * positional argument follows it; any other missing parameter makes the application
   * partial, and the body is not entered.
   */
  function Apply(e: Expr, args: multiset<Key>): Outcome {
    match e
    case Fun(l, _, body) =>
      if KeyOf(l) in args then Apply(body, args - multiset{KeyOf(l)})
      else if l.Optional? && Pos in args then Apply(body, args)
      else Waiting
    case Constrained(inner, _) => Apply(inner, args)
    case RaiseNotAvailable(name) => Raised(name)
    case _ => Value
  }

  function Parameters(typ: Typ): seq<Label> {
    if typ.Arrow? then [typ.lab] + Parameters(typ.ret) else []
  }

  /** How many of the labels take arguments passed as k. */
  function Takers(ls: seq<Label>, k: Key): nat {
    if ls == [] then 0 else (if KeyOf(ls[0]) == k then 1 else 0) + Takers(ls[1..], k)
  }

  /** Parameter i gets an argument: there are more of its kind than earlier takers. */
  predicate Supplied(ls: seq<Label>, args: multiset<Key>, i: nat)
    requires i < |ls|
  {
    Takers(ls[..i], KeyOf(ls[i])) < args[KeyOf(ls[i])]
  }

  /** Parameter i may be left out: it is optional and a positional argument is left. */
  predicate Omitted(ls: seq<Label>, args: multiset<Key>, i: nat)
    requires i < |ls|
  {
    ls[i].Optional? && Takers(ls[..i], Pos) < args[Pos]
  }

  predicate Saturated(ls: seq<Label>, args: multiset<Key>) {
    forall i | 0 <= i < |ls| :: Supplied(ls, args, i) || Omitted(ls, args, i)
  }

  /** What the first parameter leaves for the others. */
  function Left(l: Label, args: multiset<Key>): multiset<Key> {
    if KeyOf(l) in args then args - multiset{KeyOf(l)} else args
  }

  lemma OneMoreParameter(ls: seq<Label>, args: multiset<Key>, i: nat)
    requires 0 < i < |ls|
    requires Supplied(ls, args, 0) || Omitted(ls, args, 0)
    ensures Supplied(ls, args, i) == Supplied(ls[1..], Left(ls[0], args), i - 1)
    ensures Omitted(ls, args, i) == Omitted(ls[1..], Left(ls[0], args), i - 1)
  {
    assert ls[..i][1..] == ls[1..][..i - 1];
    assert ls[..i][0] == ls[0];
  }

  lemma FirstParameter(ls: seq<Label>, args: multiset<Key>)
    requires ls != []
    ensures Supplied(ls, args, 0) <==> KeyOf(ls[0]) in args
    ensures Omitted(ls, args, 0) <==> ls[0].Optional? && Pos in args
  {
    assert ls[..0] == [];
  }

  lemma SaturatedStep(ls: seq<Label>, args: multiset<Key>)
    requires ls != []
    ensures Saturated(ls, args) <==>
      (KeyOf(ls[0]) in args || (ls[0].Optional? && Pos in args)) && Saturated(ls[1..], Left(ls[0], args))
  {
    hide Supplied, Omitted, Left;
    FirstParameter(ls, args);
    if Supplied(ls, args, 0) || Omitted(ls, args, 0) {
      var left := Left(ls[0], args);
      forall i | 0 < i < |ls|
        ensures Supplied(ls, args, i) == Supplied(ls[1..], left, i - 1)
        ensures Omitted(ls, args, i) == Omitted(ls[1..], left, i - 1)
      {
        OneMoreParameter(ls, args, i);
      }
      if Saturated(ls, args) {
        forall j | 0 <= j < |ls[1..]| ensures Supplied(ls[1..], left, j) || Omitted(ls[1..], left, j) {
          assert Supplied(ls, args, j + 1) || Omitted(ls, args, j + 1);
        }
      }
    }
  }

  /** A stub raises, with the name of its external, exactly when the application supplies
      or rightfully omits every parameter; before that it waits, without raising. */
  lemma {:induction false} StubRaisesIffSaturated(name: string, typ: Typ, args: multiset<Key>)
    ensures Apply(MakeDummy(name, typ), args) == if Saturated(Parameters(typ), args) then Raised(name) else Waiting
  {
    if typ.Arrow? {
      hide Saturated;
      var ls := Parameters(typ);
      assert ls[1..] == Parameters(typ.ret);
      SaturatedStep(ls, args);
      StubRaisesIffSaturated(name, typ.ret, Left(ls[0], args));
    }
  }

  lemma {:induction false} TakersSplit(ls: seq<Label>, i: nat, k: Key)
    requires i < |ls|
    ensures Takers(ls[..i], k) + (if KeyOf(ls[i]) == k then 1 else 0) <= Takers(ls, k)
  {
    if i > 0 {
      TakersSplit(ls[1..], i - 1, k);
      assert ls[..i][1..] == ls[1..][..i - 1];
    } else {
      assert ls[..0] == [];
    }
  }

  /** With an argument for every parameter a stub raises; with too few positional
      arguments it does not, whatever else is passed. */
  lemma StubWaitsForItsArguments(name: string, typ: Typ, args: multiset<Key>)
    ensures (forall k :: args[k] >= Takers(Parameters(typ), k)) ==> Apply(MakeDummy(name, typ), args) == Raised(name)
    ensures args[Pos] < Takers(Parameters(typ), Pos) ==> Apply(MakeDummy(name, typ), args) == Waiting
  {
    var ls := Parameters(typ);
    StubRaisesIffSaturated(name, typ, args);
    if forall k :: args[k] >= Takers(ls, k) {
      forall i | 0 <= i < |ls| ensures Supplied(ls, args, i) {
        TakersSplit(ls, i, KeyOf(ls[i]));
      }
    }
    if args[Pos] < Takers(ls, Pos) {
      var i := Unsupplied(ls, args[Pos]);
      assert !Supplied(ls, args, i) && !Omitted(ls, args, i);
    }
  }

  /** The first positional parameter that n positional arguments do not reach. */
  lemma {:induction false} Unsupplied(ls: seq<Label>, n: nat) returns (i: nat)
    requires n < Takers(ls, Pos)
    ensures i < |ls| && ls[i].Positional? && Takers(ls[..i], Pos) == n
  {
    if ls[0].Positional? && n == 0 {
      i := 0;
      assert ls[..0] == [];
    } else {
      var m := if ls[0].Positional? then n - 1 else n;
      i := Unsupplied(ls[1..], m);
      assert ls[..i + 1][1..] == ls[1..][..i];
      i := i + 1;
    }
  }
}
