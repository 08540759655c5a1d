/** ppx_have/ppx_have.ml: what a stub does with arguments that come in stages. */
module HaveStages {
  import opened HaveStub

  // ---- Arguments in stages -----------------------------------------------------------------

  /** The function a waiting application returns, of the parameters that are left. */
  function Residual(e: Expr, args: multiset<Key>): Expr {
    match e
    case Fun(l, pat, body) =>
      if KeyOf(l) in args then Residual(body, args - multiset{KeyOf(l)})
      else if l.Optional? && Pos in args then Residual(body, args)
      else Fun(l, pat, Residual(body, args))
    case _ => e
  }

  /** The type of an application. */
  function Rest(typ: Typ, args: multiset<Key>): Typ {
    match typ
    case Arrow(l, arg, ret) =>
      if KeyOf(l) in args then Rest(ret, args - multiset{KeyOf(l)})
      else if l.Optional? && Pos in args then Rest(ret, args)
      else Arrow(l, arg, Rest(ret, args))
    case _ => typ
  }

  /** A stub that waits is the stub of what its type has left, and has that type. */
  lemma {:induction false} ResidualIsStub(name: string, typ: Typ, args: multiset<Key>)
    ensures Residual(MakeDummy(name, typ), args) == MakeDummy(name, Rest(typ, args))
    ensures TypeOf(Residual(MakeDummy(name, typ), args)) == Rest(typ, args)
  {
    StubExportsDeclaredType(name, Rest(typ, args));
    if typ.Arrow? {
      ResidualIsStub(name, typ.ret, Left(typ.lab, args));
    }
  }

  lemma {:induction false} SaturatedIff(typ: Typ, args: multiset<Key>)
    ensures Saturated(Parameters(typ), args) <==> !Rest(typ, args).Arrow?
  {
    if typ.Arrow? {
      hide Saturated;
      assert Parameters(typ)[1..] == Parameters(typ.ret);
      SaturatedStep(Parameters(typ), args);
      SaturatedIff(typ.ret, Left(typ.lab, args));
    }
  }

  /** One application after another, as in `((f a) ~x b) c`: the first that does not wait
      decides. */
  function Chain(e: Expr, stages: seq<multiset<Key>>): Outcome
    decreases |stages|
  {
    if stages == [] then Waiting
    else match Apply(e, stages[0])
      case Waiting => Chain(Residual(e, stages[0]), stages[1..])
      case outcome => outcome
  }

  /** The type after the stages. */
  function Remaining(typ: Typ, stages: seq<multiset<Key>>): Typ
    decreases |stages|
  {
    if stages == [] then typ else Remaining(Rest(typ, stages[0]), stages[1..])
  }

  lemma {:induction false} NothingRemains(typ: Typ, stages: seq<multiset<Key>>)
    requires !typ.Arrow?
    ensures Remaining(typ, stages) == typ
  {
    if stages != [] {
      NothingRemains(typ, stages[1..]);
    }
  }

  /** A stub applied in stages raises if and only if its type has no parameter left, so at
      the stage that takes the last one and not before. */
  lemma {:induction false} ChainRaisesIff(name: string, typ: Typ, stages: seq<multiset<Key>>)
    ensures Chain(MakeDummy(name, typ), stages)
      == if stages != [] && !Remaining(typ, stages).Arrow? then Raised(name) else Waiting
    decreases |stages|
  {
    if stages != [] {
      hide Apply, MakeDummy, Residual, Rest, Saturated;
      StubRaisesIffSaturated(name, typ, stages[0]);
      SaturatedIff(typ, stages[0]);
      ResidualIsStub(name, typ, stages[0]);
      if Rest(typ, stages[0]).Arrow? {
        ChainRaisesIff(name, Rest(typ, stages[0]), stages[1..]);
      } else {
        NothingRemains(Rest(typ, stages[0]), stages[1..]);
      }
    }
  }

  // ---- Stages and one application --------------------------------------------------------------

  /** With a positional argument passed, an argument ~x makes no difference: up to the
      first positional parameter the parameters named x are optional, and so omitted
      without it, and behind that one there are none. */
  predicate Ignores(typ: Typ, x: string) {
    typ.Arrow? ==>
      if typ.lab.Positional? then Takers(Parameters(typ.ret), Name(x)) == 0
      else (typ.lab.name == x ==> typ.lab.Optional?) && Ignores(typ.ret, x)
  }

  /** No optional parameter stands before one of its name that could be left waiting. */
  predicate Unambiguous(typ: Typ) {
    typ.Arrow? ==> (typ.lab.Optional? ==> Ignores(typ.ret, typ.lab.name)) && Unambiguous(typ.ret)
  }

  /** The first parameter, then the others. */
  lemma RestStep(typ: Typ, args: multiset<Key>)
    requires typ.Arrow?
    ensures KeyOf(typ.lab) in args || (typ.lab.Optional? && Pos in args) ==>
      Rest(typ, args) == Rest(typ.ret, Left(typ.lab, args))
    ensures KeyOf(typ.lab) !in args && !(typ.lab.Optional? && Pos in args) ==>
      Rest(typ, args) == Arrow(typ.lab, typ.arg, Rest(typ.ret, args))
  {
  }

  lemma LeftWithout(l: Label, args: multiset<Key>, k: Key)
    requires KeyOf(l) != k
    ensures Left(l, args - multiset{k}) == Left(l, args) - multiset{k}
    ensures KeyOf(l) in args <==> KeyOf(l) in args - multiset{k}
  {
  }

  lemma {:induction false} RestWithoutTakers(typ: Typ, args: multiset<Key>, x: string)
    requires Takers(Parameters(typ), Name(x)) == 0
    ensures Rest(typ, args) == Rest(typ, args - multiset{Name(x)})
  {
    if typ.Arrow? {
      assert Parameters(typ)[1..] == Parameters(typ.ret);
      hide Rest, Left;
      RestStep(typ, args);
      RestStep(typ, args - multiset{Name(x)});
      LeftWithout(typ.lab, args, Name(x));
      RestWithoutTakers(typ.ret, Left(typ.lab, args), x);
      RestWithoutTakers(typ.ret, args, x);
    }
  }

  lemma {:induction false} IgnoredArgument(typ: Typ, args: multiset<Key>, x: string)
    requires Ignores(typ, x) && Pos in args
    ensures Rest(typ, args) == Rest(typ, args - multiset{Name(x)})
  {
    if typ.Arrow? {
      hide Rest, Left, Takers;
      var fewer := args - multiset{Name(x)};
      RestStep(typ, args);
      RestStep(typ, fewer);
      if typ.lab.Positional? {
        LeftWithout(typ.lab, args, Name(x));
        RestWithoutTakers(typ.ret, Left(typ.lab, args), x);
      } else if typ.lab.name == x {
        LeftIs(typ.lab, args);
        LeftIs(typ.lab, fewer);
        IgnoredArgument(typ.ret, args, x);
        IgnoredArgument(typ.ret, fewer, x);
      } else {
        LeftWithout(typ.lab, args, Name(x));
        LeftIs(typ.lab, args);
        IgnoredArgument(typ.ret, Left(typ.lab, args), x);
        IgnoredArgument(typ.ret, args, x);
      }
    }
  }

  lemma LeftIs(l: Label, args: multiset<Key>)
    ensures Left(l, args) == args - multiset{KeyOf(l)}
  {
  }

  lemma {:induction false} StagesAddUp(typ: Typ, a: multiset<Key>, b: multiset<Key>)
    requires Unambiguous(typ)
    ensures Rest(Rest(typ, a), b) == Rest(typ, a + b)
  {
    if typ.Arrow? {
      var l, k := typ.lab, KeyOf(typ.lab);
      if k in a {
        assert a + b - multiset{k} == (a - multiset{k}) + b;
        StagesAddUp(typ.ret, a - multiset{k}, b);
      } else if l.Optional? && Pos in a {
        StagesAddUp(typ.ret, a, b);
        IgnoredArgument(typ.ret, a + b, l.name);
      } else if k in b {
        assert a + b - multiset{k} == a + (b - multiset{k});
        StagesAddUp(typ.ret, a, b - multiset{k});
      } else {
        StagesAddUp(typ.ret, a, b);
      }
    }
  }

  lemma {:induction false} RestOfNothing(typ: Typ)
    ensures Rest(typ, multiset{}) == typ
  {
    if typ.Arrow? {
      RestOfNothing(typ.ret);
    }
  }

  lemma {:induction false} OneTaken(typ: Typ, x: string)
    ensures Takers(Parameters(typ), Name(x)) > 0 ==> Rest(typ, multiset{Name(x)}) != typ
  {
    if typ.Arrow? {
      assert Parameters(typ)[1..] == Parameters(typ.ret);
      if KeyOf(typ.lab) == Name(x) {
        assert multiset{Name(x)} - multiset{Name(x)} == multiset{};
        RestOfNothing(typ.ret);
      } else {
        OneTaken(typ.ret, x);
      }
    }
  }

  lemma {:induction false} OneLeftWaiting(typ: Typ, x: string)
    requires !Ignores(typ, x)
    ensures Takers(Parameters(Rest(typ, multiset{Pos})), Name(x)) > 0
  {
    assert Parameters(typ)[1..] == Parameters(typ.ret);
    var rest := Rest(typ, multiset{Pos});
    if typ.lab.Positional? {
      assert multiset{Pos} - multiset{Pos} == multiset{};
      RestOfNothing(typ.ret);
    } else {
      if rest.Arrow? { assert Parameters(rest)[1..] == Parameters(rest.ret); }
      if !Ignores(typ.ret, x) { OneLeftWaiting(typ.ret, x); }
    }
  }

  lemma {:induction false} StagesThatDiffer(typ: Typ) returns (a: multiset<Key>, b: multiset<Key>)
    requires !Unambiguous(typ)
    ensures Rest(Rest(typ, a), b) != Rest(typ, a + b)
  {
    var l, k := typ.lab, KeyOf(typ.lab);
    if l.Optional? && !Ignores(typ.ret, l.name) {
      a, b := multiset{Pos}, multiset{k};
      OneLeftWaiting(typ.ret, l.name);
      OneTaken(Rest(typ.ret, a), l.name);
      assert a + b - multiset{k} == a;
    } else {
      var a';
      a', b := StagesThatDiffer(typ.ret);
      a := a' + multiset{k};
      assert a - multiset{k} == a' && a + b - multiset{k} == a' + b;
    }
  }

  /** Arguments given in two stages leave what they leave given at once, for the types in
      which no optional parameter can be confused with a later one of its name, and for
      no others. */
  lemma StagesAreOneApplicationIff(typ: Typ)
    ensures (forall a, b :: Rest(Rest(typ, a), b) == Rest(typ, a + b)) <==> Unambiguous(typ)
  {
    if Unambiguous(typ) {
      forall a, b ensures Rest(Rest(typ, a), b) == Rest(typ, a + b) {
        StagesAddUp(typ, a, b);
      }
    } else {
      var a, b := StagesThatDiffer(typ);
    }
  }

  function Total(stages: seq<multiset<Key>>): multiset<Key> {
    if stages == [] then multiset{} else stages[0] + Total(stages[1..])
  }

  lemma {:induction false} RestUnambiguous(typ: Typ, args: multiset<Key>)
    requires Unambiguous(typ)
    ensures Unambiguous(Rest(typ, args))
  {
    forall a, b ensures Rest(Rest(Rest(typ, args), a), b) == Rest(Rest(typ, args), a + b) {
      StagesAddUp(typ, args, a);
      StagesAddUp(typ, args + a, b);
      StagesAddUp(typ, args, a + b);
      assert args + a + b == args + (a + b);
    }
    StagesAreOneApplicationIff(Rest(typ, args));
  }

  lemma {:induction false} RemainingIsRest(typ: Typ, stages: seq<multiset<Key>>)
    requires Unambiguous(typ)
    ensures Remaining(typ, stages) == Rest(typ, Total(stages))
    decreases |stages|
  {
    if stages == [] {
      RestOfNothing(typ);
    } else {
      RestUnambiguous(typ, stages[0]);
      RemainingIsRest(Rest(typ, stages[0]), stages[1..]);
      StagesAddUp(typ, stages[0], Total(stages[1..]));
    }
  }

  /** A stub of such a type raises at the first stage by which all arguments so far
      saturate it. */
  lemma ChainIsOneApplication(name: string, typ: Typ, stages: seq<multiset<Key>>)
    requires Unambiguous(typ) && stages != []
    ensures Chain(MakeDummy(name, typ), stages) == Apply(MakeDummy(name, typ), Total(stages))
  {
    ChainRaisesIff(name, typ, stages);
    RemainingIsRest(typ, stages);
    StubRaisesIffSaturated(name, typ, Total(stages));
    SaturatedIff(typ, Total(stages));
  }
}
