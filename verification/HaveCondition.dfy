/** ppx_have/ppx_have.ml: conditions of have-sections, and when they hold. */
module HaveCondition {

  /** The expression in [%%have ...], as far as it is looked at: a constructor without
      argument, another constructor, a tuple, or anything else. */
  datatype Syntax =
    | Atom(name: string)
    | OtherConstruct
    | Tuple(args: seq<Syntax>)
    | OtherExpr

  /** The first item of the payload. */
  datatype Payload = Eval(expr: Syntax) | NotEval

  datatype Error = Malformed | Unregistered(name: string)

  datatype Result<+T> = Ok(value: T) | Fail(error: Error) {
    predicate IsFailure() {
      Fail?
    }

    function PropagateFailure<U>(): Result<U>
      requires Fail?
    {
      Fail(error)
    }

    function Extract(): T
      requires Ok?
    {
      value
    }
  }

  /** What the configuration found: the registered features and whether they are there. */
  type Config = map<string, bool>

  function Check(config: Config, name: string): Result<bool> {
    if name in config then Ok(config[name]) else Fail(Unregistered(name))
  }

  // ---- Parsing -------------------------------------------------------------------------

  function AtomOf(e: Syntax): Result<string> {
    if e.Atom? then Ok(e.name) else Fail(Malformed)
  }

  function AtomsOf(es: seq<Syntax>): Result<seq<string>> {
    if es == [] then Ok([])
    else
      var x :- AtomOf(es[0]);
      var xs :- AtomsOf(es[1..]);
      Ok([x] + xs)
  }

  function ConjOf(e: Syntax): Result<seq<string>> {
    if e.Atom? || e.OtherConstruct? then
      var x :- AtomOf(e);
      Ok([x])
    else if e.Tuple? then AtomsOf(e.args)
    else Fail(Malformed)
  }

  function ConjsOf(es: seq<Syntax>): Result<seq<seq<string>>> {
    if es == [] then Ok([])
    else
      var x :- ConjOf(es[0]);
      var xs :- ConjsOf(es[1..]);
      Ok([x] + xs)
  }

  function DisjOf(e: Syntax): Result<seq<seq<string>>> {
    if e.Atom? || e.OtherConstruct? then
      var x :- AtomOf(e);
      Ok([[x]])
    else if e.Tuple? then ConjsOf(e.args)
    else Fail(Malformed)
  }

  // ---- Evaluation ------------------------------------------------------------------------

  /** List.for_all: stops at the first feature that is missing, and does not look at
      the ones behind it. */
  function ForAll(config: Config, conj: seq<string>): Result<bool> {
    if conj == [] then Ok(true)
    else
      var b :- Check(config, conj[0]);
      if b then ForAll(config, conj[1..]) else Ok(false)
  }

  /** List.exists: stops at the first conjunction that holds. */
  function Exists(config: Config, disj: seq<seq<string>>): Result<bool> {
    if disj == [] then Ok(false)
    else
      var b :- ForAll(config, disj[0]);
      if b then Ok(true) else Exists(config, disj[1..])
  }

  function EvalCond(config: Config, cond: Payload): Result<bool> {
    match cond
    case Eval(expr) => var disj :- DisjOf(expr); Exists(config, disj)
    case NotEval => Fail(Malformed)
  }

  // ---- What the syntax denotes --------------------------------------------------------------

  predicate IsConj(e: Syntax) {
    e.Atom? || (e.Tuple? && forall a | a in e.args :: a.Atom?)
  }

  predicate IsCondition(cond: Payload) {
    cond.Eval? && (cond.expr.Atom? || (cond.expr.Tuple? && forall e | e in cond.expr.args :: IsConj(e)))
  }

  /** A conjunction holds when all its features are on. */
  predicate ConjHolds(on: set<string>, e: Syntax) {
    match e
    case Atom(x) => x in on
    case Tuple(args) => forall a | a in args :: a.Atom? && a.name in on
    case _ => false
  }

  /** A condition holds when some member of the tuple does. */
  predicate Holds(on: set<string>, cond: Payload) {
    match cond
    case Eval(Atom(x)) => x in on
    case Eval(Tuple(args)) => exists e | e in args :: ConjHolds(on, e)
    case _ => false
  }

  function ConjAtoms(e: Syntax): set<string> {
    match e
    case Atom(x) => {x}
    case Tuple(args) => set a | a in args && a.Atom? :: a.name
    case _ => {}
  }

  function Atoms(cond: Payload): set<string> {
    match cond
    case Eval(Atom(x)) => {x}
    case Eval(Tuple(args)) => set e, x | e in args && x in ConjAtoms(e) :: x
    case _ => {}
  }

  function On(config: Config): set<string> {
    set x | x in config && config[x]
  }

  // ---- Evaluation is denotation ----------------------------------------------------------------

  /** A list of atoms parses to the set the syntax names. */
  lemma {:induction false} AtomsOfNames(es: seq<Syntax>)
    ensures AtomsOf(es).Ok? <==> forall e | e in es :: e.Atom?
    ensures AtomsOf(es).Fail? ==> AtomsOf(es) == Fail(Malformed)
    ensures AtomsOf(es).Ok? ==>
      |AtomsOf(es).value| == |es| && forall i :: 0 <= i < |es| ==> AtomsOf(es).value[i] == es[i].name
  {
    if es != [] {
      AtomsOfNames(es[1..]);
      assert forall e :: e in es <==> e == es[0] || e in es[1..];
    }
  }

  /** `xs` are the features a conjunction names. */
  ghost predicate Names(xs: seq<string>, e: Syntax) {
    match e
    case Atom(x) => xs == [x]
    case Tuple(args) => |xs| == |args| && forall i :: 0 <= i < |args| ==> args[i] == Atom(xs[i])
    case _ => false
  }

  lemma ConjOfNames(e: Syntax)
    ensures ConjOf(e).Ok? <==> IsConj(e)
    ensures ConjOf(e).Fail? ==> ConjOf(e) == Fail(Malformed)
    ensures ConjOf(e).Ok? ==> Names(ConjOf(e).value, e)
  {
    if e.Tuple? {
      AtomsOfNames(e.args);
      if ConjOf(e).Ok? {
        forall i | 0 <= i < |e.args| ensures e.args[i] == Atom(ConjOf(e).value[i]) {
          assert e.args[i] in e.args;
        }
      }
    }
  }

  lemma {:induction false} ConjsOfNames(es: seq<Syntax>)
    ensures ConjsOf(es).Ok? <==> forall e | e in es :: IsConj(e)
    ensures ConjsOf(es).Fail? ==> ConjsOf(es) == Fail(Malformed)
    ensures ConjsOf(es).Ok? ==>
      |ConjsOf(es).value| == |es| && forall i :: 0 <= i < |es| ==> Names(ConjsOf(es).value[i], es[i])
  {
    if es != [] {
      hide IsConj, Names;
      ConjOfNames(es[0]);
      ConjsOfNames(es[1..]);
      assert forall e :: e in es <==> e == es[0] || e in es[1..];
    }
  }

  /** An answer about a conjunction is the one it has however the features it did not
      look at turn out: `config'` is any configuration that knows more. */
  lemma {:induction false} ForAllSound(config: Config, config': Config, xs: seq<string>, e: Syntax)
    requires config.Items <= config'.Items && Names(xs, e)
    ensures ForAll(config, xs).Ok? ==> ForAll(config, xs).value == ConjHolds(On(config'), e)
    ensures ConjAtoms(e) <= config.Keys ==> ForAll(config, xs).Ok?
    ensures ForAll(config, xs).Fail? ==> ForAll(config, xs).error.Unregistered?
  {
    ForAllDecides(config, config', xs);
    assert ConjHolds(On(config'), e) <==> forall x | x in xs :: x in On(config') by {
      if e.Tuple? {
        assert forall a | a in e.args :: exists i :: 0 <= i < |xs| && a == Atom(xs[i]);
        assert forall i | 0 <= i < |xs| :: e.args[i] in e.args;
      }
    }
    assert ConjAtoms(e) <= config.Keys ==> forall x | x in xs :: x in config by {
      if e.Tuple? {
        assert forall i | 0 <= i < |xs| :: e.args[i] in e.args && xs[i] in ConjAtoms(e);
      }
    }
  }

  lemma {:induction false} ForAllDecides(config: Config, config': Config, xs: seq<string>)
    requires config.Items <= config'.Items
    ensures ForAll(config, xs).Ok? ==> (ForAll(config, xs).value <==> forall x | x in xs :: x in On(config'))
    ensures (forall x | x in xs :: x in config) ==> ForAll(config, xs).Ok?
    ensures ForAll(config, xs).Fail? ==> ForAll(config, xs).error.Unregistered?
  {
    if xs != [] {
      ForAllDecides(config, config', xs[1..]);
      assert forall x :: x in xs <==> x == xs[0] || x in xs[1..];
      if xs[0] in config {
        assert (xs[0], config[xs[0]]) in config.Items;
        assert (xs[0], config[xs[0]]) in config'.Items;
        assert xs[0] in On(config') <==> config[xs[0]];
        assert xs[0] in xs;
      }
    }
  }

  lemma {:induction false} ExistsSound(config: Config, config': Config, disj: seq<seq<string>>, es: seq<Syntax>)
    requires config.Items <= config'.Items
    requires |disj| == |es| && forall i :: 0 <= i < |es| ==> Names(disj[i], es[i])
    ensures Exists(config, disj).Ok? ==>
      (Exists(config, disj).value <==> exists e | e in es :: ConjHolds(On(config'), e))
    ensures (forall e | e in es :: ConjAtoms(e) <= config.Keys) ==> Exists(config, disj).Ok?
    ensures Exists(config, disj).Fail? ==> Exists(config, disj).error.Unregistered?
  {
    if es != [] {
      hide Names, ConjHolds, ConjAtoms, ForAll, On;
      ForAllSound(config, config', disj[0], es[0]);
      ExistsSound(config, config', disj[1..], es[1..]);
      assert forall e :: e in es <==> e == es[0] || e in es[1..];
    }
  }

  // ---- When evaluation answers -----------------------------------------------------------------

  predicate IsOn(config: Config, name: string) {
    name in config && config[name]
  }

  predicate IsOff(config: Config, name: string) {
    name in config && !config[name]
  }

  /** All features of a conjunction are registered and on. */
  predicate AllOn(config: Config, e: Syntax) {
    match e
    case Atom(x) => IsOn(config, x)
    case Tuple(args) => forall a | a in args :: a.Atom? && IsOn(config, a.name)
    case _ => false
  }

  /** Before every unregistered feature of a conjunction stands one that is off. */
  predicate ConjSettled(config: Config, e: Syntax) {
    match e
    case Atom(x) => x in config
    case Tuple(args) =>
      forall i | 0 <= i < |args| && !(args[i].Atom? && args[i].name in config) ::
        exists j | 0 <= j < i :: args[j].Atom? && IsOff(config, args[j].name)
    case _ => false
  }

  /** Before every conjunction that is not settled stands one that is all on. */
  predicate Settled(config: Config, cond: Payload) {
    match cond
    case Eval(Atom(x)) => x in config
    case Eval(Tuple(args)) =>
      forall i | 0 <= i < |args| && !ConjSettled(config, args[i]) :: exists j | 0 <= j < i :: AllOn(config, args[j])
    case _ => false
  }

  /** Before every trap stands a stop. */
  ghost predicate Shielded(traps: seq<bool>, stops: seq<bool>)
    requires |traps| == |stops|
  {
    forall i :: 0 <= i < |traps| && traps[i] ==> exists j :: 0 <= j < i && stops[j]
  }

  lemma ShieldedStep(traps: seq<bool>, stops: seq<bool>)
    requires |traps| == |stops| > 0
    ensures Shielded(traps, stops) <==> !traps[0] && (stops[0] || Shielded(traps[1..], stops[1..]))
  {
    var traps', stops' := traps[1..], stops[1..];
    if Shielded(traps, stops) && !stops[0] {
      forall i | 0 <= i < |traps'| && traps'[i] ensures exists j :: 0 <= j < i && stops'[j] {
        assert traps[i + 1];
        var j :| 0 <= j < i + 1 && stops[j];
        assert stops'[j - 1];
      }
    }
    if !traps[0] && !stops[0] && Shielded(traps', stops') {
      forall i | 0 <= i < |traps| && traps[i] ensures exists j :: 0 <= j < i && stops[j] {
        assert traps'[i - 1];
        var j :| 0 <= j < i - 1 && stops'[j];
        assert stops[j + 1];
      }
    }
  }

  lemma {:induction false} ForAllAnswersIff(config: Config, xs: seq<string>, unknown: seq<bool>, off: seq<bool>)
    requires |unknown| == |off| == |xs|
    requires forall i :: 0 <= i < |xs| ==> unknown[i] == (xs[i] !in config) && off[i] == IsOff(config, xs[i])
    ensures ForAll(config, xs).Ok? <==> Shielded(unknown, off)
    ensures ForAll(config, xs) == Ok(true) <==> forall i :: 0 <= i < |xs| ==> IsOn(config, xs[i])
  {
    if xs != [] {
      hide Shielded;
      ShieldedStep(unknown, off);
      ForAllAnswersIff(config, xs[1..], unknown[1..], off[1..]);
      assert forall i :: 0 < i < |xs| ==> xs[i] == xs[1..][i - 1];
    } else {
      assert Shielded(unknown, off);
    }
  }

  lemma ConjAnswersIff(config: Config, xs: seq<string>, e: Syntax)
    requires Names(xs, e)
    ensures ForAll(config, xs).Ok? <==> ConjSettled(config, e)
    ensures ForAll(config, xs) == Ok(true) <==> AllOn(config, e)
  {
    var unknown := seq(|xs|, i requires 0 <= i < |xs| => xs[i] !in config);
    var off := seq(|xs|, i requires 0 <= i < |xs| => IsOff(config, xs[i]));
    ForAllAnswersIff(config, xs, unknown, off);
    hide ForAll;
    if e.Tuple? {
      assert forall i :: 0 <= i < |xs| ==> e.args[i] in e.args;
    } else {
      assert xs[0] == e.name;
    }
  }

  lemma {:induction false} ExistsAnswersIff(
    config: Config, disj: seq<seq<string>>, es: seq<Syntax>, open: seq<bool>, on: seq<bool>)
    requires |disj| == |open| == |on| == |es| && forall i :: 0 <= i < |es| ==> Names(disj[i], es[i])
    requires forall i :: 0 <= i < |es| ==> open[i] == !ConjSettled(config, es[i]) && on[i] == AllOn(config, es[i])
    ensures Exists(config, disj).Ok? <==> Shielded(open, on)
  {
    if es != [] {
      hide Shielded, ConjSettled, AllOn, Names, ForAll;
      ShieldedStep(open, on);
      ConjAnswersIff(config, disj[0], es[0]);
      ExistsAnswersIff(config, disj[1..], es[1..], open[1..], on[1..]);
    } else {
      assert Shielded(open, on);
    }
  }

  /** Evaluation answers if and only if the condition is well formed and settled: an
      unregistered feature does no harm behind one that is off, nor a conjunction behind
      one that is all on. */
  lemma EvalCondAnswersIff(config: Config, cond: Payload)
    ensures EvalCond(config, cond).Ok? <==> IsCondition(cond) && Settled(config, cond)
  {
    if cond.Eval? && cond.expr.Tuple? {
      hide IsConj, Names, ConjSettled, AllOn;
      var args := cond.expr.args;
      ConjsOfNames(args);
      if ConjsOf(args).Ok? {
        var open := seq(|args|, i requires 0 <= i < |args| => !ConjSettled(config, args[i]));
        var on := seq(|args|, i requires 0 <= i < |args| => AllOn(config, args[i]));
        ExistsAnswersIff(config, ConjsOf(args).value, args, open, on);
      }
    } else if cond.Eval? && cond.expr.Atom? {
      var x := cond.expr.name;
      assert DisjOf(cond.expr) == Ok([[x]]) && [[x]][0] == [x] && [x][0] == x && [x][1..] == [] && [[x]][1..] == [];
      assert ForAll(config, [x]).Ok? <==> x in config;
      assert Exists(config, [[x]]).Ok? <==> x in config;
    }
  }

  /** x is the first feature of a conjunction that is not on, and it is not registered. */
  ghost predicate ConjReports(config: Config, e: Syntax, x: string) {
    match e
    case Atom(y) => x == y && x !in config
    case Tuple(args) =>
      exists k :: 0 <= k < |args| && args[k] == Atom(x) && x !in config
        && forall j :: 0 <= j < k ==> args[j].Atom? && IsOn(config, args[j].name)
    case _ => false
  }

  /** x is reported by the first conjunction that has no answer, behind none that is on. */
  ghost predicate Reports(config: Config, cond: Payload, x: string) {
    match cond
    case Eval(Atom(y)) => x == y && x !in config
    case Eval(Tuple(args)) =>
      exists i :: 0 <= i < |args| && ConjReports(config, args[i], x)
        && forall j :: 0 <= j < i ==> ConjSettled(config, args[j]) && !AllOn(config, args[j])
    case _ => false
  }

  lemma {:induction false} ForAllReports(config: Config, xs: seq<string>) returns (k: nat)
    requires ForAll(config, xs).Fail?
    ensures k < |xs| && xs[k] !in config && ForAll(config, xs) == Fail(Unregistered(xs[k]))
    ensures forall j :: 0 <= j < k ==> IsOn(config, xs[j])
  {
    if xs[0] !in config {
      k := 0;
    } else {
      k := ForAllReports(config, xs[1..]);
      assert forall j :: 0 < j <= k ==> xs[j] == xs[1..][j - 1];
      k := k + 1;
    }
  }

  lemma {:induction false} ExistsReports(config: Config, disj: seq<seq<string>>, es: seq<Syntax>, x: string)
    returns (i: nat)
    requires |disj| == |es| && forall i :: 0 <= i < |es| ==> Names(disj[i], es[i])
    requires Exists(config, disj) == Fail(Unregistered(x))
    ensures i < |es| && ConjReports(config, es[i], x)
    ensures forall j :: 0 <= j < i ==> ConjSettled(config, es[j]) && !AllOn(config, es[j])
  {
    hide ConjSettled, AllOn, ForAll;
    ConjAnswersIff(config, disj[0], es[0]);
    if ForAll(config, disj[0]).Fail? {
      var k := ForAllReports(config, disj[0]);
      assert es[0].Tuple? ==> es[0].args[k] == Atom(x);
      assert Names(disj[0], es[0]);
      i := 0;
    } else {
      hide ConjReports, Names;
      i := ExistsReports(config, disj[1..], es[1..], x);
      assert forall j :: 0 < j <= i ==> es[j] == es[1..][j - 1];
      i := i + 1;
    }
  }

  /** The unregistered feature that is reported is the first one evaluation reaches. */
  lemma EvalCondReports(config: Config, cond: Payload, x: string)
    requires EvalCond(config, cond) == Fail(Unregistered(x))
    ensures Reports(config, cond, x)
  {
    if cond.expr.Tuple? {
      hide IsConj, Names, ConjSettled, AllOn, ConjReports;
      var args := cond.expr.args;
      ConjsOfNames(args);
      var i := ExistsReports(config, ConjsOf(args).value, args, x);
    } else if cond.expr.Atom? {
      var y := cond.expr.name;
      assert DisjOf(cond.expr) == Ok([[y]]) && [[y]][0] == [y] && [y][0] == y && [y][1..] == [] && [[y]][1..] == [];
      assert y in config ==> ForAll(config, [y]).Ok?;
      assert y !in config ==> ForAll(config, [y]) == Fail(Unregistered(y));
      assert Exists(config, [[y]]) == ForAll(config, [y]);
    }
  }

  /**
   * Evaluation answers what the condition denotes, and keeps to it under every
   * configuration that registers more features. It answers every condition that is
   * settled, and fails on the others: if malformed as such, else on an unregistered
   * feature.
   */
  lemma EvalCondSound(config: Config, config': Config, cond: Payload)
    requires config.Items <= config'.Items
    ensures EvalCond(config, cond).Ok? ==> EvalCond(config, cond).value == Holds(On(config'), cond)
    ensures EvalCond(config, cond).Ok? <==> IsCondition(cond) && Settled(config, cond)
    ensures IsCondition(cond) && Atoms(cond) <= config.Keys ==> EvalCond(config, cond).Ok?
    ensures EvalCond(config, cond) == Fail(Malformed) <==> !IsCondition(cond)
  {
    EvalCondAnswersIff(config, cond);
    hide Settled;
    if cond.Eval? && cond.expr.Tuple? {
      hide IsConj, Names, ConjHolds, On;
      var args := cond.expr.args;
      ConjsOfNames(args);
      if ConjsOf(args).Ok? {
        ExistsSound(config, config', ConjsOf(args).value, args);
        if Atoms(cond) <= config.Keys {
          forall e | e in args ensures ConjAtoms(e) <= config.Keys {
            assert forall x | x in ConjAtoms(e) :: x in Atoms(cond);
          }
        }
      }
    } else if cond.Eval? && cond.expr.Atom? {
      var x := cond.expr.name;
      assert DisjOf(cond.expr) == Ok([[x]]);
      assert Names([x], cond.expr);
      ExistsSound(config, config', [[x]], [cond.expr]);
      assert ConjHolds(On(config'), cond.expr) == Holds(On(config'), cond);
    }
  }

  /** When every feature is registered the answer is the denotation. */
  lemma EvalCondDenotes(config: Config, cond: Payload)
    requires IsCondition(cond) && Atoms(cond) <= config.Keys
    ensures EvalCond(config, cond) == Ok(Holds(On(config), cond))
  {
    EvalCondSound(config, config, cond);
  }

  /** `config'` has what `config` has, and perhaps more of the same features. */
  predicate Enables(config: Config, config': Config) {
    config.Keys == config'.Keys && forall x | x in config :: config[x] ==> config'[x]
  }

  lemma HoldsMonotone(on: set<string>, on': set<string>, cond: Payload)
    requires on <= on' && Holds(on, cond)
    ensures Holds(on', cond)
  {
    if cond.expr.Tuple? {
      var e :| e in cond.expr.args && ConjHolds(on, e);
      assert ConjHolds(on', e);
    }
  }

  /** Turning features on never turns a condition off: it stays on exactly if it is still
      settled, in particular if all its features are registered. */
  lemma EvalCondMonotone(config: Config, config': Config, cond: Payload)
    requires Enables(config, config') && EvalCond(config, cond) == Ok(true)
    ensures EvalCond(config', cond) != Ok(false)
    ensures EvalCond(config', cond) == Ok(true) <==> Settled(config', cond)
    ensures Atoms(cond) <= config.Keys ==> EvalCond(config', cond) == Ok(true)
  {
    hide Settled;
    EvalCondSound(config, config, cond);
    EvalCondSound(config', config', cond);
    HoldsMonotone(On(config), On(config'), cond);
  }

  /** It can make evaluation reach an unregistered feature it used to stop before. */
  lemma EnablingCanReachUnregistered()
    ensures var cond := Eval(Tuple([Tuple([Atom("A"), Atom("U")]), Atom("B")]));
      && EvalCond(map["A" := false, "B" := true], cond) == Ok(true)
      && EvalCond(map["A" := true, "B" := true], cond) == Fail(Unregistered("U"))
  {
    var c0, c1: Config := map["A" := false, "B" := true], map["A" := true, "B" := true];
    var args := [Tuple([Atom("A"), Atom("U")]), Atom("B")];
    ConjsOfNames(args);
    var disj := ConjsOf(args).value;
    assert disj == [["A", "U"], ["B"]] by {
      assert Names(disj[0], args[0]) && args[0].args[0] == Atom(disj[0][0]) && args[0].args[1] == Atom(disj[0][1]);
      assert disj[0] == ["A", "U"];
      assert Names(disj[1], args[1]);
    }
    assert disj[1..] == [["B"]] && ["A", "U"][1..] == ["U"] && ["B"][1..] == [];
    assert ForAll(c0, ["A", "U"]) == Ok(false);
    assert ForAll(c0, ["B"]) == Ok(true);
    assert ForAll(c1, ["U"]) == Fail(Unregistered("U"));
    assert ForAll(c1, ["A", "U"]) == Fail(Unregistered("U"));
  }
}
