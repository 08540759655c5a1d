/** The table behind `have`, and what turning features on does. */
module HaveTable {
  import opened HaveCondition
  import opened HaveStub
  import opened HaveExpand
  import opened HaveTheorems

  // ---- The table ----------------------------------------------------------------------

  /** record_external sees the externals in sections. */
  predicate Recorded(d: Declaration) {
    d.external && d.guard.When?
  }

  /** The table after the guarded declarations, in order. */
  function Tabulate(config: Config, funcs: Table, ds: seq<Declaration>): Table
    decreases |ds|
  {
    if ds == [] then funcs
    else Tabulate(config, if Recorded(ds[0]) then funcs[ds[0].name := Present(config, ds[0])] else funcs, ds[1..])
  }

  lemma {:induction false} TabulateAppend(config: Config, funcs: Table, a: seq<Declaration>, b: seq<Declaration>)
    ensures Tabulate(config, funcs, a + b) == Tabulate(config, Tabulate(config, funcs, a), b)
    decreases |a|
  {
    if a == [] {
      assert a + b == b;
    } else {
      assert (a + b)[1..] == a[1..] + b && (a + b)[0] == a[0];
      TabulateAppend(config, if Recorded(a[0]) then funcs[a[0].name := Present(config, a[0])] else funcs, a[1..], b);
    }
  }

  lemma {:induction false} RecordTabulates(
    config: Config, funcs: Table, path: seq<string>, items: seq<Item>, cond: Payload, have: bool)
    requires EvalCond(config, cond) == Ok(have)
    ensures Record(funcs, have, items) == Tabulate(config, funcs, DeclaredItems(path, items, When(cond)))
    decreases items
  {
    if items != [] {
      var first, rest := DeclaredItem(path, items[0], When(cond)), DeclaredItems(path, items[1..], When(cond));
      var after := match items[0]
        case External(name, _) => funcs[name := have]
        case Module(_, inner) => Record(funcs, have, inner)
        case _ => funcs;
      assert after == Tabulate(config, funcs, first) by {
        if items[0].Module? {
          RecordTabulates(config, funcs, path + [items[0].name], items[0].items, cond, have);
        } else if first != [] {
          assert first[1..] == [];
        }
      }
      RecordTabulates(config, after, path, items[1..], cond, have);
      TabulateAppend(config, funcs, first, rest);
    }
  }

  lemma {:induction false} UnguardedTabulate(config: Config, funcs: Table, ds: seq<Declaration>)
    requires forall d | d in ds :: d.guard.Always?
    ensures Tabulate(config, funcs, ds) == funcs
    decreases |ds|
  {
    if ds != [] {
      UnguardedTabulate(config, funcs, ds[1..]);
    }
  }

  lemma {:induction false} DeclaredUnderGuard(path: seq<string>, items: seq<Item>, guard: Guard)
    ensures forall d | d in DeclaredItems(path, items, guard) :: d.guard == guard
    decreases items
  {
    if items != [] {
      DeclaredItemUnderGuard(path, items[0], guard);
      DeclaredUnderGuard(path, items[1..], guard);
    }
  }

  lemma {:induction false} DeclaredItemUnderGuard(path: seq<string>, item: Item, guard: Guard)
    ensures forall d | d in DeclaredItem(path, item, guard) :: d.guard == guard
    decreases item
  {
    if item.Module? {
      DeclaredUnderGuard(path + [item.name], item.items, guard);
    }
  }

  /** Expansion fills the table with the guarded declarations, in source order, and has
      evaluated all their conditions. */
  lemma {:induction false} ExpandTabulates(
    config: Config, all: bool, fold: Fold, funcs: Table, path: seq<string>, decls: seq<Decl>)
    requires Expand(config, all, fold, funcs, decls).Ok?
    ensures Expand(config, all, fold, funcs, decls).value.funcs == Tabulate(config, funcs, Declared(path, decls))
    ensures forall d | d in Declared(path, decls) :: d.guard.When? ==> EvalCond(config, d.guard.cond).Ok?
    decreases decls
  {
    hide Expand, ExpandDecl, EvalCond;
    if decls == [] {
      EmptyExpands(config, all, fold, funcs);
    } else {
      ExpandStep(config, all, fold, funcs, decls);
      DeclTabulates(config, all, fold, funcs, path, decls[0]);
      var funcs' := ExpandDecl(config, all, fold, funcs, decls[0]).value.funcs;
      ExpandTabulates(config, all, fold, funcs', path, decls[1..]);
      TabulateAppend(config, funcs, DeclaredDecl(path, decls[0]), Declared(path, decls[1..]));
    }
  }

  lemma {:induction false} DeclTabulates(
    config: Config, all: bool, fold: Fold, funcs: Table, path: seq<string>, decl: Decl)
    requires ExpandDecl(config, all, fold, funcs, decl).Ok?
    ensures ExpandDecl(config, all, fold, funcs, decl).value.funcs == Tabulate(config, funcs, DeclaredDecl(path, decl))
    ensures forall d | d in DeclaredDecl(path, decl) :: d.guard.When? ==> EvalCond(config, d.guard.cond).Ok?
    decreases decl
  {
    match decl {
      case Plain(item) =>
        DeclaredItemUnderGuard(path, item, Always);
        UnguardedTabulate(config, funcs, DeclaredItem(path, item, Always));
      case Group(name, inner) =>
        ExpandTabulates(config, all, fold, funcs, path + [name], inner);
      case Have(cond, items) =>
        DeclaredUnderGuard(path, items, When(cond));
        RecordTabulates(config, funcs, path, items, cond, EvalCond(config, cond).value);
      case ShowMeTheMoney =>
    }
  }

  // ---- have ----------------------------------------------------------------------------

  /** The last guarded declaration of a name. */
  function Last(ds: seq<Declaration>, name: string): Option<Declaration> {
    if ds == [] then None
    else
      var later := Last(ds[1..], name);
      if later.Some? then later
      else if Guards(ds[0], name) then Some(ds[0])
      else None
  }

  predicate Guards(d: Declaration, name: string) {
    Recorded(d) && d.name == name
  }

  lemma {:induction false} LastIsGuarded(ds: seq<Declaration>, name: string)
    ensures match Last(ds, name)
      case Some(d) => d in ds && Guards(d, name)
      case None => forall d | d in ds :: !Guards(d, name)
  {
    if ds != [] {
      LastIsGuarded(ds[1..], name);
    }
  }

  lemma {:induction false} TableHasLast(config: Config, funcs: Table, ds: seq<Declaration>, name: string)
    ensures var t := Tabulate(config, funcs, ds);
      match Last(ds, name)
      case Some(d) => name in t && t[name] == Present(config, d)
      case None => (name in t <==> name in funcs) && (name in t ==> t[name] == funcs[name])
    decreases |ds|
  {
    if ds != [] {
      hide Present;
      var funcs' := if Recorded(ds[0]) then funcs[ds[0].name := Present(config, ds[0])] else funcs;
      TableHasLast(config, funcs', ds[1..], name);
    }
  }

  lemma {:induction false} ExpandAppend(config: Config, all: bool, fold: Fold, funcs: Table, a: seq<Decl>, b: seq<Decl>)
    requires Expand(config, all, fold, funcs, a + b).Ok?
    ensures Expand(config, all, fold, funcs, a).Ok?
    ensures var st := Expand(config, all, fold, funcs, a).value;
      && Expand(config, all, fold, st.funcs, b).Ok?
      && Expand(config, all, fold, funcs, a + b).value
         == State(st.items + Expand(config, all, fold, st.funcs, b).value.items,
                  Expand(config, all, fold, st.funcs, b).value.funcs)
    decreases |a|
  {
    hide Expand, ExpandDecl;
    if a == [] {
      assert a + b == b;
      EmptyExpands(config, all, fold, funcs);
    } else {
      assert (a + b)[1..] == a[1..] + b && (a + b)[0] == a[0];
      ExpandStep(config, all, fold, funcs, a + b);
      ExpandStep(config, all, fold, funcs, a);
      ExpandAppend(config, all, fold, ExpandDecl(config, all, fold, funcs, a[0]).value.funcs, a[1..], b);
    }
  }

  /**
   * `have`, generated after the declarations `decls`: it knows just the guarded names,
   * and answers what the last section declaring a name came to.
   */
  lemma HaveAnswersLast(config: Config, fold: Fold, decls: seq<Decl>, name: string) returns (cases: seq<(string, bool)>)
    requires IsFold(fold) && Expand(config, true, fold, map[], decls + [ShowMeTheMoney]).Ok?
    ensures Expand(config, true, fold, map[], decls).Ok?
    ensures Expand(config, true, fold, map[], decls + [ShowMeTheMoney]).value.items
         == Expand(config, true, fold, map[], decls).value.items + [Binding("have", Lookup(cases))]
    ensures Answer(cases, name) == match Last(Declared([], decls), name)
      case Some(d) => Some(Present(config, d))
      case None => None
  {
    ExpandAppend(config, true, fold, map[], decls, [ShowMeTheMoney]);
    var funcs := Expand(config, true, fold, map[], decls).value.funcs;
    cases := fold(funcs);
    assert [ShowMeTheMoney][1..] == [];
    assert Expand(config, true, fold, funcs, [ShowMeTheMoney]).value.items == [Binding("have", Lookup(cases))];
    ExpandTabulates(config, true, fold, map[], [], decls);
    TableHasLast(config, map[], Declared([], decls), name);
    AnswerIsLookup(cases, funcs, name);
  }

  lemma {:induction false} RealMembers(bs: seq<Bound>)
    ensures forall b :: b in Real(bs) <==> b in bs && b.genuine
  {
    if bs != [] {
      RealMembers(bs[1..]);
    }
  }

  // ---- When a module is generated ----------------------------------------------------------------

  /** Every [@have ...] that takes effect has an answer. */
  predicate AttributesAnswer(config: Config, cs: seq<Constructor>) {
    forall c | c in cs && Governed(c) :: IsCondition(c.attributes[0].cond) && Settled(config, c.attributes[0].cond)
  }

  predicate SectionAnswers(config: Config, items: seq<Item>)
    decreases items
  {
    items != [] ==>
      && (items[0].TypeDecl? ==> AttributesAnswer(config, items[0].constructors))
      && (items[0].Module? ==> SectionAnswers(config, items[0].items))
      && SectionAnswers(config, items[1..])
  }

  /** Every condition that is looked at is well formed and settled: those of the
      sections and, for Specific, those on constructors in sections that hold. */
  predicate Answerable(config: Config, all: bool, decls: seq<Decl>)
    decreases decls
  {
    decls != [] ==>
      && (decls[0].Have? ==>
            && IsCondition(decls[0].cond)
            && Settled(config, decls[0].cond)
            && (!all && Holds(On(config), decls[0].cond) ==> SectionAnswers(config, decls[0].items)))
      && (decls[0].Group? ==> Answerable(config, all, decls[0].decls))
      && Answerable(config, all, decls[1..])
  }

  lemma {:induction false} RenamedIff(config: Config, cs: seq<Constructor>)
    ensures HaveConstructors(config, cs).Ok? <==> AttributesAnswer(config, cs)
  {
    if cs != [] {
      hide EvalCond, IsCondition, Settled;
      if Governed(cs[0]) {
        EvalCondAnswersIff(config, cs[0].attributes[0].cond);
      }
      RenamedIff(config, cs[1..]);
      assert forall c :: c in cs <==> c == cs[0] || c in cs[1..];
    }
  }

  lemma {:induction false} SectionRenamedIff(config: Config, items: seq<Item>)
    ensures HaveConstr(config, items).Ok? <==> SectionAnswers(config, items)
    decreases items
  {
    if items != [] {
      hide HaveConstructors, AttributesAnswer;
      match items[0] {
        case TypeDecl(_, cs) => RenamedIff(config, cs);
        case Module(_, inner) => SectionRenamedIff(config, inner);
        case _ =>
      }
      SectionRenamedIff(config, items[1..]);
    }
  }

  lemma AnswerableStep(config: Config, all: bool, decls: seq<Decl>)
    requires decls != []
    ensures Answerable(config, all, decls) <==>
      Answerable(config, all, [decls[0]]) && Answerable(config, all, decls[1..])
  {
    assert [decls[0]][1..] == [];
  }

  /** A module is generated if and only if all conditions that are looked at have
      answers. */
  lemma {:induction false} GeneratedIff(config: Config, all: bool, fold: Fold, funcs: Table, decls: seq<Decl>)
    ensures Expand(config, all, fold, funcs, decls).Ok? <==> Answerable(config, all, decls)
    decreases decls
  {
    hide Expand, ExpandDecl, Answerable;
    if decls == [] {
      EmptyExpands(config, all, fold, funcs);
      NothingToAnswer(config, all);
    } else {
      ExpandStep(config, all, fold, funcs, decls);
      AnswerableStep(config, all, decls);
      DeclGeneratedIff(config, all, fold, funcs, decls[0]);
      if ExpandDecl(config, all, fold, funcs, decls[0]).Ok? {
        GeneratedIff(config, all, fold, ExpandDecl(config, all, fold, funcs, decls[0]).value.funcs, decls[1..]);
      }
    }
  }

  lemma NothingToAnswer(config: Config, all: bool)
    ensures Answerable(config, all, [])
  {
  }

  lemma {:induction false} DeclGeneratedIff(config: Config, all: bool, fold: Fold, funcs: Table, decl: Decl)
    ensures ExpandDecl(config, all, fold, funcs, decl).Ok? <==> Answerable(config, all, [decl])
    decreases decl
  {
    hide Expand, EvalCond, IsCondition, Settled, Holds, On;
    NothingToAnswer(config, all);
    assert [decl][1..] == [];
    match decl {
      case Group(_, inner) => GeneratedIff(config, all, fold, funcs, inner);
      case Have(cond, items) =>
        EvalCondSound(config, config, cond);
        SectionRenamedIff(config, items);
      case _ =>
    }
  }

  predicate Registered(config: Config, cond: Payload) {
    IsCondition(cond) && Atoms(cond) <= config.Keys
  }

  predicate AllRegistered(config: Config, decls: seq<Decl>)
    decreases decls
  {
    decls != [] ==>
      && (decls[0].Have? ==> Registered(config, decls[0].cond))
      && (decls[0].Group? ==> AllRegistered(config, decls[0].decls))
      && AllRegistered(config, decls[1..])
  }

  predicate AttributesRegistered(config: Config, items: seq<Item>)
    decreases items
  {
    items != [] ==>
      && (items[0].TypeDecl? ==> forall c | c in items[0].constructors && Governed(c) ::
            Registered(config, c.attributes[0].cond))
      && (items[0].Module? ==> AttributesRegistered(config, items[0].items))
      && AttributesRegistered(config, items[1..])
  }

  predicate AllAttributesRegistered(config: Config, decls: seq<Decl>)
    decreases decls
  {
    decls != [] ==>
      && (decls[0].Have? ==> AttributesRegistered(config, decls[0].items))
      && (decls[0].Group? ==> AllAttributesRegistered(config, decls[0].decls))
      && AllAttributesRegistered(config, decls[1..])
  }

  lemma RegisteredIsSettled(config: Config, cond: Payload)
    requires Registered(config, cond)
    ensures IsCondition(cond) && Settled(config, cond)
  {
    hide Settled;
    EvalCondSound(config, config, cond);
  }

  lemma {:induction false} RegisteredSectionAnswers(config: Config, items: seq<Item>)
    requires AttributesRegistered(config, items)
    ensures SectionAnswers(config, items)
    decreases items
  {
    if items != [] {
      hide Registered, IsCondition, Settled;
      match items[0] {
        case TypeDecl(_, cs) =>
          forall c | c in cs && Governed(c)
            ensures IsCondition(c.attributes[0].cond) && Settled(config, c.attributes[0].cond)
          {
            RegisteredIsSettled(config, c.attributes[0].cond);
          }
        case Module(_, inner) => RegisteredSectionAnswers(config, inner);
        case _ =>
      }
      RegisteredSectionAnswers(config, items[1..]);
    }
  }

  lemma {:induction false} RegisteredIsAnswerable(config: Config, all: bool, decls: seq<Decl>)
    requires AllRegistered(config, decls) && (all || AllAttributesRegistered(config, decls))
    ensures Answerable(config, all, decls)
    decreases decls
  {
    if decls != [] {
      hide Registered, IsCondition, Settled, Holds, On, AttributesRegistered, SectionAnswers;
      match decls[0] {
        case Group(_, inner) => RegisteredIsAnswerable(config, all, inner);
        case Have(cond, items) =>
          RegisteredIsSettled(config, cond);
          if !all { RegisteredSectionAnswers(config, items); }
        case _ =>
      }
      RegisteredIsAnswerable(config, all, decls[1..]);
    }
  }

  /** All is generated whenever every section's condition is well formed and about
      registered features. */
  lemma AllIsGenerated(config: Config, fold: Fold, funcs: Table, decls: seq<Decl>)
    requires AllRegistered(config, decls)
    ensures Expand(config, true, fold, funcs, decls).Ok?
  {
    hide Expand, Answerable, AllRegistered;
    RegisteredIsAnswerable(config, true, decls);
    GeneratedIff(config, true, fold, funcs, decls);
  }

  /** Specific is generated if the conditions on constructors are in order, too. */
  lemma SpecificIsGenerated(config: Config, fold: Fold, funcs: Table, decls: seq<Decl>)
    requires AllRegistered(config, decls) && AllAttributesRegistered(config, decls)
    ensures Expand(config, false, fold, funcs, decls).Ok?
  {
    hide Expand, Answerable, AllRegistered, AllAttributesRegistered;
    RegisteredIsAnswerable(config, false, decls);
    GeneratedIff(config, false, fold, funcs, decls);
  }

  // ---- Turning features on -----------------------------------------------------------------

  /** Every external Specific has is there after features are turned on, if Specific is
      generated before and after. */
  lemma SpecificGrowsIfGenerated(config: Config, config': Config, fold: Fold, decls: seq<Decl>)
    requires Enables(config, config') && Answerable(config, false, decls) && Answerable(config', false, decls)
    ensures Expand(config, false, fold, map[], decls).Ok? && Expand(config', false, fold, map[], decls).Ok?
    ensures forall b | b in BoundItems([], Expand(config, false, fold, map[], decls).value.items) && b.genuine ::
      b in BoundItems([], Expand(config', false, fold, map[], decls).value.items)
  {
    hide Expand, Declared, Real, EvalCond, BoundItems, Answerable, Settled;
    GeneratedIff(config, false, fold, map[], decls);
    GeneratedIff(config', false, fold, map[], decls);
    var ds := Declared([], decls);
    ExternalsAreBound(config, false, fold, map[], [], decls);
    ExternalsAreBound(config', false, fold, map[], [], decls);
    ExpandTabulates(config', false, fold, map[], [], decls);
    RealMembers(Resolve(config, ds));
    RealMembers(Resolve(config', ds));
    RealMembers(BoundItems([], Expand(config, false, fold, map[], decls).value.items));
    RealMembers(BoundItems([], Expand(config', false, fold, map[], decls).value.items));
    forall b | b in Real(Resolve(config, ds)) ensures b in Real(Resolve(config', ds)) {
      var i :| 0 <= i < |ds| && b == Resolve(config, ds)[i];
      assert ds[i] in ds;
      assert Present(config, ds[i]);
      if ds[i].guard.When? {
        var answer := EvalCond(config', ds[i].guard.cond);
        EvalCondMonotone(config, config', ds[i].guard.cond);
        assert answer == Ok(answer.value) && answer.value;
      }
      assert Present(config', ds[i]);
      assert Resolve(config', ds)[i] == b;
    }
  }

  lemma {:induction false} RegisteredByKeys(config: Config, config': Config, items: seq<Item>)
    requires config.Keys == config'.Keys && AttributesRegistered(config, items)
    ensures AttributesRegistered(config', items)
    decreases items
  {
    if items != [] {
      if items[0].Module? {
        RegisteredByKeys(config, config', items[0].items);
      }
      RegisteredByKeys(config, config', items[1..]);
    }
  }

  lemma {:induction false} AllRegisteredByKeys(config: Config, config': Config, decls: seq<Decl>)
    requires config.Keys == config'.Keys && AllRegistered(config, decls) && AllAttributesRegistered(config, decls)
    ensures AllRegistered(config', decls) && AllAttributesRegistered(config', decls)
    decreases decls
  {
    if decls != [] {
      match decls[0] {
        case Group(_, inner) => AllRegisteredByKeys(config, config', inner);
        case Have(_, items) => RegisteredByKeys(config, config', items);
        case _ =>
      }
      AllRegisteredByKeys(config, config', decls[1..]);
    }
  }

  /** With all features registered, turning some on keeps Specific generated and removes
      no external from it. */
  lemma SpecificGrows(config: Config, config': Config, fold: Fold, decls: seq<Decl>)
    requires Enables(config, config') && AllRegistered(config, decls) && AllAttributesRegistered(config, decls)
    ensures Expand(config, false, fold, map[], decls).Ok? && Expand(config', false, fold, map[], decls).Ok?
    ensures forall b | b in BoundItems([], Expand(config, false, fold, map[], decls).value.items) && b.genuine ::
      b in BoundItems([], Expand(config', false, fold, map[], decls).value.items)
  {
    hide Expand, BoundItems, Answerable, AllRegistered, AllAttributesRegistered;
    AllRegisteredByKeys(config, config', decls);
    RegisteredIsAnswerable(config, false, decls);
    RegisteredIsAnswerable(config', false, decls);
    SpecificGrowsIfGenerated(config, config', fold, decls);
  }

  // ---- Does have tell the truth? --------------------------------------------------------------

  /** What is written of a source that ends in `have`: decls [%%show_me_the_money]. */
  function Written(config: Config, all: bool, fold: Fold, decls: seq<Decl>): Result<State> {
    Expand(config, all, fold, map[], decls + [ShowMeTheMoney])
  }

  /** A module has an external of this name, at some path. */
  ghost predicate HasExternal(items: seq<Item>, name: string) {
    exists b | b in BoundItems([], items) :: b.genuine && b.name == name
  }

  /** Some section declares the name. */
  ghost predicate IsGuarded(ds: seq<Declaration>, name: string) {
    exists d | d in ds :: Guards(d, name)
  }

  /** All declarations of the name are there or none is, the unguarded ones included. */
  ghost predicate Agree(config: Config, ds: seq<Declaration>, name: string) {
    forall d, d' | d in ds && d' in ds && d.external && d'.external && d.name == name && d'.name == name ::
      Present(config, d) == Present(config, d')
  }

  lemma SpecificHasIff(config: Config, fold: Fold, decls: seq<Decl>, name: string)
    requires Written(config, false, fold, decls).Ok?
    ensures HasExternal(Written(config, false, fold, decls).value.items, name)
      <==> exists d | d in Declared([], decls) :: d.external && d.name == name && Present(config, d)
  {
    hide Expand, Present, Real, BoundItems, Declared;
    ExpandAppend(config, false, fold, map[], decls, [ShowMeTheMoney]);
    var st, ds := Expand(config, false, fold, map[], decls).value, Declared([], decls);
    MoneyAlone(config, false, fold, st.funcs);
    assert st.items + [] == st.items;
    ExternalsAreBound(config, false, fold, map[], [], decls);
    RealMembers(BoundItems([], st.items));
    RealMembers(Resolve(config, ds));
    if d :| d in ds && d.external && d.name == name && Present(config, d) {
      var i :| 0 <= i < |ds| && ds[i] == d;
      assert Resolve(config, ds)[i] in Real(Resolve(config, ds));
    }
    if b :| b in BoundItems([], st.items) && b.genuine && b.name == name {
      assert b in Real(Resolve(config, ds));
      var i :| 0 <= i < |ds| && Resolve(config, ds)[i] == b;
      assert ds[i] in ds && ds[i].external && ds[i].name == name && Present(config, ds[i]);
    }
  }

  lemma MoneyAlone(config: Config, all: bool, fold: Fold, funcs: Table)
    ensures Expand(config, all, fold, funcs, [ShowMeTheMoney]) == Ok(State(ExpandMoney(all, funcs, fold), funcs))
  {
    assert [ShowMeTheMoney][1..] == [];
    assert ExpandMoney(all, funcs, fold) + [] == ExpandMoney(all, funcs, fold);
  }

  /**
   * `have` of All says Some true exactly of guarded names that Specific has, if and only
   * if the name is not guarded, or the last section declaring it holds, or nothing of
   * that name, guarded or not, is there. Agreement of all its declarations is enough.
   */
  lemma HaveTellsTruthIff(config: Config, fold: Fold, decls: seq<Decl>, name: string)
    returns (cases: seq<(string, bool)>)
    requires IsFold(fold) && Written(config, true, fold, decls).Ok? && Written(config, false, fold, decls).Ok?
    ensures Expand(config, true, fold, map[], decls).Ok?
    ensures Written(config, true, fold, decls).value.items
         == Expand(config, true, fold, map[], decls).value.items + [Binding("have", Lookup(cases))]
    ensures var ds, specific := Declared([], decls), Written(config, false, fold, decls).value.items;
      var truthful := (Answer(cases, name) == Some(true) <==> IsGuarded(ds, name) && HasExternal(specific, name));
      && (truthful <==>
            || !IsGuarded(ds, name)
            || (Last(ds, name).Some? && Present(config, Last(ds, name).value))
            || forall d | d in ds && d.external && d.name == name :: !Present(config, d))
      && (Agree(config, ds, name) ==> truthful)
  {
    hide Present, Expand, Declared, BoundItems;
    var ds := Declared([], decls);
    cases := HaveAnswersLast(config, fold, decls, name);
    LastIsGuarded(ds, name);
    SpecificHasIff(config, fold, decls, name);
  }

  lemma LastOfTwo(a: Declaration, b: Declaration)
    requires a.name == b.name
    ensures Last([a] + [b], a.name) == if Recorded(b) then Some(b) else if Recorded(a) then Some(a) else None
  {
    assert ([a] + [b])[1..] == [b] && [b][1..] == [];
    assert Last([b], b.name) == if Recorded(b) then Some(b) else None;
  }

  /** Two sections that declare one name and disagree: `have` denies an external that
      Specific has. */
  lemma HaveCanDeny(config: Config, fold: Fold, t: Typ) returns (decls: seq<Decl>, cases: seq<(string, bool)>)
    requires IsFold(fold) && config == map["A" := true, "B" := false]
    ensures decls == [Have(Eval(Atom("A")), [External("f", t)]), Have(Eval(Atom("B")), [External("f", t)])]
    ensures Denies(config, fold, decls, cases, "f")
  {
    var condA, condB := Eval(Atom("A")), Eval(Atom("B"));
    decls := [Have(condA, [External("f", t)]), Have(condB, [External("f", t)])];
    var a, b := Declaration([], "f", t, When(condA), true), Declaration([], "f", t, When(condB), true);
    assert [External("f", t)][1..] == [] && decls[1..] == [decls[1]] && [decls[1]][1..] == [];
    assert DeclaredItems([], [External("f", t)], When(condB)) == [b];
    assert Declared([], [decls[1]]) == [b];
    assert DeclaredItems([], [External("f", t)], When(condA)) == [a];
    assert Declared([], decls) == [a] + [b];
    LastOfTwo(a, b);
    assert AttributesRegistered(config, [External("f", t)]);
    assert AllRegistered(config, [decls[1]]) && AllAttributesRegistered(config, [decls[1]]);
    EvalCondDenotes(config, condA);
    EvalCondDenotes(config, condB);
    cases := DeniesBecause(config, fold, decls, a, b);
  }

  /** A name in a section and outside: with the section's condition off, `have` denies it
      while Specific has the other one, as HostEndian.unsafe_get_uint8 is there without
      the feature ENDIAN. */
  lemma HaveCanDenyUnguarded(config: Config, fold: Fold, t: Typ)
    returns (decls: seq<Decl>, cases: seq<(string, bool)>)
    requires IsFold(fold) && config == map["ENDIAN" := false]
    ensures decls == [Have(Eval(Atom("ENDIAN")), [External("unsafe_get_uint8", t)]),
                      Group("HostEndian", [Plain(External("unsafe_get_uint8", t))])]
    ensures Denies(config, fold, decls, cases, "unsafe_get_uint8")
  {
    var f, cond := External("unsafe_get_uint8", t), Eval(Atom("ENDIAN"));
    decls := [Have(cond, [f]), Group("HostEndian", [Plain(f)])];
    var guarded := Declaration([], f.name, t, When(cond), true);
    var host := Declaration(["HostEndian"], f.name, t, Always, true);
    assert [f][1..] == [] && [Plain(f)][1..] == [] && decls[1..] == [decls[1]] && [decls[1]][1..] == [];
    assert DeclaredItems([], [f], When(cond)) == [guarded];
    assert [] + ["HostEndian"] == ["HostEndian"];
    assert Declared(["HostEndian"], [Plain(f)]) == [host];
    assert Declared([], [decls[1]]) == [host];
    assert Declared([], decls) == [guarded] + [host];
    LastOfTwo(guarded, host);
    assert AttributesRegistered(config, [f]);
    assert AllRegistered(config, [Plain(f)]) && AllAttributesRegistered(config, [Plain(f)]);
    assert AllRegistered(config, [decls[1]]) && AllAttributesRegistered(config, [decls[1]]);
    EvalCondDenotes(config, cond);
    cases := DeniesBecause(config, fold, decls, host, guarded);
  }

  /** All's `have` answers Some false for an external that Specific has. */
  ghost predicate Denies(config: Config, fold: Fold, decls: seq<Decl>, cases: seq<(string, bool)>, name: string) {
    && Written(config, true, fold, decls).Ok?
    && Written(config, false, fold, decls).Ok?
    && Binding("have", Lookup(cases)) in Written(config, true, fold, decls).value.items
    && Answer(cases, name) == Some(false)
    && HasExternal(Written(config, false, fold, decls).value.items, name)
  }

  lemma DeniesBecause(config: Config, fold: Fold, decls: seq<Decl>, there: Declaration, last: Declaration)
    returns (cases: seq<(string, bool)>)
    requires IsFold(fold) && AllRegistered(config, decls) && AllAttributesRegistered(config, decls)
    requires there in Declared([], decls) && there.external && there.name == last.name && Present(config, there)
    requires Last(Declared([], decls), last.name) == Some(last) && !Present(config, last)
    ensures Denies(config, fold, decls, cases, last.name)
  {
    hide Expand, Declared, BoundItems;
    AllIsGenerated(config, fold, map[], decls);
    AllIsGenerated(config, fold, Expand(config, true, fold, map[], decls).value.funcs, [ShowMeTheMoney]);
    WrittenIfGenerated(config, true, fold, decls);
    SpecificIsGenerated(config, fold, map[], decls);
    WrittenIfGenerated(config, false, fold, decls);
    cases := HaveAnswersLast(config, fold, decls, last.name);
    SpecificHasIff(config, fold, decls, last.name);
  }

  lemma WrittenIfGenerated(config: Config, all: bool, fold: Fold, decls: seq<Decl>)
    requires Expand(config, all, fold, map[], decls).Ok?
    ensures Written(config, all, fold, decls).Ok?
  {
    ExpandJoins(config, all, fold, map[], decls, [ShowMeTheMoney]);
    MoneyAlone(config, all, fold, Expand(config, all, fold, map[], decls).value.funcs);
  }

  lemma {:induction false} ExpandJoins(config: Config, all: bool, fold: Fold, funcs: Table, a: seq<Decl>, b: seq<Decl>)
    requires Expand(config, all, fold, funcs, a).Ok?
    ensures Expand(config, all, fold, Expand(config, all, fold, funcs, a).value.funcs, b).Ok? ==>
      Expand(config, all, fold, funcs, a + b).Ok?
    decreases |a|
  {
    hide Expand, ExpandDecl;
    if a == [] {
      assert a + b == b;
      EmptyExpands(config, all, fold, funcs);
    } else {
      assert (a + b)[1..] == a[1..] + b && (a + b)[0] == a[0];
      ExpandStep(config, all, fold, funcs, a + b);
      ExpandStep(config, all, fold, funcs, a);
      ExpandJoins(config, all, fold, ExpandDecl(config, all, fold, funcs, a[0]).value.funcs, a[1..], b);
    }
  }
}
