/** How All, Specific and the table of `have` hang together, for every source file. */
module HaveTheorems {
  import opened HaveCondition
  import opened HaveStub
  import opened HaveStages
  import opened HaveExpand

  // ---- Signatures --------------------------------------------------------------------

  datatype Entry =
    | Val(name: string, typ: Typ)
    | Type(name: string, constructors: seq<string>)
    | Mod(name: string, entries: seq<Entry>)
    | RawEntry(text: string)

  function ConstructorNames(cs: seq<Constructor>): seq<string> {
    seq(|cs|, i requires 0 <= i < |cs| => cs[i].name)
  }

  /** The interface of a structure. */
  function Sig(items: seq<Item>): (r: seq<Entry>)
    ensures |r| == |items|
    decreases items
  {
    if items == [] then []
    else
      var entry := match items[0]
        case External(name, typ) => Val(name, typ)
        case Binding(name, body) => Val(name, TypeOf(body))
        case TypeDecl(name, cs) => Type(name, ConstructorNames(cs))
        case Module(name, inner) => Mod(name, Sig(inner))
        case Raw(text) => RawEntry(text);
      [entry] + Sig(items[1..])
  }

  /** The source with the section brackets taken away and `have` in its place. */
  function FlattenDecl(decl: Decl): seq<Item>
    decreases decl
  {
    match decl
    case Plain(item) => [item]
    case Group(name, inner) => [Module(name, Flatten(inner))]
    case Have(_, items) => items
    case ShowMeTheMoney => [Binding("have", Lookup([]))]
  }

  function Flatten(decls: seq<Decl>): seq<Item>
    decreases decls
  {
    if decls == [] then [] else FlattenDecl(decls[0]) + Flatten(decls[1..])
  }

  lemma {:induction false} SigAppend(a: seq<Item>, b: seq<Item>)
    ensures Sig(a + b) == Sig(a) + Sig(b)
  {
    if a == [] {
      assert a + b == b;
    } else {
      assert (a + b)[1..] == a[1..] + b && (a + b)[0] == a[0];
      SigAppend(a[1..], b);
    }
  }

  /** Replacing externals by stubs does not show in the interface. */
  lemma {:induction false} SigInvalidate(items: seq<Item>)
    ensures Sig(Invalidate(items)) == Sig(items)
    decreases items
  {
    if items != [] {
      match items[0] {
        case External(name, typ) => StubExportsDeclaredType(name, typ);
        case Module(_, inner) => SigInvalidate(inner);
        case _ =>
      }
      assert Invalidate(items)[1..] == Invalidate(items[1..]);
      SigInvalidate(items[1..]);
    }
  }

  /** The first declaration, then the others. */
  lemma ExpandStep(config: Config, all: bool, fold: Fold, funcs: Table, decls: seq<Decl>)
    requires decls != []
    ensures Expand(config, all, fold, funcs, decls).Ok? <==>
      && ExpandDecl(config, all, fold, funcs, decls[0]).Ok?
      && Expand(config, all, fold, ExpandDecl(config, all, fold, funcs, decls[0]).value.funcs, decls[1..]).Ok?
    ensures Expand(config, all, fold, funcs, decls).Ok? ==>
      var first := ExpandDecl(config, all, fold, funcs, decls[0]).value;
      var rest := Expand(config, all, fold, first.funcs, decls[1..]).value;
      Expand(config, all, fold, funcs, decls).value == State(first.items + rest.items, rest.funcs)
  {
  }

  /** All has the interface of the whole source, whatever the configuration: every name
      of every section, with its type, in its place. */
  lemma {:induction false} AllHasTheWholeInterface(config: Config, fold: Fold, funcs: Table, decls: seq<Decl>)
    requires Expand(config, true, fold, funcs, decls).Ok?
    ensures Sig(Expand(config, true, fold, funcs, decls).value.items) == Sig(Flatten(decls))
    decreases decls
  {
    hide Expand, ExpandDecl, Sig;
    if decls == [] {
      EmptyExpands(config, true, fold, funcs);
    } else {
      ExpandStep(config, true, fold, funcs, decls);
      AllHasTheInterfaceOf(config, fold, funcs, decls[0]);
      var first := ExpandDecl(config, true, fold, funcs, decls[0]).value;
      AllHasTheWholeInterface(config, fold, first.funcs, decls[1..]);
      SigAppend(first.items, Expand(config, true, fold, first.funcs, decls[1..]).value.items);
      SigAppend(FlattenDecl(decls[0]), Flatten(decls[1..]));
    }
  }

  lemma EmptyExpands(config: Config, all: bool, fold: Fold, funcs: Table)
    ensures Expand(config, all, fold, funcs, []) == Ok(State([], funcs))
  {
  }

  lemma {:induction false} AllHasTheInterfaceOf(config: Config, fold: Fold, funcs: Table, decl: Decl)
    requires ExpandDecl(config, true, fold, funcs, decl).Ok?
    ensures Sig(ExpandDecl(config, true, fold, funcs, decl).value.items) == Sig(FlattenDecl(decl))
    decreases decl
  {
    match decl {
      case Group(name, inner) => AllHasTheWholeInterface(config, fold, funcs, inner);
      case Have(_, items) => SigInvalidate(items);
      case _ =>
    }
  }

  lemma AllIsTheSameEverywhere(config: Config, config': Config, fold: Fold, fold': Fold, decls: seq<Decl>)
    requires Expand(config, true, fold, map[], decls).Ok? && Expand(config', true, fold', map[], decls).Ok?
    ensures Sig(Expand(config, true, fold, map[], decls).value.items)
         == Sig(Expand(config', true, fold', map[], decls).value.items)
  {
    AllHasTheWholeInterface(config, fold, map[], decls);
    AllHasTheWholeInterface(config', fold', map[], decls);
  }

  // ---- The interface of Specific --------------------------------------------------------

  /** The name a constructor goes by in a section that is kept. */
  function Visible(config: Config, c: Constructor): string {
    if Governed(c) && EvalCond(config, c.attributes[0].cond) != Ok(true) then c.name + SUFFIX else c.name
  }

  function VisibleNames(config: Config, cs: seq<Constructor>): seq<string> {
    seq(|cs|, i requires 0 <= i < |cs| => Visible(config, cs[i]))
  }

  function SectionEntry(config: Config, item: Item): Entry
    decreases item
  {
    match item
    case External(name, typ) => Val(name, typ)
    case Binding(name, body) => Val(name, TypeOf(body))
    case TypeDecl(name, cs) => Type(name, VisibleNames(config, cs))
    case Module(name, inner) => Mod(name, SectionSig(config, inner))
    case Raw(text) => RawEntry(text)
  }

  function SectionSig(config: Config, items: seq<Item>): seq<Entry>
    decreases items
  {
    if items == [] then [] else [SectionEntry(config, items[0])] + SectionSig(config, items[1..])
  }

  function SpecificEntries(config: Config, decl: Decl): seq<Entry>
    decreases decl
  {
    match decl
    case Plain(item) => Sig([item])
    case Group(name, inner) => [Mod(name, SpecificSig(config, inner))]
    case Have(cond, items) => if EvalCond(config, cond) == Ok(true) then SectionSig(config, items) else []
    case ShowMeTheMoney => []
  }

  function SpecificSig(config: Config, decls: seq<Decl>): seq<Entry>
    decreases decls
  {
    if decls == [] then [] else SpecificEntries(config, decls[0]) + SpecificSig(config, decls[1..])
  }

  /** Renaming gives constructors the names they go by, each in its place: the numbers
      the C code knows them by do not move. */
  lemma {:induction false} ConstructorsKeepTheirPlaces(config: Config, cs: seq<Constructor>)
    requires HaveConstructors(config, cs).Ok?
    ensures ConstructorNames(HaveConstructors(config, cs).value) == VisibleNames(config, cs)
  {
    if cs != [] {
      ConstructorsKeepTheirPlaces(config, cs[1..]);
      hide EvalCond;
      assert HaveConstructors(config, cs).value[1..] == HaveConstructors(config, cs[1..]).value;
      assert ConstructorNames(HaveConstructors(config, cs).value)
        == [HaveConstructor(config, cs[0]).value.name] + ConstructorNames(HaveConstructors(config, cs[1..]).value);
      assert VisibleNames(config, cs) == [Visible(config, cs[0])] + VisibleNames(config, cs[1..]);
    }
  }

  /** A constructor that [@have cond] marks as missing is renamed if and only if it has
      no other attribute; one with a documentation comment keeps its name. */
  lemma MissingIsRenamedIff(config: Config, c: Constructor, cond: Payload)
    requires HaveAttribute(cond) in c.attributes && EvalCond(config, cond) == Ok(false)
    ensures HaveConstructor(config, c).Ok?
    ensures HaveConstructor(config, c).value.name != c.name <==> c.attributes == [HaveAttribute(cond)]
    ensures HaveConstructor(config, c).value.name in {c.name, c.name + "__Not_available"}
    ensures HaveConstructor(config, c).value.attributes == c.attributes
  {
    hide EvalCond;
    assert |c.name + SUFFIX| > |c.name|;
    if c.attributes == [HaveAttribute(cond)] {
      assert c.attributes[0] == HaveAttribute(cond);
    }
  }

  lemma {:induction false} SigOfSection(config: Config, items: seq<Item>)
    requires HaveConstr(config, items).Ok?
    ensures Sig(HaveConstr(config, items).value) == SectionSig(config, items)
    decreases items
  {
    if items != [] {
      hide HaveConstructors, VisibleNames, ConstructorNames;
      match items[0] {
        case TypeDecl(_, cs) => ConstructorsKeepTheirPlaces(config, cs);
        case Module(_, inner) => SigOfSection(config, inner);
        case _ =>
      }
      assert HaveConstr(config, items).value[1..] == HaveConstr(config, items[1..]).value;
      SigOfSection(config, items[1..]);
    }
  }

  /** Specific has the interface of the sections whose conditions hold and of what stands
      outside sections, in order, with constructors by their visible names. */
  lemma {:induction false} SpecificHasTheKeptInterface(config: Config, fold: Fold, funcs: Table, decls: seq<Decl>)
    requires Expand(config, false, fold, funcs, decls).Ok?
    ensures Sig(Expand(config, false, fold, funcs, decls).value.items) == SpecificSig(config, decls)
    decreases decls
  {
    hide Expand, ExpandDecl, Sig;
    if decls == [] {
      EmptyExpands(config, false, fold, funcs);
      SigOfNone();
    } else {
      ExpandStep(config, false, fold, funcs, decls);
      SpecificHasTheEntriesOf(config, fold, funcs, decls[0]);
      var first := ExpandDecl(config, false, fold, funcs, decls[0]).value;
      SpecificHasTheKeptInterface(config, fold, first.funcs, decls[1..]);
      SigAppend(first.items, Expand(config, false, fold, first.funcs, decls[1..]).value.items);
    }
  }

  lemma SigOfNone()
    ensures Sig([]) == []
  {
  }

  lemma {:induction false} SpecificHasTheEntriesOf(config: Config, fold: Fold, funcs: Table, decl: Decl)
    requires ExpandDecl(config, false, fold, funcs, decl).Ok?
    ensures Sig(ExpandDecl(config, false, fold, funcs, decl).value.items) == SpecificEntries(config, decl)
    decreases decl
  {
    match decl {
      case Group(name, inner) => SpecificHasTheKeptInterface(config, fold, funcs, inner);
      case Have(cond, items) => if EvalCond(config, cond) == Ok(true) { SigOfSection(config, items); }
      case _ =>
    }
  }

  // ---- Which externals are real ----------------------------------------------------------

  datatype Guard = Always | When(cond: Payload)

  /** An external as the source declares it, under its section's condition; or a
      function of the source itself that looks like a stub. */
  datatype Declaration = Declaration(path: seq<string>, name: string, typ: Typ, guard: Guard, external: bool)

  predicate IsStub(name: string, body: Expr) {
    body == MakeDummy(name, TypeOf(body))
  }

  function DeclaredItem(path: seq<string>, item: Item, guard: Guard): seq<Declaration>
    decreases item
  {
    match item
    case External(name, typ) => [Declaration(path, name, typ, guard, true)]
    case Binding(name, body) => if IsStub(name, body) then [Declaration(path, name, TypeOf(body), guard, false)] else []
    case Module(name, inner) => DeclaredItems(path + [name], inner, guard)
    case _ => []
  }

  function DeclaredItems(path: seq<string>, items: seq<Item>, guard: Guard): seq<Declaration>
    decreases items
  {
    if items == [] then [] else DeclaredItem(path, items[0], guard) + DeclaredItems(path, items[1..], guard)
  }

  function DeclaredDecl(path: seq<string>, decl: Decl): seq<Declaration>
    decreases decl
  {
    match decl
    case Plain(item) => DeclaredItem(path, item, Always)
    case Group(name, inner) => Declared(path + [name], inner)
    case Have(cond, items) => DeclaredItems(path, items, When(cond))
    case ShowMeTheMoney => []
  }

  function Declared(path: seq<string>, decls: seq<Decl>): seq<Declaration>
    decreases decls
  {
    if decls == [] then [] else DeclaredDecl(path, decls[0]) + Declared(path, decls[1..])
  }

  predicate Present(config: Config, d: Declaration) {
    d.guard.When? ==> EvalCond(config, d.guard.cond) == Ok(true)
  }

  /** A name as a written module binds it: to the external or to a stub. */
  datatype Bound = Bound(path: seq<string>, name: string, typ: Typ, genuine: bool)

  function BoundItem(path: seq<string>, item: Item): seq<Bound>
    decreases item
  {
    match item
    case External(name, typ) => [Bound(path, name, typ, true)]
    case Binding(name, body) => if IsStub(name, body) then [Bound(path, name, TypeOf(body), false)] else []
    case Module(name, inner) => BoundItems(path + [name], inner)
    case _ => []
  }

  function BoundItems(path: seq<string>, items: seq<Item>): seq<Bound>
    decreases items
  {
    if items == [] then [] else BoundItem(path, items[0]) + BoundItems(path, items[1..])
  }

  function Resolve(config: Config, ds: seq<Declaration>): seq<Bound> {
    seq(|ds|, i requires 0 <= i < |ds| =>
      Bound(ds[i].path, ds[i].name, ds[i].typ, ds[i].external && Present(config, ds[i])))
  }

  function Real(bs: seq<Bound>): seq<Bound> {
    if bs == [] then [] else (if bs[0].genuine then [bs[0]] else []) + Real(bs[1..])
  }

  lemma RealStep(b: Bound, bs: seq<Bound>)
    ensures Real([b] + bs) == (if b.genuine then [b] else []) + Real(bs)
  {
    assert ([b] + bs)[1..] == bs;
  }

  lemma {:induction false} RealAppend(a: seq<Bound>, b: seq<Bound>)
    ensures Real(a + b) == Real(a) + Real(b)
  {
    if a == [] {
      assert a + b == b && Real(a) == [];
    } else {
      hide Real;
      assert [a[0]] + a[1..] == a && [a[0]] + (a[1..] + b) == a + b;
      RealStep(a[0], a[1..]);
      RealStep(a[0], a[1..] + b);
      RealAppend(a[1..], b);
    }
  }

  lemma {:induction false} BoundAppend(path: seq<string>, a: seq<Item>, b: seq<Item>)
    ensures BoundItems(path, a + b) == BoundItems(path, a) + BoundItems(path, b)
  {
    if a == [] {
      assert a + b == b;
    } else {
      assert (a + b)[1..] == a[1..] + b && (a + b)[0] == a[0];
      BoundAppend(path, a[1..], b);
    }
  }

  lemma ResolveAppend(config: Config, a: seq<Declaration>, b: seq<Declaration>)
    ensures Resolve(config, a + b) == Resolve(config, a) + Resolve(config, b)
  {
  }

  lemma BoundOne(path: seq<string>, item: Item)
    ensures BoundItems(path, [item]) == BoundItem(path, item)
  {
    assert [item][1..] == [];
  }

  /** Items left as they are bind all their externals. */
  lemma {:induction false} BoundAsDeclared(config: Config, path: seq<string>, items: seq<Item>, guard: Guard)
    requires guard.When? ==> EvalCond(config, guard.cond) == Ok(true)
    ensures BoundItems(path, items) == Resolve(config, DeclaredItems(path, items, guard))
    decreases items
  {
    if items != [] {
      BoundItemAsDeclared(config, path, items[0], guard);
      BoundAsDeclared(config, path, items[1..], guard);
      ResolveAppend(config, DeclaredItem(path, items[0], guard), DeclaredItems(path, items[1..], guard));
    }
  }

  lemma {:induction false} BoundItemAsDeclared(config: Config, path: seq<string>, item: Item, guard: Guard)
    requires guard.When? ==> EvalCond(config, guard.cond) == Ok(true)
    ensures BoundItem(path, item) == Resolve(config, DeclaredItem(path, item, guard))
    decreases item
  {
    if item.Module? {
      BoundAsDeclared(config, path + [item.name], item.items, guard);
    }
  }

  /** Invalidated items bind a stub for every external. */
  lemma {:induction false} BoundInvalidated(config: Config, path: seq<string>, items: seq<Item>, cond: Payload)
    requires EvalCond(config, cond) != Ok(true)
    ensures BoundItems(path, Invalidate(items)) == Resolve(config, DeclaredItems(path, items, When(cond)))
    ensures Real(BoundItems(path, Invalidate(items))) == []
    decreases items
  {
    if items != [] {
      hide InvalidateItem, DeclaredItem, BoundItem, Resolve, EvalCond;
      var item, rest := InvalidateItem(items[0]), Invalidate(items[1..]);
      InvalidatedItem(config, path, items[0], cond);
      BoundInvalidated(config, path, items[1..], cond);
      BoundOne(path, item);
      BoundAppend(path, [item], rest);
      ResolveAppend(config, DeclaredItem(path, items[0], When(cond)), DeclaredItems(path, items[1..], When(cond)));
      RealAppend(BoundItem(path, item), BoundItems(path, rest));
    }
  }

  lemma {:induction false} InvalidatedItem(config: Config, path: seq<string>, item: Item, cond: Payload)
    requires EvalCond(config, cond) != Ok(true)
    ensures BoundItem(path, InvalidateItem(item)) == Resolve(config, DeclaredItem(path, item, When(cond)))
    ensures Real(BoundItem(path, InvalidateItem(item))) == []
    decreases item
  {
    hide EvalCond;
    match item {
      case External(name, typ) => StubExportsDeclaredType(name, typ);
      case Module(name, inner) => BoundInvalidated(config, path + [name], inner, cond);
      case _ =>
    }
  }

  /** Renaming constructors touches no external. */
  lemma {:induction false} BoundRenamed(config: Config, path: seq<string>, items: seq<Item>)
    requires HaveConstr(config, items).Ok?
    ensures BoundItems(path, HaveConstr(config, items).value) == BoundItems(path, items)
    decreases items
  {
    if items != [] {
      if items[0].Module? {
        BoundRenamed(config, path + [items[0].name], items[0].items);
      }
      BoundRenamed(config, path, items[1..]);
      assert HaveConstr(config, items).value[1..] == HaveConstr(config, items[1..]).value;
    }
  }

  /**
   * All binds every declared external, to itself where its condition holds and to its
   * stub where it does not; the externals of Specific are exactly those whose condition
   * holds and the unguarded ones. Order, paths and types are the source's.
   */
  lemma {:induction false} ExternalsAreBound(
    config: Config, all: bool, fold: Fold, funcs: Table, path: seq<string>, decls: seq<Decl>)
    requires Expand(config, all, fold, funcs, decls).Ok?
    ensures var resolved := Resolve(config, Declared(path, decls));
      var bound := BoundItems(path, Expand(config, all, fold, funcs, decls).value.items);
      (all ==> bound == resolved) && Real(bound) == Real(resolved)
    decreases decls
  {
    hide Resolve, IsStub, Present, Expand, ExpandDecl, BoundItems, Real;
    if decls == [] {
      EmptyExpands(config, all, fold, funcs);
      NothingBound(config, path);
    } else {
      ExpandStep(config, all, fold, funcs, decls);
      DeclIsBound(config, all, fold, funcs, path, decls[0]);
      var first := ExpandDecl(config, all, fold, funcs, decls[0]).value;
      ExternalsAreBound(config, all, fold, first.funcs, path, decls[1..]);
      var rest := Expand(config, all, fold, first.funcs, decls[1..]).value;
      BoundAppend(path, first.items, rest.items);
      RealAppend(BoundItems(path, first.items), BoundItems(path, rest.items));
      ResolveAppend(config, DeclaredDecl(path, decls[0]), Declared(path, decls[1..]));
      RealAppend(Resolve(config, DeclaredDecl(path, decls[0])), Resolve(config, Declared(path, decls[1..])));
    }
  }

  lemma NothingBound(config: Config, path: seq<string>)
    ensures Resolve(config, []) == [] && Real([]) == [] && BoundItems(path, []) == []
  {
  }

  lemma {:induction false} DeclIsBound(
    config: Config, all: bool, fold: Fold, funcs: Table, path: seq<string>, decl: Decl)
    requires ExpandDecl(config, all, fold, funcs, decl).Ok?
    ensures var resolved := Resolve(config, DeclaredDecl(path, decl));
      var bound := BoundItems(path, ExpandDecl(config, all, fold, funcs, decl).value.items);
      (all ==> bound == resolved) && Real(bound) == Real(resolved)
    decreases decl
  {
    match decl {
      case Plain(item) =>
        BoundItemAsDeclared(config, path, item, Always);
        BoundOne(path, item);
      case Group(name, inner) =>
        ExternalsAreBound(config, all, fold, funcs, path + [name], inner);
        BoundOne(path, Module(name, Expand(config, all, fold, funcs, inner).value.items));
      case Have(cond, items) =>
        if EvalCond(config, cond) == Ok(true) {
          BoundAsDeclared(config, path, items, When(cond));
          if !all { BoundRenamed(config, path, items); }
        } else {
          BoundInvalidated(config, path, items, cond);
        }
      case ShowMeTheMoney =>
        BoundOne(path, Binding("have", Lookup(fold(funcs))));
    }
  }

  // ---- What All binds ----------------------------------------------------------------------

  /** A structure has the item, in the module the path leads to. */
  ghost predicate ItemAt(items: seq<Item>, path: seq<string>, item: Item)
    decreases |path|
  {
    if path == [] then item in items
    else exists inner | Module(path[0], inner) in items :: ItemAt(inner, path[1..], item)
  }

  /** The item that makes a name bound as it is. */
  function BindingItem(b: Bound): Item {
    if b.genuine then External(b.name, b.typ) else Binding(b.name, MakeDummy(b.name, b.typ))
  }

  lemma {:induction false} BoundIsWritten(path: seq<string>, items: seq<Item>, b: Bound)
    requires b in BoundItems(path, items)
    ensures path <= b.path && ItemAt(items, b.path[|path|..], BindingItem(b))
    decreases items
  {
    if b in BoundItem(path, items[0]) {
      BoundItemIsWritten(path, items[0], b);
      ItemAtGrows([items[0]], [], items[1..], b.path[|path|..], BindingItem(b));
      assert [] + [items[0]] + items[1..] == items;
    } else {
      BoundIsWritten(path, items[1..], b);
      ItemAtGrows(items[1..], [items[0]], [], b.path[|path|..], BindingItem(b));
      assert [items[0]] + items[1..] + [] == items;
    }
  }

  lemma {:induction false} BoundItemIsWritten(path: seq<string>, item: Item, b: Bound)
    requires b in BoundItem(path, item)
    ensures path <= b.path && ItemAt([item], b.path[|path|..], BindingItem(b))
    decreases item
  {
    if item.Module? {
      BoundIsWritten(path + [item.name], item.items, b);
      var rest := b.path[|path|..];
      assert rest[0] == (path + [item.name])[|path|] == item.name;
      assert rest[1..] == b.path[|path + [item.name]|..];
      assert Module(rest[0], item.items) in [item];
    } else {
      assert b.path[|path|..] == [];
    }
  }

  lemma ItemAtGrows(items: seq<Item>, before: seq<Item>, after: seq<Item>, path: seq<string>, item: Item)
    requires ItemAt(items, path, item)
    ensures ItemAt(before + items + after, path, item)
  {
    if path != [] {
      var inner :| Module(path[0], inner) in items && ItemAt(inner, path[1..], item);
      assert Module(path[0], inner) in before + items + after;
    }
  }

  /** Where an external is declared, All has the external if it is there and its stub if
      it is missing. */
  lemma AllHasExternalOrStub(config: Config, fold: Fold, decls: seq<Decl>, d: Declaration)
    requires Expand(config, true, fold, map[], decls).Ok?
    requires d in Declared([], decls) && d.external
    ensures ItemAt(Expand(config, true, fold, map[], decls).value.items, d.path,
      if Present(config, d) then External(d.name, d.typ) else Binding(d.name, MakeDummy(d.name, d.typ)))
  {
    hide Expand, Present, Declared, BoundItems, ItemAt;
    var ds, items := Declared([], decls), Expand(config, true, fold, map[], decls).value.items;
    ExternalsAreBound(config, true, fold, map[], [], decls);
    var i :| 0 <= i < |ds| && ds[i] == d;
    var b := Resolve(config, ds)[i];
    assert b in BoundItems([], items);
    BoundIsWritten([], items, b);
    assert b.path[0..] == d.path;
  }

  /**
   * In place of an external that is missing All has, where it is declared, a function of
   * its type that raises Not_available with its name, in one application as soon as the
   * arguments saturate it, and in several at the one that takes its last parameter, and
   * not before.
   */
  lemma MissingExternalRaises(config: Config, fold: Fold, decls: seq<Decl>, d: Declaration) returns (body: Expr)
    requires Expand(config, true, fold, map[], decls).Ok?
    requires d in Declared([], decls) && d.external && !Present(config, d)
    ensures ItemAt(Expand(config, true, fold, map[], decls).value.items, d.path, Binding(d.name, body))
    ensures TypeOf(body) == d.typ
    ensures forall args ::
      Apply(body, args) == if Saturated(Parameters(d.typ), args) then Raised(d.name) else Waiting
    ensures forall stages ::
      Chain(body, stages) == if stages != [] && !Remaining(d.typ, stages).Arrow? then Raised(d.name) else Waiting
    ensures Unambiguous(d.typ) ==> forall stages ::
      stages != [] ==> Chain(body, stages) == Apply(body, Total(stages))
  {
    hide Expand, Present, Declared, ItemAt, Apply, Chain, Saturated, Unambiguous;
    body := MakeDummy(d.name, d.typ);
    AllHasExternalOrStub(config, fold, decls, d);
    StubExportsDeclaredType(d.name, d.typ);
    forall args
      ensures Apply(body, args) == if Saturated(Parameters(d.typ), args) then Raised(d.name) else Waiting
    {
      StubRaisesIffSaturated(d.name, d.typ, args);
    }
    forall stages ensures Chain(body, stages)
      == if stages != [] && !Remaining(d.typ, stages).Arrow? then Raised(d.name) else Waiting
    {
      ChainRaisesIff(d.name, d.typ, stages);
    }
    if Unambiguous(d.typ) {
      forall stages | stages != [] ensures Chain(body, stages) == Apply(body, Total(stages)) {
        ChainIsOneApplication(d.name, d.typ, stages);
      }
    }
  }
}
