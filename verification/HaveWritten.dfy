/** ppx_have/ppx_have.ml: what is written of a source file, item by item. */
module HaveWritten {
  import opened HaveCondition
  import opened HaveStub
  import opened HaveExpand
  import opened HaveTheorems

  // ---- What a section becomes ---------------------------------------------------------------

  /** Constructors keep their order and attributes; those whose one attribute is a
      condition that does not hold have a longer name. */
  ghost predicate ConstructorsRenamed(config: Config, cs: seq<Constructor>, cs': seq<Constructor>) {
    && |cs'| == |cs|
    && forall i :: 0 <= i < |cs| ==>
         && cs'[i].attributes == cs[i].attributes
         && cs'[i].name ==
            if |cs[i].attributes| == 1 && cs[i].attributes[0].HaveAttribute?
               && !Holds(On(config), cs[i].attributes[0].cond)
            then cs[i].name + "__Not_available" else cs[i].name
  }

  ghost predicate ItemRenamed(config: Config, item: Item, item': Item)
    decreases item
  {
    match item
    case TypeDecl(name, cs) =>
      item'.TypeDecl? && item'.name == name && ConstructorsRenamed(config, cs, item'.constructors)
    case Module(name, inner) =>
      item'.Module? && item'.name == name && ItemsRenamed(config, inner, item'.items)
    case _ => item' == item
  }

  /** Nothing is changed but the names of constructors, nested modules included. */
  ghost predicate ItemsRenamed(config: Config, items: seq<Item>, items': seq<Item>)
    decreases items
  {
    && |items'| == |items|
    && forall i :: 0 <= i < |items| ==> ItemRenamed(config, items[i], items'[i])
  }

  ghost predicate ItemStubbed(item: Item, item': Item)
    decreases item
  {
    match item
    case External(name, typ) => item' == Binding(name, MakeDummy(name, typ))
    case Module(name, inner) => item'.Module? && item'.name == name && ItemsStubbed(inner, item'.items)
    case _ => item' == item
  }

  /** Nothing is changed but externals, which become stubs, nested modules included. */
  ghost predicate ItemsStubbed(items: seq<Item>, items': seq<Item>)
    decreases items
  {
    && |items'| == |items|
    && forall i :: 0 <= i < |items| ==> ItemStubbed(items[i], items'[i])
  }

  lemma {:induction false} ConstructorsAreRenamed(config: Config, cs: seq<Constructor>)
    requires HaveConstructors(config, cs).Ok?
    ensures ConstructorsRenamed(config, cs, HaveConstructors(config, cs).value)
  {
    if cs != [] {
      hide EvalCond, Holds, On;
      if Governed(cs[0]) {
        EvalCondSound(config, config, cs[0].attributes[0].cond);
      }
      ConstructorsAreRenamed(config, cs[1..]);
      assert HaveConstructors(config, cs).value[1..] == HaveConstructors(config, cs[1..]).value;
    }
  }

  /** In Specific, a section that holds is written as it is, but for the names of its
      missing constructors: code, types, externals and modules are the source's. */
  lemma {:induction false} HaveConstrOnlyRenames(config: Config, items: seq<Item>)
    requires HaveConstr(config, items).Ok?
    ensures ItemsRenamed(config, items, HaveConstr(config, items).value)
    decreases items
  {
    if items != [] {
      hide ConstructorsRenamed, HaveConstructors;
      match items[0] {
        case TypeDecl(_, cs) => ConstructorsAreRenamed(config, cs);
        case Module(_, inner) => HaveConstrOnlyRenames(config, inner);
        case _ =>
      }
      HaveConstrOnlyRenames(config, items[1..]);
      var items' := HaveConstr(config, items).value;
      assert items'[1..] == HaveConstr(config, items[1..]).value;
      assert ItemRenamed(config, items[0], items'[0]);
    }
  }

  /** In All, a section that does not hold is written as it is, but for its externals. */
  lemma {:induction false} InvalidateOnlyStubs(items: seq<Item>)
    ensures ItemsStubbed(items, Invalidate(items))
    decreases items
  {
    if items != [] {
      if items[0].Module? {
        InvalidateOnlyStubs(items[0].items);
      }
      InvalidateOnlyStubs(items[1..]);
      assert Invalidate(items)[1..] == Invalidate(items[1..]);
      assert ItemStubbed(items[0], Invalidate(items)[0]);
    }
  }

  // ---- What a file becomes ------------------------------------------------------------------

  /** `written` is what is written of a declaration. */
  ghost predicate DeclWritten(config: Config, all: bool, decl: Decl, written: seq<Item>)
    decreases decl
  {
    match decl
    case Plain(item) => written == [item]
    case Group(name, inner) =>
      |written| == 1 && written[0].Module? && written[0].name == name
      && FileWritten(config, all, inner, written[0].items)
    case Have(cond, items) =>
      if Holds(On(config), cond) then
        if all then written == items else ItemsRenamed(config, items, written)
      else
        if all then ItemsStubbed(items, written) else written == []
    case ShowMeTheMoney =>
      if all then |written| == 1 && written[0].Binding? && written[0].name == "have" && written[0].body.Lookup?
      else written == []
  }

  /** The declarations are written one after the other. */
  ghost predicate FileWritten(config: Config, all: bool, decls: seq<Decl>, items: seq<Item>)
    decreases decls
  {
    if decls == [] then items == []
    else exists n: nat | n <= |items| ::
      DeclWritten(config, all, decls[0], items[..n]) && FileWritten(config, all, decls[1..], items[n..])
  }

  /**
   * Everything that is written: what stands outside sections as it is; sections that hold
   * as they are, in Specific with missing constructors renamed; sections that do not hold
   * nowhere in Specific and with stubs for externals in All; and `have` in All.
   */
  lemma {:induction false} ExpandWrites(config: Config, all: bool, fold: Fold, funcs: Table, decls: seq<Decl>)
    requires Expand(config, all, fold, funcs, decls).Ok?
    ensures FileWritten(config, all, decls, Expand(config, all, fold, funcs, decls).value.items)
    decreases decls
  {
    hide Expand, ExpandDecl, DeclWritten;
    if decls == [] {
      EmptyExpands(config, all, fold, funcs);
    } else {
      ExpandStep(config, all, fold, funcs, decls);
      var first := ExpandDecl(config, all, fold, funcs, decls[0]).value;
      DeclIsWritten(config, all, fold, funcs, decls[0]);
      ExpandWrites(config, all, fold, first.funcs, decls[1..]);
      var rest := Expand(config, all, fold, first.funcs, decls[1..]).value;
      var items, n := first.items + rest.items, |first.items|;
      assert items[..n] == first.items && items[n..] == rest.items;
    }
  }

  lemma {:induction false} DeclIsWritten(config: Config, all: bool, fold: Fold, funcs: Table, decl: Decl)
    requires ExpandDecl(config, all, fold, funcs, decl).Ok?
    ensures DeclWritten(config, all, decl, ExpandDecl(config, all, fold, funcs, decl).value.items)
    decreases decl
  {
    hide Expand, EvalCond, Holds, On, ItemsRenamed, ItemsStubbed, FileWritten;
    match decl {
      case Group(name, inner) => ExpandWrites(config, all, fold, funcs, inner);
      case Have(cond, items) =>
        EvalCondSound(config, config, cond);
        if EvalCond(config, cond).value && !all { HaveConstrOnlyRenames(config, items); }
        InvalidateOnlyStubs(items);
      case _ =>
    }
  }

  // ---- What a failure reports -----------------------------------------------------------------

  /** A constructor of the items carries the condition. */
  predicate SectionMentions(items: seq<Item>, cond: Payload)
    decreases items
  {
    items != [] &&
      (|| (items[0].TypeDecl? && exists c | c in items[0].constructors :: HaveAttribute(cond) in c.attributes)
       || (items[0].Module? && SectionMentions(items[0].items, cond))
       || SectionMentions(items[1..], cond))
  }

  /** A section, or a constructor in one, has the condition. */
  predicate Mentions(decls: seq<Decl>, cond: Payload)
    decreases decls
  {
    decls != [] &&
      (|| (decls[0].Have? && (decls[0].cond == cond || SectionMentions(decls[0].items, cond)))
       || (decls[0].Group? && Mentions(decls[0].decls, cond))
       || Mentions(decls[1..], cond))
  }

  lemma {:induction false} RenamingReports(config: Config, cs: seq<Constructor>) returns (cond: Payload)
    requires HaveConstructors(config, cs).Fail?
    ensures exists c | c in cs :: HaveAttribute(cond) in c.attributes
    ensures EvalCond(config, cond) == Fail(HaveConstructors(config, cs).error)
  {
    hide EvalCond;
    if HaveConstructor(config, cs[0]).Fail? {
      cond := cs[0].attributes[0].cond;
      assert cs[0] in cs && HaveAttribute(cond) in cs[0].attributes;
    } else {
      cond := RenamingReports(config, cs[1..]);
    }
  }

  lemma {:induction false} SectionReports(config: Config, items: seq<Item>) returns (cond: Payload)
    requires HaveConstr(config, items).Fail?
    ensures SectionMentions(items, cond)
    ensures EvalCond(config, cond) == Fail(HaveConstr(config, items).error)
    decreases items
  {
    hide EvalCond, HaveConstructors;
    if items[0].TypeDecl? && HaveConstructors(config, items[0].constructors).Fail? {
      cond := RenamingReports(config, items[0].constructors);
    } else if items[0].Module? && HaveConstr(config, items[0].items).Fail? {
      cond := SectionReports(config, items[0].items);
    } else {
      cond := SectionReports(config, items[1..]);
    }
  }

  /** If nothing is written, the error is that of some condition in the source. */
  lemma {:induction false} ExpandReports(config: Config, all: bool, fold: Fold, funcs: Table, decls: seq<Decl>)
    returns (cond: Payload)
    requires Expand(config, all, fold, funcs, decls).Fail?
    ensures Mentions(decls, cond)
    ensures EvalCond(config, cond) == Fail(Expand(config, all, fold, funcs, decls).error)
    decreases decls
  {
    hide EvalCond, HaveConstr;
    var first := ExpandDecl(config, all, fold, funcs, decls[0]);
    if first.Ok? {
      cond := ExpandReports(config, all, fold, first.value.funcs, decls[1..]);
    } else if decls[0].Group? {
      cond := ExpandReports(config, all, fold, funcs, decls[0].decls);
    } else {
      cond := decls[0].cond;
      if EvalCond(config, cond).Ok? {
        cond := SectionReports(config, decls[0].items);
      }
    }
  }
}
