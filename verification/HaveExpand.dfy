/**
 * ppx_have/ppx_have.ml: how a source file becomes the module All or the module
 * Specific, and the table of externals that is filled on the way.
 */
module HaveExpand {
  import opened HaveCondition
  import opened HaveStub

  /** An attribute of a constructor: [@have cond], or another one, such as a
      documentation comment. */
  datatype Attribute = HaveAttribute(cond: Payload) | OtherAttribute(name: string)

  datatype Constructor = Constructor(name: string, attributes: seq<Attribute>)

  /** Structure items without sections. */
  datatype Item =
    | External(name: string, typ: Typ)
    | Binding(name: string, body: Expr)
    | TypeDecl(name: string, constructors: seq<Constructor>)
    | Module(name: string, items: seq<Item>)
    | Raw(text: string)

  /** Source items: have-sections may stand inside modules, not inside each other. */
  datatype Decl =
    | Plain(item: Item)
    | Group(name: string, decls: seq<Decl>)
    | Have(cond: Payload, items: seq<Item>)
    | ShowMeTheMoney

  /** The global table `funcs`. */
  type Table = map<string, bool>

  // ---- record_external ------------------------------------------------------------------

  function Record(funcs: Table, have: bool, items: seq<Item>): Table
    decreases items
  {
    if items == [] then funcs
    else
      var after := match items[0]
        case External(name, _) => funcs[name := have]
        case Module(_, inner) => Record(funcs, have, inner)
        case _ => funcs;
      Record(after, have, items[1..])
  }

  // ---- invalid_external -----------------------------------------------------------------

  function InvalidateItem(item: Item): Item
    decreases item
  {
    match item
    case External(name, typ) => Binding(name, MakeDummy(name, typ))
    case Module(name, inner) => Module(name, Invalidate(inner))
    case _ => item
  }

  function Invalidate(items: seq<Item>): seq<Item>
    decreases items
  {
    if items == [] then [] else [InvalidateItem(items[0])] + Invalidate(items[1..])
  }

  // ---- have_constr -----------------------------------------------------------------------

  const SUFFIX := "__Not_available"

  /** [@have ...] takes effect when it is the only attribute. */
  predicate Governed(c: Constructor) {
    |c.attributes| == 1 && c.attributes[0].HaveAttribute?
  }

  function HaveConstructor(config: Config, c: Constructor): Result<Constructor> {
    if Governed(c) then
      var b :- EvalCond(config, c.attributes[0].cond);
      Ok(if b then c else c.(name := c.name + SUFFIX))
    else Ok(c)
  }

  function HaveConstructors(config: Config, cs: seq<Constructor>): Result<seq<Constructor>> {
    if cs == [] then Ok([])
    else
      var c :- HaveConstructor(config, cs[0]);
      var rest :- HaveConstructors(config, cs[1..]);
      Ok([c] + rest)
  }

  function HaveConstr(config: Config, items: seq<Item>): Result<seq<Item>>
    decreases items
  {
    if items == [] then Ok([])
    else
      var item :- match items[0]
        case TypeDecl(name, cs) => (var cs' :- HaveConstructors(config, cs); Ok(TypeDecl(name, cs')))
        case Module(name, inner) => (var inner' :- HaveConstr(config, inner); Ok(Module(name, inner')))
        case item => Ok(item);
      var rest :- HaveConstr(config, items[1..]);
      Ok([item] + rest)
  }

  // ---- The rules ---------------------------------------------------------------------------

  /** What the driver has written so far, and the table. */
  datatype State = State(items: seq<Item>, funcs: Table)

  function ExpandHave(config: Config, all: bool, funcs: Table, cond: Payload, items: seq<Item>): Result<State> {
    var have :- EvalCond(config, cond);
    var funcs' := Record(funcs, have, items);
    if have && all then Ok(State(items, funcs'))
    else if have then
      var items' :- HaveConstr(config, items);
      Ok(State(items', funcs'))
    else if all then Ok(State(Invalidate(items), funcs'))
    else Ok(State([], funcs'))
  }

  /** Hashtbl.fold visits the bindings of a table once each, in an order of its own. */
  type Fold = Table -> seq<(string, bool)>

  ghost predicate IsListing(cases: seq<(string, bool)>, funcs: Table) {
    && (forall c :: c in cases <==> c in funcs.Items)
    && (forall i, j :: 0 <= i < j < |cases| ==> cases[i].0 != cases[j].0)
  }

  ghost predicate IsFold(fold: Fold) {
    forall funcs: Table :: IsListing(fold(funcs), funcs)
  }

  datatype Option<+T> = None | Some(value: T)

  /** The generated function: the first case that matches, or None. */
  function Answer(cases: seq<(string, bool)>, name: string): Option<bool> {
    if cases == [] then None
    else if cases[0].0 == name then Some(cases[0].1)
    else Answer(cases[1..], name)
  }

  lemma {:induction false} AnswerFinds(cases: seq<(string, bool)>, name: string)
    ensures match Answer(cases, name)
      case Some(b) => (name, b) in cases
      case None => forall c | c in cases :: c.0 != name
  {
    if cases != [] {
      AnswerFinds(cases[1..], name);
    }
  }

  /** The order in which the hash table is listed does not matter. */
  lemma AnswerIsLookup(cases: seq<(string, bool)>, funcs: Table, name: string)
    requires IsListing(cases, funcs)
    ensures Answer(cases, name) == if name in funcs then Some(funcs[name]) else None
  {
    if name in funcs {
      assert (name, funcs[name]) in funcs.Items;
      assert (name, funcs[name]) in cases;
    }
    AnswerFinds(cases, name);
    if Answer(cases, name).Some? {
      var b := Answer(cases, name).value;
      assert (name, b) in funcs.Items;
      assert name in funcs && funcs[name] == b;
    }
  }

  function ExpandMoney(all: bool, funcs: Table, fold: Fold): seq<Item> {
    if all then [Binding("have", Lookup(fold(funcs)))] else []
  }

  function ExpandDecl(config: Config, all: bool, fold: Fold, funcs: Table, decl: Decl): Result<State>
    decreases decl
  {
    match decl
    case Plain(item) => Ok(State([item], funcs))
    case Group(name, inner) =>
      var st :- Expand(config, all, fold, funcs, inner);
      Ok(State([Module(name, st.items)], st.funcs))
    case Have(cond, items) => ExpandHave(config, all, funcs, cond, items)
    case ShowMeTheMoney => Ok(State(ExpandMoney(all, funcs, fold), funcs))
  }

  function Expand(config: Config, all: bool, fold: Fold, funcs: Table, decls: seq<Decl>): Result<State>
    decreases decls
  {
    if decls == [] then Ok(State([], funcs))
    else
      var first :- ExpandDecl(config, all, fold, funcs, decls[0]);
      var rest :- Expand(config, all, fold, first.funcs, decls[1..]);
      Ok(State(first.items + rest.items, rest.funcs))
  }

  // ---- The rewriter, with its global state ----------------------------------------------------

  class Rewriter {
    const config: Config
    const fold: Fold
    var all: bool
    var funcs: Table

    /** `all` is set by the flag --gen-all. */
    constructor (config: Config, fold: Fold, genAll: bool)
      ensures this.config == config && this.fold == fold && all == genAll && funcs == map[]
    {
      this.config, this.fold, all, funcs := config, fold, genAll, map[];
    }

    method RecordExternal(have: bool, items: seq<Item>)
      modifies this`funcs
      ensures funcs == Record(old(funcs), have, items)
      decreases items
    {
      var i := 0;
      while i < |items|
        invariant i <= |items|
        invariant Record(old(funcs), have, items) == Record(funcs, have, items[i..])
      {
        match items[i] {
          case External(name, _) => funcs := funcs[name := have];
          case Module(_, inner) => RecordExternal(have, inner);
          case _ =>
        }
        assert items[i..][1..] == items[i + 1..];
        i := i + 1;
      }
    }

    method HaveExpand(cond: Payload, items: seq<Item>) returns (r: Result<seq<Item>>)
      modifies this`funcs
      ensures match ExpandHave(config, all, old(funcs), cond, items)
        case Ok(st) => r == Ok(st.items) && funcs == st.funcs
        case Fail(e) => r == Fail(e)
    {
      var have := EvalCond(config, cond);
      if have.Fail? { return Fail(have.error); }
      RecordExternal(have.value, items);
      if have.value && all { return Ok(items); }
      if have.value { r := HaveConstr(config, items); return; }
      if all { return Ok(Invalidate(items)); }
      return Ok([]);
    }

    /** Nothing is written in Specific. In All it is the one binding of `have`, a
        function that knows the recorded names and answers what was recorded last. */
    method ShowMeTheMoneyExpand() returns (items: seq<Item>)
      ensures items == ExpandMoney(all, funcs, fold)
      ensures !all ==> items == []
      ensures all ==> |items| == 1 && items[0].Binding? && items[0].name == "have" && items[0].body.Lookup?
      ensures all ==> HasType(items[0].body, Arrow(Positional, Other("string"), OptionOf(Other("bool"))))
      ensures all && IsFold(fold) ==> forall name ::
        Answer(items[0].body.cases, name) == if name in funcs then Some(funcs[name]) else None
    {
      if IsFold(fold) {
        forall name ensures Answer(fold(funcs), name) == if name in funcs then Some(funcs[name]) else None {
          AnswerIsLookup(fold(funcs), funcs, name);
        }
      }
      if all { return [Binding("have", Lookup(fold(funcs)))]; }
      return [];
    }

    /** The driver visits the declarations in order and expands each section in place. */
    method Transform(decls: seq<Decl>) returns (r: Result<seq<Item>>)
      modifies this`funcs
      ensures match Expand(config, all, fold, old(funcs), decls)
        case Ok(st) => r == Ok(st.items) && funcs == st.funcs
        case Fail(e) => r == Fail(e)
      decreases decls
    {
      if decls == [] { return Ok([]); }
      var first: seq<Item>;
      match decls[0] {
        case Plain(item) =>
          first := [item];
        case Group(name, inner) =>
          var st := Transform(inner);
          if st.Fail? { return Fail(st.error); }
          first := [Module(name, st.value)];
        case Have(cond, items) =>
          var st := HaveExpand(cond, items);
          if st.Fail? { return Fail(st.error); }
          first := st.value;
        case ShowMeTheMoney =>
          first := ShowMeTheMoneyExpand();
      }
      var rest := Transform(decls[1..]);
      if rest.Fail? { return Fail(rest.error); }
      return Ok(first + rest.value);
    }
  }
}
