/** The code emitted for data constructors: which cells it pushes, when it runs out of
    memory, and which value it builds, for every expression. */
module Constructors {
  import opened FixedWidth
  import opened HeapStore
  import opened Options

  /** Constructor expressions; a list literal is its conses.  An integer literal is
      unbounded in Elixir, and an `int` in the emitted code. */
  datatype Expr =
    | IntE(i: int)
    | AtomE(name: AtomName)
    | StrE(s: string)
    | VarE(x: string)
    | TupleE(elems: seq<Expr>)
    | NilE
    | ConsE(head: Expr, tail: Expr)

  ghost predicate Scoped(e: Expr, scope: set<string>) {
    match e
    case VarE(x) => x in scope
    case TupleE(es) => forall e' :: e' in es ==> Scoped(e', scope)
    case ConsE(h, t) => Scoped(h, scope) && Scoped(t, scope)
    case _ => true
  }

  // ----- what the expression means -----

  ghost function Eval(e: Expr, env: map<string, Value>): Value
    requires Scoped(e, env.Keys)
  {
    match e
    case IntE(i) => IntV(i)
    case AtomE(name) => AtomV(name)
    case StrE(s) => StrV(s)
    case VarE(x) => env[x]
    case TupleE(es) => TupleV(EvalAll(es, env))
    case NilE => NilV
    case ConsE(h, t) => ConsV(Eval(h, env), Eval(t, env))
  }

  ghost function EvalAll(es: seq<Expr>, env: map<string, Value>): (vs: seq<Value>)
    requires forall e :: e in es ==> Scoped(e, env.Keys)
    ensures |vs| == |es|
  {
    if es == [] then [] else [Eval(es[0], env)] + EvalAll(es[1..], env)
  }

  // ----- what the emitted code needs -----

  function Cells(e: Expr): nat {
    match e
    case TupleE(es) => CellsAll(es) + |es|
    case NilE => 1
    case ConsE(h, t) => Cells(t) + Cells(h) + 2
    case _ => 0
  }

  function CellsAll(es: seq<Expr>): nat {
    if es == [] then 0 else Cells(es[0]) + CellsAll(es[1..])
  }

  function Slots(e: Expr): nat {
    match e
    case TupleE(es) => SlotsAll(es) + |es|
    case ConsE(h, t) => Slots(t) + Slots(h) + 2
    case _ => 0
  }

  function SlotsAll(es: seq<Expr>): nat {
    if es == [] then 0 else Slots(es[0]) + SlotsAll(es[1..])
  }

  /** Characters, with a terminator for each string. */
  function Chars(e: Expr): nat {
    match e
    case StrE(s) => |s| + 1
    case TupleE(es) => CharsAll(es)
    case ConsE(h, t) => Chars(t) + Chars(h)
    case _ => 0
  }

  function CharsAll(es: seq<Expr>): nat {
    if es == [] then 0 else Chars(es[0]) + CharsAll(es[1..])
  }

  // ----- what the emitted code does to the store -----

  function Emit(e: Expr, env: map<string, Generic>, st: Store): (Store, Generic) {
    match e
    case IntE(i) => (st, Integer(Signed32(i)))
    case AtomE(name) => (st, AtomCell(name))
    case StrE(s) => StoreString(st, s)
    case VarE(x) => (st, if x in env then env[x] else EMPTY_LIST)
    case TupleE(es) =>
      var (st1, gs) := EmitAll(es, env, st);
      StoreTuple(st1, gs)
    case NilE => StoreNil(st)
    case ConsE(h, t) =>
      var (st1, _) := Emit(t, env, st);
      var (st2, g) := Emit(h, env, st1);
      StoreCons(st2, g)
  }

  function EmitAll(es: seq<Expr>, env: map<string, Generic>, st: Store): (r: (Store, seq<Generic>))
    ensures |r.1| == |es|
  {
    if es == [] then (st, [])
    else
      var (st1, g) := Emit(es[0], env, st);
      var (st2, gs) := EmitAll(es[1..], env, st1);
      (st2, [g] + gs)
  }

  lemma {:induction false} EmitSizes(e: Expr, env: map<string, Generic>, st: Store)
    ensures var st' := Emit(e, env, st).0;
            && |st'.cells| == |st.cells| + Cells(e)
            && |st'.pool| == |st.pool| + Slots(e)
            && |st'.chars| == |st.chars| + Chars(e)
    decreases e, 0
  {
    match e
    case TupleE(es) => EmitAllSizes(es, env, st);
    case ConsE(h, t) =>
      EmitSizes(t, env, st);
      EmitSizes(h, env, Emit(t, env, st).0);
    case _ =>
  }

  lemma {:induction false} EmitAllSizes(es: seq<Expr>, env: map<string, Generic>, st: Store)
    ensures var st' := EmitAll(es, env, st).0;
            && |st'.cells| == |st.cells| + CellsAll(es)
            && |st'.pool| == |st.pool| + SlotsAll(es)
            && |st'.chars| == |st.chars| + CharsAll(es)
    decreases es, 1
  {
    if es != [] {
      EmitSizes(es[0], env, st);
      EmitAllSizes(es[1..], env, Emit(es[0], env, st).0);
    }
  }

  // ----- what value the emitted code builds -----

  /** The value built, and the value of the cell pushed last (None: the heap is empty).
      A list's tail is the value pushed last, whether or not that is the tail written. */
  ghost function Built(e: Expr, env: map<string, Value>, last: Option<Value>): (Value, Option<Value>)
    requires Scoped(e, env.Keys)
  {
    match e
    case IntE(i) => (IntV(Signed32(i)), last)
    case AtomE(name) => (AtomV(name), last)
    case StrE(s) => (StrV(s), last)
    case VarE(x) => (env[x], last)
    case TupleE(es) =>
      var (vs, last1) := BuiltAll(es, env, last);
      (TupleV(vs), if vs == [] then last1 else Some(vs[|vs| - 1]))
    case NilE => (NilV, Some(NilV))
    case ConsE(h, t) =>
      var (_, last1) := Built(t, env, last);
      var (hv, last2) := Built(h, env, last1);
      var v := ConsV(hv, Tail(last2));
      (v, Some(v))
  }

  /** The tail of a list cell is the value pushed last (on an empty heap, none). */
  function Tail(last: Option<Value>): Value {
    if last.Some? then last.value else NilV
  }

  ghost function BuiltAll(es: seq<Expr>, env: map<string, Value>, last: Option<Value>): (r: (seq<Value>, Option<Value>))
    requires forall e :: e in es ==> Scoped(e, env.Keys)
    ensures |r.0| == |es|
  {
    if es == [] then ([], last)
    else
      var (v, last1) := Built(es[0], env, last);
      var (vs, last2) := BuiltAll(es[1..], env, last1);
      ([v] + vs, last2)
  }

  /** No list is built while the heap, of `n` cells before `e`, is still empty. */
  ghost predicate Anchored(e: Expr, n: nat) {
    match e
    case TupleE(es) => AnchoredAll(es, n)
    case ConsE(h, t) => Anchored(t, n) && Anchored(h, n + Cells(t)) && n + Cells(t) + Cells(h) > 0
    case _ => true
  }

  ghost predicate AnchoredAll(es: seq<Expr>, n: nat) {
    es == [] || (Anchored(es[0], n) && AnchoredAll(es[1..], n + Cells(es[0])))
  }

  /** The cells and the values of the variables agree. */
  ghost predicate EnvOk(st: Store, genv: map<string, Generic>, env: map<string, Value>) {
    && Acyclic(st) && genv.Keys == env.Keys
    && forall x :: x in genv ==> Live(st, genv[x]) && ValueOf(st, genv[x]) == env[x]
  }

  ghost predicate LastIs(st: Store, last: Option<Value>)
    requires Acyclic(st)
  {
    last == if st.cells == [] then None else Some(LastValue(st))
  }

  /** The store after `e` holds everything it held, and `g` stands for the value built. */
  ghost predicate BuildsTo(st: Store, st': Store, g: Generic, v: Value, last: Option<Value>) {
    && Grows(st, st') && Acyclic(st') && Live(st', g) && ValueOf(st', g) == v && LastIs(st', last)
  }

  lemma EnvGrows(st: Store, st': Store, genv: map<string, Generic>, env: map<string, Value>)
    requires EnvOk(st, genv, env) && Grows(st, st') && Acyclic(st')
    ensures EnvOk(st', genv, env)
  {
    forall x | x in genv ensures Live(st', genv[x]) && ValueOf(st', genv[x]) == env[x] {
      ValueGrows(st, st', genv[x]);
    }
  }

  ghost predicate AllBuildTo(st: Store, st': Store, gs: seq<Generic>, vs: seq<Value>, last: Option<Value>) {
    && Grows(st, st') && Acyclic(st') && |gs| == |vs|
    && (forall k :: 0 <= k < |gs| ==> Live(st', gs[k]) && ValueOf(st', gs[k]) == vs[k])
    && LastIs(st', last)
  }

  lemma GrowsTransitive(a: Store, b: Store, c: Store)
    requires Grows(a, b) && Grows(b, c)
    ensures Grows(a, c)
  {
  }

  /** The cell pushed last keeps its value while no cell is pushed. */
  lemma SameLast(st: Store, st': Store, last: Option<Value>)
    requires Grows(st, st') && Acyclic(st) && Acyclic(st') && st'.cells == st.cells && LastIs(st, last)
    ensures LastIs(st', last)
  {
    if st.cells != [] {
      LastCellOk(st);
      DecodeGrows(st, st', st.cells[|st.cells| - 1], |st.cells| - 1, |st.cells| - 1);
    }
  }

  /** After pushing `g` as the last cell, its value is the value pushed last. */
  lemma PushedLast(st: Store, g: Generic)
    requires Acyclic(st) && st.cells != [] && st.cells[|st.cells| - 1] == g && Live(st, g)
    ensures LastIs(st, Some(ValueOf(st, g)))
  {
    LastCellOk(st);
    DecodeGrows(st, st, g, |st.cells| - 1, |st.cells|);
  }

  lemma StringBuilds(st: Store, s: string, last: Option<Value>)
    requires Acyclic(st) && LastIs(st, last)
    ensures var (st', g) := StoreString(st, s); BuildsTo(st, st', g, StrV(s), last)
  {
    StringStored(st, s);
    SameLast(st, StoreString(st, s).0, last);
  }

  lemma NilBuilds(st: Store)
    requires Acyclic(st)
    ensures var (st', g) := StoreNil(st); BuildsTo(st, st', g, NilV, Some(NilV))
  {
    NilStored(st);
    PushedLast(StoreNil(st).0, EMPTY_LIST);
  }

  lemma TupleBuilds(st: Store, st1: Store, gs: seq<Generic>, vs: seq<Value>, last: Option<Value>)
    requires AllBuildTo(st, st1, gs, vs, last)
    ensures var (st', g) := StoreTuple(st1, gs);
            BuildsTo(st, st', g, TupleV(vs), if vs == [] then last else Some(vs[|vs| - 1]))
  {
    hide Acyclic, RefersBelow, Decode;
    var (st', g) := StoreTuple(st1, gs);
    TupleStored(st1, gs);
    assert vs == seq(|gs|, k requires 0 <= k < |gs| => ValueOf(st1, gs[k]));
    GrowsTransitive(st, st1, st');
    if gs == [] {
      SameLast(st1, st', last);
    } else {
      var g' := gs[|gs| - 1];
      ValueGrows(st1, st', g');
      PushedLast(st', g');
    }
  }

  lemma ConsBuilds(st: Store, st2: Store, head: Generic, v: Value, last: Option<Value>)
    requires Acyclic(st) && BuildsTo(st, st2, head, v, last) && st2.cells != []
    ensures last.Some?
    ensures var (st', g) := StoreCons(st2, head);
            var list := ConsV(v, last.value);
            BuildsTo(st, st', g, list, Some(list))
  {
    hide Acyclic, RefersBelow, Decode;
    ConsStored(st2, head);
    var (st', g) := StoreCons(st2, head);
    GrowsTransitive(st, st2, st');
    PushedLast(st', g);
  }

  lemma ScalarBuilds(st: Store, g: Generic, v: Value, last: Option<Value>)
    requires Acyclic(st) && LastIs(st, last)
    requires match v case IntV(i) => g == Integer(i) case AtomV(name) => g == AtomCell(name) case _ => false
    ensures BuildsTo(st, st, g, v, last)
  {
  }

  lemma VarBuilds(st: Store, genv: map<string, Generic>, env: map<string, Value>, x: string, last: Option<Value>)
    requires EnvOk(st, genv, env) && x in genv && LastIs(st, last)
    ensures BuildsTo(st, st, genv[x], env[x], last)
  {
  }

  /** What the emitted code builds, for every expression and every store. */
  lemma {:induction false} EmitBuilds(e: Expr, genv: map<string, Generic>, env: map<string, Value>, st: Store,
      last: Option<Value>)
    requires EnvOk(st, genv, env) && Scoped(e, env.Keys) && LastIs(st, last) && Anchored(e, |st.cells|)
    ensures var (st', g) := Emit(e, genv, st);
            var (v, last') := Built(e, env, last);
            BuildsTo(st, st', g, v, last')
    decreases e, 0
  {
    hide RefersBelow, Decode, Acyclic, Live, BuildsTo;
    match e
    case StrE(s) => StringBuilds(st, s, last);
    case TupleE(es) =>
      EmitAllBuilds(es, genv, env, st, last);
      var (st1, gs) := EmitAll(es, genv, st);
      var (vs, last1) := BuiltAll(es, env, last);
      TupleBuilds(st, st1, gs, vs, last1);
    case NilE => NilBuilds(st);
    case ConsE(h, t) => EmitConsBuilds(h, t, genv, env, st, last);
    case VarE(x) => VarBuilds(st, genv, env, x, last);
    case IntE(i) => ScalarBuilds(st, Integer(Signed32(i)), IntV(Signed32(i)), last);
    case AtomE(name) => ScalarBuilds(st, AtomCell(name), AtomV(name), last);
  }

  lemma {:induction false} EmitConsBuilds(h: Expr, t: Expr, genv: map<string, Generic>, env: map<string, Value>,
      st: Store, last: Option<Value>)
    requires EnvOk(st, genv, env) && Scoped(h, env.Keys) && Scoped(t, env.Keys) && LastIs(st, last)
    requires Anchored(ConsE(h, t), |st.cells|)
    ensures var (st', g) := Emit(ConsE(h, t), genv, st);
            var (v, last') := Built(ConsE(h, t), env, last);
            BuildsTo(st, st', g, v, last')
    decreases ConsE(h, t), -1
  {
    hide RefersBelow, Decode, Acyclic, Live, EnvOk;
    var (st1, g1) := Emit(t, genv, st);
    var (v1, last1) := Built(t, env, last);
    EmitBuilds(t, genv, env, st, last);
    EnvGrows(st, st1, genv, env);
    EmitSizes(t, genv, st);
    var (st2, g) := Emit(h, genv, st1);
    var (v, last2) := Built(h, env, last1);
    EmitBuilds(h, genv, env, st1, last1);
    EmitSizes(h, genv, st1);
    GrowsTransitive(st, st1, st2);
    EnvAcyclic(st, genv, env);
    ConsBuilds(st, st2, g, v, last2);
  }

  lemma EnvAcyclic(st: Store, genv: map<string, Generic>, env: map<string, Value>)
    requires EnvOk(st, genv, env)
    ensures Acyclic(st) && genv.Keys == env.Keys
  {
  }

  lemma {:induction false} EmitAllBuilds(es: seq<Expr>, genv: map<string, Generic>, env: map<string, Value>,
      st: Store, last: Option<Value>)
    requires EnvOk(st, genv, env) && (forall e :: e in es ==> Scoped(e, env.Keys))
    requires LastIs(st, last) && AnchoredAll(es, |st.cells|)
    ensures var (st', gs) := EmitAll(es, genv, st);
            var (vs, last') := BuiltAll(es, env, last);
            AllBuildTo(st, st', gs, vs, last')
    decreases es, 1
  {
    if es != [] {
      hide RefersBelow, Decode, Acyclic, EnvOk, Emit, Built, Scoped;
      var (st1, g) := Emit(es[0], genv, st);
      var (v, last1) := Built(es[0], env, last);
      EmitBuilds(es[0], genv, env, st, last);
      EnvGrows(st, st1, genv, env);
      EmitSizes(es[0], genv, st);
      EmitAllBuilds(es[1..], genv, env, st1, last1);
      var (st', gs) := EmitAll(es[1..], genv, st1);
      var (vs, last') := BuiltAll(es[1..], env, last1);
      OneMoreBuilds(st, st1, st', g, v, gs, vs, last');
    }
  }

  lemma OneMoreBuilds(st: Store, st1: Store, st': Store, g: Generic, v: Value, gs: seq<Generic>, vs: seq<Value>,
      last: Option<Value>)
    requires Grows(st, st1) && Acyclic(st1) && Live(st1, g) && ValueOf(st1, g) == v
    requires AllBuildTo(st1, st', gs, vs, last)
    ensures AllBuildTo(st, st', [g] + gs, [v] + vs, last)
  {
    hide RefersBelow, Decode, Acyclic;
    GrowsTransitive(st, st1, st');
    ValueGrows(st1, st', g);
  }

  /** Strings, atoms, 32-bit integers and variables are built as themselves, in any store,
      and that is what they mean. */
  lemma LiteralsStored(st: Store, genv: map<string, Generic>, env: map<string, Value>,
                       s: string, name: AtomName, i: int, x: string)
    requires EnvOk(st, genv, env) && In32(i) && x in env
    ensures var (st', g) := Emit(StrE(s), genv, st);
            Acyclic(st') && Live(st', g) && ValueOf(st', g) == StrV(s) == Eval(StrE(s), env)
    ensures var (st', g) := Emit(AtomE(name), genv, st);
            st' == st && Live(st, g) && ValueOf(st, g) == AtomV(name) == Eval(AtomE(name), env)
    ensures var (st', g) := Emit(IntE(i), genv, st);
            st' == st && Live(st, g) && ValueOf(st, g) == IntV(i) == Eval(IntE(i), env)
    ensures var (st', g) := Emit(VarE(x), genv, st);
            st' == st && Live(st, g) && ValueOf(st, g) == env[x] == Eval(VarE(x), env)
  {
    hide Acyclic;
    EnvAcyclic(st, genv, env);
    StringStored(st, s);
  }
}
