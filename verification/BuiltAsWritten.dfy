/** When the emitted constructor code builds the value that was written. */
module BuiltAsWritten {
  import opened Constructors
  import opened FixedWidth
  import opened HeapStore
  import opened Options

  /** The last value that the cells of `e` hold, when `e` is built as written. */
  ghost function Top(e: Expr, env: map<string, Value>): Value
    requires Scoped(e, env.Keys) && Cells(e) > 0
  {
    match e
    case TupleE(es) =>
      assert es == [] ==> CellsAll(es) == 0;
      Eval(es[|es| - 1], env)
    case _ => Eval(e, env)
  }

  /** The value pushed last after `e`, when `e` is built as written. */
  ghost function Pushed(e: Expr, env: map<string, Value>, last: Option<Value>): Option<Value>
    requires Scoped(e, env.Keys)
  {
    if Cells(e) == 0 then last else Some(Top(e, env))
  }

  /** `e` is built as written where `last` was pushed last: integers fit, and every list
      whose head pushes cells has the last of them as its tail, while any other list has
      a list that is built as written, or the value pushed last. */
  ghost predicate Right(e: Expr, env: map<string, Value>, last: Option<Value>)
    requires Scoped(e, env.Keys)
    decreases e, 0
  {
    match e
    case IntE(i) => In32(i)
    case TupleE(es) => RightAll(es, env, last)
    case ConsE(h, t) =>
      && Right(h, env, Built(t, env, last).1)
      && if Cells(h) == 0 then RightTail(t, env, last) else Top(h, env) == Eval(t, env)
    case _ => true
  }

  ghost predicate RightAll(es: seq<Expr>, env: map<string, Value>, last: Option<Value>)
    requires forall e :: e in es ==> Scoped(e, env.Keys)
    decreases es, 1
  {
    es == [] || (Right(es[0], env, last) && RightAll(es[1..], env, Pushed(es[0], env, last)))
  }

  /** The value pushed last, once the tail expression has been built, is the tail. */
  ghost predicate RightTail(t: Expr, env: map<string, Value>, last: Option<Value>)
    requires Scoped(t, env.Keys)
    decreases t, 1
  {
    if t.NilE? || t.ConsE? then Right(t, env, last) else Cells(t) == 0 && Tail(last) == Eval(t, env)
  }

  /** An expression without cells pushes nothing. */
  lemma CellFree(e: Expr, env: map<string, Value>, last: Option<Value>)
    requires Scoped(e, env.Keys) && Cells(e) == 0
    ensures Built(e, env, last).1 == last
  {
    if e.TupleE? {
      assert e.elems == [];
    }
  }

  lemma {:induction false} EvalAt(es: seq<Expr>, env: map<string, Value>, k: nat)
    requires (forall e :: e in es ==> Scoped(e, env.Keys)) && k < |es|
    ensures EvalAll(es, env)[k] == Eval(es[k], env)
  {
    if k > 0 {
      EvalAt(es[1..], env, k - 1);
    }
  }

  lemma {:induction false} BuiltLast(es: seq<Expr>, env: map<string, Value>, last: Option<Value>)
    returns (before: Option<Value>)
    requires (forall e :: e in es ==> Scoped(e, env.Keys)) && es != []
    ensures BuiltAll(es, env, last).0[|es| - 1] == Built(es[|es| - 1], env, before).0
  {
    if |es| == 1 {
      before := last;
    } else {
      before := BuiltLast(es[1..], env, Built(es[0], env, last).1);
    }
  }

  /** What is built for the last element of a tuple is never the tuple. */
  lemma {:induction false} NotItsTuple(es: seq<Expr>, env: map<string, Value>, last: Option<Value>)
    requires (forall e :: e in es ==> Scoped(e, env.Keys)) && es != []
    ensures Built(es[|es| - 1], env, last).0 != TupleV(EvalAll(es, env))
    decreases es[|es| - 1]
  {
    var e, vs := es[|es| - 1], EvalAll(es, env);
    assert e in es;
    EvalAt(es, env, |es| - 1);
    match e
    case VarE(x) => assert vs[|vs| - 1] == env[x];
    case TupleE(es') =>
      if es' != [] {
        var before := BuiltLast(es', env, last);
        NotItsTuple(es', env, before);
      }
    case _ =>
  }

  /** Exactly when an expression is built as written, for every expression. */
  lemma {:induction false} RightExact(e: Expr, env: map<string, Value>, last: Option<Value>)
    requires Scoped(e, env.Keys)
    ensures Built(e, env, last).0 == Eval(e, env) <==> Right(e, env, last)
    ensures Right(e, env, last) ==> Built(e, env, last).1 == Pushed(e, env, last)
    decreases e, 0
  {
    match e
    case TupleE(es) =>
      RightAllExact(es, env, last);
      if es != [] {
        EvalAt(es, env, |es| - 1);
      }
    case ConsE(h, t) => RightConsExact(h, t, env, last);
    case _ =>
  }

  lemma {:induction false} RightConsExact(h: Expr, t: Expr, env: map<string, Value>, last: Option<Value>)
    requires Scoped(ConsE(h, t), env.Keys)
    ensures Built(ConsE(h, t), env, last).0 == Eval(ConsE(h, t), env) <==> Right(ConsE(h, t), env, last)
    decreases ConsE(h, t), -1
  {
    var last1 := Built(t, env, last).1;
    RightExact(h, env, last1);
    if Cells(h) == 0 {
      CellFree(h, env, last1);
      RightTailExact(t, env, last);
    }
  }

  lemma {:induction false} RightTailExact(t: Expr, env: map<string, Value>, last: Option<Value>)
    requires Scoped(t, env.Keys)
    ensures Tail(Built(t, env, last).1) == Eval(t, env) <==> RightTail(t, env, last)
    decreases t, 1
  {
    match t
    case ConsE(_, _) => RightExact(t, env, last);
    case NilE =>
    case TupleE(es) =>
      if es == [] {
        CellFree(t, env, last);
      } else {
        var before := BuiltLast(es, env, last);
        NotItsTuple(es, env, before);
      }
    case _ => CellFree(t, env, last);
  }

  lemma {:induction false} RightAllExact(es: seq<Expr>, env: map<string, Value>, last: Option<Value>)
    requires forall e :: e in es ==> Scoped(e, env.Keys)
    ensures BuiltAll(es, env, last).0 == EvalAll(es, env) <==> RightAll(es, env, last)
    decreases es, 1
  {
    if es != [] {
      var (v, last1) := Built(es[0], env, last);
      var vs, ws := BuiltAll(es[1..], env, last1).0, EvalAll(es[1..], env);
      RightExact(es[0], env, last);
      RightAllExact(es[1..], env, last1);
      assert ([v] + vs)[0] == v && ([v] + vs)[1..] == vs;
      assert ([Eval(es[0], env)] + ws)[1..] == ws;
    }
  }

  /** What the emitted code leaves in the heap is the value written, exactly when that. */
  lemma EmitExact(e: Expr, genv: map<string, Generic>, env: map<string, Value>, st: Store, last: Option<Value>)
    requires EnvOk(st, genv, env) && Scoped(e, env.Keys) && LastIs(st, last) && Anchored(e, |st.cells|)
    ensures var (st', g) := Emit(e, genv, st);
            Acyclic(st') && Live(st', g) && (ValueOf(st', g) == Eval(e, env) <==> Right(e, env, last))
  {
    hide Acyclic, Live, ValueOf, Right, Emit, Eval, Built;
    EmitBuilds(e, genv, env, st, last);
    RightExact(e, env, last);
  }

  // ----- a condition on the text -----

  /** Integers fit, every list's head pushes no cell, and its tail is a list literal, or a
      variable among `tops`, those that hold the value pushed last. */
  ghost predicate Proper(e: Expr, tops: set<string>) {
    match e
    case IntE(i) => In32(i)
    case TupleE(es) => ProperAll(es, tops)
    case ConsE(h, t) =>
      Cells(h) == 0 && Proper(h, {}) && Proper(t, tops) && (t.NilE? || t.ConsE? || (t.VarE? && t.x in tops))
    case _ => true
  }

  ghost predicate ProperAll(es: seq<Expr>, tops: set<string>) {
    es == [] || (Proper(es[0], tops) && ProperAll(es[1..], if Cells(es[0]) == 0 then tops else {}))
  }

  ghost predicate Tops(env: map<string, Value>, tops: set<string>, last: Option<Value>) {
    forall x :: x in tops ==> x in env && last == Some(env[x])
  }

  lemma {:induction false} ProperRight(e: Expr, env: map<string, Value>, tops: set<string>, last: Option<Value>)
    requires Scoped(e, env.Keys) && Proper(e, tops) && Tops(env, tops, last)
    ensures Right(e, env, last)
    decreases e, 0
  {
    match e
    case TupleE(es) => ProperAllRight(es, env, tops, last);
    case ConsE(h, t) =>
      ProperRight(h, env, {}, Built(t, env, last).1);
      ProperRight(t, env, tops, last);
    case _ =>
  }

  lemma {:induction false} ProperAllRight(es: seq<Expr>, env: map<string, Value>, tops: set<string>,
                                           last: Option<Value>)
    requires (forall e :: e in es ==> Scoped(e, env.Keys)) && ProperAll(es, tops) && Tops(env, tops, last)
    ensures RightAll(es, env, last)
    decreases es, 1
  {
    if es != [] {
      ProperRight(es[0], env, tops, last);
      ProperAllRight(es[1..], env, if Cells(es[0]) == 0 then tops else {}, Pushed(es[0], env, last));
    }
  }

  /** Proper expressions build the value written. */
  lemma ProperBuildsValue(e: Expr, env: map<string, Value>, tops: set<string>, last: Option<Value>)
    requires Scoped(e, env.Keys) && Proper(e, tops) && Tops(env, tops, last)
    ensures Built(e, env, last).0 == Eval(e, env)
    ensures Built(e, env, last).1 == Pushed(e, env, last)
  {
    ProperRight(e, env, tops, last);
    RightExact(e, env, last);
  }

  // ----- expressions whose list tails are list literals -----

  predicate Literal(e: Expr) {
    match e
    case TupleE(es) => forall e' :: e' in es ==> Literal(e')
    case ConsE(h, t) => (t.NilE? || t.ConsE?) && Literal(h) && Literal(t)
    case _ => true
  }

  /** For these the heap before plays no part. */
  ghost predicate RightLiteral(e: Expr, env: map<string, Value>)
    requires Scoped(e, env.Keys)
  {
    match e
    case IntE(i) => In32(i)
    case TupleE(es) => forall e' :: e' in es ==> RightLiteral(e', env)
    case ConsE(h, t) =>
      RightLiteral(h, env) && if Cells(h) == 0 then RightLiteral(t, env) else Top(h, env) == Eval(t, env)
    case _ => true
  }

  lemma {:induction false} RightOfLiteral(e: Expr, env: map<string, Value>, last: Option<Value>)
    requires Scoped(e, env.Keys) && Literal(e)
    ensures Right(e, env, last) <==> RightLiteral(e, env)
    decreases e, 0
  {
    match e
    case TupleE(es) => RightOfLiterals(es, env, last);
    case ConsE(h, t) =>
      RightOfLiteral(h, env, Built(t, env, last).1);
      RightOfLiteral(t, env, last);
    case _ =>
  }

  lemma {:induction false} RightOfLiterals(es: seq<Expr>, env: map<string, Value>, last: Option<Value>)
    requires forall e :: e in es ==> Scoped(e, env.Keys) && Literal(e)
    ensures RightAll(es, env, last) <==> forall e :: e in es ==> RightLiteral(e, env)
    decreases es, 1
  {
    if es != [] {
      RightOfLiteral(es[0], env, last);
      RightOfLiterals(es[1..], env, Pushed(es[0], env, last));
      assert forall e :: e in es <==> e == es[0] || e in es[1..];
    }
  }

  /** Exactly when an expression without variable tails is built as written, in any heap. */
  lemma LiteralExact(e: Expr, env: map<string, Value>, last: Option<Value>)
    requires Scoped(e, env.Keys) && Literal(e)
    ensures Built(e, env, last).0 == Eval(e, env) <==> RightLiteral(e, env)
  {
    RightExact(e, env, last);
    RightOfLiteral(e, env, last);
  }

  // ----- list literals -----

  /** `[e1, ..., en]` is n conses onto nil. */
  function ListE(es: seq<Expr>): Expr {
    if es == [] then NilE else ConsE(es[0], ListE(es[1..]))
  }

  ghost function ListV(vs: seq<Value>): Value {
    if vs == [] then NilV else ConsV(vs[0], ListV(vs[1..]))
  }

  /** A list literal of n elements that need no memory of their own takes 1 + 2n cells and
      2n slots, and holds the n elements if their integers fit, in any heap. */
  lemma {:induction false} ListLiteral(es: seq<Expr>, env: map<string, Value>, n: nat, last: Option<Value>)
    requires forall e :: e in es ==> Scoped(e, env.Keys) && Cells(e) == 0 && Slots(e) == 0
    ensures var e := ListE(es);
            && Scoped(e, env.Keys) && Anchored(e, n)
            && Cells(e) == 1 + 2 * |es| && Slots(e) == 2 * |es|
            && Eval(e, env) == ListV(EvalAll(es, env))
            && (Built(e, env, last).0 == Eval(e, env) <==> forall e' :: e' in es ==> RightLiteral(e', env))
  {
    ListLiteralShape(es, env, n);
    LiteralExact(ListE(es), env, last);
  }

  lemma {:induction false} ListLiteralShape(es: seq<Expr>, env: map<string, Value>, n: nat)
    requires forall e :: e in es ==> Scoped(e, env.Keys) && Cells(e) == 0 && Slots(e) == 0
    ensures var e := ListE(es);
            && Scoped(e, env.Keys) && Anchored(e, n) && Literal(e)
            && Cells(e) == 1 + 2 * |es| && Slots(e) == 2 * |es|
            && Eval(e, env) == ListV(EvalAll(es, env))
            && (RightLiteral(e, env) <==> forall e' :: e' in es ==> RightLiteral(e', env))
  {
    if es != [] {
      ListLiteralShape(es[1..], env, n);
      CellFreeShape(es[0], n + Cells(ListE(es[1..])));
      assert forall e :: e in es <==> e == es[0] || e in es[1..];
    }
  }

  lemma CellFreeShape(e: Expr, n: nat)
    requires Cells(e) == 0
    ensures Anchored(e, n) && Literal(e)
  {
    if e.TupleE? {
      assert e.elems == [];
    }
  }

  /** An integer literal beyond 32 bits is not stored as written. */
  lemma WideInteger(i: int, env: map<string, Value>, last: Option<Value>)
    requires !In32(i)
    ensures Built(IntE(i), env, last).0 == IntV(Signed32(i)) != Eval(IntE(i), env)
  {
  }

  /** A nested list literal is not built as written: [[1]] becomes [[1], 1]. */
  lemma NestedListLiteral(env: map<string, Value>, last: Option<Value>)
    ensures var inner := ConsE(IntE(1), NilE);
            var one := ConsV(IntV(1), NilV);
            && Scoped(inner, env.Keys) && Scoped(ConsE(inner, NilE), env.Keys)
            && Eval(ConsE(inner, NilE), env) == ConsV(one, NilV)
            && Built(ConsE(inner, NilE), env, last).0 == ConsV(one, one)
  {
    var inner := ConsE(IntE(1), NilE);
    var one := ConsV(IntV(1), NilV);
    assert Scoped(IntE(1), env.Keys) && Scoped(inner, env.Keys);
    assert Eval(IntE(1), env) == IntV(1) && Eval(inner, env) == one;
    assert Built(inner, env, Some(NilV)) == (one, Some(one));
  }
}
