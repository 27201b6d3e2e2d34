/** Two of the repository's example programs, run from an empty heap, and one program that
    runs on where Elixir stops. */
module ExamplePrograms {
  import opened Constructors
  import opened ElixirMatching
  import opened HeapStore
  import opened Matching
  import opened Options
  import opened StraightLine

  // ----- one statement at a time -----

  /** `x = e` */
  lemma Assign(x: string, e: Expr, rest: seq<Stmt>, env: map<string, Value>, last: Option<Value>, n: nat, space: Space)
    requires Scoped(e, env.Keys) && Anchored(e, n)
    requires var (v, last') := Built(e, env, last); Sane(rest, env[x := v], last', n + Cells(e))
    ensures var stmts := [Stmt(VarP(x), e)] + rest;
            var (v, last') := Built(e, env, last);
            && Sane(stmts, env, last, n)
            && Meaning(stmts, env, last, n, space)
               == if Enough(e, space) then Meaning(rest, env[x := v], last', n + Cells(e), Less(space, e))
                  else (MemoryLimit, env)
  {
    hide Built, Scoped, Anchored, Enough, Less;
    var v := Built(e, env, last).0;
    var stmts := [Stmt(VarP(x), e)] + rest;
    assert stmts[0] == Stmt(VarP(x), e) && stmts[1..] == rest;
    assert Accepts(VarP(x), v, false) == Some([(x, v)]);
    assert Extend(env, [(x, v)]) == env[x := v];
  }

  /** `[x | y] = z`, where z holds a list that is not empty. */
  lemma Destructure(x: string, y: string, z: string, rest: seq<Stmt>, env: map<string, Value>, last: Option<Value>,
                    n: nat, space: Space)
    requires z in env && env[z].ConsV?
    requires Sane(rest, env[x := env[z].head][y := env[z].tail], last, n)
    ensures var stmts := [Stmt(ConsP(VarP(x), VarP(y)), VarE(z))] + rest;
            && Sane(stmts, env, last, n)
            && Meaning(stmts, env, last, n, space)
               == Meaning(rest, env[x := env[z].head][y := env[z].tail], last, n, space)
  {
    var p, v := ConsP(VarP(x), VarP(y)), env[z];
    var stmts := [Stmt(p, VarE(z))] + rest;
    assert stmts[0] == Stmt(p, VarE(z)) && stmts[1..] == rest;
    var bs := [(x, v.head), (y, v.tail)];
    assert Accepts(VarP(x), v.head, false) == Some([(x, v.head)]);
    assert Accepts(VarP(y), v.tail, false) == Some([(y, v.tail)]);
    assert [(x, v.head)] + [(y, v.tail)] == bs;
    assert Accepts(p, v, false) == Some(bs);
    assert bs[..1] == [(x, v.head)] && bs[..1][..0] == [];
    assert Extend(env, bs[..1]) == env[x := v.head];
    assert Extend(env, bs) == env[x := v.head][y := v.tail];
    assert Less(space, VarE(z)) == space;
  }

  /** `p = e` */
  lemma Unfold(p: Pattern, e: Expr, rest: seq<Stmt>, env: map<string, Value>, last: Option<Value>,
               n: nat, space: Space)
    requires Scoped(e, env.Keys) && Anchored(e, n) && Fits(p, Built(e, env, last).0, false)
    requires var (v, last') := Built(e, env, last);
             match Accepts(p, v, false)
             case None => true
             case Some(bs) => Sane(rest, Extend(env, bs), last', n + Cells(e))
    ensures var stmts := [Stmt(p, e)] + rest;
            var (v, last') := Built(e, env, last);
            && Sane(stmts, env, last, n)
            && Meaning(stmts, env, last, n, space)
               == if !Enough(e, space) then (MemoryLimit, env)
                  else match Accepts(p, v, false)
                       case None => (MatchError, env)
                       case Some(bs) => Meaning(rest, Extend(env, bs), last', n + Cells(e), Less(space, e))
  {
    hide Accepts, Fits, Built, Scoped, Anchored, Enough, Less, Extend;
    var stmts := [Stmt(p, e)] + rest;
    assert stmts[0] == Stmt(p, e) && stmts[1..] == rest;
  }

  // ----- IntegerStringPatternMatching -----

  /** The matches left once constants have been propagated: 1 = 1, "foo" = "foo" and
      "bar" = "foo". */
  const INTEGER_STRING: seq<Stmt> :=
    [Stmt(IntP(1), IntE(1))] +
    ([Stmt(StrP("foo"), StrE("foo"))] +
     ([Stmt(StrP("bar"), StrE("foo"))] + []))

  /** The last match fails, as the program says it should, if the pool has room for both
      strings. */
  lemma IntegerStringRuns(space: Space)
    ensures Sane(INTEGER_STRING, map[], None, 0)
    ensures Meaning(INTEGER_STRING, map[], None, 0, space).0 == if space.chars > 8 then MatchError else MemoryLimit
  {
    hide Sane, Meaning;
    var env: map<string, Value> := map[];
    var foo := StrE("foo");
    var s := if Enough(foo, space) then Less(space, foo) else space;
    assert "foo"[0] != "bar"[0];
    Unfold(StrP("bar"), foo, [], env, None, 0, s);
    assert [Stmt(StrP("bar"), foo)] + [] == INTEGER_STRING[2..];
    Unfold(StrP("foo"), foo, INTEGER_STRING[2..], env, None, 0, space);
    assert [Stmt(StrP("foo"), foo)] + INTEGER_STRING[2..] == INTEGER_STRING[1..];
    Unfold(IntP(1), IntE(1), INTEGER_STRING[1..], env, None, 0, space);
    assert [Stmt(IntP(1), IntE(1))] + INTEGER_STRING[1..] == INTEGER_STRING;
  }

  // ----- LinkedList -----

  const ONE_NIL := ConsE(IntE(1), ConsE(AtomE(AtomNil), NilE))
  const LINKED_LIST: seq<Stmt> :=
    [Stmt(VarP("t"), ONE_NIL)] +
    ([Stmt(VarP("t"), ConsE(IntE(2), VarE("t")))] +
     ([Stmt(VarP("t"), ConsE(IntE(3), VarE("t")))] +
      ([Stmt(ConsP(VarP("_three"), VarP("a")), VarE("t"))] +
       ([Stmt(ConsP(VarP("two"), VarP("_a")), VarE("a"))] + []))))

  lemma OneNil(env: map<string, Value>, last: Option<Value>)
    ensures var v := ConsV(IntV(1), ConsV(AtomV(AtomNil), NilV));
            Scoped(ONE_NIL, env.Keys) && Anchored(ONE_NIL, 0) && Built(ONE_NIL, env, last) == (v, Some(v))
            && Cells(ONE_NIL) == 5 && Slots(ONE_NIL) == 4 && Chars(ONE_NIL) == 0
  {
    var inner, v1 := ConsE(AtomE(AtomNil), NilE), ConsV(AtomV(AtomNil), NilV);
    assert Scoped(AtomE(AtomNil), env.Keys) && Scoped(inner, env.Keys);
    assert Built(inner, env, last) == (v1, Some(v1));
    assert Cells(inner) == 3 && Slots(inner) == 2 && Chars(inner) == 0 && Anchored(inner, 0);
  }

  /** One more element onto the list pushed last. */
  lemma PushOnto(i: int, x: string, env: map<string, Value>, n: nat)
    requires x in env && 0 <= i < 10 && n > 0
    ensures var e, v := ConsE(IntE(i), VarE(x)), ConsV(IntV(i), env[x]);
            && Scoped(e, env.Keys) && Anchored(e, n) && Built(e, env, Some(env[x])) == (v, Some(v)) && Eval(e, env) == v
            && Cells(e) == 2 && Slots(e) == 2 && Chars(e) == 0
  {
    assert Scoped(IntE(i), env.Keys) && Scoped(VarE(x), env.Keys);
  }

  /** The program binds `two` to 2 with 9 cells and 8 slots, and stops short with fewer. */
  lemma LinkedListRuns(space: Space)
    ensures Sane(LINKED_LIST, map[], None, 0)
    ensures var (ending, env) := Meaning(LINKED_LIST, map[], None, 0, space);
            if space.cells >= 9 && space.slots >= 8 then ending == Finished && "two" in env && env["two"] == IntV(2)
            else ending == MemoryLimit
  {
    hide Built, Scoped, Anchored, Cells, Slots, Chars, Sane, Meaning, Accepts;
    var t1 := ConsV(IntV(1), ConsV(AtomV(AtomNil), NilV));
    var t2 := ConsV(IntV(2), t1);
    var t3 := ConsV(IntV(3), t2);
    var env0: map<string, Value> := map[];
    var env1 := env0["t" := t1];
    var env2 := env1["t" := t2];
    var env3 := env2["t" := t3];
    var env4 := env3["_three" := IntV(3)]["a" := t2];
    var e2, e3 := ConsE(IntE(2), VarE("t")), ConsE(IntE(3), VarE("t"));
    OneNil(env0, None);
    PushOnto(2, "t", env1, 5);
    PushOnto(3, "t", env2, 7);
    var s1 := if Enough(ONE_NIL, space) then Less(space, ONE_NIL) else space;
    var s2 := if Enough(e2, s1) then Less(s1, e2) else s1;
    var s3 := if Enough(e3, s2) then Less(s2, e3) else s2;
    LastTwo(env3, t3, s3);
    assert LINKED_LIST[3..] == [Stmt(ConsP(VarP("_three"), VarP("a")), VarE("t"))] +
                               ([Stmt(ConsP(VarP("two"), VarP("_a")), VarE("a"))] + []);
    Assign("t", e3, LINKED_LIST[3..], env2, Some(t2), 7, s2);
    assert [Stmt(VarP("t"), e3)] + LINKED_LIST[3..] == LINKED_LIST[2..];
    Assign("t", e2, LINKED_LIST[2..], env1, Some(t1), 5, s1);
    assert [Stmt(VarP("t"), e2)] + LINKED_LIST[2..] == LINKED_LIST[1..];
    Assign("t", ONE_NIL, LINKED_LIST[1..], env0, None, 0, space);
    assert [Stmt(VarP("t"), ONE_NIL)] + LINKED_LIST[1..] == LINKED_LIST;
  }

  lemma LastTwo(env: map<string, Value>, t: Value, space: Space)
    requires "t" in env && env["t"] == t && t.ConsV? && t.tail.ConsV?
    ensures var stmts := [Stmt(ConsP(VarP("_three"), VarP("a")), VarE("t"))] +
                         ([Stmt(ConsP(VarP("two"), VarP("_a")), VarE("a"))] + []);
            && Sane(stmts, env, Some(t), 9)
            && var (ending, env') := Meaning(stmts, env, Some(t), 9, space);
            ending == Finished && "two" in env' && env'["two"] == t.tail.head
  {
    var env4 := env["_three" := t.head]["a" := t.tail];
    assert env4["a"] == t.tail;
    Destructure("two", "_a", "a", [], env4, Some(t), 9, space);
    Destructure("_three", "a", "t", [Stmt(ConsP(VarP("two"), VarP("_a")), VarE("a"))] + [], env, Some(t), 9, space);
  }

  // ----- a tuple taken for a list -----

  const TWO_NIL := TupleE([IntE(2), NilE])
  const PAIR := TupleE([IntE(0), TWO_NIL])

  /** {_, t} = {0, {2, []}}, [a, b] = [1 | t] */
  const TUPLE_TAIL: seq<Stmt> :=
    [Stmt(TupleP([Wild, VarP("t")]), PAIR)] +
    ([Stmt(ListP([VarP("a"), VarP("b")]), ConsE(IntE(1), VarE("t")))] + [])

  lemma PairBuilt(env: map<string, Value>, last: Option<Value>)
    ensures var t := TupleV([IntV(2), NilV]);
            && Scoped(PAIR, env.Keys) && Anchored(PAIR, 0) && Built(PAIR, env, last) == (TupleV([IntV(0), t]), Some(t))
            && Eval(PAIR, env) == TupleV([IntV(0), t]) && Cells(PAIR) == 5 && Slots(PAIR) == 4 && Chars(PAIR) == 0
  {
    TwoElements(IntE(2), NilE, env, last);
    TwoElements(IntE(0), TWO_NIL, env, last);
  }

  lemma TwoElements(a: Expr, b: Expr, env: map<string, Value>, last: Option<Value>)
    requires Scoped(a, env.Keys) && Scoped(b, env.Keys)
    ensures var e := TupleE([a, b]);
            var (v, last1) := Built(a, env, last);
            var w := Built(b, env, last1).0;
            && Scoped(e, env.Keys) && Built(e, env, last) == (TupleV([v, w]), Some(w))
            && Eval(e, env) == TupleV([Eval(a, env), Eval(b, env)])
            && Cells(e) == Cells(a) + Cells(b) + 2 && Slots(e) == Slots(a) + Slots(b) + 2
            && Chars(e) == Chars(a) + Chars(b)
            && (Anchored(a, 0) && Anchored(b, Cells(a)) ==> Anchored(e, 0))
  {
    hide BuiltAll, EvalAll, CellsAll, SlotsAll, CharsAll, AnchoredAll, Built, Eval, Scoped;
    LastElement(b, env, Built(a, env, last).1, Cells(a));
    MoreElements(a, [b], env, last, 0);
    TwoOfTuple(a, b, env, last);
  }

  /** The tuple, from its elements. */
  lemma TwoOfTuple(a: Expr, b: Expr, env: map<string, Value>, last: Option<Value>)
    requires Scoped(a, env.Keys) && Scoped(b, env.Keys)
    ensures var es := [a, b];
            && es == [a] + [b] && Scoped(TupleE(es), env.Keys)
            && Eval(TupleE(es), env) == TupleV(EvalAll(es, env))
            && var (vs, last') := BuiltAll(es, env, last);
            Built(TupleE(es), env, last) == (TupleV(vs), Some(vs[1]))
    ensures forall v: Value, w: Value :: [v] + [w] == [v, w]
  {
  }

  lemma LastElement(b: Expr, env: map<string, Value>, last: Option<Value>, n: nat)
    requires Scoped(b, env.Keys)
    ensures var (w, last') := Built(b, env, last); BuiltAll([b], env, last) == ([w], last')
    ensures EvalAll([b], env) == [Eval(b, env)]
    ensures CellsAll([b]) == Cells(b) && SlotsAll([b]) == Slots(b) && CharsAll([b]) == Chars(b)
    ensures AnchoredAll([b], n) <==> Anchored(b, n)
  {
    MoreElements(b, [], env, last, n);
    assert [b] + [] == [b];
    var w := Built(b, env, last).0;
    assert [w] + [] == [w];
  }

  lemma MoreElements(a: Expr, es: seq<Expr>, env: map<string, Value>, last: Option<Value>, n: nat)
    requires Scoped(a, env.Keys) && forall e :: e in es ==> Scoped(e, env.Keys)
    ensures forall e :: e in [a] + es ==> Scoped(e, env.Keys)
    ensures var (v, last1) := Built(a, env, last);
            var (vs, last2) := BuiltAll(es, env, last1);
            BuiltAll([a] + es, env, last) == ([v] + vs, last2)
    ensures EvalAll([a] + es, env) == [Eval(a, env)] + EvalAll(es, env)
    ensures CellsAll([a] + es) == Cells(a) + CellsAll(es) && SlotsAll([a] + es) == Slots(a) + SlotsAll(es)
    ensures CharsAll([a] + es) == Chars(a) + CharsAll(es)
    ensures AnchoredAll([a] + es, n) <==> Anchored(a, n) && AnchoredAll(es, n + Cells(a))
  {
    hide Built, Eval, Cells, Slots, Chars, Anchored, Scoped;
    assert ([a] + es)[1..] == es;
  }

  /** The first statement's pattern, which Elixir matches alike. */
  lemma SecondOfPair(v: Value, w: Value)
    ensures var p, pair := TupleP([Wild, VarP("t")]), TupleV([v, w]);
            Match(p, pair) == Some([("t", w)]) == Accepts(p, pair, false) && Fits(p, pair, false)
  {
    var ps, vs := [Wild, VarP("t")], [v, w];
    assert ps[1..] == [VarP("t")] && vs[1..] == [w] && [VarP("t")][1..] == [] && [w][1..] == [];
    assert MatchAll([VarP("t")], [w]) == Join(Some([("t", w)]), Some([]));
    assert AcceptsAll([VarP("t")], [w]) == Join(Some([("t", w)]), Some([]));
    assert [("t", w)] + [] == [("t", w)] && [] + [("t", w)] == [("t", w)];
    assert MatchAll(ps, vs) == Join(Some([]), MatchAll([VarP("t")], [w]));
    assert AcceptsAll(ps, vs) == Join(Some([]), AcceptsAll([VarP("t")], [w]));
  }

  /** The emitted code binds a to 1 and b to 2; Elixir raises a match error. */
  lemma TupleTailRuns(space: Space)
    requires space.cells >= 7 && space.slots >= 6
    ensures Sane(TUPLE_TAIL, map[], None, 0) && ScopedRun(TUPLE_TAIL, map[])
    ensures var (ending, env) := Meaning(TUPLE_TAIL, map[], None, 0, space);
            ending == Finished && "a" in env && env["a"] == IntV(1) && "b" in env && env["b"] == IntV(2)
    ensures Elixir(TUPLE_TAIL, map[]).0 == MatchError
  {
    hide Built, Scoped, Anchored, Cells, Slots, Chars, Accepts, Match, Fits, Eval, Sane, Meaning;
    var env0: map<string, Value> := map[];
    var t := TupleV([IntV(2), NilV]);
    var env1 := env0["t" := t];
    var p1, p2, e2 := TupleP([Wild, VarP("t")]), ListP([VarP("a"), VarP("b")]), ConsE(IntE(1), VarE("t"));
    PairBuilt(env0, None);
    PushOnto(1, "t", env1, 5);
    SecondOfPair(IntV(0), t);
    TupleTail("a", "b", IntV(1), IntV(2));
    var bs1, bs2 := [("t", t)], [("a", IntV(1)), ("b", IntV(2))];
    assert bs1[..0] == [] && Extend(env0, bs1) == env1;
    assert bs2[..1] == [("a", IntV(1))] && bs2[..1][..0] == [];
    assert Extend(env1, bs2[..1]) == env1["a" := IntV(1)];
    assert Extend(env1, bs2) == env1["a" := IntV(1)]["b" := IntV(2)];
    EmptyRun(Extend(env1, bs2), Some(ConsV(IntV(1), t)), 7, Less(Less(space, PAIR), e2));
    Unfold(p2, e2, [], env1, Some(t), 5, Less(space, PAIR));
    Unfold(p1, PAIR, [Stmt(p2, e2)] + [], env0, None, 0, space);
    ElixirStops(p1, PAIR, p2, e2, env0, env1, bs1);
  }

  lemma EmptyRun(env: map<string, Value>, last: Option<Value>, n: nat, space: Space)
    ensures Sane([], env, last, n) && Meaning([], env, last, n, space) == (Finished, env)
  {
  }

  lemma ElixirStops(p1: Pattern, e1: Expr, p2: Pattern, e2: Expr, env: map<string, Value>, env1: map<string, Value>,
                    bs: Bindings<Value>)
    requires Scoped(e1, env.Keys) && Match(p1, Eval(e1, env)) == Some(bs) && Extend(env, bs) == env1
    requires Scoped(e2, env1.Keys) && Match(p2, Eval(e2, env1)) == None
    ensures var stmts := [Stmt(p1, e1)] + ([Stmt(p2, e2)] + []);
            ScopedRun(stmts, env) && Elixir(stmts, env).0 == MatchError
  {
    hide Scoped, Match, Eval, Extend;
    var stmts := [Stmt(p1, e1)] + ([Stmt(p2, e2)] + []);
    assert stmts[0] == Stmt(p1, e1) && stmts[1..] == [Stmt(p2, e2)];
  }
}
