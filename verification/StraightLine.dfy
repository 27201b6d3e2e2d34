/** Sequences of matches `pattern = expression`, as the bodies of the generated programs:
    each builds a value, matches it, and binds variables for the ones after it. */
module StraightLine {
  import opened BuiltAsWritten
  import opened Constructors
  import opened ElixirMatching
  import opened HeapRuntime
  import opened HeapStore
  import opened Matching
  import opened Options

  datatype Stmt = Stmt(pattern: Pattern, rhs: Expr)

  datatype Ending = Finished | MatchError | MemoryLimit

  /** Unused cells, slots and characters. */
  datatype Space = Space(cells: nat, slots: nat, chars: nat)

  ghost predicate Enough(e: Expr, space: Space) {
    Cells(e) <= space.cells && Slots(e) <= space.slots && (Chars(e) == 0 || Chars(e) < space.chars)
  }

  ghost function Less(space: Space, e: Expr): Space
    requires Enough(e, space)
  {
    Space(space.cells - Cells(e), space.slots - Slots(e), space.chars - Chars(e))
  }

  function Extend<T>(env: map<string, T>, bindings: Bindings<T>): map<string, T> {
    if bindings == [] then env
    else
      var (x, v) := bindings[|bindings| - 1];
      Extend(env, bindings[..|bindings| - 1])[x := v]
  }

  /** A name that is not bound keeps its value ... */
  lemma {:induction false} ExtendKeeps<T>(env: map<string, T>, bindings: Bindings<T>, x: string)
    requires forall k :: 0 <= k < |bindings| ==> bindings[k].0 != x
    ensures x in Extend(env, bindings) <==> x in env
    ensures x in env ==> Extend(env, bindings)[x] == env[x]
  {
    if bindings != [] {
      ExtendKeeps(env, bindings[..|bindings| - 1], x);
    }
  }

  /** ... and a name that is bound has the value of its last binding. */
  lemma {:induction false} ExtendBinds<T>(env: map<string, T>, bindings: Bindings<T>, k: nat)
    requires k < |bindings| && forall l :: k < l < |bindings| ==> bindings[l].0 != bindings[k].0
    ensures bindings[k].0 in Extend(env, bindings) && Extend(env, bindings)[bindings[k].0] == bindings[k].1
  {
    if k < |bindings| - 1 {
      var init := bindings[..|bindings| - 1];
      assert forall l :: 0 <= l < |init| ==> init[l] == bindings[l];
      ExtendBinds(env, init, k);
    }
  }

  lemma {:induction false} ExtendOk(st: Store, genv: map<string, Generic>, env: map<string, Value>,
                                    cells: Bindings<Generic>, values: Bindings<Value>)
    requires EnvOk(st, genv, env) && Binds(st, Some(cells), Some(values))
    ensures EnvOk(st, Extend(genv, cells), Extend(env, values))
  {
    if cells != [] {
      ExtendOk(st, genv, env, cells[..|cells| - 1], values[..|values| - 1]);
    }
  }

  // ----- one match -----

  ghost function Free(rt: Runtime): Space
    requires rt.Valid()
    reads rt
  {
    Space(rt.heap.Length - rt.heapIndex,
          rt.tuplePool.Length - rt.tuplePoolIndex,
          rt.stringPool.Length - rt.stringPoolIndex)
  }

  /** Build a value.  It succeeds exactly when there is space, leaves all earlier values
      alone, and gives the value written exactly when the expression is right. */
  method BuildValue(rt: Runtime, e: Expr, genv: map<string, Generic>,
                    ghost env: map<string, Value>, ghost last: Option<Value>)
    returns (g: Option<Generic>)
    requires rt.Valid() && EnvOk(rt.View(), genv, env) && Scoped(e, env.Keys) && LastIs(rt.View(), last)
    requires Anchored(e, rt.heapIndex)
    modifies rt, rt.heap, rt.tuplePool, rt.stringPool
    ensures rt.Valid()
    ensures g.Some? <==> Enough(e, old(Free(rt)))
    ensures g.Some? ==>
              var (v, last') := Built(e, env, last);
              && Grows(old(rt.View()), rt.View()) && EnvOk(rt.View(), genv, env)
              && Free(rt) == Less(old(Free(rt)), e) && rt.heapIndex == old(rt.heapIndex) + Cells(e)
              && Acyclic(rt.View()) && LastIs(rt.View(), last')
              && Live(rt.View(), g.value) && ValueOf(rt.View(), g.value) == v
              && (v == Eval(e, env) <==> Right(e, env, last))
  {
    hide Built, Right, Emit, ValueOf, Live, LastIs, Acyclic, EnvOk, Grows, Scoped, Anchored, Eval, Cells, Slots, Chars;
    ghost var st := rt.View();
    EnvAcyclic(st, genv, env);
    g := rt.Build(e, genv);
    if g.Some? {
      BuiltInRuntime(rt, e, g.value, genv, env, st, last);
      RightExact(e, env, last);
    }
  }

  /** Build a value and match it (`checked` for a clause of a `case`, not for `=`).  The
      match is Elixir's match of the value built exactly when what is accepted agrees, and
      while its reads stay inside the value it binds what the emitted code's meaning says. */
  method BuildAndMatch(rt: Runtime, e: Expr, p: Pattern, checked: bool, genv: map<string, Generic>,
                       ghost env: map<string, Value>, ghost last: Option<Value>)
    returns (g: Option<Generic>, bindings: Option<Bindings<Generic>>)
    requires rt.Valid() && EnvOk(rt.View(), genv, env) && Scoped(e, env.Keys) && LastIs(rt.View(), last)
    requires Anchored(e, rt.heapIndex)
    modifies rt, rt.heap, rt.tuplePool, rt.stringPool
    ensures rt.Valid()
    ensures g.Some? <==> Enough(e, old(Free(rt)))
    ensures g.Some? ==>
              var (v, last') := Built(e, env, last);
              && Grows(old(rt.View()), rt.View()) && EnvOk(rt.View(), genv, env)
              && Free(rt) == Less(old(Free(rt)), e) && rt.heapIndex == old(rt.heapIndex) + Cells(e)
              && Acyclic(rt.View()) && LastIs(rt.View(), last')
              && Live(rt.View(), g.value) && ValueOf(rt.View(), g.value) == v
              && (v == Eval(e, env) <==> Right(e, env, last))
              && (Binds(rt.View(), bindings, Match(p, v)) <==> (bindings.Some? ==> Agrees(p, v, checked)))
              && (Fits(p, v, checked) ==> Binds(rt.View(), bindings, Accepts(p, v, checked)))
  {
    hide *;
    bindings := None;
    g := BuildValue(rt, e, genv, env, last);
    if g.Some? {
      MatchedInRuntime(rt, e, p, checked, g.value, env, last);
      bindings := Run(rt, p, g.value, checked);
    }
  }

  lemma MatchedInRuntime(rt: Runtime, e: Expr, p: Pattern, checked: bool, g: Generic,
                         env: map<string, Value>, last: Option<Value>)
    requires rt.Valid() && Scoped(e, env.Keys) && Acyclic(rt.View()) && Live(rt.View(), g)
    requires ValueOf(rt.View(), g) == Built(e, env, last).0
    ensures var (v, bindings) := (Built(e, env, last).0, Run(rt, p, g, checked));
            && (Binds(rt.View(), bindings, Match(p, v)) <==> (bindings.Some? ==> Agrees(p, v, checked)))
            && (Fits(p, v, checked) ==> Binds(rt.View(), bindings, Accepts(p, v, checked)))
  {
    hide Built, Accepts, Agrees, Match, Fits, Run, ValueOf, Live, Acyclic, Binds, Scoped;
    RunExact(rt, p, g, checked);
    if Fits(p, Built(e, env, last).0, checked) {
      RunAccepts(rt, p, g, checked);
    }
  }

  lemma BuiltInRuntime(rt: Runtime, e: Expr, g: Generic, genv: map<string, Generic>, env: map<string, Value>,
                       st: Store, last: Option<Value>)
    requires rt.Valid() && EnvOk(st, genv, env) && Scoped(e, env.Keys) && LastIs(st, last) && Anchored(e, |st.cells|)
    requires (rt.View(), g) == Emit(e, genv, st)
    ensures Acyclic(st) && Grows(st, rt.View()) && Acyclic(rt.View()) && LastIs(rt.View(), Built(e, env, last).1)
    ensures Live(rt.View(), g) && ValueOf(rt.View(), g) == Built(e, env, last).0
    ensures EnvOk(rt.View(), genv, env)
    ensures rt.heapIndex == |st.cells| + Cells(e)
    ensures rt.tuplePoolIndex == |st.pool| + Slots(e) && rt.stringPoolIndex == |st.chars| + Chars(e)
  {
    hide Built, Emit, EnvOk, Scoped, Anchored;
    EnvAcyclic(st, genv, env);
    EmitBuilds(e, genv, env, st, last);
    EmitSizes(e, genv, st);
    EnvGrows(st, rt.View(), genv, env);
  }

  // ----- a sequence of matches -----

  /** What compiles and stays within the values: variables are bound before use, and every
      statement reached meets the terms of BuildAndMatch, with `n` cells before it. */
  ghost predicate Sane(stmts: seq<Stmt>, env: map<string, Value>, last: Option<Value>, n: nat) {
    stmts == [] ||
    var Stmt(p, e) := stmts[0];
    && Scoped(e, env.Keys) && Anchored(e, n)
    && var (v, last') := Built(e, env, last);
    && Fits(p, v, false)
    && var bindings := Accepts(p, v, false);
    bindings.Some? ==> Sane(stmts[1..], Extend(env, bindings.value), last', n + Cells(e))
  }

  /** How the sequence ends, and the variables then. */
  ghost function Meaning(stmts: seq<Stmt>, env: map<string, Value>, last: Option<Value>, n: nat, space: Space)
    : (Ending, map<string, Value>)
    requires Sane(stmts, env, last, n)
  {
    if stmts == [] then (Finished, env)
    else
      var Stmt(p, e) := stmts[0];
      if !Enough(e, space) then (MemoryLimit, env)
      else
        var (v, last') := Built(e, env, last);
        match Accepts(p, v, false)
        case None => (MatchError, env)
        case Some(bs) => Meaning(stmts[1..], Extend(env, bs), last', n + Cells(e), Less(space, e))
  }

  method RunAll(rt: Runtime, stmts: seq<Stmt>, genv: map<string, Generic>,
                ghost env: map<string, Value>, ghost last: Option<Value>)
    returns (ending: Ending, genv': map<string, Generic>, ghost env': map<string, Value>)
    requires rt.Valid() && EnvOk(rt.View(), genv, env) && LastIs(rt.View(), last)
    requires Sane(stmts, env, last, rt.heapIndex)
    modifies rt, rt.heap, rt.tuplePool, rt.stringPool
    ensures rt.Valid()
    ensures (ending, env') == Meaning(stmts, env, last, old(rt.heapIndex), old(Free(rt)))
    ensures ending != MemoryLimit ==> EnvOk(rt.View(), genv', env')
  {
    hide Built, Scoped, Anchored, Fits, Accepts, Agrees, Right, Match, Eval, Enough, Less, EnvOk, LastIs, Live, ValueOf;
    genv', env' := genv, env;
    EnvAcyclic(rt.View(), genv, env);
    ghost var before := last;
    for i := 0 to |stmts|
      invariant rt.Valid() && EnvOk(rt.View(), genv', env') && Acyclic(rt.View())
      invariant LastIs(rt.View(), before)
      invariant Sane(stmts[i..], env', before, rt.heapIndex)
      invariant Meaning(stmts, env, last, old(rt.heapIndex), old(Free(rt)))
             == Meaning(stmts[i..], env', before, rt.heapIndex, Free(rt))
    {
      var Stmt(p, e) := stmts[i];
      assert stmts[i..][0] == stmts[i] && stmts[i..][1..] == stmts[i + 1..];
      var g, bindings := BuildAndMatch(rt, e, p, false, genv', env', before);
      if g.None? {
        return MemoryLimit, genv', env';
      }
      if bindings.None? {
        return MatchError, genv', env';
      }
      ghost var values := Accepts(p, Built(e, env', before).0, false).value;
      ExtendOk(rt.View(), genv', env', bindings.value, values);
      before := Built(e, env', before).1;
      genv', env' := Extend(genv', bindings.value), Extend(env', values);
    }
    ending := Finished;
  }

  // ----- against Elixir -----

  ghost predicate ScopedRun(stmts: seq<Stmt>, env: map<string, Value>) {
    stmts == [] ||
    var Stmt(p, e) := stmts[0];
    && Scoped(e, env.Keys)
    && (Match(p, Eval(e, env)).Some? ==> ScopedRun(stmts[1..], Extend(env, Match(p, Eval(e, env)).value)))
  }

  /** Elixir's meaning of the sequence. */
  ghost function Elixir(stmts: seq<Stmt>, env: map<string, Value>): (Ending, map<string, Value>)
    requires ScopedRun(stmts, env)
  {
    if stmts == [] then (Finished, env)
    else
      var Stmt(p, e) := stmts[0];
      match Match(p, Eval(e, env))
      case None => (MatchError, env)
      case Some(bs) => Elixir(stmts[1..], Extend(env, bs))
  }

  /** Every value reached is built as written, and what is accepted agrees. */
  ghost predicate Exact(stmts: seq<Stmt>, env: map<string, Value>, last: Option<Value>) {
    stmts == [] ||
    var Stmt(p, e) := stmts[0];
    && Scoped(e, env.Keys) && Right(e, env, last)
    && var bindings := Accepts(p, Eval(e, env), false);
    bindings.Some? ==>
      Agrees(p, Eval(e, env), false) && Exact(stmts[1..], Extend(env, bindings.value), Pushed(e, env, last))
  }

  /** Then the sequence runs as in Elixir, unless the memory is used up. */
  lemma {:induction false} RunsAsElixir(stmts: seq<Stmt>, env: map<string, Value>, last: Option<Value>, n: nat,
      space: Space)
    requires Sane(stmts, env, last, n) && Exact(stmts, env, last)
    ensures ScopedRun(stmts, env)
    ensures var meaning := Meaning(stmts, env, last, n, space);
            meaning.0 == MemoryLimit || meaning == Elixir(stmts, env)
    decreases |stmts|
  {
    if stmts != [] {
      hide Right, Agrees, Accepts, Match, Built, Eval, Fits, Scoped, Anchored, Pushed;
      var Stmt(p, e) := stmts[0];
      var v := Eval(e, env);
      RightExact(e, env, last);
      ExactMatch(p, v, false);
      if Accepts(p, v, false).Some? {
        var env', last' := Extend(env, Accepts(p, v, false).value), Pushed(e, env, last);
        RunsAsElixir(stmts[1..], env', last', n + Cells(e), if Enough(e, space) then Less(space, e) else space);
      }
    }
  }

  /** The code extends the variables as Elixir does, or both refuse. */
  ghost predicate StepAsElixir(p: Pattern, e: Expr, env: map<string, Value>, last: Option<Value>)
    requires Scoped(e, env.Keys)
  {
    var a, b := Accepts(p, Built(e, env, last).0, false), Match(p, Eval(e, env));
    (a.Some? <==> b.Some?) && (a.Some? ==> Extend(env, a.value) == Extend(env, b.value))
  }

  /** ... at every statement that the code reaches. */
  ghost predicate StepsAsElixir(stmts: seq<Stmt>, env: map<string, Value>, last: Option<Value>) {
    stmts == [] ||
    var Stmt(p, e) := stmts[0];
    && Scoped(e, env.Keys) && StepAsElixir(p, e, env, last)
    && var (v, last') := Built(e, env, last);
    var bindings := Accepts(p, v, false);
    bindings.Some? ==> StepsAsElixir(stmts[1..], Extend(env, bindings.value), last')
  }

  ghost predicate PrefixAsElixir(stmts: seq<Stmt>, k: nat, env: map<string, Value>, last: Option<Value>,
                                 n: nat, space: Space)
    requires k <= |stmts|
  {
    && Sane(stmts[..k], env, last, n) && ScopedRun(stmts[..k], env)
    && Meaning(stmts[..k], env, last, n, space) == Elixir(stmts[..k], env)
  }

  /** How the first `k` statements run, in terms of the first one and the rest. */
  lemma FirstStep(stmts: seq<Stmt>, k: nat, env: map<string, Value>, last: Option<Value>, n: nat, space: Space)
    requires 1 <= k <= |stmts| && Sane(stmts, env, last, n) && Enough(stmts[0].rhs, space)
    ensures var Stmt(p, e) := stmts[0];
            var (v, last') := Built(e, env, last);
            var bindings := Accepts(p, v, false);
            if !StepAsElixir(p, e, env, last) then k == 1 ==> !PrefixAsElixir(stmts, k, env, last, n, space)
            else if bindings.None? then PrefixAsElixir(stmts, k, env, last, n, space)
            else
              PrefixAsElixir(stmts, k, env, last, n, space) <==>
              PrefixAsElixir(stmts[1..], k - 1, Extend(env, bindings.value), last', n + Cells(e), Less(space, e))
  {
    hide Built, Scoped, Anchored, Fits, Accepts, Match, Eval, Enough, Less, Extend;
    var upto := stmts[..k];
    assert upto[0] == stmts[0] && upto[1..] == stmts[1..][..k - 1];
    if k == 1 {
      assert upto[1..] == [];
      var Stmt(p, e) := upto[0];
      var (v, last') := Built(e, env, last);
      var a, b := Accepts(p, v, false), Match(p, Eval(e, env));
      assert Meaning(upto, env, last, n, space)
          == if a.None? then (MatchError, env) else (Finished, Extend(env, a.value));
      assert ScopedRun(upto, env);
      assert Elixir(upto, env) == if b.None? then (MatchError, env) else (Finished, Extend(env, b.value));
    }
  }

  /** Exactly when every prefix of a sequence that does not run out of memory ends as in
      Elixir, with the same variables. */
  lemma {:induction false} EveryStepAsElixir(stmts: seq<Stmt>, env: map<string, Value>, last: Option<Value>,
                                             n: nat, space: Space)
    requires Sane(stmts, env, last, n) && Meaning(stmts, env, last, n, space).0 != MemoryLimit
    ensures (forall k: nat :: k <= |stmts| ==> PrefixAsElixir(stmts, k, env, last, n, space))
            <==> StepsAsElixir(stmts, env, last)
    decreases |stmts|
  {
    assert stmts[..0] == [];
    if stmts != [] {
      hide Built, Scoped, Anchored, Fits, Accepts, Match, Eval, Enough, Less, Extend, StepAsElixir, PrefixAsElixir;
      var Stmt(p, e) := stmts[0];
      var (v, last') := Built(e, env, last);
      var bindings := Accepts(p, v, false);
      EmptyPrefix(stmts, env, last, n, space);
      forall k: nat | 1 <= k <= |stmts| {
        FirstStep(stmts, k, env, last, n, space);
      }
      FirstStep(stmts, 1, env, last, n, space);
      if bindings.Some? {
        var env', n', space' := Extend(env, bindings.value), n + Cells(e), Less(space, e);
        EveryStepAsElixir(stmts[1..], env', last', n', space');
        if StepAsElixir(p, e, env, last) {
          forall k: nat | k < |stmts|
            ensures PrefixAsElixir(stmts[1..], k, env', last', n', space')
               <==> PrefixAsElixir(stmts, k + 1, env, last, n, space)
          {
            FirstStep(stmts, k + 1, env, last, n, space);
          }
        }
      }
    }
  }

  lemma EmptyPrefix(stmts: seq<Stmt>, env: map<string, Value>, last: Option<Value>, n: nat, space: Space)
    ensures PrefixAsElixir(stmts, 0, env, last, n, space)
  {
    assert stmts[..0] == [];
  }
}
