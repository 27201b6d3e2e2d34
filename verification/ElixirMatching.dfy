/** Where the match that the emitted code performs is Elixir's. */
module ElixirMatching {
  import opened Constructors
  import opened FixedWidth
  import opened HeapRuntime
  import opened HeapStore
  import opened Matching
  import opened Options

  /** The emitted code never refuses what Elixir matches, and binds the same then. */
  lemma {:induction false} MatchAccepted(p: Pattern, v: Value, checked: bool)
    requires Match(p, v).Some?
    ensures Accepts(p, v, checked) == Match(p, v)
    decreases p, 0
  {
    match p
    case TupleP(ps) => MatchAllAccepted(ps, v.elems);
    case ListP(ps) => MatchListAccepted(ps, v);
    case ConsP(h, t) =>
      MatchAccepted(h, v.head, false);
      MatchAccepted(t, v.tail, false);
    case _ =>
  }

  lemma {:induction false} MatchAllAccepted(ps: seq<Pattern>, vs: seq<Value>)
    requires |ps| == |vs| && MatchAll(ps, vs).Some?
    ensures AcceptsAll(ps, vs) == MatchAll(ps, vs)
    decreases ps, 1
  {
    if ps != [] {
      MatchAccepted(ps[0], vs[0], true);
      MatchAllAccepted(ps[1..], vs[1..]);
    }
  }

  lemma {:induction false} MatchListAccepted(ps: seq<Pattern>, v: Value)
    requires MatchList(ps, v).Some?
    ensures AcceptsList(ps, v) == MatchList(ps, v)
    decreases ps, 1
  {
    if ps != [] {
      MatchAccepted(ps[0], v.head, false);
      MatchListAccepted(ps[1..], v.tail);
    }
  }

  /** ... and what Elixir matches is read inside the value. */
  lemma {:induction false} MatchFits(p: Pattern, v: Value, checked: bool)
    requires Match(p, v).Some?
    ensures Fits(p, v, checked)
    decreases p, 0
  {
    match p
    case TupleP(ps) => MatchAllFits(ps, v.elems);
    case ListP(ps) => MatchListFits(ps, v);
    case ConsP(h, t) =>
      MatchFits(h, v.head, false);
      MatchFits(t, v.tail, false);
    case _ =>
  }

  lemma {:induction false} MatchAllFits(ps: seq<Pattern>, vs: seq<Value>)
    requires |ps| == |vs| && MatchAll(ps, vs).Some?
    ensures FitsAll(ps, vs)
    decreases ps, 1
  {
    if ps != [] {
      MatchFits(ps[0], vs[0], true);
      MatchAllFits(ps[1..], vs[1..]);
    }
  }

  lemma {:induction false} MatchListFits(ps: seq<Pattern>, v: Value)
    requires MatchList(ps, v).Some?
    ensures FitsList(ps, v)
    decreases ps, 1
  {
    if ps != [] {
      MatchFits(ps[0], v.head, false);
      MatchListFits(ps[1..], v.tail);
    }
  }

  /** So for every value in the heap that Elixir matches, the emitted code does, with the
      same bindings. */
  lemma RunMatches(rt: Runtime, p: Pattern, g: Generic, checked: bool)
    requires rt.Valid() && Acyclic(rt.View()) && Live(rt.View(), g) && Match(p, ValueOf(rt.View(), g)).Some?
    ensures Binds(rt.View(), Run(rt, p, g, checked), Match(p, ValueOf(rt.View(), g)))
  {
    hide Acyclic, Live, ValueOf, Binds, Run, Fits, Match, Accepts;
    var v := ValueOf(rt.View(), g);
    MatchFits(p, v, checked);
    MatchAccepted(p, v, checked);
    RunAccepts(rt, p, g, checked);
  }

  // ----- for one value -----

  /** Tuple patterns meet tuples of their own size, unchecked literals themselves, and list
      patterns a list at every tail they reach. */
  ghost predicate Agrees(p: Pattern, v: Value, checked: bool)
    decreases p, 0
  {
    match p
    case IntP(i) => checked || v == IntV(i)
    case StrP(s) => checked || (v.StrV? && |v.s| == |s|)
    case TupleP(ps) => v.TupleV? ==> |ps| == |v.elems| && AgreesAll(ps, v.elems)
    case ListP(ps) => AgreesList(ps, v)
    case ConsP(h, t) => v.ConsV? ==> Agrees(h, v.head, false) && Agrees(t, v.tail, false)
    case _ => true
  }

  ghost predicate AgreesAll(ps: seq<Pattern>, vs: seq<Value>)
    requires |ps| == |vs|
    decreases ps, 1
  {
    ps == [] || (Agrees(ps[0], vs[0], true) && AgreesAll(ps[1..], vs[1..]))
  }

  ghost predicate AgreesList(ps: seq<Pattern>, v: Value)
    decreases ps, 1
  {
    && IsList(v)
    && (ps == [] || v.NilV? || (Agrees(ps[0], v.head, false) && AgreesList(ps[1..], v.tail)))
  }

  lemma {:induction false} AcceptedAgrees(p: Pattern, v: Value, checked: bool)
    requires Accepts(p, v, checked).Some?
    ensures Agrees(p, v, checked) <==> Match(p, v).Some?
    decreases p, 0
  {
    match p
    case TupleP(ps) => if |ps| == |v.elems| { AcceptedAllAgree(ps, v.elems); }
    case ListP(ps) => AcceptedListAgrees(ps, v);
    case ConsP(h, t) =>
      AcceptedAgrees(h, v.head, false);
      AcceptedAgrees(t, v.tail, false);
    case _ =>
  }

  lemma {:induction false} AcceptedAllAgree(ps: seq<Pattern>, vs: seq<Value>)
    requires |ps| == |vs| && AcceptsAll(ps, vs).Some?
    ensures AgreesAll(ps, vs) <==> MatchAll(ps, vs).Some?
    decreases ps, 1
  {
    if ps != [] {
      AcceptedAgrees(ps[0], vs[0], true);
      AcceptedAllAgree(ps[1..], vs[1..]);
    }
  }

  lemma {:induction false} AcceptedListAgrees(ps: seq<Pattern>, v: Value)
    requires AcceptsList(ps, v).Some?
    ensures AgreesList(ps, v) <==> MatchList(ps, v).Some?
    decreases ps, 1
  {
    if ps != [] && v.ConsV? {
      AcceptedAgrees(ps[0], v.head, false);
      AcceptedListAgrees(ps[1..], v.tail);
    }
  }

  /** Exactly when the emitted match of one value is Elixir's. */
  lemma ExactMatch(p: Pattern, v: Value, checked: bool)
    ensures Accepts(p, v, checked) == Match(p, v) <==> (Accepts(p, v, checked).Some? ==> Agrees(p, v, checked))
  {
    if Match(p, v).Some? {
      MatchAccepted(p, v, checked);
    }
    if Accepts(p, v, checked).Some? {
      AcceptedAgrees(p, v, checked);
    }
  }

  /** Where a value agrees, it is read inside its bounds. */
  lemma {:induction false} AgreesFits(p: Pattern, v: Value, checked: bool)
    requires Agrees(p, v, checked)
    ensures Fits(p, v, checked)
    decreases p, 0
  {
    match p
    case TupleP(ps) => if v.TupleV? { AgreesAllFits(ps, v.elems); }
    case ListP(ps) => AgreesListFits(ps, v);
    case ConsP(h, t) =>
      if v.ConsV? {
        AgreesFits(h, v.head, false);
        AgreesFits(t, v.tail, false);
      }
    case _ =>
  }

  lemma {:induction false} AgreesAllFits(ps: seq<Pattern>, vs: seq<Value>)
    requires |ps| == |vs| && AgreesAll(ps, vs)
    ensures FitsAll(ps, vs)
    decreases ps, 1
  {
    if ps != [] {
      AgreesFits(ps[0], vs[0], true);
      AgreesAllFits(ps[1..], vs[1..]);
    }
  }

  lemma {:induction false} AgreesListFits(ps: seq<Pattern>, v: Value)
    requires AgreesList(ps, v)
    ensures FitsList(ps, v)
    decreases ps, 1
  {
    if ps != [] && v.ConsV? {
      AgreesFits(ps[0], v.head, false);
      AgreesListFits(ps[1..], v.tail);
    }
  }

  /** Exactly when the emitted code matches a value in the heap as Elixir does, wherever its
      reads may lead. */
  lemma RunExact(rt: Runtime, p: Pattern, g: Generic, checked: bool)
    requires rt.Valid() && Acyclic(rt.View()) && Live(rt.View(), g)
    ensures Binds(rt.View(), Run(rt, p, g, checked), Match(p, ValueOf(rt.View(), g)))
            <==> (Run(rt, p, g, checked).Some? ==> Agrees(p, ValueOf(rt.View(), g), checked))
  {
    hide Acyclic, Live, ValueOf, Run, Fits, Match, Accepts, Agrees;
    var v := ValueOf(rt.View(), g);
    if Match(p, v).Some? {
      RunMatches(rt, p, g, checked);
      MatchAccepted(p, v, checked);
      AcceptedAgrees(p, v, checked);
    } else if Run(rt, p, g, checked).Some? && Agrees(p, v, checked) {
      AgreesFits(p, v, checked);
      RunAccepts(rt, p, g, checked);
      AcceptedAgrees(p, v, checked);
      assert false;
    }
  }

  // ----- for all values -----

  /** No tuple pattern, no unchecked literal, and no list pattern but the empty one and
      those of the form `[h | t]`. */
  predicate Strict(p: Pattern, checked: bool) {
    match p
    case IntP(_) => checked
    case StrP(_) => checked
    case TupleP(_) => false
    case ListP(ps) => ps == []
    case ConsP(h, t) => Strict(h, false) && Strict(t, false)
    case _ => true
  }

  lemma {:induction false} StrictAgrees(p: Pattern, v: Value, checked: bool)
    requires Strict(p, checked)
    ensures Fits(p, v, checked)
    ensures Accepts(p, v, checked).Some? ==> Agrees(p, v, checked)
    decreases p, 0
  {
    match p
    case ConsP(h, t) =>
      if v.ConsV? {
        StrictAgrees(h, v.head, false);
        StrictAgrees(t, v.tail, false);
      }
    case _ =>
  }

  /** Every pattern accepts some value. */
  lemma {:induction false} Sample(p: Pattern, checked: bool) returns (v: Value)
    ensures Fits(p, v, checked) && Accepts(p, v, checked).Some?
    decreases p, 0
  {
    match p
    case IntP(i) => v := IntV(i);
    case AtomP(name) => v := AtomV(name);
    case StrP(s) => v := StrV(s);
    case TupleP(ps) =>
      var vs := SampleAll(ps, []);
      v := TupleV(vs);
    case ListP(ps) => v := SampleList(ps, NilV);
    case ConsP(h, t) =>
      var head := Sample(h, false);
      var tail := Sample(t, false);
      v := ConsV(head, tail);
    case _ => v := NilV;
  }

  lemma {:induction false} SampleAll(ps: seq<Pattern>, more: seq<Value>) returns (vs: seq<Value>)
    ensures |vs| == |ps| + |more| && FitsAll(ps, vs) && AcceptsAll(ps, vs).Some?
    decreases ps, 1
  {
    if ps == [] {
      vs := more;
    } else {
      var v := Sample(ps[0], true);
      var rest := SampleAll(ps[1..], more);
      vs := [v] + rest;
      assert vs[1..] == rest;
    }
  }

  /** `end` is what the list pattern takes for the empty list. */
  lemma {:induction false} SampleList(ps: seq<Pattern>, end: Value) returns (v: Value)
    requires end == NilV || end == IntV(-1)
    ensures FitsList(ps, v) && AcceptsList(ps, v).Some? && (ps != [] ==> v.ConsV?)
    ensures if end == NilV then IsList(v) else MatchList(ps, v) == None
    decreases ps, 1
  {
    if ps == [] {
      v := end;
    } else {
      var head := Sample(ps[0], false);
      var tail := SampleList(ps[1..], end);
      v := ConsV(head, tail);
    }
  }

  /** A pattern that is not strict accepts some value that Elixir refuses. */
  lemma {:induction false} WronglyAccepted(p: Pattern, checked: bool) returns (v: Value)
    requires !Strict(p, checked)
    ensures Fits(p, v, checked) && Accepts(p, v, checked).Some? && Match(p, v).None?
    decreases p, 0
  {
    match p
    case IntP(_) => v := NilV;
    case StrP(s) => v := StrV(s + "x");
    case TupleP(ps) =>
      var vs := SampleAll(ps, [NilV]);
      v := TupleV(vs);
    case ListP(ps) => v := SampleList(ps, IntV(-1));
    case ConsP(h, t) =>
      if Strict(h, false) {
        var head := Sample(h, false);
        var tail := WronglyAccepted(t, false);
        v := ConsV(head, tail);
      } else {
        var head := WronglyAccepted(h, false);
        var tail := Sample(t, false);
        v := ConsV(head, tail);
      }
  }

  /** Exactly for which patterns the emitted match is Elixir's on every value. */
  lemma StrictExact(p: Pattern, checked: bool)
    ensures (forall v :: Accepts(p, v, checked) == Match(p, v)) <==> Strict(p, checked)
    ensures (forall v :: Fits(p, v, checked) ==> Accepts(p, v, checked) == Match(p, v)) <==> Strict(p, checked)
  {
    if Strict(p, checked) {
      forall v ensures Accepts(p, v, checked) == Match(p, v) {
        StrictAgrees(p, v, checked);
        ExactMatch(p, v, checked);
      }
    } else {
      var v := WronglyAccepted(p, checked);
      assert Accepts(p, v, checked) != Match(p, v);
    }
  }

  /** For these, every value in the heap is matched as in Elixir. */
  lemma StrictRun(rt: Runtime, p: Pattern, g: Generic, checked: bool)
    requires rt.Valid() && Acyclic(rt.View()) && Live(rt.View(), g) && Strict(p, checked)
    ensures Binds(rt.View(), Run(rt, p, g, checked), Match(p, ValueOf(rt.View(), g)))
  {
    hide Acyclic, Live, ValueOf, Binds, Run, Fits, Match, Accepts, Agrees, Strict;
    var v := ValueOf(rt.View(), g);
    StrictAgrees(p, v, checked);
    ExactMatch(p, v, checked);
    RunAccepts(rt, p, g, checked);
  }

  // ----- departures -----

  /** [a, b] = [v | {w, []}] is not refused: the tail is read as a list cell. */
  lemma TupleTail(a: string, b: string, v: Value, w: Value)
    ensures var p, tail := ListP([VarP(a), VarP(b)]), TupleV([w, NilV]);
            && Fits(p, ConsV(v, tail), false) && Match(p, ConsV(v, tail)) == None
            && Accepts(p, ConsV(v, tail), false) == Some([(a, v), (b, w)])
  {
    var none: seq<Pattern>, one := [], [VarP(b)];
    var both, es := [VarP(a), VarP(b)], [w, NilV];
    var tail := TupleV(es);
    assert both[1..] == one && one[1..] == none;
    assert FitsList(none, es[1]) && AcceptsList(none, es[1]) == Some([]);
    assert FitsList(one, tail);
    assert MatchList(one, tail) == None;
    assert AcceptsList(one, tail) == Join(Accepts(one[0], w, false), AcceptsList(none, es[1]));
    assert [(b, w)] + [] == [(b, w)];
    assert AcceptsList(both, ConsV(v, tail)) == Join(Accepts(both[0], v, false), AcceptsList(one, tail));
    assert [(a, v)] + [(b, w)] == [(a, v), (b, w)];
  }

  /** [a] = [v | -1] is not refused: -1 reads as the empty list. */
  lemma MinusOneTail(a: string, v: Value)
    ensures var p, value := ListP([VarP(a)]), ConsV(v, IntV(-1));
            Fits(p, value, false) && Match(p, value) == None && Accepts(p, value, false) == Some([(a, v)])
  {
    var ps := [VarP(a)];
    assert ps[1..] == [];
    assert MatchList([], IntV(-1)) == None && AcceptsList([], IntV(-1)) == Some([]);
    assert [(a, v)] + [] == [(a, v)];
    assert AcceptsList(ps, ConsV(v, IntV(-1))) == Join(Accepts(ps[0], v, false), AcceptsList(ps[1..], IntV(-1)));
    assert MatchList(ps, ConsV(v, IntV(-1))) == Join(Match(ps[0], v), MatchList(ps[1..], IntV(-1)));
  }

  /** `1 = 2` is not refused: an integer literal on the left of `=` is not compared. */
  lemma UncheckedInteger(i: int, v: Value)
    requires v != IntV(i)
    ensures Accepts(IntP(i), v, false).Some? && Match(IntP(i), v) == None
  {
  }

  /** "ab" = "abc" is not refused: neither the type nor the length is tested there. */
  lemma UncheckedString(s: string, more: string)
    requires more != ""
    ensures Fits(StrP(s), StrV(s + more), false)
    ensures Accepts(StrP(s), StrV(s + more), false).Some? && Match(StrP(s), StrV(s + more)) == None
  {
    assert |s + more| != |s|;
  }

  /** {3000000000} = {3000000000} is refused: the value is stored as an int, and the
      pattern compared whole. */
  lemma WideIntegerRefused(i: int, env: map<string, Value>, last: Option<Value>)
    requires !In32(i)
    ensures var e, p := TupleE([IntE(i)]), TupleP([IntP(i)]);
            && Scoped(e, env.Keys) && Match(p, Eval(e, env)).Some?
            && Accepts(p, Built(e, env, last).0, true) == None
  {
    var es, ps := [IntE(i)], [IntP(i)];
    assert es[1..] == [] && ps[1..] == [];
    assert EvalAll(es, env) == [IntV(i)];
    assert MatchAll(ps[1..], [IntV(i)][1..]) == Some([]);
    assert MatchAll(ps, [IntV(i)]) == Join(Match(ps[0], IntV(i)), Some([]));
    var w := IntV(Signed32(i));
    assert BuiltAll(es, env, last).0 == [w];
    assert AcceptsAll(ps, [w]) == Join(Accepts(ps[0], w, true), AcceptsAll(ps[1..], [w][1..]));
  }

  /** A tuple pattern accepts a longer tuple, which Elixir's match refuses. */
  lemma ShortTuplePattern(v: Value, w: Value)
    ensures Fits(TupleP([Wild]), TupleV([v, w]), true)
    ensures Accepts(TupleP([Wild]), TupleV([v, w]), true).Some?
    ensures Match(TupleP([Wild]), TupleV([v, w])) == None
  {
    var ps, vs := [Wild], [v, w];
    assert ps[1..] == [];
    assert AcceptsAll(ps[1..], vs[1..]) == Some([]);
    assert AcceptsAll(ps, vs) == Join(Accepts(Wild, v, true), AcceptsAll(ps[1..], vs[1..]));
  }

  /** An integer literal in a list pattern accepts any element. */
  lemma UncheckedListLiteral(i: int, v: Value)
    requires v != IntV(i)
    ensures Accepts(ListP([IntP(i)]), ConsV(v, NilV), true).Some?
    ensures Match(ListP([IntP(i)]), ConsV(v, NilV)) == None
  {
    var ps := [IntP(i)];
    assert ps[1..] == [];
    assert Match(ps[0], v) == None && Accepts(ps[0], v, false) == Some([]);
    assert AcceptsList(ps[1..], NilV) == Some([]);
    assert MatchList(ps, ConsV(v, NilV)) == Join(Match(ps[0], v), MatchList(ps[1..], NilV));
    assert AcceptsList(ps, ConsV(v, NilV)) == Join(Accepts(ps[0], v, false), AcceptsList(ps[1..], NilV));
  }
}
