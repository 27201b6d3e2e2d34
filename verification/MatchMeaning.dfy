/** What Elixir's match means, by positions: which values a pattern has the shape of, and
    which part of a value each of its variables stands for. */
module MatchMeaning {
  import opened HeapStore
  import opened Matching
  import opened Options

  /** The elements of a list, and whether it ends in the empty list. */
  ghost function Items(v: Value): seq<Value> {
    if v.ConsV? then [v.head] + Items(v.tail) else []
  }

  ghost predicate IsProper(v: Value) {
    v.NilV? || (v.ConsV? && IsProper(v.tail))
  }

  ghost predicate Shape(p: Pattern, v: Value) {
    match p
    case Wild => true
    case VarP(_) => true
    case IntP(i) => v == IntV(i)
    case AtomP(name) => v == AtomV(name)
    case StrP(s) => v == StrV(s)
    case TupleP(ps) =>
      v.TupleV? && |v.elems| == |ps| && forall k :: 0 <= k < |ps| ==> Shape(ps[k], v.elems[k])
    case ListP(ps) =>
      IsProper(v) && |Items(v)| == |ps| && forall k :: 0 <= k < |ps| ==> Shape(ps[k], Items(v)[k])
    case ConsP(h, t) => v.ConsV? && Shape(h, v.head) && Shape(t, v.tail)
  }

  /** Variable `x` of the pattern stands where the value has `w`. */
  ghost predicate StandsFor(p: Pattern, v: Value, x: string, w: Value) {
    match p
    case VarP(y) => x == y && w == v
    case TupleP(ps) =>
      v.TupleV? && exists k :: 0 <= k < |ps| && k < |v.elems| && StandsFor(ps[k], v.elems[k], x, w)
    case ListP(ps) => exists k :: 0 <= k < |ps| && k < |Items(v)| && StandsFor(ps[k], Items(v)[k], x, w)
    case ConsP(h, t) => v.ConsV? && (StandsFor(h, v.head, x, w) || StandsFor(t, v.tail, x, w))
    case _ => false
  }

  /** A value is matched exactly when it has the pattern's shape, and the bindings are
      exactly the variables with what they stand for. */
  lemma {:induction false} MatchMeans(p: Pattern, v: Value, x: string, w: Value)
    ensures Match(p, v).Some? <==> Shape(p, v)
    ensures Match(p, v).Some? ==> ((x, w) in Match(p, v).value <==> StandsFor(p, v, x, w))
    decreases p, 0
  {
    match p
    case TupleP(ps) =>
      if v.TupleV? && |v.elems| == |ps| {
        MatchAllMeans(ps, v.elems, x, w);
      }
    case ListP(ps) => MatchListMeans(ps, v, x, w);
    case ConsP(h, t) =>
      if v.ConsV? {
        MatchMeans(h, v.head, x, w);
        MatchMeans(t, v.tail, x, w);
      }
    case _ =>
  }

  lemma {:induction false} MatchAllMeans(ps: seq<Pattern>, vs: seq<Value>, x: string, w: Value)
    requires |ps| == |vs|
    ensures MatchAll(ps, vs).Some? <==> forall k :: 0 <= k < |ps| ==> Shape(ps[k], vs[k])
    ensures MatchAll(ps, vs).Some? ==>
              ((x, w) in MatchAll(ps, vs).value <==> exists k :: 0 <= k < |ps| && StandsFor(ps[k], vs[k], x, w))
    decreases ps, 1
  {
    if ps != [] {
      MatchMeans(ps[0], vs[0], x, w);
      MatchAllMeans(ps[1..], vs[1..], x, w);
      FirstAndRest(ps, vs, x, w);
    }
  }

  /** Positions in a sequence are the first one and those of the rest. */
  lemma FirstAndRest(ps: seq<Pattern>, vs: seq<Value>, x: string, w: Value)
    requires |ps| == |vs| && ps != []
    ensures (forall k :: 0 <= k < |ps| ==> Shape(ps[k], vs[k])) <==>
            Shape(ps[0], vs[0]) && forall k :: 0 <= k < |ps| - 1 ==> Shape(ps[1..][k], vs[1..][k])
    ensures (exists k :: 0 <= k < |ps| && StandsFor(ps[k], vs[k], x, w)) <==>
            StandsFor(ps[0], vs[0], x, w) || exists k :: 0 <= k < |ps| - 1 && StandsFor(ps[1..][k], vs[1..][k], x, w)
  {
    hide Shape, StandsFor;
    forall k | 1 <= k < |ps| ensures ps[k] == ps[1..][k - 1] && vs[k] == vs[1..][k - 1] {
    }
    if forall k :: 0 <= k < |ps| - 1 ==> Shape(ps[1..][k], vs[1..][k]) {
      forall k | 1 <= k < |ps| ensures Shape(ps[k], vs[k]) {
        assert Shape(ps[1..][k - 1], vs[1..][k - 1]);
      }
    }
    if k :| 0 <= k < |ps| && StandsFor(ps[k], vs[k], x, w) {
      assert k > 0 ==> StandsFor(ps[1..][k - 1], vs[1..][k - 1], x, w);
    }
    if k :| 0 <= k < |ps| - 1 && StandsFor(ps[1..][k], vs[1..][k], x, w) {
      assert StandsFor(ps[k + 1], vs[k + 1], x, w);
    }
  }

  /** A list is matched element by element. */
  lemma {:induction false} MatchListMeans(ps: seq<Pattern>, v: Value, x: string, w: Value)
    ensures MatchList(ps, v).Some? <==> Shape(ListP(ps), v)
    ensures MatchList(ps, v).Some? ==>
              ((x, w) in MatchList(ps, v).value <==> exists k :: 0 <= k < |ps| && StandsFor(ps[k], Items(v)[k], x, w))
    decreases ps, 1
  {
    if ps != [] && v.ConsV? {
      var items := Items(v);
      assert items[1..] == Items(v.tail);
      MatchMeans(ps[0], v.head, x, w);
      MatchListMeans(ps[1..], v.tail, x, w);
      if |items| == |ps| {
        FirstAndRest(ps, items, x, w);
      }
    }
  }
}
