/** The code emitted for pattern matches: guarded reads of the tuple pool and the heap,
    and the values they accept; beside it, Elixir's own matching. */
module Matching {
  import opened FixedWidth
  import opened HeapRuntime
  import opened HeapStore
  import opened Options

  datatype Pattern =
    | Wild
    | VarP(x: string)
    | IntP(i: int)
    | AtomP(name: AtomName)
    | StrP(s: string)
    | TupleP(elems: seq<Pattern>)
    | ListP(elems: seq<Pattern>)
    | ConsP(head: Pattern, tail: Pattern)

  type Bindings<T> = seq<(string, T)>

  // ----- Elixir -----

  ghost function Match(p: Pattern, v: Value): Option<Bindings<Value>>
    decreases p, 0
  {
    match p
    case Wild => Some([])
    case VarP(x) => Some([(x, v)])
    case IntP(i) => if v == IntV(i) then Some([]) else None
    case AtomP(name) => if v == AtomV(name) then Some([]) else None
    case StrP(s) => if v == StrV(s) then Some([]) else None
    case TupleP(ps) => if v.TupleV? && |v.elems| == |ps| then MatchAll(ps, v.elems) else None
    case ListP(ps) => MatchList(ps, v)
    case ConsP(h, t) => if v.ConsV? then Join(Match(h, v.head), Match(t, v.tail)) else None
  }

  ghost function MatchAll(ps: seq<Pattern>, vs: seq<Value>): Option<Bindings<Value>>
    requires |ps| == |vs|
    decreases ps, 1
  {
    if ps == [] then Some([]) else Join(Match(ps[0], vs[0]), MatchAll(ps[1..], vs[1..]))
  }

  ghost function MatchList(ps: seq<Pattern>, v: Value): Option<Bindings<Value>>
    decreases ps, 1
  {
    if ps == [] then if v == NilV then Some([]) else None
    else if v.ConsV? then Join(Match(ps[0], v.head), MatchList(ps[1..], v.tail))
    else None
  }

  function Join<T>(a: Option<Bindings<T>>, b: Option<Bindings<T>>): Option<Bindings<T>> {
    if a.Some? && b.Some? then Some(a.value + b.value) else None
  }

  // ----- the emitted code -----

  /** `.value.tuple.start` of any value: an integer is read through the union. */
  function StartOf(g: Generic): int {
    if g.Integer? then Signed32(g.integer) else g.start
  }

  function EndOf(g: Generic): int {
    if g.Integer? then Signed32(g.integer / TWO_32) else g.end
  }

  /** The union of an integer and two halves, the lower one first. */
  lemma UnionHalves(i: int)
    requires In64(i)
    ensures var g := Integer(i);
            In32(StartOf(g)) && In32(EndOf(g)) && EndOf(g) * TWO_32 + Unsigned(StartOf(g)) == i
  {
  }

  /** The cell a pool slot names, with the emitted bounds checks. */
  function ReadSlot(rt: Runtime, slot: int): Option<Generic>
    reads rt, rt.heap, rt.tuplePool
  {
    if slot < rt.tuplePool.Length && slot >= 0 then
      var cell := rt.tuplePool[slot];
      if cell < rt.heap.Length then Some(rt.heap[cell]) else None
    else None
  }

  /** Character `index` of a literal; no check is made outside the pool. */
  predicate CharOk(rt: Runtime, g: Generic, s: string, index: nat)
    requires index < |s| && g.String?
    reads rt, rt.stringPool
  {
    g.start < rt.stringPool.Length - index && g.start >= 0 ==> s[index] == rt.stringPool[g.start + index]
  }

  /** The match of `p` against `g`.  The generator's flag `generic` (here `checked`) is on
      for the clauses of a `case` and for the elements of a tuple pattern, and off for the
      left side of `=` and directly inside a list pattern.  Without it no code is emitted
      for an integer literal, and only the character tests for a string literal, which
      compile where the value is a C string. */
  function Run(rt: Runtime, p: Pattern, g: Generic, checked: bool): Option<Bindings<Generic>>
    reads rt, rt.heap, rt.tuplePool, rt.stringPool
    decreases p, 0
  {
    match p
    case Wild => Some([])
    case VarP(x) => Some([(x, g)])
    case IntP(i) => if checked && (!g.Integer? || g.integer != i) then None else Some([])
    case AtomP(name) => if !g.Atom? || g.start != AtomCell(name).start then None else Some([])
    case StrP(s) =>
      if !g.String? || (checked && |s| != g.end - g.start) then None
      else if forall k :: 0 <= k < |s| ==> CharOk(rt, g, s, k) then Some([])
      else None
    case TupleP(ps) => if !g.Tuple? then None else RunElements(rt, ps, g, 0)
    case ListP(ps) => if !g.List? then None else RunList(rt, ps, g)
    case ConsP(h, t) =>
      if !g.List? then None
      else
        var head := ReadSlot(rt, StartOf(g));
        if head.None? then None
        else
          var hb := Run(rt, h, head.value, false);
          var tail := ReadSlot(rt, StartOf(g) + 1);
          if hb.None? || tail.None? then None else Join(hb, Run(rt, t, tail.value, false))
  }

  function RunElements(rt: Runtime, ps: seq<Pattern>, g: Generic, index: nat): Option<Bindings<Generic>>
    reads rt, rt.heap, rt.tuplePool, rt.stringPool
    decreases ps, 1
  {
    if ps == [] then Some([])
    else
      var cell := ReadSlot(rt, StartOf(g) + index);
      if cell.None? then None
      else Join(Run(rt, ps[0], cell.value, true), RunElements(rt, ps[1..], g, index + 1))
  }

  function RunList(rt: Runtime, ps: seq<Pattern>, g: Generic): Option<Bindings<Generic>>
    reads rt, rt.heap, rt.tuplePool, rt.stringPool
    decreases ps, 1
  {
    if ps == [] then if StartOf(g) != -1 || EndOf(g) != -1 then None else Some([])
    else
      var head := ReadSlot(rt, StartOf(g));
      if head.None? then None
      else
        var hb := Run(rt, ps[0], head.value, false);
        var next := ReadSlot(rt, StartOf(g) + 1);
        if hb.None? || next.None? then None else Join(hb, RunList(rt, ps[1..], next.value))
  }

  /** Atoms are told apart by where their names start in the string pool. */
  lemma AtomMatches(rt: Runtime, g: Generic, checked: bool)
    ensures Run(rt, AtomP(AtomNil), g, checked).Some? <==> g.Atom? && g.start == 0
    ensures Run(rt, AtomP(AtomFalse), g, checked).Some? <==> g.Atom? && g.start == 3
    ensures Run(rt, AtomP(AtomTrue), g, checked).Some? <==> g.Atom? && g.start == 8
  {
  }

  // ----- what the emitted code accepts -----

  predicate IsList(v: Value) {
    v.NilV? || v.ConsV?
  }

  /** The match the code performs, on values: a tuple pattern looks at a prefix of the
      tuple, an unchecked integer literal accepts anything, and an unchecked string literal
      every string that it is a prefix of.  A list pattern tests once that it has a list:
      of a tail that is a tuple it takes the first two elements for head and tail, and the
      integer -1 for the empty list. */
  ghost function Accepts(p: Pattern, v: Value, checked: bool): Option<Bindings<Value>>
    decreases p, 0
  {
    match p
    case Wild => Some([])
    case VarP(x) => Some([(x, v)])
    case IntP(i) => if checked && v != IntV(i) then None else Some([])
    case AtomP(name) => if v == AtomV(name) then Some([]) else None
    case StrP(s) => if v == StrV(s) || (!checked && v.StrV? && s <= v.s) then Some([]) else None
    case TupleP(ps) => if v.TupleV? then AcceptsAll(ps, v.elems) else None
    case ListP(ps) => if IsList(v) then AcceptsList(ps, v) else None
    case ConsP(h, t) => if v.ConsV? then Join(Accepts(h, v.head, false), Accepts(t, v.tail, false)) else None
  }

  ghost function AcceptsAll(ps: seq<Pattern>, vs: seq<Value>): Option<Bindings<Value>>
    decreases ps, 1
  {
    if ps == [] then Some([])
    else if vs == [] then None
    else Join(Accepts(ps[0], vs[0], true), AcceptsAll(ps[1..], vs[1..]))
  }

  ghost function AcceptsList(ps: seq<Pattern>, v: Value): Option<Bindings<Value>>
    decreases ps, 1
  {
    if ps == [] then if v == NilV || v == IntV(-1) then Some([]) else None
    else if v.ConsV? then Join(Accepts(ps[0], v.head, false), AcceptsList(ps[1..], v.tail))
    else if v.TupleV? && |v.elems| >= 2 then Join(Accepts(ps[0], v.elems[0], false), AcceptsList(ps[1..], v.elems[1]))
    else None
  }

  /** The shapes for which the reads stay inside the value: no tuple pattern longer than
      its tuple, no list pattern that runs on into an atom, a string, a short tuple or an
      integer that could be a slot, and unchecked string literals against strings that they
      do not outrun over a zero character. */
  ghost predicate Fits(p: Pattern, v: Value, checked: bool)
    decreases p, 0
  {
    match p
    case StrP(s) => checked || (v.StrV? && (|s| <= |v.s| || s[|v.s|] != '\0'))
    case TupleP(ps) => v.TupleV? ==> FitsAll(ps, v.elems)
    case ListP(ps) => IsList(v) ==> FitsList(ps, v)
    case ConsP(h, t) => v.ConsV? ==> Fits(h, v.head, false) && Fits(t, v.tail, false)
    case _ => true
  }

  ghost predicate FitsAll(ps: seq<Pattern>, vs: seq<Value>)
    decreases ps, 1
  {
    ps == [] || (vs != [] && Fits(ps[0], vs[0], true) && FitsAll(ps[1..], vs[1..]))
  }

  ghost predicate FitsList(ps: seq<Pattern>, v: Value)
    decreases ps, 1
  {
    if ps == [] then v.IntV? ==> In64(v.i)
    else
      match v
      case NilV => true
      case ConsV(head, tail) => Fits(ps[0], head, false) && FitsList(ps[1..], tail)
      case TupleV(es) => |es| >= 2 && Fits(ps[0], es[0], false) && FitsList(ps[1..], es[1])
      case IntV(i) => INT_MIN <= i < 0
      case _ => false
  }

  /** The bound cells stand for the bound values. */
  ghost predicate Binds(st: Store, cells: Option<Bindings<Generic>>, values: Option<Bindings<Value>>)
    requires Acyclic(st)
  {
    match (cells, values)
    case (Some(cs), Some(vs)) =>
      |cs| == |vs| && forall k :: 0 <= k < |cs| ==>
        cs[k].0 == vs[k].0 && Live(st, cs[k].1) && ValueOf(st, cs[k].1) == vs[k].1
    case (None, None) => true
    case _ => false
  }

  lemma BindsJoin(st: Store, a: Option<Bindings<Generic>>, b: Option<Bindings<Generic>>,
                  va: Option<Bindings<Value>>, vb: Option<Bindings<Value>>)
    requires Acyclic(st) && Binds(st, a, va) && Binds(st, b, vb)
    ensures Binds(st, Join(a, b), Join(va, vb))
  {
  }

  /** A slot in use reads as the cell that gives its value: no bounds check fails. */
  lemma SlotReads(rt: Runtime, slot: int, bound: int)
    requires rt.Valid() && Acyclic(rt.View()) && RangeOk(rt.View(), slot, slot, bound) && bound <= rt.heapIndex
    ensures var st := rt.View();
            var cell := ReadSlot(rt, slot);
            cell.Some? && Live(st, cell.value) && ValueOf(st, cell.value) == DecodeSlot(st, slot)
  {
    var st := rt.View();
    var i := st.pool[slot];
    assert ReadSlot(rt, slot) == Some(st.cells[i]);
    DecodeGrows(st, st, st.cells[i], i, |st.cells|);
  }

  lemma StringMatches(rt: Runtime, s: string, g: Generic)
    requires rt.Valid() && g.String? && 0 <= g.start <= g.end < rt.stringPoolIndex
    ensures (|s| == g.end - g.start && forall k :: 0 <= k < |s| ==> CharOk(rt, g, s, k))
            <==> rt.View().chars[g.start..g.end] == s
  {
    var t := rt.View().chars[g.start..g.end];
    forall k | 0 <= k < |s| && |s| == |t| ensures CharOk(rt, g, s, k) <==> s[k] == t[k] {
      assert t[k] == rt.stringPool[g.start + k];
    }
    if t == s {
      forall k | 0 <= k < |s| ensures CharOk(rt, g, s, k) {
        assert s[k] == t[k];
      }
    }
    if |s| == g.end - g.start && forall k :: 0 <= k < |s| ==> CharOk(rt, g, s, k) {
      assert forall k :: 0 <= k < |s| ==> s[k] == t[k] by {
        forall k | 0 <= k < |s| ensures s[k] == t[k] {
          assert CharOk(rt, g, s, k);
        }
      }
    }
  }

  /** Without the length test, the characters and the terminator decide. */
  lemma PrefixMatches(rt: Runtime, s: string, g: Generic)
    requires rt.Valid() && g.String? && 0 <= g.start <= g.end < rt.stringPoolIndex && rt.stringPool[g.end] == '\0'
    requires |s| <= g.end - g.start || s[g.end - g.start] != '\0'
    ensures (forall k :: 0 <= k < |s| ==> CharOk(rt, g, s, k)) <==> s <= rt.View().chars[g.start..g.end]
  {
    var t := rt.View().chars[g.start..g.end];
    forall k | 0 <= k < |s| && k <= |t|
      ensures CharOk(rt, g, s, k) <==> s[k] == if k < |t| then t[k] else '\0'
    {
      assert k < |t| ==> t[k] == rt.stringPool[g.start + k];
    }
    if forall k :: 0 <= k < |s| ==> CharOk(rt, g, s, k) {
      forall k | 0 <= k < |s| ensures s[k] == t[k] {
        assert CharOk(rt, g, s, k);
      }
    }
    if s <= t {
      forall k | 0 <= k < |s| ensures CharOk(rt, g, s, k) {
        assert s[k] == t[k];
      }
    }
  }

  /** The emitted match of any fitting pattern against any value in the heap. */
  lemma {:induction false} RunAccepts(rt: Runtime, p: Pattern, g: Generic, checked: bool)
    requires rt.Valid() && Acyclic(rt.View()) && Live(rt.View(), g) && Fits(p, ValueOf(rt.View(), g), checked)
    ensures Binds(rt.View(), Run(rt, p, g, checked), Accepts(p, ValueOf(rt.View(), g), checked))
    decreases p, 0
  {
    hide Acyclic;
    var st := rt.View();
    match p
    case TupleP(ps) =>
      if g.Tuple? {
        assert Rest(st, g, 0) == ValueOf(st, g).elems;
        RunElementsAccepts(rt, ps, g, 0);
      }
    case ListP(ps) =>
      if g.List? {
        RunListAccepts(rt, ps, g);
      }
    case ConsP(h, t) =>
      if g.List? && g != EMPTY_LIST {
        RunConsAccepts(rt, h, t, g);
      }
    case StrP(s) =>
      if g.String? {
        if checked {
          StringMatches(rt, s, g);
        } else {
          PrefixMatches(rt, s, g);
        }
      }
    case _ =>
  }

  /** The values of a tuple, from element `index` on. */
  ghost function Rest(st: Store, g: Generic, index: nat): seq<Value>
    requires Acyclic(st) && Live(st, g) && g.Tuple? && index <= g.end - g.start + 1
  {
    ValueOf(st, g).elems[index..]
  }

  lemma TupleElement(st: Store, g: Generic, k: nat)
    requires Acyclic(st) && Live(st, g) && g.Tuple? && k <= g.end - g.start
    ensures RangeOk(st, g.start + k, g.start + k, |st.cells|)
    ensures ValueOf(st, g).elems[k] == DecodeSlot(st, g.start + k)
  {
    assert st.pool[g.start + k] < |st.cells|;
  }

  lemma {:induction false} RunElementsAccepts(rt: Runtime, ps: seq<Pattern>, g: Generic, index: nat)
    requires rt.Valid() && Acyclic(rt.View()) && Live(rt.View(), g) && g.Tuple? && index <= g.end - g.start + 1
    requires FitsAll(ps, Rest(rt.View(), g, index))
    ensures Binds(rt.View(), RunElements(rt, ps, g, index), AcceptsAll(ps, Rest(rt.View(), g, index)))
    decreases ps, 1
  {
    if ps != [] {
      hide Acyclic, RefersBelow, Decode;
      var st := rt.View();
      var vs := Rest(st, g, index);
      TupleElement(st, g, index);
      assert vs[0] == ValueOf(st, g).elems[index];
      assert vs[1..] == Rest(st, g, index + 1);
      SlotReads(rt, g.start + index, |st.cells|);
      var cell := ReadSlot(rt, g.start + index).value;
      RunAccepts(rt, ps[0], cell, true);
      RunElementsAccepts(rt, ps[1..], g, index + 1);
      BindsJoin(st, Run(rt, ps[0], cell, true), RunElements(rt, ps[1..], g, index + 1),
                Accepts(ps[0], vs[0], true), AcceptsAll(ps[1..], vs[1..]));
    }
  }

  /** The two reads of a list that is not empty. */
  lemma ListReads(rt: Runtime, g: Generic)
    requires rt.Valid() && Acyclic(rt.View()) && Live(rt.View(), g) && g.List? && g != EMPTY_LIST
    ensures ValueOf(rt.View(), g).ConsV? && g.start >= 0
    ensures var head := ReadSlot(rt, g.start);
            head.Some? && Live(rt.View(), head.value) && ValueOf(rt.View(), head.value) == ValueOf(rt.View(), g).head
    ensures var tail := ReadSlot(rt, g.start + 1);
            tail.Some? && Live(rt.View(), tail.value) && ValueOf(rt.View(), tail.value) == ValueOf(rt.View(), g).tail
  {
    var st := rt.View();
    ListValue(st, g, |st.cells|);
    SlotReads(rt, g.start, |st.cells|);
    SlotReads(rt, g.start + 1, |st.cells|);
  }

  lemma {:induction false} RunConsAccepts(rt: Runtime, h: Pattern, t: Pattern, g: Generic)
    requires rt.Valid() && Acyclic(rt.View()) && Live(rt.View(), g) && Fits(ConsP(h, t), ValueOf(rt.View(), g), false)
    requires g.List? && g != EMPTY_LIST
    ensures Binds(rt.View(), Run(rt, ConsP(h, t), g, false), Accepts(ConsP(h, t), ValueOf(rt.View(), g), false))
    decreases ConsP(h, t), -1
  {
    hide Acyclic, RefersBelow, Decode, Live;
    ListReads(rt, g);
    var head, tail := ReadSlot(rt, g.start).value, ReadSlot(rt, g.start + 1).value;
    var v := ValueOf(rt.View(), g);
    RunAccepts(rt, h, head, false);
    RunAccepts(rt, t, tail, false);
    BindsJoin(rt.View(), Run(rt, h, head, false), Run(rt, t, tail, false),
              Accepts(h, v.head, false), Accepts(t, v.tail, false));
  }

  /** The two halves of an integer are those of the empty list only in -1. */
  lemma MinusOne(i: int)
    requires In64(i)
    ensures Signed32(i) == -1 && Signed32(i / TWO_32) == -1 <==> i == -1
  {
  }

  /** What a list pattern reads of any value: the ranges of the heap, where it has them. */
  lemma {:induction false} RunListAccepts(rt: Runtime, ps: seq<Pattern>, g: Generic)
    requires rt.Valid() && Acyclic(rt.View()) && Live(rt.View(), g) && FitsList(ps, ValueOf(rt.View(), g))
    ensures Binds(rt.View(), RunList(rt, ps, g), AcceptsList(ps, ValueOf(rt.View(), g)))
    decreases ps, 1
  {
    var st := rt.View();
    if ps == [] {
      if g.Integer? {
        MinusOne(g.integer);
      }
    } else if g == EMPTY_LIST {
      assert ReadSlot(rt, -1).None?;
    } else if g.List? {
      hide Acyclic, RefersBelow, Decode;
      ListReads(rt, g);
      RunPairAccepts(rt, ps, g, ValueOf(st, g).head, ValueOf(st, g).tail);
    } else if g.Tuple? {
      hide Acyclic, RefersBelow;
      TupleReads(rt, g);
      RunPairAccepts(rt, ps, g, ValueOf(st, g).elems[0], ValueOf(st, g).elems[1]);
    }
  }

  /** The two reads that take the first elements of a tuple for a head and a tail. */
  lemma TupleReads(rt: Runtime, g: Generic)
    requires rt.Valid() && Acyclic(rt.View()) && Live(rt.View(), g) && g.Tuple? && g.end - g.start >= 1
    ensures |ValueOf(rt.View(), g).elems| >= 2
    ensures var head := ReadSlot(rt, g.start);
            && head.Some? && Live(rt.View(), head.value)
            && ValueOf(rt.View(), head.value) == ValueOf(rt.View(), g).elems[0]
    ensures var tail := ReadSlot(rt, g.start + 1);
            && tail.Some? && Live(rt.View(), tail.value)
            && ValueOf(rt.View(), tail.value) == ValueOf(rt.View(), g).elems[1]
  {
    var st := rt.View();
    TupleElement(st, g, 0);
    TupleElement(st, g, 1);
    SlotReads(rt, g.start, |st.cells|);
    SlotReads(rt, g.start + 1, |st.cells|);
  }

  /** One step along a list, or along what is taken for one. */
  lemma {:induction false} RunPairAccepts(rt: Runtime, ps: seq<Pattern>, g: Generic, head: Value, tail: Value)
    requires rt.Valid() && Acyclic(rt.View()) && ps != []
    requires var h := ReadSlot(rt, StartOf(g));
             h.Some? && Live(rt.View(), h.value) && ValueOf(rt.View(), h.value) == head
    requires var t := ReadSlot(rt, StartOf(g) + 1);
             t.Some? && Live(rt.View(), t.value) && ValueOf(rt.View(), t.value) == tail
    requires Fits(ps[0], head, false) && FitsList(ps[1..], tail)
    ensures Binds(rt.View(), RunList(rt, ps, g), Join(Accepts(ps[0], head, false), AcceptsList(ps[1..], tail)))
    decreases ps, 0
  {
    hide Acyclic, RefersBelow, Decode, Live, ValueOf, ReadSlot;
    var h, t := ReadSlot(rt, StartOf(g)).value, ReadSlot(rt, StartOf(g) + 1).value;
    RunAccepts(rt, ps[0], h, false);
    RunListAccepts(rt, ps[1..], t);
    BindsJoin(rt.View(), Run(rt, ps[0], h, false), RunList(rt, ps[1..], t),
              Accepts(ps[0], head, false), AcceptsList(ps[1..], tail));
  }
}
