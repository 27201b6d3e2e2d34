/** The bump-allocated store of the generated programs: tagged cells, a pool of cell
    indices that tuples and lists point into, and a pool of characters; and the Elixir
    values the cells stand for. */
module HeapStore {
  import opened FixedWidth

  datatype AtomName = AtomNil | AtomFalse | AtomTrue

  /** A tagged value.  Strings, tuples and lists are inclusive ranges of a pool. */
  datatype Generic =
    | Integer(integer: int)
    | Atom(start: int, end: int)
    | String(start: int, end: int)
    | Tuple(start: int, end: int)
    | List(start: int, end: int)

  datatype Value =
    | IntV(i: int)
    | AtomV(name: AtomName)
    | StrV(s: string)
    | TupleV(elems: seq<Value>)
    | NilV
    | ConsV(head: Value, tail: Value)

  datatype Store = Store(cells: seq<Generic>, pool: seq<nat>, chars: string)

  const EMPTY_LIST := List(-1, -1)

  function AtomCell(name: AtomName): Generic {
    match name
    case AtomNil => Atom(0, 2)
    case AtomFalse => Atom(3, 7)
    case AtomTrue => Atom(8, 11)
  }

  /** Every pool entry from `start` to `end` is in use and names a cell below `bound`. */
  ghost predicate RangeOk(st: Store, start: int, end: int, bound: int) {
    0 <= start && end < |st.pool| && forall k :: start <= k <= end ==> st.pool[k] < bound
  }

  /** `g` refers only to cells below `bound`; strings have their terminator. */
  ghost predicate RefersBelow(st: Store, g: Generic, bound: int) {
    match g
    case Integer(_) => true
    case Atom(_, _) => exists name :: g == AtomCell(name)
    case String(start, end) => 0 <= start <= end < |st.chars| && st.chars[end] == '\0'
    case Tuple(start, end) => start <= end + 1 && RangeOk(st, start, end, bound)
    case List(start, end) => g == EMPTY_LIST || (end == start + 1 && RangeOk(st, start, end, bound))
  }

  /** Every cell refers only to cells below it, so no value contains itself. */
  ghost predicate Acyclic(st: Store) {
    forall i :: 0 <= i < |st.cells| ==> RefersBelow(st, st.cells[i], i)
  }

  /** A value held by the program: it refers only to allocated cells. */
  ghost predicate Live(st: Store, g: Generic) {
    RefersBelow(st, g, |st.cells|)
  }

  /** The value of `g`; each pool slot stands for the value of the cell it names. */
  ghost function Decode(st: Store, g: Generic, bound: int): Value
    requires Acyclic(st) && 0 <= bound <= |st.cells| && RefersBelow(st, g, bound)
    decreases bound, 0
  {
    match g
    case Integer(i) => IntV(i)
    case Atom(start, _) => AtomV(if start == 0 then AtomNil else if start == 3 then AtomFalse else AtomTrue)
    case String(start, end) => StrV(st.chars[start..end])
    case Tuple(start, end) =>
      TupleV(seq(end - start + 1, k requires 0 <= k < end - start + 1 => DecodeSlot(st, start + k)))
    case List(start, end) =>
      if g == EMPTY_LIST then NilV else ConsV(DecodeSlot(st, start), DecodeSlot(st, end))
  }

  ghost function DecodeSlot(st: Store, slot: int): Value
    requires Acyclic(st) && 0 <= slot < |st.pool| && st.pool[slot] < |st.cells|
    decreases if 0 <= slot < |st.pool| then st.pool[slot] else 0, 1
  {
    var cell := st.pool[slot];
    Decode(st, st.cells[cell], cell)
  }

  /** The value of anything the program holds. */
  ghost function ValueOf(st: Store, g: Generic): Value
    requires Acyclic(st) && Live(st, g)
  {
    Decode(st, g, |st.cells|)
  }

  /** The value of the cell pushed last. */
  ghost function LastValue(st: Store): Value
    requires Acyclic(st) && st.cells != []
  {
    Decode(st, st.cells[|st.cells| - 1], |st.cells| - 1)
  }

  // ----- growth -----

  /** `st'` is `st` with more allocated. */
  ghost predicate Grows(st: Store, st': Store) {
    st.cells <= st'.cells && st.pool <= st'.pool && st.chars <= st'.chars
  }

  lemma RefersGrows(st: Store, st': Store, g: Generic, bound: int, bound': int)
    requires Grows(st, st') && bound <= bound' && RefersBelow(st, g, bound)
    ensures RefersBelow(st', g, bound')
  {
  }

  /** Allocation never changes the value of what was there. */
  lemma {:induction false} DecodeGrows(st: Store, st': Store, g: Generic, bound: int, bound': int)
    requires Grows(st, st') && Acyclic(st) && Acyclic(st')
    requires 0 <= bound <= |st.cells| && bound <= bound' <= |st'.cells| && RefersBelow(st, g, bound)
    ensures RefersBelow(st', g, bound') && Decode(st', g, bound') == Decode(st, g, bound)
    decreases bound
  {
    RefersGrows(st, st', g, bound, bound');
    if g.Tuple? || (g.List? && g != EMPTY_LIST) {
      forall slot | g.start <= slot <= g.end ensures DecodeSlot(st', slot) == DecodeSlot(st, slot) {
        var cell := st.pool[slot];
        assert st'.pool[slot] == cell && st'.cells[cell] == st.cells[cell];
        DecodeGrows(st, st', st.cells[cell], cell, cell);
      }
    }
  }

  lemma ValueGrows(st: Store, st': Store, g: Generic)
    requires Grows(st, st') && Acyclic(st) && Acyclic(st') && Live(st, g)
    ensures Live(st', g) && ValueOf(st', g) == ValueOf(st, g)
  {
    DecodeGrows(st, st', g, |st.cells|, |st'.cells|);
  }

  // ----- what each allocation adds -----

  function StoreString(st: Store, s: string): (Store, Generic) {
    (st.(chars := st.chars + s + ['\0']), String(|st.chars|, |st.chars| + |s|))
  }

  function Indices(from: nat, n: nat): seq<nat> {
    seq(n, k => from + k)
  }

  function StoreTuple(st: Store, elems: seq<Generic>): (Store, Generic) {
    (st.(cells := st.cells + elems, pool := st.pool + Indices(|st.cells|, |elems|)),
     Tuple(|st.pool|, |st.pool| + |elems| - 1))
  }

  function StoreNil(st: Store): (Store, Generic) {
    (st.(cells := st.cells + [EMPTY_LIST]), EMPTY_LIST)
  }

  /** The index of the cell pushed last, in 32-bit unsigned arithmetic. */
  function LastIndex(st: Store): nat {
    if st.cells == [] then TWO_32 - 1 else |st.cells| - 1
  }

  /** The tail of a list cell is whatever cell was pushed last. */
  function StoreCons(st: Store, head: Generic): (Store, Generic) {
    var list := List(|st.pool|, |st.pool| + 1);
    (st.(cells := st.cells + [head, list], pool := st.pool + [|st.cells|, LastIndex(st)]), list)
  }

  lemma StringStored(st: Store, s: string)
    requires Acyclic(st)
    ensures var (st', g) := StoreString(st, s);
            Grows(st, st') && Acyclic(st') && Live(st', g) && ValueOf(st', g) == StrV(s)
  {
    var (st', g) := StoreString(st, s);
    forall i | 0 <= i < |st'.cells| ensures RefersBelow(st', st'.cells[i], i) {
      RefersGrows(st, st', st.cells[i], i, i);
    }
    assert st'.chars[g.start..g.end] == s;
  }

  lemma TupleAcyclic(st: Store, elems: seq<Generic>)
    requires Acyclic(st) && forall k :: 0 <= k < |elems| ==> Live(st, elems[k])
    ensures var (st', g) := StoreTuple(st, elems); Grows(st, st') && Acyclic(st') && Live(st', g)
  {
    hide RefersBelow;
    var (st', g) := StoreTuple(st, elems);
    var n := |st.cells|;
    forall i | 0 <= i < |st'.cells| ensures RefersBelow(st', st'.cells[i], i) {
      if i < n {
        RefersGrows(st, st', st.cells[i], i, i);
      } else {
        RefersGrows(st, st', elems[i - n], n, i);
      }
    }
    TupleLive(st, elems);
  }

  lemma TupleLive(st: Store, elems: seq<Generic>)
    ensures var (st', g) := StoreTuple(st, elems); Live(st', g)
  {
    var (st', g) := StoreTuple(st, elems);
    forall k | g.start <= k <= g.end ensures st'.pool[k] < |st'.cells| {
      assert st'.pool[k] == Indices(|st.cells|, |elems|)[k - g.start];
    }
  }

  lemma TupleStored(st: Store, elems: seq<Generic>)
    requires Acyclic(st) && forall k :: 0 <= k < |elems| ==> Live(st, elems[k])
    ensures var (st', g) := StoreTuple(st, elems);
            Grows(st, st') && Acyclic(st') && Live(st', g)
            && ValueOf(st', g) == TupleV(seq(|elems|, k requires 0 <= k < |elems| => ValueOf(st, elems[k])))
  {
    hide Acyclic, RefersBelow;
    var (st', g) := StoreTuple(st, elems);
    var n := |st.cells|;
    TupleAcyclic(st, elems);
    forall k | 0 <= k < |elems| ensures DecodeSlot(st', g.start + k) == ValueOf(st, elems[k]) {
      assert st'.pool[g.start + k] == n + k && st'.cells[n + k] == elems[k];
      DecodeGrows(st, st', elems[k], n, n + k);
    }
  }

  lemma NilStored(st: Store)
    requires Acyclic(st)
    ensures var (st', g) := StoreNil(st);
            Grows(st, st') && Acyclic(st') && Live(st', g) && ValueOf(st', g) == NilV
            && st'.cells[|st'.cells| - 1] == g
  {
    var (st', g) := StoreNil(st);
    forall i | 0 <= i < |st'.cells| ensures RefersBelow(st', st'.cells[i], i) {
      if i < |st.cells| {
        RefersGrows(st, st', st.cells[i], i, i);
      }
    }
  }

  lemma ConsAcyclic(st: Store, head: Generic)
    requires Acyclic(st) && Live(st, head) && st.cells != []
    ensures var (st', g) := StoreCons(st, head); Grows(st, st') && Acyclic(st') && Live(st', g)
  {
    var (st', g) := StoreCons(st, head);
    var n := |st.cells|;
    assert st'.pool[g.start] == n && st'.pool[g.end] == n - 1;
    forall i | 0 <= i < |st'.cells| ensures RefersBelow(st', st'.cells[i], i) {
      if i < n {
        RefersGrows(st, st', st.cells[i], i, i);
      } else if i == n {
        RefersGrows(st, st', head, n, n);
      }
    }
  }

  lemma ConsStored(st: Store, head: Generic)
    requires Acyclic(st) && Live(st, head) && st.cells != []
    ensures var (st', g) := StoreCons(st, head);
            Grows(st, st') && Acyclic(st') && Live(st', g)
            && ValueOf(st', g) == ConsV(ValueOf(st, head), LastValue(st))
            && st'.cells[|st'.cells| - 1] == g
  {
    hide Acyclic, RefersBelow;
    ConsAcyclic(st, head);
    var (st', g) := StoreCons(st, head);
    var n := |st.cells|;
    assert st'.pool[g.start] == n && st'.cells[n] == head;
    assert st'.pool[g.end] == n - 1 && st'.cells[n - 1] == st.cells[n - 1];
    DecodeGrows(st, st', head, n, n);
    LastCellOk(st);
    DecodeGrows(st, st', st.cells[n - 1], n - 1, n - 1);
    ListValue(st', g, |st'.cells|);
  }

  lemma LastCellOk(st: Store)
    requires Acyclic(st) && st.cells != []
    ensures RefersBelow(st, st.cells[|st.cells| - 1], |st.cells| - 1)
  {
  }

  /** A list that is not empty has a head and a tail. */
  lemma ListValue(st: Store, g: Generic, bound: int)
    requires Acyclic(st) && 0 <= bound <= |st.cells| && RefersBelow(st, g, bound)
    requires g.List? && g != EMPTY_LIST
    ensures 0 <= g.start < |st.pool| && st.pool[g.start] < bound
    ensures g.end == g.start + 1 < |st.pool| && st.pool[g.end] < bound
    ensures Decode(st, g, bound) == ConsV(DecodeSlot(st, g.start), DecodeSlot(st, g.end))
  {
  }
}
