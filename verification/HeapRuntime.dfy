/** The runtime heap of the generated programs: the emitted statements, on the arrays and
    indices they update in place. */
module HeapRuntime {
  import opened Constructors
  import opened FixedWidth
  import opened HeapStore
  import opened Options

  /** `i - 1` in 32-bit unsigned arithmetic. */
  function UnsignedPred(i: nat): (r: nat)
    requires i < TWO_32
    ensures r == if i == 0 then TWO_32 - 1 else i - 1
  {
    Unsigned(i - 1)
  }

  class Runtime {
    const heap: array<Generic>
    const tuplePool: array<nat>
    const stringPool: array<char>
    var heapIndex: nat
    var tuplePoolIndex: nat
    var stringPoolIndex: nat

    ghost predicate Valid()
      reads this
    {
      && heapIndex <= heap.Length < TWO_32
      && tuplePoolIndex <= tuplePool.Length < TWO_32
      && stringPoolIndex <= stringPool.Length < TWO_32
    }

    /** What has been allocated. */
    ghost function View(): Store
      requires Valid()
      reads this, heap, tuplePool, stringPool
    {
      Store(heap[..heapIndex], tuplePool[..tuplePoolIndex], stringPool[..stringPoolIndex])
    }

    constructor (heapSize: nat, tuplePoolSize: nat, stringPoolSize: nat)
      requires heapSize < TWO_32 && tuplePoolSize < TWO_32 && stringPoolSize < TWO_32
      ensures Valid() && fresh(heap) && fresh(tuplePool) && fresh(stringPool)
      ensures heap.Length == heapSize && tuplePool.Length == tuplePoolSize && stringPool.Length == stringPoolSize
      ensures View() == Store([], [], []) && Acyclic(View())
    {
      heap := new Generic[heapSize];
      tuplePool := new nat[tuplePoolSize];
      stringPool := new char[stringPoolSize];
      heapIndex, tuplePoolIndex, stringPoolIndex := 0, 0, 0;
    }

    /** A string literal with its terminator; the last character of the pool stays unused. */
    method NewString(s: string) returns (r: Option<Generic>)
      requires Valid()
      modifies this`stringPoolIndex, stringPool
      ensures Valid()
      ensures r.Some? <==> old(stringPoolIndex) + |s| + 1 < stringPool.Length
      ensures r.Some? ==> (View(), r.value) == StoreString(old(View()), s)
    {
      var len := |s| + 1;
      var end := stringPoolIndex + len - 1;
      if end + 1 >= stringPool.Length {
        return None;
      }
      var literal := s + ['\0'];
      if stringPoolIndex < stringPool.Length - len {
        for i := 0 to len
          invariant stringPoolIndex == old(stringPoolIndex) && end < stringPool.Length
          invariant stringPool[..stringPoolIndex + i] == old(stringPool[..stringPoolIndex]) + literal[..i]
        {
          stringPool[stringPoolIndex + i] := literal[i];
        }
      }
      r := Some(String(stringPoolIndex, end));
      assert literal[..len] == literal;
      ghost var chars := old(stringPool[..stringPoolIndex]);
      assert chars + literal == chars + s + ['\0'];
      stringPoolIndex := end + 1;
    }

    /** A tuple of the given elements, cell by cell and slot by slot. */
    method NewTuple(elems: seq<Generic>) returns (r: Option<Generic>)
      requires Valid()
      modifies this`heapIndex, this`tuplePoolIndex, heap, tuplePool
      ensures Valid()
      ensures r.Some? <==> old(heapIndex) + |elems| <= heap.Length && old(tuplePoolIndex) + |elems| <= tuplePool.Length
      ensures r.Some? ==> (View(), r.value) == StoreTuple(old(View()), elems)
    {
      for k := 0 to |elems|
        invariant Valid() && heapIndex == old(heapIndex) && tuplePoolIndex == old(tuplePoolIndex)
        invariant heapIndex + k <= heap.Length && tuplePoolIndex + k <= tuplePool.Length
        invariant heap[..heapIndex + k] == old(heap[..heapIndex]) + elems[..k]
        invariant tuplePool[..tuplePoolIndex + k] == old(tuplePool[..tuplePoolIndex]) + Indices(heapIndex, k)
      {
        if heapIndex < heap.Length - k {
          heap[heapIndex + k] := elems[k];
        } else {
          return None;
        }
        if tuplePoolIndex < tuplePool.Length - k {
          tuplePool[tuplePoolIndex + k] := heapIndex + k;
          assert Indices(heapIndex, k + 1) == Indices(heapIndex, k) + [heapIndex + k];
        } else {
          return None;
        }
      }
      assert elems[..|elems|] == elems;
      heapIndex := heapIndex + |elems|;
      tuplePoolIndex := tuplePoolIndex + |elems|;
      r := Some(Tuple(tuplePoolIndex - |elems|, tuplePoolIndex - 1));
    }

    method NewNil() returns (r: Option<Generic>)
      requires Valid()
      modifies this`heapIndex, heap
      ensures Valid()
      ensures r.Some? <==> old(heapIndex) + 1 <= heap.Length
      ensures r.Some? ==> (View(), r.value) == StoreNil(old(View()))
    {
      if heapIndex < heap.Length {
        heap[heapIndex] := EMPTY_LIST;
      } else {
        return None;
      }
      heapIndex := heapIndex + 1;
      assert heap[..heapIndex] == old(heap[..heapIndex]) + [EMPTY_LIST];
      r := Some(EMPTY_LIST);
    }

    /** A list cell: its head, and as its tail whatever was pushed last. */
    method NewCons(head: Generic) returns (r: Option<Generic>)
      requires Valid()
      modifies this`heapIndex, this`tuplePoolIndex, heap, tuplePool
      ensures Valid()
      ensures r.Some? <==> old(heapIndex) + 2 <= heap.Length && old(tuplePoolIndex) + 2 <= tuplePool.Length
      ensures r.Some? ==> (View(), r.value) == StoreCons(old(View()), head)
    {
      ghost var st := View();
      if tuplePoolIndex < tuplePool.Length {
        tuplePool[tuplePoolIndex] := heapIndex;
      } else {
        return None;
      }
      tuplePoolIndex := tuplePoolIndex + 1;
      if tuplePoolIndex < tuplePool.Length {
        tuplePool[tuplePoolIndex] := UnsignedPred(heapIndex);
      } else {
        return None;
      }
      tuplePoolIndex := tuplePoolIndex + 1;
      var list := List(tuplePoolIndex - 2, tuplePoolIndex - 1);
      if heapIndex < heap.Length {
        heap[heapIndex] := head;
      } else {
        return None;
      }
      heapIndex := heapIndex + 1;
      if heapIndex < heap.Length {
        heap[heapIndex] := list;
      } else {
        return None;
      }
      heapIndex := heapIndex + 1;
      r := Some(list);
      assert View().pool == st.pool + [|st.cells|, LastIndex(st)];
      assert View().cells == st.cells + [head, list];
    }

    /** There is room for the cells, slots and characters of an expression. */
    ghost predicate Room(cells: nat, slots: nat, chars: nat)
      reads this
    {
      && heapIndex + cells <= heap.Length && tuplePoolIndex + slots <= tuplePool.Length
      && (chars == 0 || stringPoolIndex + chars < stringPool.Length)
    }

    /** Run the code emitted for `e`: it succeeds exactly when there is room. */
    method Build(e: Expr, env: map<string, Generic>) returns (r: Option<Generic>)
      requires Valid() && Scoped(e, env.Keys)
      modifies this, heap, tuplePool, stringPool
      ensures Valid()
      ensures r.Some? <==> old(Room(Cells(e), Slots(e), Chars(e)))
      ensures r.Some? ==> (View(), r.value) == Emit(e, env, old(View()))
      decreases e, 0
    {
      match e
      case IntE(i) => r := Some(Integer(Signed32(i)));
      case AtomE(name) => r := Some(AtomCell(name));
      case StrE(s) => r := NewString(s);
      case VarE(x) => r := Some(env[x]);
      case NilE => r := NewNil();
      case TupleE(es) => r := BuildTuple(es, env);
      case ConsE(h, t) => r := BuildCons(h, t, env);
    }

    method BuildTuple(es: seq<Expr>, env: map<string, Generic>) returns (r: Option<Generic>)
      requires Valid() && forall e :: e in es ==> Scoped(e, env.Keys)
      modifies this, heap, tuplePool, stringPool
      ensures Valid()
      ensures r.Some? <==> old(Room(CellsAll(es) + |es|, SlotsAll(es) + |es|, CharsAll(es)))
      ensures r.Some? ==>
                var (st1, gs) := EmitAll(es, env, old(View()));
                (View(), r.value) == StoreTuple(st1, gs)
      decreases es, 2
    {
      hide EmitAll, CellsAll, SlotsAll, CharsAll;
      EmitAllSizes(es, env, View());
      var gs := BuildAll(es, env);
      if gs.None? {
        return None;
      }
      r := NewTuple(gs.value);
    }

    /** The tail first, then the head, then the list cell. */
    method BuildCons(h: Expr, t: Expr, env: map<string, Generic>) returns (r: Option<Generic>)
      requires Valid() && Scoped(h, env.Keys) && Scoped(t, env.Keys)
      modifies this, heap, tuplePool, stringPool
      ensures Valid()
      ensures r.Some? <==> old(Room(Cells(t) + Cells(h) + 2, Slots(t) + Slots(h) + 2, Chars(t) + Chars(h)))
      ensures r.Some? ==>
                var (st1, _) := Emit(t, env, old(View()));
                var (st2, g) := Emit(h, env, st1);
                (View(), r.value) == StoreCons(st2, g)
      decreases ConsE(h, t), -1
    {
      hide Emit, Cells, Slots, Chars, Scoped;
      EmitSizes(t, env, View());
      var tail := Build(t, env);
      if tail.None? {
        return None;
      }
      EmitSizes(h, env, View());
      var head := Build(h, env);
      if head.None? {
        return None;
      }
      r := NewCons(head.value);
    }

    method BuildAll(es: seq<Expr>, env: map<string, Generic>) returns (r: Option<seq<Generic>>)
      requires Valid() && forall e :: e in es ==> Scoped(e, env.Keys)
      modifies this, heap, tuplePool, stringPool
      ensures Valid()
      ensures r.Some? <==> old(Room(CellsAll(es), SlotsAll(es), CharsAll(es)))
      ensures r.Some? ==> (View(), r.value) == EmitAll(es, env, old(View()))
      decreases es, 1
    {
      if es == [] {
        return Some([]);
      }
      EmitSizes(es[0], env, View());
      var g := Build(es[0], env);
      if g.None? {
        return None;
      }
      EmitAllSizes(es[1..], env, View());
      var gs := BuildAll(es[1..], env);
      if gs.None? {
        return None;
      }
      r := Some([g.value] + gs.value);
    }
  }
}
