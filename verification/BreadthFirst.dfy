/** Breadth-first order over a numbered trie: what a visiting order satisfies while
    the root's and the queued nodes' children are being appended to it. */
module BreadthFirst {
  import opened Words
  import opened TrieNumbering

  ghost predicate NoRepeats(order: seq<int>) {
    forall i, j :: 0 <= i < j < |order| ==> order[i] != order[j]
  }

  /** The node visited `k`-th is the parent of the node spelling `p` and has been
      expanded: it is among the first `head`, or at `head` with `p` left of column `ch`. */
  ghost predicate Expands(path: seq<Word>, order: seq<int>, head: int, ch: int, k: int, p: Word)
    requires Nodes(path, order) && p != []
  {
    && 0 <= k < |order| && path[order[k]] == p[..|p| - 1]
    && (k < head || (k == head && p[|p| - 1] < LETTER_A + ch))
  }

  ghost predicate Reached(path: seq<Word>, order: seq<int>, head: int, ch: int, p: Word)
    requires Nodes(path, order)
  {
    p != [] && exists k :: Expands(path, order, head, ch, k, p)
  }

  ghost function Members(order: seq<int>): (members: set<int>)
    ensures forall v :: v in members <==> v in order
  {
    set v | v in order
  }

  lemma MembersAppend(order: seq<int>, v: int)
    ensures Members(order + [v]) == Members(order) + {v}
  {
  }

  ghost predicate Nodes(path: seq<Word>, order: seq<int>) {
    forall i :: 0 <= i < |order| ==> 1 <= order[i] < |path|
  }

  ghost predicate ByDepth(path: seq<Word>, order: seq<int>)
    requires Nodes(path, order)
  {
    forall i, j :: 0 <= i < j < |order| ==> |path[order[i]]| <= |path[order[j]]|
  }

  /** `order` starts at the root, repeats no node, never steps back up in depth, and
      holds exactly the root and the nodes whose parent has been expanded. */
  ghost predicate Visiting(path: seq<Word>, order: seq<int>, head: int, ch: int) {
    && 0 <= head <= |order| && 0 <= ch <= MAXC && (ch > 0 ==> head < |order|)
    && |order| >= 1 && order[0] == 1
    && Nodes(path, order) && NoRepeats(order) && ByDepth(path, order)
    && forall w :: 1 <= w < |path| ==> (w in order <==> w == 1 || Reached(path, order, head, ch, path[w]))
  }

  lemma VisitStart(path: seq<Word>, words: seq<Word>)
    requires Numbering(path, words)
    ensures path[1] == [] && Visiting(path, [1], 0, 0)
  {
    forall w | 1 <= w < |path| && path[w] != [] ensures !Reached(path, [1], 0, 0, path[w]) {
      PathHasLetters(words, path[w]);
    }
  }

  /** Column `ch` matters only to the one string it spells. */
  lemma ColumnReached(path: seq<Word>, order: seq<int>, head: int, ch: int, p: Word)
    requires Nodes(path, order) && 0 <= head < |order| && 0 <= ch < MAXC
    ensures Reached(path, order, head, ch + 1, p) <==>
            Reached(path, order, head, ch, p) || p == path[order[head]] + [Letter(ch)]
  {
    var u := path[order[head]];
    if Reached(path, order, head, ch, p) {
      var k :| Expands(path, order, head, ch, k, p);
      assert Expands(path, order, head, ch + 1, k, p);
    }
    if p == u + [Letter(ch)] {
      assert p[..|p| - 1] == u;
      assert Expands(path, order, head, ch + 1, head, p);
    }
    if Reached(path, order, head, ch + 1, p) {
      var k :| Expands(path, order, head, ch + 1, k, p);
      if k == head && p[|p| - 1] == Letter(ch) {
        assert p == u + [Letter(ch)];
      } else {
        assert Expands(path, order, head, ch, k, p);
      }
    }
  }

  /** The node at `head` has no child in column `ch`. */
  lemma VisitSkip(path: seq<Word>, words: seq<Word>, order: seq<int>, head: int, ch: int)
    requires Numbering(path, words) && Visiting(path, order, head, ch)
    requires head < |order| && ch < MAXC && !IsPath(words, path[order[head]] + [Letter(ch)])
    ensures Visiting(path, order, head, ch + 1)
  {
    forall w | 1 <= w < |path|
      ensures Reached(path, order, head, ch + 1, path[w]) <==> Reached(path, order, head, ch, path[w])
    {
      ColumnReached(path, order, head, ch, path[w]);
    }
  }

  /** No visited node lies deeper than one level below the node at `head`. */
  lemma DepthSpan(path: seq<Word>, words: seq<Word>, order: seq<int>, head: int, ch: int, i: int)
    requires Numbering(path, words) && Visiting(path, order, head, ch) && head < |order| && 0 <= i < |order|
    ensures |path[order[i]]| <= |path[order[head]]| + 1
  {
    var w := order[i];
    if w != 1 {
      assert Reached(path, order, head, ch, path[w]);
      var k :| Expands(path, order, head, ch, k, path[w]);
      assert |path[order[k]]| <= |path[order[head]]|;
    }
  }

  lemma ChildIsNew(path: seq<Word>, words: seq<Word>, order: seq<int>, head: int, ch: int, child: int)
    requires Numbering(path, words) && Visiting(path, order, head, ch)
    requires head < |order| && ch < MAXC
    requires 2 <= child < |path| && path[child] == path[order[head]] + [Letter(ch)]
    ensures child !in order
  {
    var p := path[child];
    assert p[..|p| - 1] == path[order[head]];
    forall k ensures !Expands(path, order, head, ch, k, p) {
      assert 0 <= k < |order| && path[order[k]] == path[order[head]] ==> order[k] == order[head];
    }
  }

  lemma AppendReached(path: seq<Word>, order: seq<int>, head: int, ch: int, child: int, p: Word)
    requires Nodes(path, order) && Nodes(path, order + [child]) && head < |order|
    ensures Reached(path, order + [child], head, ch, p) <==> Reached(path, order, head, ch, p)
  {
    var order' := order + [child];
    if Reached(path, order, head, ch, p) {
      var k :| Expands(path, order, head, ch, k, p);
      assert Expands(path, order', head, ch, k, p);
    }
    if Reached(path, order', head, ch, p) {
      var k :| Expands(path, order', head, ch, k, p);
      assert Expands(path, order, head, ch, k, p);
    }
  }

  /** The child in column `ch` of the node at `head` is new, and goes to the end. */
  lemma VisitAppend(path: seq<Word>, words: seq<Word>, order: seq<int>, head: int, ch: int, child: int)
    requires Numbering(path, words) && Visiting(path, order, head, ch)
    requires head < |order| && ch < MAXC
    requires 2 <= child < |path| && path[child] == path[order[head]] + [Letter(ch)]
    ensures child !in order
    ensures Visiting(path, order + [child], head, ch + 1)
  {
    hide Reached, Numbering;
    var order' := order + [child];
    ChildIsNew(path, words, order, head, ch, child);
    forall i | 0 <= i < |order| ensures |path[order'[i]]| <= |path[child]| {
      DepthSpan(path, words, order, head, ch, i);
    }
    forall w | 1 <= w < |path|
      ensures w in order' <==> w == 1 || Reached(path, order', head, ch + 1, path[w])
    {
      AppendReached(path, order, head, ch + 1, child, path[w]);
      ColumnReached(path, order, head, ch, path[w]);
      if path[w] == path[child] {
        SameNode(path, words, w, child);
      }
    }
  }

  /** All columns done: the node at `head` is expanded. */
  lemma VisitNext(path: seq<Word>, words: seq<Word>, order: seq<int>, head: int)
    requires Numbering(path, words) && Visiting(path, order, head, MAXC) && head < |order|
    ensures Visiting(path, order, head + 1, 0)
  {
    forall w | 1 <= w < |path|
      ensures Reached(path, order, head + 1, 0, path[w]) <==> Reached(path, order, head, MAXC, path[w])
    {
      var p := path[w];
      PathHasLetters(words, p);
      if Reached(path, order, head, MAXC, p) {
        var k :| Expands(path, order, head, MAXC, k, p);
        assert Expands(path, order, head + 1, 0, k, p);
      }
      if Reached(path, order, head + 1, 0, p) {
        var k :| Expands(path, order, head + 1, 0, k, p);
        assert Expands(path, order, head, MAXC, k, p);
      }
    }
  }

  /** Every node no deeper than the next node to expand has been visited; once no
      node is left to expand, every node has. */
  lemma {:induction false} LevelVisited(path: seq<Word>, words: seq<Word>, order: seq<int>, head: int, ch: int, w: int)
    requires Numbering(path, words) && Visiting(path, order, head, ch) && 1 <= w < |path|
    requires head < |order| ==> |path[w]| <= |path[order[head]]|
    ensures w in order
    decreases |path[w]|
  {
    var p := path[w];
    if w != 1 {
      var q := p[..|p| - 1];
      assert p == q + [p[|p| - 1]];
      PrefixIsPath(words, q, p[|p| - 1]);
      assert IsNode(path, q);
      var u :| 1 <= u < |path| && path[u] == q;
      LevelVisited(path, words, order, head, ch, u);
      var k :| 0 <= k < |order| && order[k] == u;
      assert Expands(path, order, head, ch, k, p);
    }
  }

  /** A repetition-free order of nodes is no longer than the numbering. */
  lemma {:induction false} OrderFits(order: seq<int>, n: int)
    requires NoRepeats(order) && forall i :: 0 <= i < |order| ==> 1 <= order[i] < n
    ensures |order| <= if n < 1 then 0 else n - 1
    decreases n
  {
    if order != [] {
      assert 1 <= order[0] < n;
      if k :| 0 <= k < |order| && order[k] == n - 1 {
        OrderFits(order[..k] + order[k + 1..], n - 1);
      } else {
        OrderFits(order, n - 1);
      }
    }
  }

  /** A repetition-free order of all nodes 1..n has exactly n - 1 entries. */
  lemma {:induction false} OrderFull(order: seq<int>, n: int)
    requires NoRepeats(order) && 1 <= n
    requires forall i :: 0 <= i < |order| ==> 1 <= order[i] < n
    requires forall v :: 1 <= v < n ==> v in order
    ensures |order| == n - 1
    decreases n
  {
    OrderFits(order, n);
    if n > 1 {
      assert n - 1 in order;
      var k :| 0 <= k < |order| && order[k] == n - 1;
      var rest := order[..k] + order[k + 1..];
      forall v | 1 <= v < n - 1 ensures v in rest {
        assert v in order;
        var i :| 0 <= i < |order| && order[i] == v;
        assert if i < k then rest[i] == v else rest[i - 1] == v;
      }
      OrderFull(rest, n - 1);
    }
  }

  lemma VisitFacts(path: seq<Word>, order: seq<int>, head: int, ch: int)
    requires Visiting(path, order, head, ch)
    ensures 0 <= head <= |order| < |path|
    ensures 1 <= head < |order| ==> 2 <= order[head] < |path|
  {
    OrderFits(order, |path|);
  }

  /** With nothing left to expand, every node has been visited exactly once. */
  lemma VisitComplete(path: seq<Word>, words: seq<Word>, order: seq<int>, head: int)
    requires Numbering(path, words) && Visiting(path, order, head, 0) && head == |order|
    ensures |order| == |path| - 1 && order[0] == 1 && NoRepeats(order)
    ensures forall v :: 1 <= v < |path| <==> v in order
    ensures Nodes(path, order) && ByDepth(path, order)
  {
    forall v | 1 <= v < |path| ensures v in order {
      LevelVisited(path, words, order, head, 0, v);
    }
    OrderFull(order, |path|);
  }
}
