/** The Aho-Corasick automaton of user space: trie insertion, breadth-first
    failure links and outputs, and the flattened goto table. */
module AhoCorasick {
  import opened Words
  import opened Bitmask
  import opened CircularQueue
  import opened TrieNumbering
  import opened BreadthFirst

  const SIZETEXT := 10
  const MAXSTATES := MAPSTRINGSSIZE * SIZETEXT + 1
  // `MAXSTATES * MAXC` where the macro MAXSTATES expands without parentheses
  const QUEUE_CAPACITY := MAPSTRINGSSIZE * SIZETEXT + 1 * MAXC

  /** The length of a line as a C string. */
  function StrLen(line: seq<byte>): (n: nat)
    ensures n <= |line|
  {
    if line == [] || line[0] == NUL then 0 else 1 + StrLen(line[1..])
  }

  /** What a line of the word file contributes: everything before its newline. */
  function TextOf(line: seq<byte>): (t: Word)
    ensures |t| <= StrLen(line) && t == line[..|t|]
    ensures |t| < |line| ==> line[|t|] == NEWLINE || line[|t|] == NUL
    ensures NEWLINE !in t && NUL !in t
  {
    if line == [] || line[0] == NEWLINE || line[0] == NUL then [] else [line[0]] + TextOf(line[1..])
  }

  /** `m` marks exactly the words equal to `p`. */
  ghost predicate Marks(m: Mask, words: seq<Word>, p: Word) {
    && Small(m)
    && forall j: nat :: j < MAPSTRINGSSIZE ==> (Has(m, j) <==> j < |words| && words[j] == p)
  }

  /** `m` marks exactly the words that end `s`. */
  ghost predicate MarksEnds(m: Mask, words: seq<Word>, s: Word) {
    && Small(m)
    && forall j: nat :: j < MAPSTRINGSSIZE ==> (Has(m, j) <==> j < |words| && Ends(words, j, s))
  }

  lemma MarkWord(m: Mask, words: seq<Word>, w: Word)
    requires |words| < MAPSTRINGSSIZE && Marks(m, words, w)
    ensures Marks(m.Or(Flag(|words|)), words + [w], w)
  {
    HasFlag(|words|, |words|);
    SmallOr(m, Flag(|words|));
    var m', words' := m.Or(Flag(|words|)), words + [w];
    forall j: nat | j < MAPSTRINGSSIZE
      ensures Has(m', j) <==> j < |words'| && words'[j] == w
    {
      HasOr(m, Flag(|words|), j);
      HasFlag(|words|, j);
      assert Has(m, j) <==> j < |words| && words[j] == w;
    }
    assert Marks(m', words', w);
  }

  /** A node's output is its own word plus the output of its failure node. */
  lemma MergeOutputs(a: Mask, b: Mask, words: seq<Word>, p: Word)
    requires |p| >= 2
    requires Marks(a, words, p) && MarksEnds(b, words, LongestSuffix(words, p[1..]))
    ensures MarksEnds(a.Or(b), words, p)
  {
    SmallOr(a, b);
    var m := a.Or(b);
    forall j: nat | j < MAPSTRINGSSIZE
      ensures Has(m, j) <==> j < |words| && Ends(words, j, p)
    {
      HasOr(a, b, j);
      if j < |words| {
        WordEndsLongestSuffix(words, j, p[1..]);
        if words[j] != [] && |words[j]| < |p| {
          SuffixOfTail(words[j], p);
        }
      }
    }
  }

  /** At the root and one letter below it there is nothing to merge. */
  lemma ShortOutputs(m: Mask, words: seq<Word>, p: Word)
    requires |p| <= 1 && IsPath(words, p) && Marks(m, words, p)
    ensures MarksEnds(m, words, p)
  {
    forall j: nat | j < |words| ensures Ends(words, j, p) <==> words[j] == p {
      assert p != [] ==> p == [p[|p| - 1]];
    }
  }

  // ----- where the breadth-first pass reads past a row -----

  /** The first letter of the first word that is not blank: the string of node 2. */
  ghost function FirstLetter(words: seq<Word>): Word {
    if words == [] then []
    else
      var f, last := FirstLetter(words[..|words| - 1]), words[|words| - 1];
      if f != [] then f else if last == [] then [] else last[..1]
  }

  /** A letter 'a' that is not the first of its word comes right after that first letter. */
  ghost predicate Aligned(words: seq<Word>) {
    forall p: Word :: p != [] && IsPath(words, p + [LETTER_A]) ==> p == FirstLetter(words)
  }

  lemma FirstLetterSnoc(words: seq<Word>, w: Word)
    ensures FirstLetter(words + [w])
         == if FirstLetter(words) != [] then FirstLetter(words) else if w == [] then [] else w[..1]
  {
    assert (words + [w])[..|words|] == words;
  }

  datatype GotoResult = GotoResult(next_state: int, match_: Mask)

  /** Cell (s, c) of a correct table moves to the node of the longest suffix, and its
      match marks the words that end there.  Unless `matchOfNext`, only the root and
      trie edges carry a match. */
  ghost predicate CellOk(path: seq<Word>, words: seq<Word>, s: int, c: int, gt: GotoResult, matchOfNext: bool)
    requires 1 <= s < |path| && 0 <= c < MAXC
  {
    var t := path[s] + [Letter(c)];
    && 1 <= gt.next_state < |path| && path[gt.next_state] == LongestSuffix(words, t)
    && if matchOfNext || s == 1 || IsPath(words, t) then MarksEnds(gt.match_, words, t) else gt.match_ == NONE
  }

  ghost function NodesBelow(n: int): (nodes: set<int>)
    ensures forall v :: v in nodes <==> 1 <= v < n
  {
    if n <= 1 then {} else NodesBelow(n - 1) + {n - 1}
  }

  lemma EndsOfNode(words: seq<Word>, t: Word, m: Mask)
    requires MarksEnds(m, words, LongestSuffix(words, t))
    ensures MarksEnds(m, words, t)
  {
    forall j: nat | j < |words| ensures Ends(words, j, t) <==> Ends(words, j, LongestSuffix(words, t)) {
      WordEndsLongestSuffix(words, j, t);
    }
  }

  class Automaton {
    const out: array<Mask>
    const failure: array<int>
    const go: array2<int>
    var states: int

    /** The string each node spells; index 0 is unused. */
    ghost var path: seq<Word>

    constructor ()
      ensures fresh(out) && fresh(failure) && fresh(go)
      ensures Trie([], 0) && Marked([]) && Leads([]) && states == 2
    {
      out := new Mask[MAXSTATES](i => NONE);
      failure := new int[MAXSTATES];
      go := new int[MAXSTATES, MAXC]((i, j) => 0);
      states := 2;
      path := [[], []];
      new;
      FirstNode();
      forall j: nat | j < MAPSTRINGSSIZE ensures !Has(NONE, j) {
        HasNone(j);
      }
    }

    ghost predicate Shape()
      reads this
    {
      && out.Length == failure.Length == go.Length0 == MAXSTATES && go.Length1 == MAXC
      && 2 <= states <= MAXSTATES && |path| == states
    }

    /** The go matrix is the trie of `words`; `rootAbsent` is what the root row
        holds where no word starts (0 while inserting, 1 afterwards). */
    ghost predicate Trie(words: seq<Word>, rootAbsent: int)
      reads this, go
    {
      && Shape() && Numbering(path, words)
      && (forall s, c :: 1 <= s < states && 0 <= c < MAXC ==> Edge(path, words, s, c, go[s, c], rootAbsent))
      && (forall s, c :: (s == 0 || states <= s < MAXSTATES) && 0 <= c < MAXC ==> go[s, c] == 0)
    }

    /** Before the breadth-first pass `out` marks exactly the word ends. */
    ghost predicate Marked(words: seq<Word>)
      reads this, out
    {
      && Shape() && |words| <= MAPSTRINGSSIZE
      && (forall s :: 1 <= s < states ==> Marks(out[s], words, path[s]))
      && (forall s :: s == 0 || states <= s < MAXSTATES ==> out[s] == NONE)
    }

    /** Node 2 is the first letter of the list. */
    ghost predicate Leads(words: seq<Word>)
      reads this
    {
      |path| == states && if FirstLetter(words) == [] then states == 2 else states > 2 && path[2] == FirstLetter(words)
    }

    /** The next state number becomes the child of `s` along column `ch`. */
    method NewNode(s: int, ch: int, ghost words: seq<Word>, ghost p: Word)
      requires |words| <= MAPSTRINGSSIZE && Trie(words + [p], 0) && Marked(words)
      requires 1 <= s < states < MAXSTATES && 0 <= ch < MAXC && path[s] == p
      requires go[s, ch] == 0
      modifies this, go
      ensures states == old(states) + 1 && go[s, ch] == old(states)
      ensures path == old(path) + [p + [Letter(ch)]]
      ensures Trie(words + [p + [Letter(ch)]], 0) && Marked(words)
    {
      hide IsPath, IsNode, Marks;
      ghost var p' := p + [Letter(ch)];
      ghost var before, after := words + [p], words + [p'];
      LongerWordPaths(words, p, Letter(ch));
      if IsPath(words, p') {
        MoreWordsMorePaths(words, p, p');
      }
      NewMark(words, p');
      assert Edge(path, before, s, ch, go[s, ch], 0);
      MoreLetterWords(words, p, ch);
      NumberNewNode(path, before, after, p');
      forall t, c | 1 <= t < states && 0 <= c < MAXC && (t != s || c != ch)
        ensures Edge(path + [p'], after, t, c, go[t, c], 0)
      {
        if path[t] + [Letter(c)] == p' {
          SnocInjective(path[t], p, Letter(c), Letter(ch));
        }
        KeepEdge(path, before, after, p', t, c, go[t, c]);
      }
      forall c | 0 <= c < MAXC ensures Edge(path + [p'], after, |path|, c, 0, 0) {
        LeafEdge(path, before, after, p', c);
      }
      go[s, ch] := states;
      states := states + 1;
      path := path + [p'];
    }

    lemma NewMark(words: seq<Word>, p: Word)
      requires |words| <= MAPSTRINGSSIZE && !IsPath(words, p)
      ensures Marks(NONE, words, p)
    {
      forall j: nat | j < MAPSTRINGSSIZE ensures !Has(NONE, j) && !(j < |words| && words[j] == p) {
        HasNone(j);
      }
    }

    /** Follow the edge along column `ch`, creating it if it is missing. */
    method Child(s: int, ch: int, ghost words: seq<Word>, ghost p: Word) returns (child: int)
      requires |words| <= MAPSTRINGSSIZE && Trie(words + [p], 0) && Marked(words)
      requires 1 <= s < states < MAXSTATES && 0 <= ch < MAXC && path[s] == p
      requires Leads(words + [p])
      modifies this, go
      ensures Trie(words + [p + [Letter(ch)]], 0) && Marked(words) && Leads(words + [p + [Letter(ch)]])
      ensures old(states) <= states <= old(states) + 1
      ensures 1 <= child < states && path[child] == p + [Letter(ch)]
    {
      assert Edge(path, words + [p], s, ch, go[s, ch], 0);
      FirstLetterSnoc(words, p);
      FirstLetterSnoc(words, p + [Letter(ch)]);
      assert p != [] ==> (p + [Letter(ch)])[..1] == p[..1];
      if go[s, ch] == 0 {
        NewNode(s, ch, words, p);
      } else {
        KnownChild(s, ch, words, p);
      }
      child := go[s, ch];
    }

    lemma KnownChild(s: int, ch: int, words: seq<Word>, p: Word)
      requires Trie(words + [p], 0) && 1 <= s < states && 0 <= ch < MAXC && path[s] == p && go[s, ch] != 0
      ensures Trie(words + [p + [Letter(ch)]], 0) && path[go[s, ch]] == p + [Letter(ch)]
    {
      var before, after := words + [p], words + [p + [Letter(ch)]];
      assert Edge(path, before, s, ch, go[s, ch], 0);
      LongerWordPaths(words, p, Letter(ch));
      MoreLetterWords(words, p, ch);
      SamePaths(path, before, after);
      forall t, c | 1 <= t < states && 0 <= c < MAXC ensures Edge(path, after, t, c, go[t, c], 0) {
        assert Edge(path, before, t, c, go[t, c], 0);
      }
    }

    lemma EmptyWordTrie(words: seq<Word>)
      requires Trie(words, 0)
      ensures Trie(words + [[]], 0)
    {
      EmptyWordPaths(words);
      var empty: Word := [];
      assert LetterWords(words + [empty]);
      SamePaths(path, words, words + [empty]);
      forall t, c | 1 <= t < states && 0 <= c < MAXC ensures Edge(path, words + [empty], t, c, go[t, c], 0) {
        assert Edge(path, words, t, c, go[t, c], 0);
      }
    }

    /** The node where the word ends gets the word's bit. */
    method MarkEnd(s: int, index: nat, ghost words: seq<Word>, ghost w: Word)
      requires index == |words| < MAPSTRINGSSIZE && Marked(words)
      requires Numbering(path, words + [w]) && 1 <= s < states && path[s] == w
      modifies out
      ensures Marked(words + [w])
    {
      MarkWord(out[s], words, w);
      out[s] := out[s].Or(Flag(index));
      forall t | 1 <= t < states ensures Marks(out[t], words + [w], path[t]) {
        assert t == s || path[t] != w;
      }
    }

    /** Each line adds its word to the trie, or is refused at its first byte
        outside 'a'..'z'. */
    method InsertLine(line: seq<byte>, index: nat, ghost words: seq<Word>) returns (ok: bool)
      requires StrLen(line) < SIZETEXT
      requires index == |words| < MAPSTRINGSSIZE
      requires Trie(words, 0) && Marked(words) && Leads(words) && states <= 2 + (SIZETEXT - 1) * index
      modifies this, go, out
      ensures ok <==> AllLetters(TextOf(line))
      ensures ok ==> Trie(words + [TextOf(line)], 0) && Marked(words + [TextOf(line)]) && Leads(words + [TextOf(line)])
      ensures ok ==> states <= 2 + (SIZETEXT - 1) * (index + 1)
    {
      hide Edge, IsPath, IsNode, Marks, StrLen, FirstLetter;
      var currentState := 1;
      ghost var w := TextOf(line);
      FirstLetterSnoc(words, []);
      EmptyWordTrie(words);
      var i := 0;
      while i < SIZETEXT
        invariant 0 <= i <= |w| && i <= SIZETEXT
        invariant AllLetters(w[..i])
        invariant Trie(words + [w[..i]], 0) && Marked(words) && Leads(words + [w[..i]])
        invariant states <= 2 + (SIZETEXT - 1) * index + i
        invariant 1 <= currentState < states && path[currentState] == w[..i]
      {
        if i == |line| || line[i] == NUL || line[i] == NEWLINE {
          break;
        }
        var ch := line[i] - LETTER_A;
        if ch < 0 || ch >= MAXC {
          return false;
        }
        assert w[..i + 1] == w[..i] + [Letter(ch)];
        currentState := Child(currentState, ch, words, w[..i]);
        i := i + 1;
      }
      assert w[..i] == w;
      MarkEnd(currentState, index, words, w);
      return true;
    }

    /** Columns of the root where no word starts loop back to the root. */
    method FillRoot(ghost words: seq<Word>)
      requires Trie(words, 0)
      modifies go
      ensures Trie(words, 1)
    {
      for ch := 0 to MAXC
        invariant Shape() && Numbering(path, words)
        invariant forall s, c :: 2 <= s < states && 0 <= c < MAXC ==> Edge(path, words, s, c, go[s, c], 0)
        invariant forall c :: 0 <= c < ch ==> Edge(path, words, 1, c, go[1, c], 1)
        invariant forall c :: ch <= c < MAXC ==> Edge(path, words, 1, c, go[1, c], 0)
        invariant forall s, c :: (s == 0 || states <= s < MAXSTATES) && 0 <= c < MAXC ==> go[s, c] == 0
      {
        if go[1, ch] == 0 {
          go[1, ch] := 1;
        }
      }
      forall s, c | 2 <= s < states && 0 <= c < MAXC ensures Edge(path, words, s, c, go[s, c], 1) {
        assert Edge(path, words, s, c, go[s, c], 0);
      }
    }

    /** The trie is a tree: every node but the root is the child of exactly one cell. */
    lemma OneParent(words: seq<Word>, rootAbsent: int, t: int) returns (s: int, c: int)
      requires Trie(words, rootAbsent) && rootAbsent <= 1 && 2 <= t < states
      ensures 1 <= s < states && 0 <= c < MAXC && go[s, c] == t && path[t] == path[s] + [Letter(c)]
      ensures forall s', c' :: 0 <= s' < MAXSTATES && 0 <= c' < MAXC && go[s', c'] == t ==> s' == s && c' == c
    {
      var p := path[t];
      if p == [] {
        SameNode(path, words, t, 1);
      }
      PathHasLetters(words, p);
      var q := p[..|p| - 1];
      c := p[|p| - 1] - LETTER_A;
      assert p == q + [Letter(c)];
      PrefixIsPath(words, q, Letter(c));
      assert IsNode(path, q);
      s :| 1 <= s < states && path[s] == q;
      assert Edge(path, words, s, c, go[s, c], rootAbsent);
      SameNode(path, words, go[s, c], t);
      forall s', c' | 0 <= s' < MAXSTATES && 0 <= c' < MAXC && go[s', c'] == t ensures s' == s && c' == c {
        assert 1 <= s' < states;
        assert Edge(path, words, s', c', go[s', c'], rootAbsent);
        SnocInjective(path[s'], q, Letter(c'), Letter(c));
        SameNode(path, words, s', s);
      }
    }

    // ----- failure links and outputs -----

    /** `failure[v]` is the node of the longest proper suffix of `v`'s string that is a path. */
    ghost predicate Linked(words: seq<Word>, v: int)
      requires Shape() && 1 <= v < states
      reads this, failure
    {
      path[v] != [] && 1 <= failure[v] < states && path[failure[v]] == LongestSuffix(words, path[v][1..])
    }

    ghost predicate LinkedAll(words: seq<Word>, nodes: set<int>)
      requires Shape()
      reads this, failure
    {
      forall v :: v in nodes && 2 <= v < states ==> Linked(words, v)
    }

    /** Visited nodes output every word that ends their string, the others only their own word. */
    ghost predicate Outputs(words: seq<Word>, visited: set<int>)
      requires Shape()
      reads this, out
    {
      && out[0] == NONE
      && forall s :: 1 <= s < states ==>
           if s in visited then MarksEnds(out[s], words, path[s]) else Marks(out[s], words, path[s])
    }

    lemma RootOutputs(words: seq<Word>)
      requires Marked(words) && Numbering(path, words)
      ensures LinkedAll(words, {1}) && Outputs(words, {1})
    {
      ShortOutputs(out[1], words, path[1]);
    }

    /** Row-major reading of the matrix: column MAXC of a row is column 0 of the next one. */
    function GoAt(s: int, ch: int): int
      requires go.Length0 == MAXSTATES && go.Length1 == MAXC
      requires 0 <= s && 0 <= ch <= MAXC && (if ch < MAXC then s < MAXSTATES else s + 1 < MAXSTATES)
      reads this, go
    {
      if ch < MAXC then go[s, ch] else go[s + 1, 0]
    }

    /** ... as the memory of the matrix lies, `s * MAXC + ch` cells from its start. */
    lemma RowMajor(s: int, ch: int)
      requires go.Length0 == MAXSTATES && go.Length1 == MAXC
      requires 0 <= s && 0 <= ch <= MAXC && s * MAXC + ch < MAXSTATES * MAXC
      ensures GoAt(s, ch) == go[(s * MAXC + ch) / MAXC, (s * MAXC + ch) % MAXC]
    {
    }

    /** A failed column on the failure chain may be retried one link further. */
    lemma ChainStep(words: seq<Word>, f: int, ch: int)
      requires Trie(words, 1) && 1 <= f < states && 0 <= ch < MAXC && go[f, ch] == 0
      ensures f >= 2 && path[f] != []
      ensures Linked(words, f) ==>
                |path[failure[f]]| < |path[f]| &&
                LongestSuffix(words, path[failure[f]] + [Letter(ch)]) == LongestSuffix(words, path[f] + [Letter(ch)])
    {
      assert Edge(path, words, f, ch, go[f, ch], 1);
      if Linked(words, f) {
        LongestSuffixFallback(words, path[f], Letter(ch));
      }
    }

    /** A non-zero cell leads to the longest suffix. */
    lemma ChainEnd(words: seq<Word>, f: int, ch: int)
      requires Trie(words, 1) && 1 <= f < states && 0 <= ch < MAXC && go[f, ch] != 0
      ensures 1 <= go[f, ch] < states
      ensures path[go[f, ch]] == LongestSuffix(words, path[f] + [Letter(ch)])
    {
      assert Edge(path, words, f, ch, go[f, ch], 1);
      var p := path[f] + [Letter(ch)];
      if !IsPath(words, p) {
        assert p == [Letter(ch)] && p[1..] == [];
      }
    }

    /** Walk the failure chain of `currentState` to the first node with a transition on
        `nextInput`, and take it.  The breadth-first pass inlines the same loop. */
    method FindNextState(currentState: int, nextInput: int, ghost words: seq<Word>, ghost nodes: set<int>)
      returns (next: int)
      requires Trie(words, 1) && LinkedAll(words, nodes)
      requires 1 <= currentState < states && 0 <= nextInput < MAXC
      requires forall v :: 1 <= v < states && |path[v]| <= |path[currentState]| ==> v in nodes
      ensures 1 <= next < states
      ensures path[next] == LongestSuffix(words, path[currentState] + [Letter(nextInput)])
      ensures |path[next]| <= |path[currentState]| + 1
    {
      var state := currentState;
      while go[state, nextInput] == 0
        invariant 1 <= state < states && |path[state]| <= |path[currentState]|
        invariant LongestSuffix(words, path[state] + [Letter(nextInput)])
               == LongestSuffix(words, path[currentState] + [Letter(nextInput)])
        decreases |path[state]|
      {
        ChainStep(words, state, nextInput);
        state := failure[state];
      }
      ChainEnd(words, state, nextInput);
      LongestSuffixIsLongest(words, path[currentState] + [Letter(nextInput)]);
      next := go[state, nextInput];
    }

    /** Where the written bound `ch <= MAXC` reads past a row, it finds no edge. */
    ghost predicate NoSpill()
      requires Shape()
      reads this, go
    {
      states < MAXSTATES && forall s :: 3 <= s <= states ==> go[s, 0] == 0
    }

    /** ... exactly when the word list is aligned. */
    lemma NoSpillExact(words: seq<Word>, rootAbsent: int)
      requires Trie(words, rootAbsent) && Leads(words) && states < MAXSTATES
      ensures NoSpill() <==> Aligned(words)
    {
      hide FirstLetter, Edge, Numbering;
      if NoSpill() {
        forall p: Word | p != [] && IsPath(words, p + [LETTER_A]) ensures p == FirstLetter(words) {
          var s := NodeWithA(words, rootAbsent, p);
        }
      }
      forall s | Aligned(words) && 3 <= s <= states ensures go[s, 0] == 0 {
        if go[s, 0] != 0 {
          PathWithA(words, rootAbsent, s);
        }
      }
    }

    lemma NodeWithA(words: seq<Word>, rootAbsent: int, p: Word) returns (s: int)
      requires Trie(words, rootAbsent) && Leads(words) && p != [] && IsPath(words, p + [LETTER_A])
      ensures 2 <= s < states && go[s, 0] != 0 && path[s] == p
      ensures s == 2 ==> p == FirstLetter(words)
    {
      hide FirstLetter;
      PrefixIsPath(words, p, LETTER_A);
      assert IsNode(path, p);
      s :| 1 <= s < states && path[s] == p;
      assert Edge(path, words, s, 0, go[s, 0], rootAbsent);
    }

    lemma PathWithA(words: seq<Word>, rootAbsent: int, s: int)
      requires Trie(words, rootAbsent) && Leads(words) && 3 <= s < MAXSTATES && go[s, 0] != 0
      ensures s < states && path[s] != [] && path[s] != FirstLetter(words) && IsPath(words, path[s] + [LETTER_A])
    {
      hide FirstLetter;
      assert s < states;
      assert Edge(path, words, s, 0, go[s, 0], rootAbsent);
      if path[s] == path[1] {
        SameNode(path, words, s, 1);
      } else if path[s] == path[2] {
        SameNode(path, words, s, 2);
      }
    }

    method SetFailure(child: int, f: int, ghost words: seq<Word>, ghost visited: set<int>)
      requires Shape() && LinkedAll(words, visited)
      requires 2 <= child < states && child !in visited && path[child] != []
      requires 1 <= f < states && path[f] == LongestSuffix(words, path[child][1..])
      modifies failure
      ensures LinkedAll(words, visited + {child})
    {
      failure[child] := f;
    }

    /** A child of the root keeps its output. */
    lemma RootChildOutput(child: int, words: seq<Word>, visited: set<int>)
      requires Shape() && Numbering(path, words) && Outputs(words, visited)
      requires 2 <= child < states && child !in visited && |path[child]| == 1
      ensures path[1] == LongestSuffix(words, path[child][1..])
      ensures Outputs(words, visited + {child})
    {
      ShortOutputs(out[child], words, path[child]);
      assert LongestSuffix(words, path[child][1..]) == [];
    }

    /** A deeper child outputs its failure node's output on top of its own. */
    method MergeOutput(child: int, f: int, ghost words: seq<Word>, ghost visited: set<int>)
      requires Shape() && Outputs(words, visited)
      requires 2 <= child < states && child !in visited && |path[child]| >= 2
      requires f in visited && 1 <= f < states && path[f] == LongestSuffix(words, path[child][1..])
      modifies out
      ensures Outputs(words, visited + {child})
    {
      MergeOutputs(out[child], out[f], words, path[child]);
      out[child] := out[child].Or(out[f]);
    }

    lemma ChildFacts(words: seq<Word>, order: seq<int>, head: int, ch: int)
      requires Trie(words, 1) && LinkedAll(words, Members(order))
      requires 1 <= head < |order| && Visiting(path, order, head, ch) && ch < MAXC && go[order[head], ch] != 0
      ensures var u := order[head];
              var child := go[u, ch];
              && 2 <= u < states && Linked(words, u) && 1 <= failure[u] < states && |path[failure[u]]| < |path[u]|
              && 2 <= child < states && path[child] == path[u] + [Letter(ch)] && |path[child]| >= 2
              && LongestSuffix(words, path[child][1..]) == LongestSuffix(words, path[failure[u]] + [Letter(ch)])
              && child !in order && Visiting(path, order + [child], head, ch + 1)
      ensures forall v :: 1 <= v < states && |path[v]| <= |path[order[head]]| ==> v in order
    {
      hide LongestSuffix, Reached, Numbering;
      var u := order[head];
      VisitFacts(path, order, head, ch);
      assert u in order && Linked(words, u);
      assert Edge(path, words, u, ch, go[u, ch], 1);
      var child := go[u, ch];
      assert path[child][1..] == path[u][1..] + [Letter(ch)];
      LongestSuffixStep(words, path[u][1..], Letter(ch));
      LongestSuffixIsLongest(words, path[u][1..]);
      VisitAppend(path, words, order, head, ch, child);
      forall v | 1 <= v < states && |path[v]| <= |path[u]| ensures v in order {
        LevelVisited(path, words, order, head, ch, v);
      }
    }

    /** The state of the breadth-first pass while `order[head]` is at column `ch` and
        the queue holds `order[from..]`. */
    ghost predicate InPass(q: Queue, words: seq<Word>, order: seq<int>, head: int, ch: int, from: int)
      reads this, go, failure, out, q, q.buffer
    {
      && Trie(words, 1) && Visiting(path, order, head, ch)
      && LinkedAll(words, Members(order)) && Outputs(words, Members(order))
      && q.Valid() && q.capacity == QUEUE_CAPACITY && q.buffer != failure
      && 0 <= from <= |order| && q.Contents() == order[from..]
    }

    /** A new child goes to the end of the queue, which is never full. */
    method EnqueueChild(q: Queue, child: int, ghost words: seq<Word>, ghost order: seq<int>, ghost head: int,
        ghost ch: int)
      requires Trie(words, 1) && Visiting(path, order, head, ch) && head < |order|
      requires Visiting(path, order + [child], head, ch + 1)
      requires LinkedAll(words, Members(order) + {child}) && Outputs(words, Members(order) + {child})
      requires q.Valid() && q.capacity == QUEUE_CAPACITY && q.buffer != failure && q.Contents() == order[head + 1..]
      modifies q, q.buffer
      ensures InPass(q, words, order + [child], head, ch + 1, head + 1)
    {
      hide Numbering, Edge, LinkedAll, Outputs, Linked, Visiting, Members;
      VisitFacts(path, order, head, ch);
      MembersAppend(order, child);
      q.Enqueue(child);
      assert order[head + 1..] + [child] == (order + [child])[head + 1..];
    }

    /** Link the child of `state` along `ch` and queue it. */
    method LinkChild(q: Queue, state: int, ch: int, ghost words: seq<Word>, ghost order: seq<int>, ghost head: int)
      requires 1 <= head < |order| && InPass(q, words, order, head, ch, head + 1)
      requires 1 <= state < states && 0 <= ch < MAXC && order[head] == state && go[state, ch] != 0
      modifies failure, out, q, q.buffer
      ensures InPass(q, words, order + [go[state, ch]], head, ch + 1, head + 1)
    {
      hide Numbering, Visiting, LinkedAll, Outputs, Linked;
      var child := go[state, ch];
      ChildFacts(words, order, head, ch);
      var f := FindNextState(failure[state], ch, words, Members(order));
      SetFailure(child, f, words, Members(order));
      MergeOutput(child, f, words, Members(order));
      EnqueueChild(q, child, words, order, head, ch);
    }

    /** All columns of the dequeued `state`. */
    method ExpandNode(q: Queue, state: int, columns: int, ghost words: seq<Word>, ghost order: seq<int>,
        ghost head: int)
      returns (ghost order': seq<int>)
      requires columns == MAXC || (columns == MAXC + 1 && Shape() && NoSpill())
      requires 2 <= state && 1 <= head < |order| && order[head] == state && InPass(q, words, order, head, 0, head + 1)
      modifies failure, out, q, q.buffer
      ensures InPass(q, words, order', head, MAXC, head + 1) && head < |order'|
    {
      hide Numbering, LinkedAll, Outputs, Linked, NoRepeats, ByDepth, Reached;
      order' := order;
      for ch := 0 to columns
        invariant order <= order' && InPass(q, words, order', head, if ch < MAXC then ch else MAXC, head + 1)
      {
        assert state < states;
        if GoAt(state, ch) != 0 {
          assert ch < MAXC;
          LinkChild(q, state, ch, words, order', head);
          order' := order' + [go[state, ch]];
        } else if ch < MAXC {
          assert Edge(path, words, state, ch, go[state, ch], 1);
          VisitSkip(path, words, order', head, ch);
        }
      }
    }

    /** The root's children fall back to the root and fill the queue. */
    method StartQueue(q: Queue, ghost words: seq<Word>) returns (ghost order: seq<int>)
      requires Trie(words, 1) && Marked(words)
      requires q.Valid() && q.capacity == QUEUE_CAPACITY && q.buffer != failure && q.Contents() == []
      modifies failure, q, q.buffer
      ensures InPass(q, words, order, 1, 0, 1)
    {
      hide Numbering, LinkedAll, Outputs, Linked, NoRepeats, ByDepth, Reached;
      VisitStart(path, words);
      RootOutputs(words);
      order := [1];
      assert Members(order) == {1};
      for ch := 0 to MAXC
        invariant 1 <= |order| && InPass(q, words, order, 0, ch, 1)
      {
        assert Edge(path, words, 1, ch, go[1, ch], 1);
        if go[1, ch] != 1 {
          var child := go[1, ch];
          VisitAppend(path, words, order, 0, ch, child);
          RootChildOutput(child, words, Members(order));
          SetFailure(child, 1, words, Members(order));
          EnqueueChild(q, child, words, order, 0, ch);
          order := order + [child];
        } else {
          VisitSkip(path, words, order, 0, ch);
        }
      }
      VisitNext(path, words, order, 0);
    }

    /** Dequeue and expand until the queue is empty. */
    method DrainQueue(q: Queue, columns: int, ghost words: seq<Word>, ghost order: seq<int>)
      returns (ghost order': seq<int>, ghost head: int)
      requires columns == MAXC || (columns == MAXC + 1 && Shape() && NoSpill())
      requires InPass(q, words, order, 1, 0, 1)
      modifies failure, out, q, q.buffer
      ensures InPass(q, words, order', head, 0, head) && head == |order'|
    {
      hide Numbering, LinkedAll, Outputs, Linked, Visiting, Marked, NoSpill, Members, Edge, Slot;
      order', head := order, 1;
      var empty := q.IsEmpty();
      while !empty
        invariant 1 <= head && InPass(q, words, order', head, 0, head)
        invariant empty <==> q.Contents() == []
        decreases states - head
      {
        VisitFacts(path, order', head, 0);
        var state := q.Dequeue();
        assert state == order'[head] && q.Contents() == order'[head + 1..];
        order' := ExpandNode(q, state, columns, words, order', head);
        VisitNext(path, words, order', head);
        head := head + 1;
        empty := q.IsEmpty();
      }
    }

    /** Breadth-first over the circular queue.  The columns visited are 0..`columns`:
        MAXC as intended, or MAXC + 1 as the bound is written, which stays within the
        rows exactly when there is no spill.  `order` is the visiting order. */
    method BuildFailureLinks(columns: int, ghost words: seq<Word>) returns (ghost order: seq<int>)
      requires Trie(words, 1) && Marked(words)
      requires columns == MAXC || (columns == MAXC + 1 && NoSpill())
      modifies failure, out
      ensures Trie(words, 1)
      ensures |order| == states - 1 && order[0] == 1 && NoRepeats(order)
      ensures forall v :: 1 <= v < states <==> v in order
      ensures Nodes(path, order) && ByDepth(path, order)
      ensures LinkedAll(words, Members(order)) && Outputs(words, Members(order))
    {
      for s := 0 to MAXSTATES
        modifies failure
      {
        failure[s] := -1;
      }
      var q := new Queue(QUEUE_CAPACITY);
      order := StartQueue(q, words);
      ghost var head;
      order, head := DrainQueue(q, columns, words, order);
      VisitComplete(path, words, order, head);
    }

    // ----- the goto table -----

    /** The automaton after the breadth-first pass. */
    ghost predicate Built(words: seq<Word>)
      reads this, go, failure, out
    {
      && Trie(words, 1) && out[0] == NONE
      && forall s :: 1 <= s < states ==> MarksEnds(out[s], words, path[s]) && (s >= 2 ==> Linked(words, s))
    }

    lemma BuiltFromOrder(words: seq<Word>, order: seq<int>)
      requires Trie(words, 1) && LinkedAll(words, Members(order)) && Outputs(words, Members(order))
      requires forall v :: 1 <= v < states <==> v in order
      ensures Built(words)
    {
      hide Trie, Edge, Numbering, MarksEnds, Linked;
    }

    /** One cell of the goto table.  As written, the match is read from the output of the
        trie edge, so it is 0 on a failure transition; with `matchOfNext` it is read from
        the state moved to. */
    method GotoCell(s: int, c: int, matchOfNext: bool, ghost words: seq<Word>) returns (gt: GotoResult)
      requires Built(words) && 1 <= s < states && 0 <= c < MAXC
      ensures CellOk(path, words, s, c, gt, matchOfNext)
    {
      hide Numbering, IsPath, MarksEnds;
      ghost var nodes := NodesBelow(states);
      assert Edge(path, words, s, c, go[s, c], 1);
      var next;
      if go[s, c] == 0 {
        next := FindNextState(s, c, words, nodes);
      } else {
        ChainEnd(words, s, c);
        next := go[s, c];
      }
      var hit := out[if matchOfNext then next else go[s, c]];
      gt := GotoResult(next, if hit != NONE then hit else NONE);
      if matchOfNext || go[s, c] != 0 {
        EndsOfNode(words, path[s] + [Letter(c)], hit);
      }
    }

    /** Flatten the automaton into the table; row 0 stays uninitialised. */
    method BuildGotoTable(matchOfNext: bool, ghost words: seq<Word>) returns (results: array2<GotoResult>)
      requires Built(words)
      ensures fresh(results) && results.Length0 == MAXSTATES && results.Length1 == MAXC
      ensures forall s, c :: 1 <= s < states && 0 <= c < MAXC ==> CellOk(path, words, s, c, results[s, c], matchOfNext)
    {
      hide CellOk, Numbering, Edge, Linked, MarksEnds;
      results := new GotoResult[MAXSTATES, MAXC];
      for s := 1 to states
        invariant Built(words)
        invariant forall t, c :: 1 <= t < s && 0 <= c < MAXC ==> CellOk(path, words, t, c, results[t, c], matchOfNext)
      {
        for c := 0 to MAXC
          invariant Built(words)
          invariant forall t, d :: 1 <= t < s && 0 <= d < MAXC ==> CellOk(path, words, t, d, results[t, d], matchOfNext)
          invariant forall d :: 0 <= d < c ==> CellOk(path, words, s, d, results[s, d], matchOfNext)
        {
          results[s, c] := GotoCell(s, c, matchOfNext, words);
        }
      }
    }
  }
}
