/** What the installed table detects: the scan of a payload against the plain notion of
    a word occurring in it, for the table as written and with its match repaired. */
module Detection {
  import opened Words
  import opened Bitmask
  import opened TrieNumbering
  import opened AhoCorasick
  import opened PacketFilter

  /** Word `j` ends at the letter `t[i]`. */
  ghost predicate EndsAt(words: seq<Word>, j: nat, t: Word, i: int)
    requires j < |words|
  {
    0 <= i < |t| && IsLetter(t[i]) && Ends(words, j, t[..i + 1])
  }

  ghost predicate Seen(words: seq<Word>, j: nat, t: Word)
    requires j < |words|
  {
    exists i :: EndsAt(words, j, t, i)
  }

  /** The transition at `t[i]` follows a trie edge, or starts from the root. */
  ghost predicate OnEdge(words: seq<Word>, t: Word, i: int)
    requires 0 <= i < |t|
  {
    var l := LongestSuffix(words, t[..i]);
    l == [] || IsPath(words, l + [t[i]])
  }

  /** The table reports word `j` at `t[i]`. */
  ghost predicate Reported(words: seq<Word>, matchOfNext: bool, j: nat, t: Word, i: int)
    requires j < |words|
  {
    EndsAt(words, j, t, i) && (matchOfNext || OnEdge(words, t, i))
  }

  ghost predicate EverReported(words: seq<Word>, matchOfNext: bool, j: nat, t: Word)
    requires j < |words|
  {
    exists i :: Reported(words, matchOfNext, j, t, i)
  }

  /** The scan of `t` stands at the node of its longest suffix, and has matched exactly
      the words reported along the way. */
  ghost predicate ScanMeans(path: seq<Word>, words: seq<Word>, matchOfNext: bool, s: State, t: Word) {
    && 1 <= s.ac_state < |path| && path[s.ac_state] == LongestSuffix(words, t)
    && Small(s.matches)
    && forall j: nat :: j < MAPSTRINGSSIZE ==>
         (Has(s.matches, j) <==> j < |words| && EverReported(words, matchOfNext, j, t))
  }

  lemma {:induction false} ScanFollowsText(table: Table, path: seq<Word>, words: seq<Word>, matchOfNext: bool, t: Word)
    requires Installed(table, path, words, matchOfNext)
    ensures ScanMeans(path, words, matchOfNext, Scan(table, FRESH, t), t)
  {
    if t == [] {
      forall j: nat | j < MAPSTRINGSSIZE ensures !Has(NONE, j) {
        HasNone(j);
      }
    } else {
      var u, b := t[..|t| - 1], t[|t| - 1];
      assert t == u + [b];
      ScanFollowsText(table, path, words, matchOfNext, u);
      InstalledIsClosed(table, path, words, matchOfNext);
      StepFollowsText(table, path, words, matchOfNext, Scan(table, FRESH, u), u, b);
    }
  }

  /** A letter reports what it reports in the extended text, and earlier reports stay. */
  lemma ReportedSnoc(words: seq<Word>, matchOfNext: bool, j: nat, u: Word, b: byte)
    requires j < |words|
    ensures EverReported(words, matchOfNext, j, u + [b]) <==>
            EverReported(words, matchOfNext, j, u) || Reported(words, matchOfNext, j, u + [b], |u|)
  {
    var t := u + [b];
    forall i | 0 <= i < |u| ensures Reported(words, matchOfNext, j, t, i) <==> Reported(words, matchOfNext, j, u, i) {
      assert t[..i + 1] == u[..i + 1] && t[..i] == u[..i];
    }
    if i :| Reported(words, matchOfNext, j, t, i) {
      assert i == |u| || Reported(words, matchOfNext, j, u, i);
    }
  }

  lemma ResetState(path: seq<Word>, words: seq<Word>, u: Word, b: byte)
    requires Numbering(path, words) && !IsLetter(b)
    ensures path[1] == [] == LongestSuffix(words, u + [b])
  {
    LongestSuffixReset(words, u, b);
  }

  /** A cell's match marks exactly the words reported at the letter that uses it. */
  lemma CellReports(path: seq<Word>, words: seq<Word>, matchOfNext: bool, s: int, c: int, cell: GotoResult, u: Word)
    requires Numbering(path, words) && |words| <= MAPSTRINGSSIZE && 1 <= s < |path| && 0 <= c < MAXC
    requires CellOk(path, words, s, c, cell, matchOfNext) && path[s] == LongestSuffix(words, u)
    ensures Small(cell.match_)
    ensures forall j: nat :: j < MAPSTRINGSSIZE ==>
              (Has(cell.match_, j) <==> j < |words| && Reported(words, matchOfNext, j, u + [Letter(c)], |u|))
  {
    hide LongestSuffix, IsPath;
    var t, l := u + [Letter(c)], path[s];
    assert t[..|u|] == u && t[..|u| + 1] == t;
    assert l == [] <==> s == 1 by {
      if l == [] {
        SameNode(path, words, s, 1);
      }
    }
    LongestSuffixStep(words, u, Letter(c));
    forall j: nat | j < MAPSTRINGSSIZE
      ensures Has(cell.match_, j) <==> j < |words| && Reported(words, matchOfNext, j, t, |u|)
    {
      HasNone(j);
      if j < |words| {
        WordEndsLongestSuffix(words, j, t);
        WordEndsLongestSuffix(words, j, l + [Letter(c)]);
      }
    }
  }

  lemma StepFollowsText(table: Table, path: seq<Word>, words: seq<Word>, matchOfNext: bool, s: State, u: Word, b: byte)
    requires Installed(table, path, words, matchOfNext) && ScanMeans(path, words, matchOfNext, s, u)
    ensures ScanMeans(path, words, matchOfNext, Step(table, s, b), u + [b])
  {
    hide LongestSuffix, Numbering, IsPath;
    var t := u + [b];
    var s' := Step(table, s, b);
    assert t[..|u|] == u && t[..|u| + 1] == t;
    if Column(b) >= MAXC {
      ResetState(path, words, u, b);
      forall j: nat | j < |words| ensures !Reported(words, matchOfNext, j, t, |u|) {
      }
    } else {
      var c := Column(b);
      assert Letter(c) == b;
      var cell := table[s.ac_state][c];
      assert CellOk(path, words, s.ac_state, c, cell, matchOfNext);
      LongestSuffixStep(words, u, b);
      CellReports(path, words, matchOfNext, s.ac_state, c, cell, u);
      SmallOr(s.matches, cell.match_);
      forall j: nat | j < MAPSTRINGSSIZE
        ensures Has(s'.matches, j) <==> Has(s.matches, j) || (j < |words| && Reported(words, matchOfNext, j, t, |u|))
      {
        HasOr(s.matches, cell.match_, j);
      }
    }
    forall j: nat | j < |words|
      ensures EverReported(words, matchOfNext, j, t) <==>
              EverReported(words, matchOfNext, j, u) || Reported(words, matchOfNext, j, t, |u|)
    {
      ReportedSnoc(words, matchOfNext, j, u, b);
    }
  }

  // ----- the repaired table -----

  /** `w` occurs in `t` as a contiguous substring. */
  ghost predicate Occurs(w: Word, t: Word) {
    exists a :: OccursAt(w, t, a)
  }

  ghost predicate OccursAt(w: Word, t: Word, a: int) {
    0 <= a <= |t| - |w| && t[a..a + |w|] == w
  }

  lemma SeenIsOccurs(words: seq<Word>, j: nat, t: Word)
    requires j < |words| && AllLetters(words[j]) && words[j] != []
    ensures Seen(words, j, t) <==> Occurs(words[j], t)
  {
    var w := words[j];
    if i :| EndsAt(words, j, t, i) {
      var a := i + 1 - |w|;
      assert t[a..a + |w|] == t[..i + 1][a..];
      assert OccursAt(w, t, a);
    }
    if a :| OccursAt(w, t, a) {
      var i := a + |w| - 1;
      assert t[i] == t[a..a + |w|][|w| - 1];
      assert t[..i + 1][a..] == t[a..a + |w|];
      assert EndsAt(words, j, t, i);
    }
  }

  /** With the match read from the next state, the bit of a word is set exactly when the
      word is seen, and the packet dropped exactly when some word is; that is, unless the
      word is blank, exactly when the payload contains it. */
  lemma RepairedTableDetects(table: Table, path: seq<Word>, words: seq<Word>, t: Word)
    requires Installed(table, path, words, true)
    ensures forall j: nat :: j < |words| ==> (Has(Scan(table, FRESH, t).matches, j) <==> Seen(words, j, t))
    ensures VerdictOf(Scan(table, FRESH, t).matches) == XDP_DROP <==> AnySeen(words, t)
    ensures forall j: nat :: j < |words| && words[j] != [] ==>
              (Has(Scan(table, FRESH, t).matches, j) <==> Occurs(words[j], t))
    ensures [] !in words ==>
              (VerdictOf(Scan(table, FRESH, t).matches) == XDP_DROP <==> exists w :: w in words && Occurs(w, t))
  {
    hide Numbering, CellOk, Scan;
    ScanFollowsText(table, path, words, true, t);
    var m := Scan(table, FRESH, t).matches;
    forall j: nat | j < |words|
      ensures Has(m, j) <==> Seen(words, j, t)
      ensures words[j] != [] ==> (Has(m, j) <==> Occurs(words[j], t))
    {
      LetterWord(path, words, j);
      EverReportedRepaired(words, j, t);
      if words[j] != [] {
        SeenIsOccurs(words, j, t);
      }
    }
    NonZeroHas(m);
    assert forall j: nat :: j < |words| ==> words[j] in words;
  }

  lemma LetterWord(path: seq<Word>, words: seq<Word>, j: nat)
    requires Numbering(path, words) && j < |words|
    ensures AllLetters(words[j])
  {
  }

  lemma EverReportedRepaired(words: seq<Word>, j: nat, t: Word)
    requires j < |words|
    ensures EverReported(words, true, j, t) <==> Seen(words, j, t)
  {
    if i :| EndsAt(words, j, t, i) {
      assert Reported(words, true, j, t, i);
    }
  }

  // ----- the table as written -----

  /** Sound for every word list and payload: a set bit names a word that ends at some
      letter; and on a trie edge, or from the root, no word that ends there is missed. */
  lemma WrittenTableSound(table: Table, path: seq<Word>, words: seq<Word>, t: Word, j: nat)
    requires Installed(table, path, words, false) && j < |words|
    ensures Has(Scan(table, FRESH, t).matches, j) ==> Seen(words, j, t)
    ensures forall i :: EndsAt(words, j, t, i) && OnEdge(words, t, i) ==> Has(Scan(table, FRESH, t).matches, j)
  {
    hide Numbering, CellOk;
    ScanFollowsText(table, path, words, false, t);
    if i :| Reported(words, false, j, t, i) {
      assert EndsAt(words, j, t, i);
    }
    forall i | EndsAt(words, j, t, i) && OnEdge(words, t, i) ensures Has(Scan(table, FRESH, t).matches, j) {
      assert Reported(words, false, j, t, i);
    }
  }

  /** Whenever word `j` would end where the trie path `v` has no edge, an earlier report
      along `v` makes up for it: for every trie path `v` and letter `c`. */
  ghost predicate Covered(words: seq<Word>, j: nat)
    requires j < |words|
  {
    forall v, c :: Falls(words, v, c) && Ends(words, j, v + [c]) ==> Seen(words, j, v)
  }

  /** ... and likewise for the verdict, where a report of any word will do. */
  ghost predicate VerdictCovered(words: seq<Word>) {
    forall v, c, j :: Falls(words, v, c) && 0 <= j < |words| && Ends(words, j, v + [c]) ==> AnySeen(words, v)
  }

  /** From the node of `v`, letter `c` is a failure transition. */
  ghost predicate Falls(words: seq<Word>, v: Word, c: byte) {
    v != [] && IsPath(words, v) && IsLetter(c) && !IsPath(words, v + [c])
  }

  ghost predicate AnySeen(words: seq<Word>, t: Word) {
    exists j: nat :: j < |words| && Seen(words, j, t)
  }

  ghost predicate AnyReported(words: seq<Word>, t: Word) {
    exists j: nat :: j < |words| && EverReported(words, false, j, t)
  }

  /** Spelling out a trie path only follows edges. */
  lemma PathOnEdges(words: seq<Word>, v: Word, i: int)
    requires IsPath(words, v) && 0 <= i < |v|
    ensures OnEdge(words, v, i)
  {
    hide LongestSuffix;
    PrefixOfPath(words, v, i + 1);
    PrefixOfPath(words, v, i);
    assert v[..i + 1] == v[..i] + [v[i]];
    LongestSuffixOfPath(words, v[..i]);
  }

  lemma LongestSuffixOfPath(words: seq<Word>, p: Word)
    requires IsPath(words, p)
    ensures LongestSuffix(words, p) == p
  {
  }

  lemma PrefixOfPath(words: seq<Word>, v: Word, i: int)
    requires IsPath(words, v) && 0 <= i <= |v|
    ensures IsPath(words, v[..i])
  {
    if v != [] {
      var j :| 0 <= j < |words| && v <= words[j];
      assert v[..i] <= words[j];
    }
  }

  /** A word that ends in a failure transition is reported in `v + [c]` only if `v` has it. */
  lemma FallMisses(words: seq<Word>, j: nat, v: Word, c: byte)
    requires j < |words| && Falls(words, v, c)
    ensures EverReported(words, false, j, v + [c]) <==> Seen(words, j, v)
    ensures Ends(words, j, v + [c]) ==> Seen(words, j, v + [c])
  {
    hide LongestSuffix, IsPath;
    var t := v + [c];
    assert t[..|v|] == v && t[..|v| + 1] == t;
    ReportedSnoc(words, false, j, v, c);
    LongestSuffixOfPath(words, v);
    assert !OnEdge(words, t, |v|);
    if i :| EndsAt(words, j, v, i) {
      PathOnEdges(words, v, i);
      assert Reported(words, false, j, v, i);
    }
    if Ends(words, j, t) {
      assert EndsAt(words, j, t, |v|);
    }
  }

  /** A word that ends at a failure transition of `t` ends at one out of the node there. */
  lemma FallAt(words: seq<Word>, j: nat, t: Word, i: int)
    requires j < |words| && EndsAt(words, j, t, i) && !OnEdge(words, t, i)
    ensures var v := LongestSuffix(words, t[..i]);
            Falls(words, v, t[i]) && Ends(words, j, v + [t[i]])
  {
    hide LongestSuffix, IsPath;
    var v := LongestSuffix(words, t[..i]);
    LongestSuffixIsLongest(words, t[..i]);
    assert t[..i + 1] == t[..i] + [t[i]];
    LongestSuffixStep(words, t[..i], t[i]);
    WordEndsLongestSuffix(words, j, t[..i + 1]);
    WordEndsLongestSuffix(words, j, v + [t[i]]);
  }

  /** What is seen in a suffix of `t[..i]` is seen in `t` before `i`. */
  lemma SeenInSuffix(words: seq<Word>, j: nat, v: Word, t: Word, i: int) returns (k: int)
    requires j < |words| && 0 <= i <= |t| && IsSuffix(v, t[..i]) && Seen(words, j, v)
    ensures 0 <= k < i && EndsAt(words, j, t, k)
  {
    var m :| EndsAt(words, j, v, m);
    k := i - |v| + m;
    var u := t[..i];
    assert v[m] == u[k] == t[k];
    var a, b := v[..m + 1], t[..k + 1];
    assert b == u[..k + 1];
    PrefixSuffix(v, u, m + 1);
    if words[j] != [] {
      SuffixTransitive(words[j], a, b);
    } else {
      assert a[|a| - 1] == b[|b| - 1];
    }
  }

  lemma PrefixSuffix(v: Word, u: Word, m: int)
    requires IsSuffix(v, u) && 0 <= m <= |v|
    ensures IsSuffix(v[..m], u[..|u| - |v| + m])
  {
    assert u[..|u| - |v| + m][|u| - |v|..] == u[|u| - |v|..][..m];
  }

  /** The first place where word `j` ends is reported, if `j` is covered. */
  lemma {:induction false} FirstIsReported(words: seq<Word>, j: nat, t: Word, i: int)
    requires j < |words| && Covered(words, j) && EndsAt(words, j, t, i)
    ensures EverReported(words, false, j, t)
    decreases i
  {
    if OnEdge(words, t, i) {
      assert Reported(words, false, j, t, i);
    } else {
      FallAt(words, j, t, i);
      var v := LongestSuffix(words, t[..i]);
      LongestSuffixIsLongest(words, t[..i]);
      var k := SeenInSuffix(words, j, v, t, i);
      FirstIsReported(words, j, t, k);
    }
  }

  /** Exactly when the table as written gets the bit of word `j` right on every payload. */
  lemma WrittenBitExact(table: Table, path: seq<Word>, words: seq<Word>, j: nat)
    requires Installed(table, path, words, false) && j < |words|
    ensures (forall t :: Has(Scan(table, FRESH, t).matches, j) <==> Seen(words, j, t)) <==> Covered(words, j)
  {
    hide Numbering, CellOk, Scan, LongestSuffix;
    forall t ensures Has(Scan(table, FRESH, t).matches, j) <==> EverReported(words, false, j, t) {
      ScanFollowsText(table, path, words, false, t);
    }
    if Covered(words, j) {
      forall t ensures Has(Scan(table, FRESH, t).matches, j) <==> Seen(words, j, t) {
        WrittenTableSound(table, path, words, t, j);
        if i :| EndsAt(words, j, t, i) {
          FirstIsReported(words, j, t, i);
        }
      }
    } else {
      var v, c :| Falls(words, v, c) && Ends(words, j, v + [c]) && !Seen(words, j, v);
      FallMisses(words, j, v, c);
      assert !(Has(Scan(table, FRESH, v + [c]).matches, j) <==> Seen(words, j, v + [c]));
    }
  }

  lemma {:induction false} FirstOfAnyIsReported(words: seq<Word>, j: nat, t: Word, i: int)
    requires j < |words| && VerdictCovered(words) && EndsAt(words, j, t, i)
    ensures AnyReported(words, t)
    decreases i
  {
    if OnEdge(words, t, i) {
      assert Reported(words, false, j, t, i);
      assert EverReported(words, false, j, t);
    } else {
      FallAt(words, j, t, i);
      var v := LongestSuffix(words, t[..i]);
      LongestSuffixIsLongest(words, t[..i]);
      assert AnySeen(words, v);
      var j': nat :| j' < |words| && Seen(words, j', v);
      var k := SeenInSuffix(words, j', v, t, i);
      FirstOfAnyIsReported(words, j', t, k);
    }
  }

  /** The table as written drops a packet exactly when a word was reported in it. */
  lemma WrittenVerdict(table: Table, path: seq<Word>, words: seq<Word>, t: Word)
    requires Installed(table, path, words, false)
    ensures VerdictOf(Scan(table, FRESH, t).matches) == XDP_DROP <==> AnyReported(words, t)
  {
    hide Numbering, CellOk, Scan;
    ScanFollowsText(table, path, words, false, t);
    NonZeroHas(Scan(table, FRESH, t).matches);
  }

  /** Exactly when the table as written gets the verdict right on every payload. */
  lemma WrittenVerdictExact(table: Table, path: seq<Word>, words: seq<Word>)
    requires Installed(table, path, words, false)
    ensures (forall t :: VerdictOf(Scan(table, FRESH, t).matches) == XDP_DROP <==> AnySeen(words, t))
            <==> VerdictCovered(words)
  {
    hide Numbering, CellOk, Scan, LongestSuffix;
    forall t ensures VerdictOf(Scan(table, FRESH, t).matches) == XDP_DROP <==> AnyReported(words, t) {
      WrittenVerdict(table, path, words, t);
    }
    if VerdictCovered(words) {
      forall t ensures AnyReported(words, t) <==> AnySeen(words, t) {
        if j: nat :| j < |words| && Seen(words, j, t) {
          var i :| EndsAt(words, j, t, i);
          FirstOfAnyIsReported(words, j, t, i);
        }
        if j: nat :| j < |words| && EverReported(words, false, j, t) {
          var i :| Reported(words, false, j, t, i);
          assert EndsAt(words, j, t, i);
          assert Seen(words, j, t);
        }
      }
    } else {
      var v, c, j :| Falls(words, v, c) && 0 <= j < |words| && Ends(words, j, v + [c]) && !AnySeen(words, v);
      FallMisses(words, j, v, c);
      forall k: nat | k < |words| ensures !EverReported(words, false, k, v + [c]) {
        FallMisses(words, k, v, c);
      }
      assert !AnyReported(words, v + [c]) && AnySeen(words, v + [c]);
    }
  }
}
