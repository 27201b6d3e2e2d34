/** The trie of a word list as a numbering of its paths, and how the numbering and
    its edges grow by one node. */
module TrieNumbering {
  import opened Words

  /** `path[s]` is the string node `s` spells: nodes 1, 2, ... are in bijection with
      the trie paths of `words`, node 1 being the root.  Index 0 is unused. */
  ghost predicate Numbering(path: seq<Word>, words: seq<Word>) {
    && LetterWords(words)
    && 2 <= |path| && path[1] == []
    && (forall s, t :: 1 <= s < |path| && 1 <= t < |path| && path[s] == path[t] ==> s == t)
    && (forall s :: 1 <= s < |path| ==> IsPath(words, path[s]))
    && (forall p :: IsPath(words, p) ==> IsNode(path, p))
  }

  ghost predicate IsNode(path: seq<Word>, p: Word) {
    exists s :: 1 <= s < |path| && path[s] == p
  }

  /** `target` is the child of `s` along column `c`; where no word continues that
      way it is 0, or `rootAbsent` in the row of the root. */
  ghost predicate Edge(path: seq<Word>, words: seq<Word>, s: int, c: int, target: int, rootAbsent: int)
    requires 1 <= s < |path| && 0 <= c < MAXC
  {
    var p := path[s] + [Letter(c)];
    if IsPath(words, p) then 2 <= target < |path| && path[target] == p
    else target == if s == 1 then rootAbsent else 0
  }

  lemma SameNode(path: seq<Word>, words: seq<Word>, s: int, t: int)
    requires Numbering(path, words) && 1 <= s < |path| && 1 <= t < |path| && path[s] == path[t]
    ensures s == t
  {
  }

  lemma FirstNode()
    ensures Numbering([[], []], [])
  {
    var path: seq<Word> := [[], []];
    assert path[1] == [];
    forall p | IsPath([], p) ensures IsNode(path, p) {
      assert p == [];
    }
  }

  lemma SamePaths(path: seq<Word>, words: seq<Word>, words': seq<Word>)
    requires Numbering(path, words) && LetterWords(words')
    requires forall q :: IsPath(words', q) <==> IsPath(words, q)
    ensures Numbering(path, words')
  {
  }

  lemma NumberNewNode(path: seq<Word>, words: seq<Word>, words': seq<Word>, p: Word)
    requires Numbering(path, words) && !IsPath(words, p) && LetterWords(words')
    requires forall q :: IsPath(words', q) <==> IsPath(words, q) || q == p
    ensures Numbering(path + [p], words')
  {
    var path' := path + [p];
    assert path'[|path|] == p;
    forall q | IsPath(words', q) ensures IsNode(path', q) {
      if q != p {
        var s :| 1 <= s < |path| && path[s] == q;
        assert path'[s] == q;
      }
    }
  }

  /** An edge survives the new node `p`, unless it is the one that leads to it. */
  lemma KeepEdge(path: seq<Word>, words: seq<Word>, words': seq<Word>, p: Word, s: int, c: int, target: int)
    requires 1 <= s < |path| && 0 <= c < MAXC
    requires forall q :: IsPath(words', q) <==> IsPath(words, q) || q == p
    requires Edge(path, words, s, c, target, 0) && path[s] + [Letter(c)] != p
    ensures Edge(path + [p], words', s, c, target, 0)
  {
  }

  lemma LeafEdge(path: seq<Word>, words: seq<Word>, words': seq<Word>, p: Word, c: int)
    requires Numbering(path, words) && !IsPath(words, p) && 0 <= c < MAXC
    requires forall q :: IsPath(words', q) <==> IsPath(words, q) || q == p
    ensures Edge(path + [p], words', |path|, c, 0, 0)
  {
    if IsPath(words', p + [Letter(c)]) {
      assert IsPath(words, p + [Letter(c)]);
      PrefixIsPath(words, p, Letter(c));
    }
  }

  lemma MoreLetterWords(words: seq<Word>, p: Word, ch: int)
    requires LetterWords(words + [p]) && 0 <= ch < MAXC
    ensures LetterWords(words + [p + [Letter(ch)]])
  {
    var before, after := words + [p], words + [p + [Letter(ch)]];
    assert AllLetters(before[|words|]);
    forall j | 0 <= j < |after| ensures AllLetters(after[j]) {
      assert j < |words| ==> after[j] == before[j];
    }
  }
}
