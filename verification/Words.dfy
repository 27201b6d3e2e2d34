/** Byte strings, suffixes and the reference notions of the string filter: which
    strings are trie paths of a word list, and the longest suffix of a text that
    is one.  Nothing here mentions states, links or tables. */
module Words {

  type byte = x: int | 0 <= x < 256
  type Word = seq<byte>

  const LETTER_A: byte := 97
  const NEWLINE: byte := 10
  const NUL: byte := 0
  const MAXC := 26

  predicate IsLetter(b: byte) {
    LETTER_A <= b < LETTER_A + MAXC
  }

  predicate AllLetters(w: Word) {
    forall i :: 0 <= i < |w| ==> IsLetter(w[i])
  }

  /** The letter that column `c` of a table stands for. */
  function Letter(c: int): byte
    requires 0 <= c < MAXC
  {
    LETTER_A + c
  }

  predicate IsSuffix(p: Word, s: Word) {
    |p| <= |s| && s[|s| - |p|..] == p
  }

  /** `p` spells a path from the root of the trie of `words`. */
  ghost predicate IsPath(words: seq<Word>, p: Word) {
    p == [] || exists j :: 0 <= j < |words| && p <= words[j]
  }

  ghost predicate LetterWords(words: seq<Word>) {
    forall j :: 0 <= j < |words| ==> AllLetters(words[j])
  }

  /** Adding a word adds the empty path, and each further letter of it one path. */
  lemma EmptyWordPaths(words: seq<Word>)
    ensures forall q :: IsPath(words + [[]], q) <==> IsPath(words, q)
  {
    forall q: Word ensures IsPath(words + [[]], q) <==> IsPath(words, q) {
      var ws: seq<Word> := words + [[]];
      if j :| 0 <= j < |words| && q <= words[j] {
        assert q <= ws[j];
      }
      if j :| 0 <= j < |ws| && q <= ws[j] {
        assert j == |words| ==> q == [];
      }
    }
  }

  lemma LongerWordPaths(words: seq<Word>, p: Word, c: byte)
    ensures forall q :: IsPath(words + [p + [c]], q) <==> IsPath(words + [p], q) || q == p + [c]
  {
    forall q: Word ensures IsPath(words + [p + [c]], q) <==> IsPath(words + [p], q) || q == p + [c] {
      var long, short := words + [p + [c]], words + [p];
      if j :| 0 <= j < |long| && q <= long[j] {
        if j < |words| {
          assert q <= short[j];
        } else if q != p + [c] {
          assert q == (p + [c])[..|q|] == p[..|q|];
          assert q <= short[j];
        }
      }
      if j :| 0 <= j < |short| && q <= short[j] {
        if j == |words| {
          assert p <= p + [c];
        }
        assert q <= long[j];
      }
      assert p + [c] <= long[|words|];
    }
  }

  /** The longest suffix of `s` that is a trie path. */
  ghost function LongestSuffix(words: seq<Word>, s: Word): Word {
    if IsPath(words, s) then s else LongestSuffix(words, s[1..])
  }

  /** ... that is what it is. */
  lemma {:induction false} LongestSuffixIsLongest(words: seq<Word>, s: Word)
    ensures IsPath(words, LongestSuffix(words, s)) && IsSuffix(LongestSuffix(words, s), s)
    ensures forall q :: IsPath(words, q) && IsSuffix(q, s) ==> |q| <= |LongestSuffix(words, s)|
  {
    if !IsPath(words, s) {
      LongestSuffixIsLongest(words, s[1..]);
      SuffixOfTail(LongestSuffix(words, s), s);
      forall q: Word | IsPath(words, q) && IsSuffix(q, s) ensures |q| <= |LongestSuffix(words, s)| {
        assert |q| == |s| ==> q == s;
        SuffixOfTail(q, s);
      }
    }
  }

  // ----- suffixes -----

  lemma SuffixOfTail(q: Word, s: Word)
    requires |q| < |s|
    ensures IsSuffix(q, s) <==> IsSuffix(q, s[1..])
  {
    assert s[1..][|s| - 1 - |q|..] == s[|s| - |q|..];
  }

  lemma SuffixTransitive(p: Word, q: Word, s: Word)
    requires IsSuffix(p, q) && IsSuffix(q, s)
    ensures IsSuffix(p, s)
  {
    assert s[|s| - |p|..] == s[|s| - |q|..][|q| - |p|..];
  }

  lemma SuffixesNest(p: Word, q: Word, s: Word)
    requires IsSuffix(p, s) && IsSuffix(q, s) && |p| <= |q|
    ensures IsSuffix(p, q)
  {
    assert s[|s| - |p|..] == s[|s| - |q|..][|q| - |p|..];
  }

  lemma SuffixLast(p: Word, s: Word)
    requires p != [] && IsSuffix(p, s)
    ensures s != [] && p[|p| - 1] == s[|s| - 1]
  {
  }

  lemma SuffixSnoc(p: Word, s: Word, c: byte)
    ensures IsSuffix(p + [c], s + [c]) <==> IsSuffix(p, s)
  {
    if |p| <= |s| {
      assert (s + [c])[|s| - |p|..] == s[|s| - |p|..] + [c];
      assert (p + [c])[..|p|] == p;
      assert (s[|s| - |p|..] + [c])[..|p|] == s[|s| - |p|..];
    }
  }

  /** A non-empty suffix of `s + [c]` is a suffix of `s` followed by `c`. */
  lemma SuffixUnsnoc(p: Word, s: Word, c: byte)
    requires p != [] && IsSuffix(p, s + [c])
    ensures p[|p| - 1] == c && p == p[..|p| - 1] + [c] && IsSuffix(p[..|p| - 1], s)
  {
    assert p[|p| - 1] == (s + [c])[|s|];
    assert p == p[..|p| - 1] + [c];
    SuffixSnoc(p[..|p| - 1], s, c);
  }

  lemma SnocInjective(p: Word, q: Word, b: byte, c: byte)
    requires p + [b] == q + [c]
    ensures p == q && b == c
  {
    assert (p + [b])[..|p|] == p && (q + [c])[..|q|] == q;
    assert (p + [b])[|p|] == b && (q + [c])[|q|] == c;
  }

  // ----- trie paths -----

  lemma MoreWordsMorePaths(words: seq<Word>, w: Word, p: Word)
    requires IsPath(words, p)
    ensures IsPath(words + [w], p)
  {
    if p != [] {
      var j :| 0 <= j < |words| && p <= words[j];
      assert p <= (words + [w])[j];
    }
  }

  lemma PrefixIsPath(words: seq<Word>, p: Word, c: byte)
    requires IsPath(words, p + [c])
    ensures IsPath(words, p)
  {
    var j :| 0 <= j < |words| && p + [c] <= words[j];
    assert p <= p + [c];
    assert p <= words[j];
  }

  lemma PathHasLetters(words: seq<Word>, p: Word)
    requires LetterWords(words) && IsPath(words, p)
    ensures AllLetters(p)
  {
    if p != [] {
      var j :| 0 <= j < |words| && p <= words[j];
      forall i | 0 <= i < |p| ensures IsLetter(p[i]) {
        assert p[i] == words[j][i];
      }
    }
  }

  /** Maximality pins the longest suffix down. */
  lemma LongestSuffixUnique(words: seq<Word>, p: Word, s: Word)
    requires IsPath(words, p) && IsSuffix(p, s)
    requires |LongestSuffix(words, s)| <= |p|
    ensures LongestSuffix(words, s) == p
  {
    LongestSuffixIsLongest(words, s);
  }

  /** The transition law of the automaton: the longest suffix of an extended text
      depends only on the longest suffix of the text. */
  lemma LongestSuffixStep(words: seq<Word>, s: Word, c: byte)
    ensures LongestSuffix(words, s + [c]) == LongestSuffix(words, LongestSuffix(words, s) + [c])
  {
    hide LongestSuffix, IsPath;
    var l := LongestSuffix(words, s);
    var r := LongestSuffix(words, s + [c]);
    var r' := LongestSuffix(words, l + [c]);
    LongestSuffixIsLongest(words, s);
    LongestSuffixIsLongest(words, s + [c]);
    LongestSuffixIsLongest(words, l + [c]);
    assert IsSuffix(r', s + [c]) by {
      SuffixSnoc(l, s, c);
      SuffixTransitive(r', l + [c], s + [c]);
    }
    if r != [] {
      PathSuffixSnoc(words, r, l, s, c);
    }
    LongestSuffixUnique(words, r', s + [c]);
  }

  lemma PathSuffixSnoc(words: seq<Word>, r: Word, l: Word, s: Word, c: byte)
    requires r != [] && IsPath(words, r) && IsSuffix(r, s + [c])
    requires IsSuffix(l, s) && forall q :: IsPath(words, q) && IsSuffix(q, s) ==> |q| <= |l|
    ensures IsSuffix(r, l + [c])
  {
    var q := r[..|r| - 1];
    SuffixUnsnoc(r, s, c);
    PrefixIsPath(words, q, c);
    SuffixesNest(q, l, s);
    SuffixSnoc(q, l, c);
  }

  /** A step that no trie edge allows falls back to the failure of `p`. */
  lemma LongestSuffixFallback(words: seq<Word>, p: Word, c: byte)
    requires p != [] && !IsPath(words, p + [c])
    ensures LongestSuffix(words, p + [c])
         == LongestSuffix(words, LongestSuffix(words, p[1..]) + [c])
    ensures |LongestSuffix(words, p[1..])| < |p|
  {
    assert (p + [c])[1..] == p[1..] + [c];
    LongestSuffixStep(words, p[1..], c);
    LongestSuffixIsLongest(words, p[1..]);
  }

  /** Text `s` ends with word `j`.  A blank word (an empty line of the word file) is
      reported where the last letter starts no word: the outputs of the nodes one
      letter below the root are never merged with the root's. */
  ghost predicate Ends(words: seq<Word>, j: nat, s: Word)
    requires j < |words|
  {
    if words[j] == [] then s == [] || !IsPath(words, [s[|s| - 1]]) else IsSuffix(words[j], s)
  }

  /** Words are paths, so a word ends a text exactly when it ends the text's longest suffix. */
  lemma WordEndsLongestSuffix(words: seq<Word>, j: nat, s: Word)
    requires j < |words|
    ensures Ends(words, j, s) <==> Ends(words, j, LongestSuffix(words, s))
  {
    var l := LongestSuffix(words, s);
    LongestSuffixIsLongest(words, s);
    if words[j] == [] {
      if s != [] {
        var last := [s[|s| - 1]];
        assert IsSuffix(last, s);
        assert IsPath(words, last) ==> |last| <= |l|;
        assert l != [] ==> l[|l| - 1] == s[|s| - 1];
      }
    } else {
      assert IsPath(words, words[j]);
      if IsSuffix(words[j], s) {
        SuffixesNest(words[j], l, s);
      }
      if IsSuffix(words[j], l) {
        SuffixTransitive(words[j], l, s);
      }
    }
  }

  /** A byte outside the alphabet resets the longest suffix. */
  lemma LongestSuffixReset(words: seq<Word>, s: Word, c: byte)
    requires LetterWords(words) && !IsLetter(c)
    ensures LongestSuffix(words, s + [c]) == []
  {
    var r := LongestSuffix(words, s + [c]);
    LongestSuffixIsLongest(words, s + [c]);
    if r != [] {
      PathHasLetters(words, r);
      SuffixUnsnoc(r, s, c);
    }
  }
}
