/** The filter as written on two word lists: the shipped one, which it handles exactly,
    and one on which it misses a word. */
module WordLists {
  import opened Words
  import opened AhoCorasick
  import opened PacketFilter
  import opened Detection
  import opened StringFilter

  const CAKE: Word := [99, 97, 107, 101]
  const BEE: Word := [98, 101, 101]
  const EBPF: Word := [101, 98, 112, 102]
  const ABD: Word := [97, 98, 100]
  const BC: Word := [98, 99]

  /** The word list the repository ships. */
  const SHIPPED: seq<Word> := [CAKE, BEE, EBPF]

  /** ... is one that the table as written handles. */
  lemma ShippedListCovered(j: nat)
    requires j < |SHIPPED|
    ensures Covered(SHIPPED, j)
  {
    forall v, c ensures !(Falls(SHIPPED, v, c) && Ends(SHIPPED, j, v + [c])) {
      if v != [] && IsPath(SHIPPED, v) && Ends(SHIPPED, j, v + [c]) {
        NoFallEndsShipped(v, c, j);
      }
    }
  }

  lemma NoFallEndsShipped(v: Word, c: byte, j: nat)
    requires j < |SHIPPED| && v != [] && IsPath(SHIPPED, v) && Ends(SHIPPED, j, v + [c])
    ensures IsPath(SHIPPED, v + [c])
  {
    var w := SHIPPED[j];
    var i :| 0 <= i < |SHIPPED| && v <= SHIPPED[i];
    var t := v + [c];
    assert t[|t| - |w|..] == w;
    assert forall k :: 0 <= k < |w| ==> t[|t| - |w| + k] == w[k];
    assert forall k :: 0 <= k < |v| ==> v[k] == SHIPPED[i][k] && t[k] == v[k];
    assert t[|t| - |w|] == w[0] && t[|t| - |w| + 1] == w[1];
    assert |t| == |w| by {
      assert |w| <= |t| <= 5;
    }
    assert t == w;
  }

  /** The file it is read from. */
  const SHIPPED_LINES: seq<seq<byte>> := [CAKE + [NEWLINE], BEE + [NEWLINE], EBPF]

  lemma {:induction false} LineText(w: Word, line: seq<byte>)
    requires AllLetters(w) && (line == w || line == w + [NEWLINE])
    ensures TextOf(line) == w && StrLen(line) == |line|
  {
    if w == [] {
      assert line == [] || line == [NEWLINE];
    } else {
      assert IsLetter(w[0]) && line[0] == w[0];
      assert line == w + [NEWLINE] ==> line[1..] == w[1..] + [NEWLINE];
      LineText(w[1..], line[1..]);
      assert w == [w[0]] + w[1..];
    }
  }

  lemma ShippedLinesRead()
    ensures WordsOf(SHIPPED_LINES) == SHIPPED && LetterWords(SHIPPED) && [] !in SHIPPED
    ensures forall k :: 0 <= k < |SHIPPED_LINES| ==> StrLen(SHIPPED_LINES[k]) < SIZETEXT
  {
    forall k | 0 <= k < |SHIPPED|
      ensures TextOf(SHIPPED_LINES[k]) == SHIPPED[k] && StrLen(SHIPPED_LINES[k]) < SIZETEXT
    {
      LineText(SHIPPED[k], SHIPPED_LINES[k]);
    }
  }

  /** Its only inner 'a' follows the first letter of the list. */
  lemma ShippedAligned()
    ensures Aligned(SHIPPED)
  {
    FirstLetterOfShipped();
    forall p: Word | p != [] && IsPath(SHIPPED, p + [LETTER_A]) ensures p == CAKE[..1] {
      var t := p + [LETTER_A];
      var i :| 0 <= i < |SHIPPED| && t <= SHIPPED[i];
      assert SHIPPED[i][|p|] == t[|p|] == LETTER_A;
      assert i == 0 && |p| == 1;
      assert p == t[..1] == CAKE[..1];
    }
  }

  lemma FirstLetterOfShipped()
    ensures FirstLetter(SHIPPED) == CAKE[..1]
  {
    assert SHIPPED == [] + [CAKE] + [BEE] + [EBPF];
    FirstLetterSnoc([], CAKE);
    FirstLetterSnoc([CAKE], BEE);
    FirstLetterSnoc([CAKE, BEE], EBPF);
  }

  lemma ShippedVerdictCovered()
    ensures VerdictCovered(SHIPPED)
  {
    hide IsPath, Seen;
    forall v, c, j | Falls(SHIPPED, v, c) && 0 <= j < |SHIPPED| && Ends(SHIPPED, j, v + [c])
      ensures AnySeen(SHIPPED, v)
    {
      ShippedListCovered(j);
      assert Seen(SHIPPED, j, v);
    }
  }

  /** The filter exactly as written, on the word list the repository ships: it drops a
      packet if and only if the packet contains one of the words. */
  method FilterShipped(packets: seq<(nat, seq<byte>)>) returns (verdicts: seq<Verdict>)
    ensures |verdicts| == |packets|
    ensures forall i :: 0 <= i < |packets| ==>
              var t := packets[i].1;
              verdicts[i] == XDP_DROP <==> ContainsWord(SHIPPED, if |t| <= 65493 then t else t[..65493])
  {
    hide VerdictCovered, AnySeen, AnyReported, ContainsWord, Aligned, LetterWords, TextOf;
    ShippedLinesRead();
    ShippedAligned();
    ShippedVerdictCovered();
    var ok;
    ok, verdicts := FilterPackets(SHIPPED_LINES, packets, MAXC + 1, false);
    forall i | 0 <= i < |packets|
      ensures var t := packets[i].1;
              verdicts[i] == XDP_DROP <==> ContainsWord(SHIPPED, if |t| <= 65493 then t else t[..65493])
    {
      var t := packets[i].1;
      SeenIsContained(SHIPPED, if |t| <= 65493 then t else t[..65493]);
    }
  }

  const ABD_BC: seq<Word> := [ABD, BC]
  const AB: Word := [97, 98]
  const ABC: Word := [97, 98, 99]

  lemma FallsAfterAB()
    ensures Falls(ABD_BC, AB, 99) && ABC == AB + [99]
  {
    assert AB <= ABD_BC[0];
    assert ABC == AB + [99];
    assert ABC[2] != ABD_BC[0][2] && ABC[0] != ABD_BC[1][0];
  }

  lemma LastLetterDiffers(w: Word, p: Word)
    requires w != [] && p != [] && w[|w| - 1] != p[|p| - 1]
    ensures !IsSuffix(w, p)
  {
    if IsSuffix(w, p) {
      SuffixLast(w, p);
    }
  }

  lemma NothingEndsInAB(j: nat)
    requires j < |ABD_BC|
    ensures !Seen(ABD_BC, j, AB)
  {
    hide IsPath, IsSuffix;
    var w := ABD_BC[j];
    assert w != [] && w[|w| - 1] > 98;
    LastLetterDiffers(w, AB[..1]);
    LastLetterDiffers(w, AB[..2]);
    forall i ensures !EndsAt(ABD_BC, j, AB, i) {
      assert i == 0 || i == 1 || !(0 <= i < |AB|);
    }
  }

  /** With "abd" and "bc" the table as written lets a packet holding "abc" pass. */
  lemma MissedWord(table: Table, path: seq<Word>)
    requires Installed(table, path, ABD_BC, false)
    ensures Occurs(BC, ABC) && BC in ABD_BC
    ensures VerdictOf(Scan(table, FRESH, ABC).matches) == XDP_PASS
  {
    hide Installed, Scan, Falls, Seen, EverReported;
    FallsAfterAB();
    forall j: nat | j < |ABD_BC| ensures !EverReported(ABD_BC, false, j, ABC) {
      FallMisses(ABD_BC, j, AB, 99);
      NothingEndsInAB(j);
    }
    WrittenVerdict(table, path, ABD_BC, ABC);
    assert OccursAt(BC, ABC, 1);
    assert ABD_BC[1] == BC;
  }
}
