/** The whole filter: from the word file to the verdicts on a sequence of packets. */
module StringFilter {
  import opened Words
  import opened AhoCorasick
  import opened PacketFilter
  import opened Detection

  ghost predicate ContainsWord(words: seq<Word>, t: Word) {
    exists w :: w in words && Occurs(w, t)
  }

  /** With the match of the next state a packet is dropped exactly when a word is seen in
      it (a word that is not blank, when the packet contains it).  With the table as written
      it is dropped exactly when a word was reported on an edge, which never happens without
      a word, and always with one if the word list is covered. */
  ghost predicate VerdictMeans(verdict: Verdict, words: seq<Word>, read: Word, matchOfNext: bool) {
    var dropped := verdict == XDP_DROP;
    if matchOfNext then
      && (dropped <==> AnySeen(words, read))
      && ([] !in words ==> (dropped <==> ContainsWord(words, read)))
    else
      && (dropped <==> AnyReported(words, read))
      && (dropped ==> AnySeen(words, read))
      && (VerdictCovered(words) ==> (dropped <==> AnySeen(words, read)))
  }

  /** Set up the maps from `lines`, with `columns` columns in the breadth-first pass, and
      filter `packets`.  Up to 65493 bytes of each are read. */
  method FilterPackets(lines: seq<seq<byte>>, packets: seq<(nat, seq<byte>)>, columns: int, matchOfNext: bool)
    returns (ok: bool, verdicts: seq<Verdict>)
    requires forall k :: 0 <= k < |WordsOf(lines)| ==> StrLen(lines[k]) < 10
    requires columns == MAXC || (columns == MAXC + 1 && Aligned(WordsOf(lines)))
    ensures ok <==> LetterWords(WordsOf(lines))
    ensures ok ==> |verdicts| == |packets|
    ensures ok ==> forall i :: 0 <= i < |packets| ==>
              var t := packets[i].1;
              VerdictMeans(verdicts[i], WordsOf(lines), if |t| <= 65493 then t else t[..65493], matchOfNext)
  {
    hide Installed, Closed, Scan, Scannable, LetterWords, VerdictCovered, AnySeen, AnyReported, ContainsWord;
    ghost var words := WordsOf(lines);
    verdicts := [];
    var maps := new BpfMaps();
    ghost var path;
    ok, path := maps.FillMapStrings(lines, columns, matchOfNext);
    if !ok {
      return;
    }
    ghost var table := maps.gotoFunc;
    InstalledIsClosed(table, path, words, matchOfNext);
    verdicts := maps.ProcessPackets(packets, |path|);
    forall i | 0 <= i < |packets|
      ensures var t := packets[i].1;
              VerdictMeans(verdicts[i], words, if |t| <= 65493 then t else t[..65493], matchOfNext)
    {
      ScannableBytes(packets[i].1);
      VerdictOfScan(table, path, words, Scannable(packets[i].1), matchOfNext);
    }
  }

  lemma VerdictOfScan(table: Table, path: seq<Word>, words: seq<Word>, t: Word, matchOfNext: bool)
    requires Installed(table, path, words, matchOfNext)
    ensures Wide(table) && VerdictMeans(VerdictOf(Scan(table, FRESH, t).matches), words, t, matchOfNext)
  {
    hide Scan, VerdictCovered, AnySeen, AnyReported;
    if matchOfNext {
      RepairedTableDetects(table, path, words, t);
    } else {
      WrittenVerdict(table, path, words, t);
      ReportedIsSeen(words, t);
      WrittenVerdictExact(table, path, words);
    }
  }

  lemma ReportedIsSeen(words: seq<Word>, t: Word)
    ensures AnyReported(words, t) ==> AnySeen(words, t)
  {
    if AnyReported(words, t) {
      ReportedWord(words, t);
    }
  }

  lemma ReportedWord(words: seq<Word>, t: Word)
    requires AnyReported(words, t)
    ensures AnySeen(words, t)
  {
    var j: nat :| j < |words| && EverReported(words, false, j, t);
    var i :| Reported(words, false, j, t, i);
    assert EndsAt(words, j, t, i);
    assert Seen(words, j, t);
  }

  lemma SeenIsContained(words: seq<Word>, t: Word)
    requires LetterWords(words) && [] !in words
    ensures AnySeen(words, t) <==> ContainsWord(words, t)
  {
    forall j: nat | j < |words| ensures Seen(words, j, t) <==> Occurs(words[j], t) {
      assert words[j] in words;
      SeenIsOccurs(words, j, t);
    }
    if w :| w in words && Occurs(w, t) {
      var j: nat :| j < |words| && words[j] == w;
      assert Seen(words, j, t);
    }
  }

  /** A blank line makes the filter look for a letter that starts no word. */
  lemma BlankLine(words: seq<Word>, j: nat, t: Word)
    requires j < |words| && words[j] == []
    ensures Seen(words, j, t) <==> exists i :: 0 <= i < |t| && IsLetter(t[i]) && !IsPath(words, [t[i]])
  {
    hide IsPath;
    forall i | 0 <= i < |t| ensures EndsAt(words, j, t, i) <==> IsLetter(t[i]) && !IsPath(words, [t[i]]) {
      assert t[..i + 1][i] == t[i];
    }
  }
}
