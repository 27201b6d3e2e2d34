/** The eBPF maps shared by both sides of the string filter, their set-up from the word
    file, and the kernel program that scans a payload in chunks of 2000 bytes, saves its
    state in a map and tail-calls itself. */
module PacketFilter {
  import opened FixedWidth
  import opened Words
  import opened Bitmask
  import opened TrieNumbering
  import opened AhoCorasick

  const CHUNK := 2000
  const LAST_INDEX := 65492
  const STATE_MAP_ENTRIES := 1000
  // the kernel's bound on a chain of tail calls
  const MAX_TAIL_CALLS := 33

  type Row = seq<GotoResult>
  type Table = seq<Row>

  /** An entry of the `strings` map. */
  datatype Data = Data(text: Word, number: nat)

  /** A scan in progress. */
  datatype State = State(payload_index: nat, ac_state: int, matches: Mask)

  const FRESH := State(0, 1, NONE)

  datatype Verdict = XDP_PASS | XDP_DROP

  datatype Outcome = Done(verdict: Verdict) | TailCall

  // ----- what the tables and scans mean -----

  /** A table has a row for every state and a cell for every letter. */
  predicate Wide(table: Table) {
    |table| == MAXSTATES && forall r :: 0 <= r < MAXSTATES ==> |table[r]| == MAXC
  }

  /** Rows 1..n of the table only lead to rows 1..n. */
  ghost predicate Closed(table: Table, n: int) {
    && 2 <= n <= MAXSTATES && Wide(table)
    && (forall s, c :: 1 <= s < n && 0 <= c < MAXC ==> 1 <= table[s][c].next_state < n)
  }

  /** The table that set-up installs for `words`. */
  ghost predicate Installed(table: Table, path: seq<Word>, words: seq<Word>, matchOfNext: bool) {
    && Numbering(path, words) && |words| <= MAPSTRINGSSIZE
    && |path| <= MAXSTATES && Wide(table)
    && (forall s, c :: 1 <= s < |path| && 0 <= c < MAXC ==> CellOk(path, words, s, c, table[s][c], matchOfNext))
  }

  lemma InstalledIsClosed(table: Table, path: seq<Word>, words: seq<Word>, matchOfNext: bool)
    requires Installed(table, path, words, matchOfNext)
    ensures Closed(table, |path|)
  {
    forall s, c | 1 <= s < |path| && 0 <= c < MAXC ensures 1 <= table[s][c].next_state < |path| {
      assert CellOk(path, words, s, c, table[s][c], matchOfNext);
    }
  }

  /** `payload[i] - 'a'` in 32-bit unsigned arithmetic. */
  function Column(b: byte): int {
    if b >= LETTER_A then b - LETTER_A else b - LETTER_A + TWO_32
  }

  /** One byte: a byte outside the alphabet resets the automaton. */
  function Step(table: Table, s: State, b: byte): State
    requires Wide(table)
  {
    if Column(b) >= MAXC then s.(ac_state := 1)
    else if !(0 <= s.ac_state < MAXSTATES) then s
    else
      var cell := table[s.ac_state][Column(b)];
      s.(ac_state := cell.next_state, matches := s.matches.Or(cell.match_))
  }

  /** An uninterrupted scan. */
  function Scan(table: Table, s: State, text: seq<byte>): State
    requires Wide(table)
  {
    if text == [] then s
    else Step(table, Scan(table, s, text[..|text| - 1]), text[|text| - 1])
  }

  /** The bytes the program can reach: up to the end of the packet and the index cut-off. */
  function Scannable(payload: seq<byte>): seq<byte> {
    if |payload| <= LAST_INDEX + 1 then payload else payload[..LAST_INDEX + 1]
  }

  /** The index cut-off is behind byte 65493; every payload up to that length is read whole. */
  lemma ScannableBytes(payload: seq<byte>)
    ensures |payload| <= 65493 ==> Scannable(payload) == payload
    ensures |payload| > 65493 ==> Scannable(payload) == payload[..65493]
  {
  }

  function VerdictOf(matches: Mask): Verdict {
    if matches != NONE then XDP_DROP else XDP_PASS
  }

  /** Every word whose bit is set has been seen in one more packet. */
  ghost predicate Counted(before: seq<Data>, after: seq<Data>, matches: Mask) {
    && |before| == |after| == MAPSTRINGSSIZE
    && forall j :: 0 <= j < MAPSTRINGSSIZE ==>
         after[j] == if Has(matches, j) then before[j].(number := before[j].number + 1) else before[j]
  }

  /** The words of a file: the texts of its first five lines. */
  function WordsOf(lines: seq<seq<byte>>): (words: seq<Word>)
    ensures |words| == if |lines| <= 5 then |lines| else 5
    ensures forall k :: 0 <= k < |words| ==> words[k] == TextOf(lines[k])
  {
    seq(if |lines| <= MAPSTRINGSSIZE then |lines| else MAPSTRINGSSIZE, k requires 0 <= k < |lines| => TextOf(lines[k]))
  }

  // ----- scanning in pieces -----

  /** The saved state after `done` bytes. */
  ghost function Scanned(table: Table, text: seq<byte>, done: nat): State
    requires Wide(table) && done <= |text|
  {
    Scan(table, FRESH, text[..done]).(payload_index := done)
  }

  /** The index plays no part in the scan. */
  lemma {:induction false} ScanKeepsIndex(table: Table, s: State, k: nat, text: seq<byte>)
    requires Wide(table)
    ensures Scan(table, s, text).payload_index == s.payload_index
    ensures Scan(table, s.(payload_index := k), text) == Scan(table, s, text).(payload_index := k)
  {
    if text != [] {
      ScanKeepsIndex(table, s, k, text[..|text| - 1]);
    }
  }

  /** Scanning `a` and then `b` is scanning `a + b`. */
  lemma {:induction false} ScanConcat(table: Table, s: State, a: seq<byte>, b: seq<byte>)
    requires Wide(table)
    ensures Scan(table, Scan(table, s, a), b) == Scan(table, s, a + b)
  {
    if b == [] {
      assert a + b == a;
    } else {
      assert (a + b)[..|a + b| - 1] == a + b[..|b| - 1];
      ScanConcat(table, s, a, b[..|b| - 1]);
    }
  }

  /** A closed table keeps a scan among its states. */
  lemma {:induction false} ScanStaysClosed(table: Table, s: State, text: seq<byte>, n: int)
    requires Closed(table, n) && 1 <= s.ac_state < n
    ensures 1 <= Scan(table, s, text).ac_state < n
  {
    if text != [] {
      ScanStaysClosed(table, s, text[..|text| - 1], n);
    }
  }

  /** Resuming a saved scan continues the uninterrupted one. */
  lemma ResumeScan(table: Table, text: seq<byte>, done: nat, more: nat)
    requires Wide(table) && done + more <= |text|
    ensures Scan(table, Scanned(table, text, done), text[done..done + more]).(payload_index := done + more)
         == Scanned(table, text, done + more)
  {
    var s := Scan(table, FRESH, text[..done]);
    ScanKeepsIndex(table, s, done, text[done..done + more]);
    ScanConcat(table, FRESH, text[..done], text[done..done + more]);
    assert text[..done] + text[done..done + more] == text[..done + more];
  }

  lemma InOrder(a: nat, b: nat, chunk: nat)
    ensures a <= b ==> a * chunk <= b * chunk
  {
    if a <= b {
      assert b * chunk == a * chunk + (b - a) * chunk;
    }
  }

  /** How many whole chunks a text has. */
  lemma WholeChunks(length: nat, calls: nat, chunk: nat)
    requires calls * chunk <= length && chunk > 0
    ensures calls <= length / chunk
    ensures length < calls * chunk + chunk ==> length / chunk == calls
  {
    var q := length / chunk;
    assert length == q * chunk + length % chunk;
    InOrder(q + 1, calls, chunk);
    InOrder(calls + 1, q, chunk);
  }

  /** What the next invocation makes of a scan suspended after `calls` chunks, for any
      length of a chunk. */
  lemma SavedScan(table: Table, text: seq<byte>, calls: nat, chunk: nat, done: nat, n: int)
    requires Closed(table, n) && done == calls * chunk <= |text| && chunk > 0
    ensures Wide(table)
    ensures var s := Scanned(table, text, done);
            var rest := text[done..];
            && s.payload_index == done && 1 <= s.ac_state < n
            && if |rest| < chunk then
                 && Scan(table, s, rest).matches == Scan(table, FRESH, text).matches
                 && calls == |text| / chunk
               else
                 Scan(table, s, rest[..chunk]).(payload_index := done + chunk) == Scanned(table, text, done + chunk)
  {
    hide Scan, Step;
    var rest := text[done..];
    ScanStaysClosed(table, FRESH, text[..done], n);
    if |rest| < chunk {
      WholeChunks(|text|, calls, chunk);
      ResumeScan(table, text, done, |rest|);
      assert text[done..done + |rest|] == rest && text[..done + |rest|] == text;
    } else {
      ResumeScan(table, text, done, chunk);
      assert text[done..done + chunk] == rest[..chunk];
    }
  }

  lemma FreshState(table: Table, n: int)
    requires Closed(table, n)
    ensures Wide(table) && FRESH.payload_index == 0 && 1 <= FRESH.ac_state < n
    ensures Scan(table, FRESH, []) == FRESH
  {
  }

  lemma WideIfClosed(table: Table, n: int)
    requires Closed(table, n)
    ensures Wide(table)
  {
  }

  /** The mask of a packet has bit `j`. */
  ghost predicate InMask(table: Table, payload: seq<byte>, j: nat)
    requires Wide(table) && j < MAPSTRINGSSIZE
  {
    Has(Scan(table, FRESH, Scannable(payload)).matches, j)
  }

  /** How many of the packets have bit `j` in their mask, counted one by one ... */
  ghost function PacketsWith(table: Table, packets: seq<(nat, seq<byte>)>, j: nat): nat
    requires Wide(table) && j < MAPSTRINGSSIZE
  {
    if packets == [] then 0
    else
      var last := packets[|packets| - 1];
      PacketsWith(table, packets[..|packets| - 1], j)
      + if InMask(table, last.1, j) then 1 else 0
  }

  /** ... that is, the number of packets whose mask has it. */
  lemma {:induction false} PacketsCounted(table: Table, packets: seq<(nat, seq<byte>)>, j: nat)
    requires Wide(table) && j < MAPSTRINGSSIZE
    ensures PacketsWith(table, packets, j) == |set i | 0 <= i < |packets| && InMask(table, packets[i].1, j)|
  {
    if packets != [] {
      var n := |packets| - 1;
      PacketsCounted(table, packets[..n], j);
      LastPacket(table, packets, j);
    }
  }

  lemma LastPacket(table: Table, packets: seq<(nat, seq<byte>)>, j: nat)
    requires Wide(table) && j < MAPSTRINGSSIZE && packets != []
    ensures var n := |packets| - 1;
            |set i | 0 <= i < |packets| && InMask(table, packets[i].1, j)|
            == |set i | 0 <= i < n && InMask(table, packets[..n][i].1, j)|
               + if InMask(table, packets[n].1, j) then 1 else 0
  {
    hide Wide, InMask;
    var n := |packets| - 1;
    var before := set i | 0 <= i < n && InMask(table, packets[..n][i].1, j);
    var all := set i | 0 <= i < |packets| && InMask(table, packets[i].1, j);
    if InMask(table, packets[n].1, j) {
      assert all == before + {n};
    } else {
      assert all == before;
    }
  }

  lemma OrNone(m: Mask)
    ensures m.Or(NONE) == m
  {
  }

  class BpfMaps {
    var strings: seq<Data>
    var gotoFunc: Table
    var stateMap: map<nat, State>

    constructor ()
      ensures |strings| == MAPSTRINGSSIZE && Wide(gotoFunc) && stateMap == map[]
    {
      strings := seq(MAPSTRINGSSIZE, i => Data([], 0));
      gotoFunc := seq(MAXSTATES, s => seq(MAXC, c => GotoResult(0, NONE)));
      stateMap := map[];
    }

    /** Read the words into `strings` and the trie, build the automaton, and install its
        table; refused when one of the lines read holds a byte outside 'a'..'z'.  The
        breadth-first pass visits `columns` columns: MAXC, or MAXC + 1 as written. */
    method FillMapStrings(lines: seq<seq<byte>>, columns: int, matchOfNext: bool)
      returns (ok: bool, ghost path: seq<Word>)
      requires |strings| == MAPSTRINGSSIZE && Wide(gotoFunc)
      requires forall k :: 0 <= k < |WordsOf(lines)| ==> StrLen(lines[k]) < SIZETEXT
      requires columns == MAXC || (columns == MAXC + 1 && Aligned(WordsOf(lines)))
      modifies this
      ensures stateMap == old(stateMap)
      ensures ok <==> LetterWords(WordsOf(lines))
      ensures !ok ==> gotoFunc == old(gotoFunc)
      ensures ok ==> Installed(gotoFunc, path, WordsOf(lines), matchOfNext)
      ensures |strings| == MAPSTRINGSSIZE
      ensures ok ==> forall j :: 0 <= j < MAPSTRINGSSIZE ==>
                strings[j] == if j < |WordsOf(lines)| then Data(WordsOf(lines)[j], 0) else old(strings)[j]
    {
      hide TextOf, StrLen, FirstLetter, Aligned, Installed, Numbering, IsPath, Edge, Marks, MarksEnds, CellOk;
      path := [];
      ghost var words := WordsOf(lines);
      var automaton := new Automaton();
      ok := InsertLines(automaton, lines);
      if !ok {
        return;
      }
      automaton.FillRoot(words);
      automaton.NoSpillExact(words, 1);
      ghost var order := automaton.BuildFailureLinks(columns, words);
      automaton.BuiltFromOrder(words, order);
      var results := automaton.BuildGotoTable(matchOfNext, words);
      InstallTable(automaton, results, matchOfNext, words);
      path := automaton.path;
    }

    method InsertLines(automaton: Automaton, lines: seq<seq<byte>>) returns (ok: bool)
      requires |strings| == MAPSTRINGSSIZE
      requires forall k :: 0 <= k < |WordsOf(lines)| ==> StrLen(lines[k]) < SIZETEXT
      requires automaton.Trie([], 0) && automaton.Marked([]) && automaton.Leads([]) && automaton.states == 2
      modifies this`strings, automaton, automaton.go, automaton.out
      ensures ok <==> LetterWords(WordsOf(lines))
      ensures ok ==> automaton.Trie(WordsOf(lines), 0) && automaton.Marked(WordsOf(lines))
      ensures ok ==> automaton.Leads(WordsOf(lines))
      ensures ok ==> automaton.states < MAXSTATES
      ensures |strings| == MAPSTRINGSSIZE
      ensures ok ==> forall j :: 0 <= j < MAPSTRINGSSIZE ==>
                strings[j] == if j < |WordsOf(lines)| then Data(WordsOf(lines)[j], 0) else old(strings)[j]
    {
      hide TextOf, StrLen, FirstLetter, IsNode, IsPath, Edge, Marks;
      ghost var words := WordsOf(lines);
      var index := 0;
      while index < |lines| && index < MAPSTRINGSSIZE
        invariant 0 <= index <= |words| && |strings| == MAPSTRINGSSIZE
        invariant automaton.Trie(words[..index], 0) && automaton.Marked(words[..index])
        invariant automaton.Leads(words[..index])
        invariant automaton.states <= 2 + (SIZETEXT - 1) * index
        invariant forall j :: 0 <= j < MAPSTRINGSSIZE ==>
                    strings[j] == if j < index then Data(words[j], 0) else old(strings)[j]
      {
        strings := strings[index := Data(TextOf(lines[index]), 0)];
        assert words[..index + 1] == words[..index] + [words[index]];
        ok := automaton.InsertLine(lines[index], index, words[..index]);
        if !ok {
          return;
        }
        index := index + 1;
      }
      assert words[..index] == words;
      ok := true;
    }

    /** Copy the rows of the table that belong to states. */
    method InstallTable(automaton: Automaton, results: array2<GotoResult>, matchOfNext: bool, ghost words: seq<Word>)
      requires automaton.Built(words) && |words| <= MAPSTRINGSSIZE
      requires Wide(gotoFunc)
      requires results.Length0 == MAXSTATES && results.Length1 == MAXC
      requires forall s, c :: 1 <= s < automaton.states && 0 <= c < MAXC ==>
                 CellOk(automaton.path, words, s, c, results[s, c], matchOfNext)
      modifies this`gotoFunc
      ensures Installed(gotoFunc, automaton.path, words, matchOfNext)
    {
      hide CellOk, Numbering;
      for key := 0 to automaton.states
        invariant Wide(gotoFunc)
        invariant forall s, c :: 0 <= s < key && 0 <= c < MAXC ==> gotoFunc[s][c] == results[s, c]
      {
        var row := seq(MAXC, c requires 0 <= c < results.Length1 && key < results.Length0 reads results =>
                         results[key, c]);
        gotoFunc := gotoFunc[key := row];
      }
    }

    // ----- the kernel program -----

    /** The scan of packet `ctx` as an invocation finds it. */
    function Resumed(ctx: nat): State
      reads this
    {
      if ctx in stateMap then stateMap[ctx] else FRESH
    }

    /** The scan loop of one invocation: at most `chunk` bytes from the saved index on. */
    method ScanChunk(start: State, payload: seq<byte>, chunk: nat, ghost n: int)
      returns (s: State, i: nat, reachedEnd: bool)
      requires Closed(gotoFunc, n)
      requires 1 <= start.ac_state < n && start.payload_index <= |Scannable(payload)|
      ensures var rest := Scannable(payload)[start.payload_index..];
              && i == (if |rest| < chunk then |rest| else chunk)
              && s == Scan(gotoFunc, start, rest[..i])
              && (reachedEnd <==> |rest| < chunk)
      ensures 1 <= s.ac_state < n && s.payload_index == start.payload_index
    {
      ghost var rest := Scannable(payload)[start.payload_index..];
      s, i, reachedEnd := start, 0, false;
      while i < chunk
        invariant i <= chunk && i <= |rest| && !reachedEnd
        invariant s == Scan(gotoFunc, start, rest[..i]) && s.payload_index == start.payload_index
        invariant 1 <= s.ac_state < n
      {
        var access := s.payload_index + i;
        if access > LAST_INDEX || access + 1 > |payload| {
          reachedEnd := true;
          break;
        }
        if s.ac_state >= MAXSTATES {
          break;
        }
        var row := gotoFunc[s.ac_state];
        assert rest[i] == payload[access];
        assert rest[..i + 1][..i] == rest[..i];
        var ch := Column(payload[access]);
        if ch >= MAXC {
          s := s.(ac_state := 1);
        } else {
          s := s.(ac_state := row[ch].next_state);
          if row[ch].match_ != NONE {
            s := s.(matches := s.matches.Or(row[ch].match_));
          } else {
            OrNone(s.matches);
          }
        }
        i := i + 1;
      }
    }

    /** One invocation on the packet at `ctx`.  A fresh scan is stored as a copy before it
        starts, and then advances on the stack only; a resumed one advances in the map. */
    method MatchPayload(ctx: nat, payload: seq<byte>, chunk: nat, ghost n: int) returns (r: Outcome)
      requires Closed(gotoFunc, n) && |strings| == MAPSTRINGSSIZE
      requires 1 <= Resumed(ctx).ac_state < n && Resumed(ctx).payload_index <= |Scannable(payload)|
      modifies this`stateMap, this`strings
      ensures |strings| == MAPSTRINGSSIZE
      ensures var start := old(Resumed(ctx));
              var rest := Scannable(payload)[start.payload_index..];
              var stores := old(ctx !in stateMap && |stateMap| < STATE_MAP_ENTRIES);
              var stored := if stores then old(stateMap)[ctx := FRESH] else old(stateMap);
              if |rest| < chunk then
                var end := Scan(gotoFunc, start, rest);
                && r == Done(VerdictOf(end.matches))
                && Counted(old(strings), strings, end.matches)
                && stateMap == stored - {ctx}
              else
                var end := Scan(gotoFunc, start, rest[..chunk]);
                && r == TailCall
                && strings == old(strings)
                && stateMap == if old(ctx in stateMap)
                               then stored[ctx := end.(payload_index := start.payload_index + chunk)] else stored
    {
      var fromMap := ctx in stateMap;
      var s := if fromMap then stateMap[ctx] else FRESH;
      if !fromMap && |stateMap| < STATE_MAP_ENTRIES {
        stateMap := stateMap[ctx := s];
      }
      hide Closed, Scan, Scannable;
      ghost var rest := Scannable(payload)[s.payload_index..];
      var i, reachedEnd;
      s, i, reachedEnd := ScanChunk(s, payload, chunk, n);
      assert reachedEnd ==> rest[..i] == rest;
      if fromMap {
        stateMap := stateMap[ctx := s];
      }
      if reachedEnd {
        CountMatches(s.matches);
        r := Done(VerdictOf(s.matches));
        stateMap := stateMap - {ctx};
      } else {
        s := s.(payload_index := s.payload_index + i);
        if fromMap {
          stateMap := stateMap[ctx := s];
        }
        r := TailCall;
      }
    }

    method CountMatches(matches: Mask)
      requires |strings| == MAPSTRINGSSIZE
      modifies this`strings
      ensures Counted(old(strings), strings, matches)
    {
      for j := 0 to MAPSTRINGSSIZE
        invariant |strings| == MAPSTRINGSSIZE
        invariant forall k :: 0 <= k < j ==>
                    var before := old(strings)[k];
                    strings[k] == if Has(matches, k) then before.(number := before.number + 1) else before
        invariant forall k :: j <= k < MAPSTRINGSSIZE ==> strings[k] == old(strings)[k]
      {
        if Has(matches, j) {
          strings := strings[j := strings[j].(number := strings[j].number + 1)];
        }
      }
    }

    /** A packet from arrival to verdict: the first invocation and its chain of tail calls,
        for any length of a chunk.  A tail call beyond the kernel's limit fails, and the
        packet passes, its scan still suspended.  With chunks of 2000 bytes the limit is
        never reached; but while the state map is full nothing of a long packet is saved,
        and each invocation scans its first chunk again. */
    method ProcessPacket(ctx: nat, payload: seq<byte>, chunk: nat, ghost n: int) returns (verdict: Verdict, calls: nat)
      requires Closed(gotoFunc, n) && |strings| == MAPSTRINGSSIZE && ctx !in stateMap && chunk > 0
      modifies this`stateMap, this`strings
      ensures var avail := Scannable(payload);
              var end := Scan(gotoFunc, FRESH, avail);
              var needed := if |avail| < chunk then 0 else 1 + |avail| / chunk;
              if needed == 0 || (needed <= 33 && old(|stateMap|) < 1000) then
                && verdict == VerdictOf(end.matches) && Counted(old(strings), strings, end.matches)
                && calls == needed && stateMap == old(stateMap)
              else
                && verdict == XDP_PASS && strings == old(strings) && calls == 33
                && if old(|stateMap|) < 1000 then
                     && 33 * chunk <= |avail|
                     && stateMap == old(stateMap)[ctx := Scanned(gotoFunc, avail, 33 * chunk)]
                   else stateMap == old(stateMap)
      ensures chunk == 2000 ==> stateMap == old(stateMap)
    {
      hide Closed, Scan, Scanned, Counted, Wide, VerdictOf;
      ghost var avail := Scannable(payload);
      var r;
      r, calls := FollowTailCalls(ctx, payload, chunk, n);
      verdict := if r == TailCall then XDP_PASS else r.verdict;
      if r == TailCall && old(|stateMap|) < STATE_MAP_ENTRIES {
        WholeChunks(|avail|, MAX_TAIL_CALLS, chunk);
      }
    }

    /** The chain of invocations, up to the limit. */
    method FollowTailCalls(ctx: nat, payload: seq<byte>, chunk: nat, ghost n: int) returns (r: Outcome, calls: nat)
      requires Closed(gotoFunc, n) && |strings| == MAPSTRINGSSIZE && ctx !in stateMap && chunk > 0
      modifies this`stateMap, this`strings
      ensures calls <= MAX_TAIL_CALLS
      ensures r == TailCall ==>
                && calls == MAX_TAIL_CALLS
                && Suspended(old(stateMap), old(strings), ctx, Scannable(payload), chunk, calls * chunk)
      ensures r != TailCall ==> Processed(old(stateMap), old(strings), r, calls, Scannable(payload), chunk)
    {
      hide Closed, Scannable, Suspended, Processed;
      ghost var avail := Scannable(payload);
      calls := 0;
      r := FirstInvocation(ctx, payload, chunk, n);
      while r == TailCall && calls < MAX_TAIL_CALLS
        invariant calls <= MAX_TAIL_CALLS && |strings| == MAPSTRINGSSIZE
        invariant r == TailCall ==> Suspended(old(stateMap), old(strings), ctx, avail, chunk, calls * chunk)
        invariant r != TailCall ==> Processed(old(stateMap), old(strings), r, calls, avail, chunk)
      {
        ghost var done := calls * chunk;
        assert (calls + 1) * chunk == done + chunk;
        r := NextInvocation(ctx, payload, calls, chunk, done, old(stateMap), old(strings), n);
        calls := calls + 1;
      }
    }

    /** The scan of `avail` is suspended after `done` bytes, in the map if that has room. */
    ghost predicate Suspended(states: map<nat, State>, counters: seq<Data>, ctx: nat, avail: seq<byte>,
                              chunk: nat, done: nat)
      reads this
    {
      && Wide(gotoFunc) && chunk <= |avail| && strings == counters
      && if |states| < STATE_MAP_ENTRIES
         then done <= |avail| && stateMap == states[ctx := Scanned(gotoFunc, avail, done)]
         else stateMap == states
    }

    /** The packet is finished after `calls` tail calls, and nothing of it is left in the map. */
    ghost predicate Processed(states: map<nat, State>, counters: seq<Data>, r: Outcome, calls: nat, avail: seq<byte>,
                              chunk: nat)
      requires chunk > 0
      reads this
    {
      && Wide(gotoFunc) && (|states| < STATE_MAP_ENTRIES || |avail| < chunk)
      && var end := Scan(gotoFunc, FRESH, avail);
      && r == Done(VerdictOf(end.matches)) && Counted(counters, strings, end.matches) && stateMap == states
      && calls == if |avail| < chunk then 0 else 1 + |avail| / chunk
    }

    /** The first invocation suspends the scan at its start, although it has advanced. */
    method FirstInvocation(ctx: nat, payload: seq<byte>, chunk: nat, ghost n: int) returns (r: Outcome)
      requires Closed(gotoFunc, n) && |strings| == MAPSTRINGSSIZE && ctx !in stateMap && chunk > 0
      modifies this`stateMap, this`strings
      ensures |strings| == MAPSTRINGSSIZE
      ensures r == TailCall ==> Suspended(old(stateMap), old(strings), ctx, Scannable(payload), chunk, 0)
      ensures r != TailCall ==> Processed(old(stateMap), old(strings), r, 0, Scannable(payload), chunk)
    {
      hide Closed, Scan, Scannable, Counted, Wide;
      ghost var avail := Scannable(payload);
      FreshState(gotoFunc, n);
      assert avail[0..] == avail && avail[..0] == [];
      r := MatchPayload(ctx, payload, chunk, n);
      assert old(stateMap)[ctx := FRESH] - {ctx} == old(stateMap) == old(stateMap) - {ctx};
    }

    /** A tail call advances the saved scan by one chunk, or finishes the packet; an unsaved
        scan starts over. */
    method NextInvocation(ctx: nat, payload: seq<byte>, calls: nat, chunk: nat, ghost done: nat,
                          ghost states: map<nat, State>, ghost counters: seq<Data>, ghost n: int)
      returns (r: Outcome)
      requires Closed(gotoFunc, n) && |strings| == MAPSTRINGSSIZE && ctx !in states && chunk > 0
      requires done == calls * chunk && Suspended(states, counters, ctx, Scannable(payload), chunk, done)
      modifies this`stateMap, this`strings
      ensures |strings| == MAPSTRINGSSIZE
      ensures r == TailCall ==> Suspended(states, counters, ctx, Scannable(payload), chunk, done + chunk)
      ensures r != TailCall ==> Processed(states, counters, r, calls + 1, Scannable(payload), chunk)
    {
      hide Closed, Scan, Scannable, Counted, Wide;
      ghost var avail := Scannable(payload);
      if |states| < STATE_MAP_ENTRIES {
        SavedScan(gotoFunc, avail, calls, chunk, done, n);
      } else {
        FreshState(gotoFunc, n);
        assert avail[0..] == avail;
      }
      r := MatchPayload(ctx, payload, chunk, n);
    }

    /** Packets one after another, each with the address of its context. */
    method ProcessPackets(packets: seq<(nat, seq<byte>)>, ghost n: int) returns (verdicts: seq<Verdict>)
      requires Closed(gotoFunc, n) && |strings| == MAPSTRINGSSIZE && stateMap == map[]
      modifies this`stateMap, this`strings
      ensures stateMap == map[]
      ensures |verdicts| == |packets| && |strings| == MAPSTRINGSSIZE
      ensures forall i :: 0 <= i < |packets| ==>
                verdicts[i] == VerdictOf(Scan(gotoFunc, FRESH, Scannable(packets[i].1)).matches)
      ensures forall j :: 0 <= j < MAPSTRINGSSIZE ==>
                && strings[j].text == old(strings)[j].text
                && strings[j].number == old(strings)[j].number + PacketsWith(gotoFunc, packets, j)
    {
      hide Closed, Scan, Scannable;
      WideIfClosed(gotoFunc, n);
      verdicts := [];
      for i := 0 to |packets|
        invariant stateMap == map[] && |verdicts| == i && |strings| == MAPSTRINGSSIZE
        invariant forall k :: 0 <= k < i ==>
                    verdicts[k] == VerdictOf(Scan(gotoFunc, FRESH, Scannable(packets[k].1)).matches)
        invariant forall j :: 0 <= j < MAPSTRINGSSIZE ==>
                    && strings[j].text == old(strings)[j].text
                    && strings[j].number == old(strings)[j].number + PacketsWith(gotoFunc, packets[..i], j)
      {
        ghost var before := strings;
        var verdict, calls := ProcessPacket(packets[i].0, packets[i].1, CHUNK, n);
        verdicts := verdicts + [verdict];
        assert packets[..i + 1][..i] == packets[..i];
      }
      assert packets[..|packets|] == packets;
    }
  }
}
