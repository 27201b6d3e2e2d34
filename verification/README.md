# Verified model of the Honey eBPF programs

Honey compiles Elixir to eBPF. This project models four parts of its repository and
proves properties of them in Dafny:

* **The string filter** (`benchmarks/findstring`): user space builds an Aho-Corasick
  automaton from a word file and flattens it into a transition table; an XDP program runs
  that table over UDP payloads in chunks of 2000 bytes, saving its state in a map between
  tail calls, and drops a packet in which a word was seen.
* **The value heap of generated programs** (`examples/*/lib/src/*.bpf.c`, emitted by
  `lib/honey/compiler/translator.ex`): bump-allocated cells, a pool of cell indices, a
  pool of characters, and the guarded reads that pattern matching compiles to.
* **The monitors** (`benchmarks/networkmonitor`, `diskmonitor`, `cpumonitor`): event
  handlers that keep several bounded kernel maps in step.
* **The checked arithmetic of the runtime** (`priv/c_boilerplates/runtime_functions.bpf.c`).

`dafny verify dfyconfig.toml` checks everything. Code that updates state is modelled by
classes and methods with loops over arrays (`CircularQueue.Queue`, `AhoCorasick.Automaton`,
`PacketFilter.BpfMaps`, `HeapRuntime.Runtime`, the three `Monitor` classes); each method is
proved against a function or predicate on values, and the theorems are about those.

| file | contents |
|---|---|
| Options, FixedWidth | optional values, 32-bit integers |
| Words, Bitmask | byte strings, the longest suffix that is a trie path, match masks |
| CircularQueue | the circular queue, refining a sequence |
| TrieNumbering, BreadthFirst | the trie as a numbering of paths; breadth-first visiting orders |
| AhoCorasick | insertion, failure links, outputs, goto table |
| PacketFilter | the maps, the resumable scan, tail calls, counters |
| Detection, WordLists, StringFilter | what is detected; two word lists; the whole filter |
| HeapStore, Constructors, HeapRuntime, Matching, MatchMeaning | cells and values; constructor code; the arrays; match code; what Elixir's match means |
| BuiltAsWritten, ElixirMatching | when the constructor code builds, and the match code accepts, what Elixir would |
| StraightLine, ExamplePrograms | sequences of matches; two of the example programs, and one that departs |
| CounterMaps, NetworkMonitor, DiskMonitor, CpuMonitor | bounded maps and the monitors |
| CheckedArithmetic | checked 32-bit arithmetic on 64-bit integers |

## Where the code departs from its purpose

The model follows the code. Where that is not what the code's documentation or purpose
calls for, the inputs that show it and the exact condition under which the code does what
it should are proved:

* **Match read from the wrong state** (`benchmarks/findstring/prog.c:199-201`). The match of
  a cell is `out[go[s][c]]`, which is 0 on a failure transition. The table as written is
  sound but incomplete: with the words "abd" and "bc" the payload "abc" passes
  (`WordLists.MissedWord`), although the program's own documentation says that packets
  containing any string are dropped. `Detection.WrittenBitExact` and `WrittenVerdictExact`
  say for which word lists it is right on every payload: those where a word that would end
  on a failure transition out of a trie node was already reported on the way to that node.
  The repository's own list is one of them. The parameter `matchOfNext` selects the table
  as written (false) or with the match of the next state (true).
* **Column 27** (`benchmarks/findstring/prog.c:165`). The breadth-first loop runs to
  `ch <= MAXC` and reads `go[state][26]`, in row-major memory the next row's column 0. The
  parameter `columns` is 26 as intended or 27 as written. `NoSpillExact` shows that the
  extra read finds no edge if and only if the word list is `Aligned`: an 'a' that is not the
  first letter of its word comes right after the first letter of the whole list. Then the
  pass as written is the intended one. The repository's list is aligned ("cake" comes
  first), so `WordLists.FilterShipped` is about the program exactly as written.
* **First chunk scanned twice** (`benchmarks/findstring/prog.bpf.c:99-111,178`). A new scan
  is stored as a copy and then advances on the stack, so a long packet's second invocation
  starts over. `PacketFilter.BpfMaps.ProcessPacket` shows that the result is that of one
  uninterrupted scan, and counts the tail calls.
* **Blank lines**. The outputs of nodes one letter deep are never merged with the root's
  (`benchmarks/findstring/prog.c:152-159`), so the bit of an empty line is set by a letter
  that starts no word (`Words.Ends`, `StringFilter.BlankLine`).
* **Queue capacity**. The macro `MAXSTATES` has no parentheses, so the queue holds
  5 * 10 + 1 * 26 = 76 states, still more than there are nodes.
* **List tails** (`lib/honey/compiler/translator.ex:949-987`). A list cell stores as its
  tail the cell pushed last, whatever the tail expression was: `[[1]]` is built as
  `[[1], 1]` (`BuiltAsWritten.NestedListLiteral`), while `[[]]` is built right.
  `Constructors.EmitBuilds` gives the value built for every expression, and
  `BuiltAsWritten.RightExact` the condition under which it is the value written, if and
  only if: in every list whose head pushes cells the last of them holds the tail, and in
  any other list the tail is a list built right, or the value pushed last.
  `LiteralExact` is the case where no tail is a variable and the heap plays no part.
* **Integer literals** (`lib/honey/compiler/translator.ex:1350-1355`) are declared `int`, so
  one beyond 32 bits is truncated when it is built, and not when it is matched:
  `{3000000000} = {3000000000}` fails (`ElixirMatching.WideIntegerRefused`).
* **Unchecked patterns** (`lib/honey/compiler/translator.ex:776,1120,1252-1286`). On the left
  of `=` and directly inside a list pattern the generator's `generic` flag is off: no code is
  emitted for an integer literal, so `1 = 2` continues, and only the character tests for a
  string literal, so `"ab" = "abc"` does (`ElixirMatching.UncheckedInteger`,
  `UncheckedString`). A tuple pattern does not look at the tuple's size
  (`ShortTuplePattern`).
* **Improper lists** (`lib/honey/compiler/translator.ex:1041-1067,1173-1182`). A list pattern
  tests once that it has a list and reads every tail after that without a test. A tail that
  is a tuple is taken for a list cell, so `{_, t} = {0, {2, []}}` then `[a, b] = [1 | t]`
  binds a to 1 and b to 2 (`ExamplePrograms.TupleTailRuns`), and the integer -1 is taken for
  the empty list (`ElixirMatching.MinusOneTail`). An atom, a string or another integer is
  taken for a list cell at the slots that its numbers happen to name.
* **Matching in all.** `Matching.Accepts` is the match the emitted code performs, wherever its
  reads stay inside the value (`Matching.Fits`). It never refuses what Elixir matches, for
  every value in the heap (`ElixirMatching.RunMatches`). On any value in any heap the emitted
  code matches as Elixir does if and only if, where it accepts, the value agrees in tuple
  sizes, unchecked literals and tails that are lists, wherever the reads lead (`RunExact`;
  `ExactMatch` is the same for values alone). And on all values if and only if the pattern has no tuple, no
  unchecked literal and no list pattern but `[]` and those of the form `[h | t]`
  (`StrictExact`), for which no condition on the reads is needed either (`StrictRun`).
* **Minimum latency** (`benchmarks/diskmonitor/prog.bpf.c:72-74`). 0 also means "not set",
  so an instantaneous operation is forgotten by the next one (`DiskMonitor.MinimumExact`).
* **Subtract** (`priv/c_boilerplates/runtime_functions.bpf.c:82-95`) returns the sum, and
  its checks compare the difference with `-INT_MAX` and `-INT_MIN`, so that even
  `INT_MIN - 0` raises (`CheckedArithmetic.WrongDifferences`); `SubtractExact` says exactly
  when the outcome is right. **Divide** (line 176) multiplies an unsigned quotient
  by -1, so a negative quotient is right only in its low 32 bits
  (`CheckedArithmetic.DivideExact`).

## Model

| member | source | states |
|---|---|---|
| WordLists.FilterShipped | benchmarks/findstring/prog.c:85-217 | the program exactly as written (27 columns, match of the trie edge), run on the word file the repository ships, drops a packet if and only if its payload, or the first 65493 bytes of a longer one, contains "cake", "bee" or "ebpf" |
| StringFilter.FilterPackets | benchmarks/findstring/prog.bpf.c:56-182 | for any word file and any packets, about the whole payload up to 65493 bytes: with the match of the next state a packet is dropped iff a word is seen in it, which without blank words means iff it contains one; as written it is dropped iff a word was reported on an edge, hence only if a word is there, and iff one is there when the list is covered |
| Detection.RepairedTableDetects | benchmarks/findstring/prog.c:185-205 | with the match of the next state, bit j of the mask is set iff word j is seen, and the verdict is drop iff some word is; for words that are not blank, seen means occurring as a contiguous substring |
| Detection.WrittenTableSound | benchmarks/findstring/prog.c:199-201 | as written, every bit set names a word that really ends at a letter of the payload, and a word ending on a trie edge or out of the root is never missed |
| Detection.WrittenBitExact | benchmarks/findstring/prog.c:199-201 | as written, the bit of word j is right on all payloads iff j is covered: wherever it would end on a failure transition out of a trie path, it already ended along that path |
| Detection.WrittenVerdictExact | benchmarks/findstring/prog.bpf.c:164-170 | as written, the verdict is right on all payloads iff a word ending on a failure transition out of a trie path implies that some word ended along that path |
| Detection.ScanFollowsText | benchmarks/findstring/prog.bpf.c:115-145 | after any text the scan stands at the node of the longest suffix that is a trie path, and its mask holds exactly the words reported on the way |
| Detection.StepFollowsText | benchmarks/findstring/prog.bpf.c:130-144 | one byte keeps that: a letter moves along the table, any other byte resets to the root |
| Detection.CellReports | benchmarks/findstring/prog.c:188-203 | a cell's match marks exactly the words reported at the letter that uses the cell |
| Detection.FirstIsReported | benchmarks/findstring/prog.c:199-201 | if word j is covered and ends anywhere in a text, it is reported somewhere in it |
| Detection.FirstOfAnyIsReported | benchmarks/findstring/prog.c:199-201 | the same for the verdict: some word is reported wherever one ends |
| Detection.FallMisses | benchmarks/findstring/prog.c:199-201 | a word that ends on a failure transition out of the path v is missed in that text unless it ended in v |
| Detection.WrittenVerdict | benchmarks/findstring/prog.bpf.c:164-170 | as written, a packet is dropped iff some word was reported in it |
| Detection.SeenIsOccurs | benchmarks/findstring/prog.bpf.c:113-145 | a non-blank word ends at some letter of a text iff it is a contiguous substring of it |
| WordLists.MissedWord | benchmarks/findstring/prog.c:199-201 | counterexample: for "abd" and "bc" the payload "abc" contains "bc" and passes |
| WordLists.ShippedListCovered | benchmarks/findstring/strings.txt:1-3 | every word of the shipped list is covered |
| WordLists.ShippedAligned | benchmarks/findstring/strings.txt:1-3 | the shipped list is aligned, so the loop bound as written is harmless |
| WordLists.ShippedLinesRead | benchmarks/findstring/strings.txt:1-3 | the three lines, the last without newline, yield the three words |
| StringFilter.BlankLine | benchmarks/findstring/prog.c:117-120 | an empty line is seen exactly where a letter starts no word |
| PacketFilter.BpfMaps.ProcessPacket | benchmarks/findstring/prog.bpf.c:95-182 | for any chunk length: while the chain needs at most 33 tail calls, it gives the verdict and counters of one uninterrupted scan although the first chunk is scanned twice, makes none for a packet shorter than a chunk and otherwise 1 + n/chunk, and leaves nothing in the state map; otherwise the packet passes with its scan still suspended and no counter changed, as does every packet of a chunk or more while the map is full. With 2000 bytes 33 calls are always enough |
| PacketFilter.BpfMaps.FollowTailCalls | benchmarks/findstring/prog.bpf.c:177-181 | after the chain the packet is finished, or its scan is suspended after 33 chunks |
| PacketFilter.BpfMaps.ProcessPackets | benchmarks/findstring/prog.bpf.c:147-176 | over any packet sequence counter j grows by the number of packets whose mask has bit j, and every verdict is that of its own packet |
| PacketFilter.PacketsCounted | benchmarks/findstring/prog.bpf.c:147-160 | what counter j grows by is the number of packets whose mask has bit j |
| PacketFilter.BpfMaps.MatchPayload | benchmarks/findstring/prog.bpf.c:95-182 | one invocation: its outcome, the counters, and the state map, for fresh and resumed scans, full map included |
| PacketFilter.BpfMaps.ScanChunk | benchmarks/findstring/prog.bpf.c:113-145 | the loop advances the scan by the next chunk (2000 bytes in the program), or to the end of what can be read |
| PacketFilter.ScannableBytes | benchmarks/findstring/prog.bpf.c:117-123 | a payload of up to 65493 bytes is read whole, a longer one up to there |
| PacketFilter.BpfMaps.CountMatches | benchmarks/findstring/prog.bpf.c:148-160 | exactly the counters of the words in the mask go up, by one |
| PacketFilter.BpfMaps.FirstInvocation | benchmarks/findstring/prog.bpf.c:106-110 | a long packet's first invocation leaves the scan suspended at index 0 |
| PacketFilter.BpfMaps.NextInvocation | benchmarks/findstring/prog.bpf.c:100-101 | each later invocation advances the suspended scan by one chunk or finishes the packet |
| PacketFilter.BpfMaps.FillMapStrings | benchmarks/findstring/prog.c:85-217 | set-up succeeds iff the lines read hold letters only, then installs a correct table and the words with count 0; on refusal the table is unchanged |
| PacketFilter.BpfMaps.InsertLines | benchmarks/findstring/prog.c:104-138 | the first five lines are inserted in order, their texts stored, and the states stay below MAXSTATES |
| PacketFilter.BpfMaps.InstallTable | benchmarks/findstring/prog.c:207-214 | exactly the rows of the states are copied |
| PacketFilter.ScanConcat | benchmarks/findstring/prog.bpf.c:115-145 | scanning a and then b is scanning a + b |
| PacketFilter.ResumeScan | benchmarks/findstring/prog.bpf.c:98-101 | resuming a saved scan continues the uninterrupted one |
| PacketFilter.SavedScan | benchmarks/findstring/prog.bpf.c:113-123 | what the next invocation makes of a scan saved after any number of chunks of any length |
| PacketFilter.ScanStaysClosed | benchmarks/findstring/prog.bpf.c:125-137 | a scan never leaves the states of the table, so its row lookups succeed |
| AhoCorasick.Automaton.BuildFailureLinks | benchmarks/findstring/prog.c:148-182 | every non-root node is visited exactly once, by non-decreasing depth; each failure link is the node of the longest proper suffix that is a path, and each output marks exactly the words ending the node's string |
| AhoCorasick.Automaton.NoSpillExact | benchmarks/findstring/prog.c:165-167 | reading column 26 never finds an edge iff the word list is aligned |
| AhoCorasick.Automaton.RowMajor | benchmarks/findstring/prog.c:165-167 | column 26 of a row is the cell after its column 25 in memory |
| AhoCorasick.Automaton.FindNextState | benchmarks/findstring/prog.c:72-78 | the failure chain terminates, since depth decreases, and yields the node of the longest suffix of the node's string plus the letter |
| AhoCorasick.Automaton.BuildGotoTable | benchmarks/findstring/prog.c:185-205 | every cell of every state is correct |
| AhoCorasick.Automaton.GotoCell | benchmarks/findstring/prog.c:189-203 | the next state is the longest suffix's node, the match marks the words ending there, or nothing on a failure transition as written |
| AhoCorasick.Automaton.InsertLine | benchmarks/findstring/prog.c:115-135 | a line adds exactly the prefixes of its word to the trie and its bit to the word's node, at most 9 states, or is refused iff it holds a byte outside 'a'..'z' |
| AhoCorasick.Automaton.Child | benchmarks/findstring/prog.c:129-133 | the edge for a letter is followed, or created as the next state |
| AhoCorasick.Automaton.NewNode | benchmarks/findstring/prog.c:129-131 | the next number spells the parent's string plus the letter; all other edges stay |
| AhoCorasick.Automaton.MarkEnd | benchmarks/findstring/prog.c:135 | marking the end node keeps the masks exactly the word ends |
| AhoCorasick.Automaton.OneParent | benchmarks/findstring/prog.c:115-138 | the trie is a tree: every node but the root is the target of exactly one cell |
| AhoCorasick.Automaton.FillRoot | benchmarks/findstring/prog.c:144-146 | the root gets an edge on every letter, looping where no word starts |
| AhoCorasick.Automaton.StartQueue | benchmarks/findstring/prog.c:152-159 | the root's children, linked to the root, are queued in letter order |
| AhoCorasick.Automaton.DrainQueue | benchmarks/findstring/prog.c:161-182 | the queue empties with the pass's invariant kept |
| AhoCorasick.Automaton.ExpandNode | benchmarks/findstring/prog.c:163-181 | all columns of a dequeued node, 26 or as written 27 of them, link and queue exactly its children |
| AhoCorasick.Automaton.LinkChild | benchmarks/findstring/prog.c:167-179 | a child gets its failure link and its final output before it is queued |
| AhoCorasick.Automaton.EnqueueChild | benchmarks/findstring/prog.c:179 | the queue has room: the silent drop never happens |
| AhoCorasick.Automaton.ChainStep | benchmarks/findstring/prog.c:171-172 | one link up the failure chain is strictly shallower and keeps the longest suffix sought |
| AhoCorasick.Automaton.ChainEnd | benchmarks/findstring/prog.c:174 | a non-zero cell leads to the longest suffix |
| AhoCorasick.MergeOutputs | benchmarks/findstring/prog.c:177 | a node's own word together with its failure node's final output are exactly the words that end its string |
| AhoCorasick.TextOf | benchmarks/findstring/prog.c:107-109 | the text of a line is its longest prefix without newline or terminator |
| BreadthFirst.VisitComplete | benchmarks/findstring/prog.c:161-182 | when nothing is left to expand, every node has been visited exactly once, by depth |
| BreadthFirst.LevelVisited | benchmarks/findstring/prog.c:161-182 | all nodes no deeper than the node being expanded have been visited, so their links and outputs are final |
| BreadthFirst.VisitAppend | benchmarks/findstring/prog.c:176-179 | the child queued next was not queued before and keeps the order by depth |
| BreadthFirst.DepthSpan | benchmarks/findstring/prog.c:161-182 | the queue never spans more than two levels |
| BreadthFirst.OrderFull | benchmarks/findstring/prog.c:150 | a repetition-free order of all nodes has as many entries as there are nodes, fewer than the queue's capacity |
| TrieNumbering.NumberNewNode | benchmarks/findstring/prog.c:129-131 | numbering one new path keeps the bijection between states and paths |
| Words.LongestSuffixStep | benchmarks/findstring/prog.c:191-195 | the longest suffix of an extended text depends only on the longest suffix of the text |
| Words.LongestSuffixFallback | benchmarks/findstring/prog.c:74-75 | where no edge leads on, the longest suffix is that of the failure node, which is shorter |
| Words.LongestSuffixIsLongest | benchmarks/findstring/prog.c:185-205 | the reference notion: a path, a suffix, and no longer one is both |
| Words.LongestSuffixReset | benchmarks/findstring/prog.bpf.c:132-135 | after a byte outside the alphabet the longest suffix is empty |
| Words.WordEndsLongestSuffix | benchmarks/findstring/prog.c:199-201 | a word ends a text iff it ends the text's longest suffix, so outputs per node suffice |
| Bitmask.NonZeroHas | benchmarks/findstring/prog.bpf.c:164 | the mask is non-zero iff some word's bit is set |
| CircularQueue.Queue.constructor | benchmarks/findstring/queue.h:20-32 | a new queue is empty |
| CircularQueue.Queue.Enqueue | benchmarks/findstring/queue.h:49-58 | appends to the sequence of contents, or changes nothing when full |
| CircularQueue.Queue.Dequeue | benchmarks/findstring/queue.h:62-71 | removes and returns the first of the contents, or INT_MIN when empty |
| CircularQueue.Queue.IsFull | benchmarks/findstring/queue.h:36-39 | full iff the contents fill the capacity |
| CircularQueue.Queue.IsEmpty | benchmarks/findstring/queue.h:42-45 | empty iff there are no contents |
| CircularQueue.Queue.Front | benchmarks/findstring/queue.h:74-79 | the first of the contents, or INT_MIN |
| CircularQueue.Queue.Rear | benchmarks/findstring/queue.h:82-87 | the last of the contents, or INT_MIN |
| StraightLine.RunAll | examples/linked_list/lib/src/LinkedList.bpf.c:94-350 | a sequence of matches runs to its end, to the first match that fails, or to the first value that does not fit, as its meaning on values says; the variables then stand for the values bound |
| StraightLine.ExtendBinds | lib/honey/compiler/translator.ex:1184-1221 | after a match every name it binds has the value of its last binding |
| StraightLine.ExtendKeeps | lib/honey/compiler/translator.ex:1184-1221 | and every other name keeps its value |
| StraightLine.BuildValue | lib/honey/compiler/translator.ex:754-764 | building any expression succeeds iff there is space, leaves all earlier values as they were, and gives the value written iff the expression is right |
| StraightLine.BuildAndMatch | lib/honey/compiler/translator.ex:754-799 | the value built, matched by the left side of `=` or a clause of a case, is matched as in Elixir iff what is accepted agrees, and binds what the emitted code's meaning says while the reads stay inside the value |
| StraightLine.RunsAsElixir | lib/honey/compiler/translator.ex:754-799 | where each value reached is built right and what is accepted agrees, a sequence of matches ends as in Elixir with the same variables, unless memory runs out |
| StraightLine.EveryStepAsElixir | lib/honey/compiler/translator.ex:754-799 | if memory does not run out, every prefix of a sequence ends as in Elixir with the same variables iff at every statement reached the match of the value built and Elixir's match of the value written both refuse or extend the variables alike |
| ExamplePrograms.LinkedListRuns | examples/linked_list/lib/src/LinkedList.bpf.c:94-350 | from an empty heap the program needs exactly 9 cells and 8 slots, and then binds `two` to 2 |
| ExamplePrograms.IntegerStringRuns | examples/integer_string_pattern_matching/lib/src/IntegerStringPatternMatching.bpf.c:92-183 | the program ends in the match error of its last statement, given more than 8 characters of string pool |
| ExamplePrograms.TupleTailRuns | lib/honey/compiler/translator.ex:1041-1067 | counterexample: a program that binds a to 1 and b to 2 out of a list with head 1 and the tuple of 2 and the empty list as its tail, where Elixir raises a match error |
| Matching.RunAccepts | lib/honey/compiler/translator.ex:1120-1289 | for every value in the heap and every fitting pattern, checked or not, the emitted match succeeds and binds exactly as its meaning on values says; no bounds check fails on the way |
| Matching.AtomMatches | lib/honey/compiler/translator.ex:1225-1250 | the literals nil, false and true match the atoms that start at 0, 3 and 8 |
| Matching.UnionHalves | priv/c_boilerplates/runtime_generic.bpf.h:70-81 | an integer read as a range gives its lower and its upper 32 bits |
| Matching.RunElementsAccepts | lib/honey/compiler/translator.ex:1071-1118 | ... for the elements of a tuple, as in the nested match of the tuple example |
| Matching.RunListAccepts | examples/list_example/lib/src/ListExample.bpf.c:221-283 | ... for a list pattern down to the empty list, along list cells and along tuples taken for them |
| Matching.TupleReads | lib/honey/compiler/translator.ex:992-1039 | the untested reads of a tail that is a tuple yield its first two elements |
| Matching.MinusOne | lib/honey/compiler/translator.ex:1041-1048 | an integer reads as the empty list iff it is -1 |
| Matching.RunConsAccepts | examples/linked_list/lib/src/LinkedList.bpf.c:272-305 | ... for a head and tail pattern |
| Matching.StringMatches | examples/tuple_example/lib/src/TupleExample.bpf.c:307-382 | the length check and the per-character checks hold iff the strings are equal |
| Matching.PrefixMatches | examples/integer_string_pattern_matching/lib/src/IntegerStringPatternMatching.bpf.c:118-136 | the per-character checks alone hold iff the literal is a prefix of the string |
| Matching.SlotReads | examples/linked_list/lib/src/LinkedList.bpf.c:276-290 | a slot in use reads as a live cell: the MatchError branches of the bounds checks are unreachable |
| MatchMeaning.MatchMeans | lib/honey/compiler/translator.ex:1126-1182 | the reference: Elixir's match holds iff the value has the pattern's shape position by position, and binds exactly the pattern's variables to what stands in their places |
| MatchMeaning.MatchListMeans | lib/honey/compiler/translator.ex:1173-1182 | ... a list pattern matches proper lists of its length, element by element |
| ElixirMatching.MatchAccepted | lib/honey/compiler/translator.ex:1120-1289 | what Elixir matches the emitted code accepts, with the same bindings |
| ElixirMatching.RunMatches | lib/honey/compiler/translator.ex:1120-1289 | for every value in the heap that Elixir matches, the emitted code succeeds with bindings that stand for Elixir's |
| ElixirMatching.ExactMatch | lib/honey/compiler/translator.ex:1120-1289 | on one value the emitted match is Elixir's iff what it accepts agrees in tuple sizes, unchecked literals and list tails |
| ElixirMatching.RunExact | lib/honey/compiler/translator.ex:1120-1289 | for every value in every heap, with no condition on where the reads lead: the emitted code binds what Elixir's match does, or refuses with it, iff where it accepts the value agrees in tuple sizes, unchecked literals and list tails |
| ElixirMatching.StrictExact | lib/honey/compiler/translator.ex:1120-1289 | on all values it is Elixir's iff the pattern has no tuple, no unchecked literal and no list pattern with elements other than head and tail |
| ElixirMatching.StrictRun | lib/honey/compiler/translator.ex:1120-1289 | for such patterns and every value in the heap, the emitted code matches exactly as Elixir does |
| ElixirMatching.WronglyAccepted | lib/honey/compiler/translator.ex:1120-1289 | every other pattern accepts some value that Elixir refuses |
| ElixirMatching.UncheckedInteger | lib/honey/compiler/translator.ex:1252-1265 | counterexample: an integer literal on the left of `=` accepts every value |
| ElixirMatching.UncheckedString | lib/honey/compiler/translator.ex:1284-1286 | counterexample: a string literal there accepts every longer string it begins |
| ElixirMatching.WideIntegerRefused | lib/honey/compiler/translator.ex:1350-1355 | counterexample: a tuple holding an integer beyond 32 bits does not match itself |
| ElixirMatching.ShortTuplePattern | lib/honey/compiler/translator.ex:1069-1071 | counterexample: a one-element tuple pattern accepts a pair |
| ElixirMatching.UncheckedListLiteral | lib/honey/compiler/translator.ex:1252-1265 | counterexample: `[i]` accepts a list of any one element |
| ElixirMatching.TupleTail | lib/honey/compiler/translator.ex:1050-1067 | counterexample: a two-element list pattern accepts a list whose tail is a tuple of an element and the empty list |
| ElixirMatching.MinusOneTail | lib/honey/compiler/translator.ex:1041-1048 | counterexample: a one-element list pattern accepts a list whose tail is -1 |
| HeapRuntime.Runtime.Build | lib/honey/compiler/translator.ex:645-714 | running the code of any constructor expression succeeds iff its cells, slots and characters fit, and then leaves the arrays as the emitted code is defined to, integers truncated to 32 bits |
| HeapRuntime.Runtime.NewTuple | examples/tuple_example/lib/src/TupleExample.bpf.c:131-158 | n cells and n slots, one slot per cell, or an exception iff they do not fit |
| HeapRuntime.Runtime.NewCons | examples/linked_list/lib/src/LinkedList.bpf.c:103-132 | two cells and two slots, the second slot naming the cell pushed before, or an exception iff they do not fit |
| HeapRuntime.Runtime.NewNil | examples/linked_list/lib/src/LinkedList.bpf.c:94-101 | one cell holding the empty list, or an exception iff the heap is full |
| HeapRuntime.Runtime.NewString | examples/tuple_example/lib/src/TupleExample.bpf.c:108-120 | the characters and a terminator, or an exception iff they would reach the pool's last character |
| Constructors.EmitBuilds | lib/honey/compiler/translator.ex:645-714 | for every expression, in every acyclic store: the store only grows, stays acyclic, earlier values keep their meaning, and the result decodes to the value built |
| Constructors.EmitConsBuilds | examples/list_example/lib/src/ListExample.bpf.c:153-217 | ... for one list cell: its tail is the value pushed last |
| Constructors.EmitSizes | lib/honey/compiler/translator.ex:920-987 | how many cells, slots and characters an expression takes |
| Constructors.LiteralsStored | lib/honey/compiler/translator.ex:1346-1414 | strings, atoms, 32-bit integers and variables are built as themselves in any store |
| BuiltAsWritten.EvalAt | lib/honey/compiler/translator.ex:645-672 | the reference: a tuple expression means the tuple of what its elements mean, in order |
| BuiltAsWritten.RightExact | lib/honey/compiler/translator.ex:645-714 | for every expression and whatever was pushed last: the value built is the value written iff the expression is right |
| BuiltAsWritten.EmitExact | lib/honey/compiler/translator.ex:645-714 | ... for what the emitted code leaves in any acyclic heap |
| BuiltAsWritten.LiteralExact | lib/honey/compiler/translator.ex:695-714 | without variable tails: iff integers fit, and every list has a head without cells and a tail built right, or a head built right whose last cell holds the tail |
| BuiltAsWritten.ProperBuildsValue | lib/honey/compiler/translator.ex:695-714 | a condition on the text alone: if integers fit, list heads push no cell and tails are list literals or variables that hold the value pushed last, the value built is the value written |
| BuiltAsWritten.NotItsTuple | lib/honey/compiler/translator.ex:949-971 | the value built for a tuple's last element is never the tuple, so a non-empty tuple is never built as a tail |
| BuiltAsWritten.ListLiteral | examples/list_example/lib/src/ListExample.bpf.c:145-217 | a list literal of n elements without memory of their own takes 1 + 2n cells and 2n slots, and is built as written iff their integers fit, in any heap |
| BuiltAsWritten.WideInteger | lib/honey/compiler/translator.ex:1350-1355 | counterexample: an integer literal beyond 32 bits is built as another integer |
| BuiltAsWritten.NestedListLiteral | lib/honey/compiler/translator.ex:705-714 | counterexample: `[[1]]` is built as `[[1], 1]` |
| HeapStore.DecodeGrows | examples/linked_list/lib/src/LinkedList.bpf.c:103-132 | allocation never changes the value of anything allocated before |
| HeapStore.TupleStored | examples/tuple_example/lib/src/TupleExample.bpf.c:131-158 | a tuple keeps the store acyclic and decodes to its elements' values |
| HeapStore.ConsStored | examples/linked_list/lib/src/LinkedList.bpf.c:103-132 | a list cell keeps the store acyclic and decodes to its head and the value pushed last |
| HeapStore.NilStored | examples/linked_list/lib/src/LinkedList.bpf.c:94-101 | the empty list is pushed and decodes to nil |
| HeapStore.StringStored | examples/tuple_example/lib/src/TupleExample.bpf.c:108-120 | a stored string decodes to itself |
| NetworkMonitor.Monitor.UpdateTrafficStats | benchmarks/networkmonitor/prog.bpf.c:56-112 | after any history the three maps are the three bounded accumulations of that history, and one event extends it |
| NetworkMonitor.TrafficEntry | benchmarks/networkmonitor/prog.bpf.c:66-87 | a key's entry holds the bytes and the number of its sent and of its received events, and the time of its last event |
| NetworkMonitor.PidEntry | benchmarks/networkmonitor/prog.bpf.c:89-111 | a pid's entry holds the same of its events |
| NetworkMonitor.ProtocolEntry | benchmarks/networkmonitor/prog.bpf.c:59-64 | a protocol's total is the bytes of its events in both directions |
| NetworkMonitor.PidConservation | benchmarks/networkmonitor/prog.bpf.c:89-111 | each field of a pid's entry is the sum over the pid's accepted keys plus what its refused keys would have held, and the sum alone if none was refused |
| NetworkMonitor.ProtocolConservation | benchmarks/networkmonitor/prog.bpf.c:59-64 | a protocol's total is the bytes over its accepted keys plus those of its refused keys |
| NetworkMonitor.Conservation | benchmarks/networkmonitor/prog.bpf.c:66-87 | the events of a group are those under any set of its entries plus the rest, field by field |
| NetworkMonitor.PidOfAcceptedKey | benchmarks/networkmonitor/prog.bpf.c:28-54 | a pid has an entry as soon as one of its keys has, even when maps fill up |
| NetworkMonitor.EntriesExact | benchmarks/networkmonitor/prog.bpf.c:56-112 | every entry holds all events under its key; a key with events is missing only while its map is full, and a protocol never is |
| NetworkMonitor.FewProtocols | benchmarks/networkmonitor/prog.bpf.c:35-40 | 256 protocol slots never fill before a new protocol |
| CounterMaps.TrackExact | benchmarks/networkmonitor/prog.bpf.c:66-87 | in a bounded map that refuses new keys when full, an entry accumulates all events of its key and a refused key is never accepted later |
| DiskMonitor.Monitor.HandleSysEnter | benchmarks/diskmonitor/prog.bpf.c:126-132 | extends the history; pid 0 is ignored |
| DiskMonitor.Monitor.HandleSysExit | benchmarks/diskmonitor/prog.bpf.c:134-147 | an exit with a recorded start accounts one operation and consumes the start; other exits change nothing |
| DiskMonitor.Monitor.UpdateIoStats | benchmarks/diskmonitor/prog.bpf.c:51-124 | both maps accumulate the operation |
| DiskMonitor.KeyEntry | benchmarks/diskmonitor/prog.bpf.c:59-90 | the entry of a pid and operation holds the bytes and number of its reads and of its writes, its total and its largest latency, and its last time |
| DiskMonitor.PidEntry | benchmarks/diskmonitor/prog.bpf.c:92-123 | a pid's entry holds the same of all its operations: reads in the read counters, writes in the write counters |
| DiskMonitor.CompletedMatched | benchmarks/diskmonitor/prog.bpf.c:134-147 | every operation accounted for pairs an exit with the enter right before it of the same pid, and no start is consumed twice |
| DiskMonitor.ExitCompletes | benchmarks/diskmonitor/prog.bpf.c:134-147 | conversely every such pair is accounted for, unless the start found the map full |
| DiskMonitor.OperationExact | benchmarks/diskmonitor/prog.bpf.c:140-144 | an operation has the pid and kind of its exit, the bytes it returned or 0 for an error, and the time since its enter as latency |
| DiskMonitor.PidIsMerge | benchmarks/diskmonitor/prog.bpf.c:92-123 | a pid's entry is the merge of its read and write entries and of what was refused of them: sums add, the maximum is the larger, with positive latencies the minimum the smaller; nothing is lost while none of its keys was refused |
| DiskMonitor.PidOfAcceptedKey | benchmarks/diskmonitor/prog.bpf.c:26-45 | a pid has an entry as soon as one of its keys has, even when the maps fill up |
| DiskMonitor.MinimumExact | benchmarks/diskmonitor/prog.bpf.c:72-74 | the minimum is the true one iff no latency is 0 or the last one is |
| DiskMonitor.SmallestFold | benchmarks/diskmonitor/prog.bpf.c:118-120 | the minimum is always some operation's latency, and 0 iff the last latency is |
| CpuMonitor.Monitor.OnSchedSwitch | benchmarks/cpumonitor/prog.bpf.c:25-63 | the five maps follow the state machine on a context switch |
| CpuMonitor.Monitor.OnSysEnter | benchmarks/cpumonitor/prog.bpf.c:66-71 | ... on a system-call entry |
| CpuMonitor.Monitor.OnSysExit | benchmarks/cpumonitor/prog.bpf.c:74-89 | ... on a system-call exit |
| CpuMonitor.KernelTimeIsSyscallTime | benchmarks/cpumonitor/prog.bpf.c:50-86 | for every trace, kernel time plus the current run's kernel time plus what refused insertions lose is the time of the pid's completed system calls; nothing is lost with up to 10240 pids |
| CpuMonitor.UserTimeIsSliceTime | benchmarks/cpumonitor/prog.bpf.c:32-58 | for every trace, user time plus what kernel time takes of the slices plus what refused insertions lose is the length of the pid's ended slices; with up to 10240 pids nothing is lost, and user time is the sum of each slice's length less its kernel part, or nothing where that is negative |
| CpuMonitor.TimeIsConserved | benchmarks/cpumonitor/prog.bpf.c:25-89 | on one CPU with system calls inside slices, user plus kernel time over all pids at a switch, plus what full maps refused, is the time since the first switch; nothing is refused with up to 10240 pids |
| CpuMonitor.OneCpuSlice | benchmarks/cpumonitor/prog.bpf.c:25-89 | the invariant behind it, between switches |
| CheckedArithmetic.SumExact | priv/c_boilerplates/runtime_functions.bpf.c:103-137 | for all 64-bit operands a sum is exact or raises; for 32-bit operands it raises iff it leaves the 32-bit range |
| CheckedArithmetic.MultiplyExact | priv/c_boilerplates/runtime_functions.bpf.c:185-240 | a product of 32-bit operands is exact, or raises iff it leaves the 32-bit range |
| CheckedArithmetic.DivideExact | priv/c_boilerplates/runtime_functions.bpf.c:139-183 | Divide raises iff the divisor is 0 or INT_MIN is divided by -1; otherwise the low 32 bits are the quotient truncated toward zero, and the whole result is iff the quotient is not negative |
| CheckedArithmetic.SubtractExact | priv/c_boilerplates/runtime_functions.bpf.c:67-101 | a result is the sum; the outcome is the difference, or an exception if that is out of range, iff 0 is subtracted from a number other than INT_MIN, or the difference is below INT_MIN with a negative minuend, or above INT_MAX + 1 with a positive one |
| CheckedArithmetic.WrongDifferences | priv/c_boilerplates/runtime_functions.bpf.c:82-95 | counterexamples: INT_MIN - 0 and -1 - INT_MAX raise, and 3 - 2 is 5 |
| CheckedArithmetic.RunExact | priv/c_boilerplates/runtime_generic.bpf.h:16-22 | a chained expression of sums and products yields its exact value, or stops with an exception iff some subexpression leaves the 32-bit range |
| CheckedArithmetic.RunStopsAt | priv/c_boilerplates/runtime_generic.bpf.h:16-22 | an expression stops at its first subexpression out of range, in the order of evaluation, with the exception that tells on which side, or that of a product of INT_MIN |
| CheckedArithmetic.OperandErrors | priv/c_boilerplates/runtime_functions.bpf.c:67-240 | all four operations raise a bad argument iff an operand is a float, and an unexpected operand otherwise unless both are integers |
| CheckedArithmetic.SumErrors | priv/c_boilerplates/runtime_functions.bpf.c:117-128 | for 32-bit operands a sum is too large iff above INT_MAX and too small iff below INT_MIN |
| CheckedArithmetic.SubtractErrors | priv/c_boilerplates/runtime_functions.bpf.c:81-92 | when the written checks of a difference raise, and which exception |
| CheckedArithmetic.MultiplyErrors | priv/c_boilerplates/runtime_functions.bpf.c:205-231 | a product out of range is out of bounds with INT_MIN as a factor, and otherwise too large or too small |
| CheckedArithmetic.DivideErrors | priv/c_boilerplates/runtime_functions.bpf.c:152-163 | division by zero iff the divisor is 0, and too large iff INT_MIN is divided by -1 |

## Left out

- AhoCorasick.Automaton.BuildFailureLinks: with 27 columns it is stated only for aligned word lists, because for others the code links a node of another row under column 26, an access the C language does not define.
- PacketFilter.BpfMaps.FillMapStrings: requires each line read to be shorter than 10 bytes, since `strcpy` into a 10-byte text is otherwise undefined, and assumes that opening the file and updating array maps succeed.
- PacketFilter.BpfMaps.ProcessPacket: packets are processed one at a time, each with a context address that has no scan saved; ProcessPackets starts from an empty state map, and shows that it is empty again after every packet.
- Matching.RunAccepts: requires that no tuple pattern is longer than its tuple, that no list pattern runs on into a tail that is an atom, a string, a tuple of fewer than two elements or an integer from 0 on, and that unchecked string literals meet strings and hold no zero character just past their end, because there the emitted code reads whatever lies in slots or characters that are not the value's. ElixirMatching.RunExact needs none of this.
- Constructors.EmitBuilds: requires that no list cell is built while the heap is still empty, where the stored tail index wraps around; NewCons covers that case.
- BuiltAsWritten.ProperBuildsValue: a sufficient condition on the text; RightExact is the exact one.
- StraightLine.RunsAsElixir: one direction, because two departures in a sequence can cancel out; EveryStepAsElixir is the exact condition for all prefixes.
- DiskMonitor.PidIsMerge: assumes that operations are reads or writes, the two codes the tracepoints pass.
- CheckedArithmetic.MultiplyExact: stated for 32-bit operands, the range that sums and products of such operands stay in; a wider operand may turn into 0 as an unsigned, and the division by it, undefined in C, is modelled as an exception.
- CheckedArithmetic.DivideExact: stated for 32-bit operands, for the same reason.
- Ethernet, IP and UDP header parsing, the port check, and libbpf loading: the payload up to the end of the packet is a parameter.
- The branch of the scan for a failed table lookup: shown unreachable, since scans stay among the table's states.
- Log output, colours, the monitors' terminal front ends and their moving averages.
- Counters are unbounded: wrap-around of 32- and 64-bit counters and clocks is not modelled, except in differences of the CPU monitor's clock.
- Interleaving of events on several CPUs, and thread ids as opposed to process ids.
- The tracepoints of the network and disk monitors that only compute the handlers' arguments.
- Other compiler passes; the choice among the clauses of a case (the match of one clause is covered), cond, binary operators and string interpolation in the translator; doubles and structs.
- C types of variables: a pattern variable binds a tagged value, and combinations of pattern and type for which the emitted C does not compile are not told apart.
- String literals directly in list patterns (no C type fits), repeated pattern variables, and integer literals beyond 64 bits.
- String literals with escapes or characters beyond ASCII: the emitted length counts escaped text and graphemes, and the C literal holds bytes, while the model counts characters.
- `negate`, `Copy`, the runtime's `pattern_match` and comparison operators; the factorial, memory and counting benchmarks, which would add only easy members.
