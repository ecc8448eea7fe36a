# heaptrack core, modelled in Dafny

heaptrack is a heap memory profiler. It records every allocation and
deallocation a program makes, along with the backtrace of each. The pieces
modelled here are these:

- **Tracing side.** This side writes the raw trace:
  - The trace tree (`TraceTree`) gives every distinct backtrace a dense index.
  - The pointer map (`PointerMap`) remembers which allocation-info index each live pointer has.
  - The line writer (`LineWriter`) buffers the line-oriented, lower-case hexadecimal trace format.
- **Interpreter.** `heaptrack_interpret` reads the raw trace back, one line at a time, with the line reader (`LineReader`). It then does three things:
  - It interns strings and instruction pointers.
  - It resolves addresses to modules and frames.
  - It rewrites `+`/`-` lines into allocation-info indices (`Interpret`).
- **Symbol lookup.** The symbol cache (`SymbolCache`) is a separate table of symbols per file. It answers "which symbol covers this offset". `heaptrack_interpret` does not use it: the interpreter resolves addresses through the bundled libbacktrace.
- **Analyzer.** This side accumulates costs per trace:
  - `AllocationData` holds the cost counters.
  - `Accumulated` covers the accumulated trace data, string remapping and leak suppressions.
  - `PeakTracking` tracks the memory peak in snippets.
  - `Suppressions` covers `leak:` suppression files and heaptrack's template matching.
- **GUI and helpers:**
  - `GuiUtil` and `MiddleElide` cover the GUI's string helpers: basename, template eliding, time formatting and middle eliding.
  - `Btrace` covers the build-id conversion of the bundled libbacktrace.
  - `PerfHeaptrack` models the `perf script` converter, which turns perf samples into heaptrack's trace format.

The model uses three Dafny forms:

- **Classes.** Objects the source updates in place are classes with `modifies` frames. Each method is proved against a specification function.
- **Datatypes and functions.** Pure transformations are datatypes and functions.
- **Lemmas.** Properties that relate several operations are lemmas, for example round trips, idempotence and "nothing else changes".

Integers are unbounded. Where the source's width matters, it is written out: the 32- and 64-bit wrap of `readHex`, and the 16-hex-digit bound of a 64-bit value.

## Model

| member | source | states |
|---|---|---|
| Common.Hex | src/util/linewriter.h:213-227 | A value is written as lower-case hexadecimal digits: at least one digit and no leading zero |
| Common.HexValueOfHex | src/util/linewriter.h:216-224 | Reading the hexadecimal digits back gives the value written, so the writer's digit loop is exact |
| Common.HexLengthFromBits | src/util/linewriter.h:200-210 | The digit count is max(1, ⌈usedBits / 4⌉), as the writer computes from the leading-zero count |
| Common.HexLengthBound | src/util/linewriter.h:211 | Any value below 2^64 needs at most 16 hexadecimal digits, so the 16-char scratch space suffices |
| Common.DigitValueOfHexDigit | src/util/linewriter.h:213-214 | The digit table is inverted by the digit-value function for all 16 digits |
| Tries.WalkGrow | src/track/tracetree.h:151-165 | Adding child edges never changes where an already-present path of a trace trie leads |
| PerfHeaptrack.Render | tests/manual/perf-heaptrack.py:53-169 | Every output record is a line that starts with its one-letter tag and a space |
| PerfHeaptrack.IncreasingIsStrict | tests/manual/perf-heaptrack.py:146-148 | The time markers written are strictly increasing |
| PerfHeaptrack.NumberedIds | tests/manual/perf-heaptrack.py:53-60 | An interning table numbers its keys from its base in insertion order: ids lie in [base, base+size) and distinct keys have distinct ids |
| PerfHeaptrack.GrowNumbered | tests/manual/perf-heaptrack.py:56-58 | Adding a new key with id base+size keeps the table densely numbered |
| PerfHeaptrack.Output.Emit | tests/manual/perf-heaptrack.py:127-169 | Appends one record and keeps the output define-before-use: every string, ip, trace and sample id a record mentions was defined on an earlier line |
| PerfHeaptrack.InternMap.constructor | tests/manual/perf-heaptrack.py:49-51 | The string table starts with "" as id 0 |
| PerfHeaptrack.InternMap.Add | tests/manual/perf-heaptrack.py:53-60 | Returns the string's id; a new string gets the next id and exactly one "s" line, a known one changes nothing |
| PerfHeaptrack.InternMap.AddNames | tests/manual/perf-heaptrack.py:87 | Interns the module, function and file names in that order and returns their ids |
| PerfHeaptrack.InstructionPointerMap.constructor | tests/manual/perf-heaptrack.py:75-78 | The ip table is empty and its next index is 1 |
| PerfHeaptrack.InstructionPointerMap.Add | tests/manual/perf-heaptrack.py:80-89 | A known ip returns its index and writes nothing; a new ip gets the next index, its names interned and one "i" line naming them |
| PerfHeaptrack.InstructionPointerMap.Define | tests/manual/perf-heaptrack.py:83-88 | A new ip is numbered with the next index and defined by an "i" line |
| PerfHeaptrack.InstructionPointerMap.Print | tests/manual/perf-heaptrack.py:86-87 | The "i" line carries the ip and the ids of its module, function and file, all defined before it |
| PerfHeaptrack.InstructionPointerMap.Insert | tests/manual/perf-heaptrack.py:83-85 | Inserting an absent ip maps it to the next index and bumps the counter |
| PerfHeaptrack.WalkInjective | tests/manual/perf-heaptrack.py:92-106 | Two ip-index paths that lead to the same trace node are equal |
| PerfHeaptrack.TraceTrie.constructor | tests/manual/perf-heaptrack.py:92-108 | The trace trie has only its root (index 0) and its next index is 1 |
| PerfHeaptrack.TraceTrie.Add | tests/manual/perf-heaptrack.py:98-106 | The child of (parent, ip) is returned; a new child gets the next index and one "t" line |
| PerfHeaptrack.SampleMap.constructor | tests/manual/perf-heaptrack.py:110-113 | The sample table is empty and its next index is 0 |
| PerfHeaptrack.SampleMap.Add | tests/manual/perf-heaptrack.py:115-123 | The trace's sample id is returned; a new trace gets the next id and one "a" line |
| PerfHeaptrack.OuterFirstReverses | tests/manual/perf-heaptrack.py:160 | The callchain is folded outermost frame first, that is, reversed |
| PerfHeaptrack.CallPath | tests/manual/perf-heaptrack.py:152-160 | The path folded for an event is never empty: an empty callchain folds the event's own ip |
| PerfHeaptrack.IdsOfInjective | tests/manual/perf-heaptrack.py:80-89 | Distinct ip sequences have distinct index sequences |
| PerfHeaptrack.SameTraceSamePath | tests/manual/perf-heaptrack.py:152-168 | Two events get the same trace index only if their call paths are equal |
| PerfHeaptrack.FoldStep | tests/manual/perf-heaptrack.py:165-167 | Folding one more frame walks the trie one edge deeper |
| PerfHeaptrack.InternedExtends | tests/manual/perf-heaptrack.py:53-60 | Interning a key never renumbers a key already in the table |
| PerfHeaptrack.NodeKept | tests/manual/perf-heaptrack.py:80-106 | A call path filed earlier still leads to the same trie node once the ip and trie tables have grown |
| PerfHeaptrack.IdsOfAppend | tests/manual/perf-heaptrack.py:160-166 | The ip indices of two joined call paths are the joined indices |
| PerfHeaptrack.PrefixNode | tests/manual/perf-heaptrack.py:160-166 | Every outer part of a filed call path is a trie node, and the node of the whole path is reached from it by the rest of the path |
| PerfHeaptrack.SharedPrefix | tests/manual/perf-heaptrack.py:160-166 | Two call paths with the same outermost frames pass through one shared node, below which both traces hang |
| PerfHeaptrack.FiledGrow | tests/manual/perf-heaptrack.py:80-123 | Events filed earlier keep their trace and sample id while the tables grow |
| PerfHeaptrack.FiledSnoc | tests/manual/perf-heaptrack.py:160-168 | Filing the next event extends the filed events by one |
| PerfHeaptrack.FiledSamePath | tests/manual/perf-heaptrack.py:115-168 | Among filed events, two share a sample id exactly when their call paths are equal |
| PerfHeaptrack.IncreasingSnoc | tests/manual/perf-heaptrack.py:146-148 | Appending a marker past the last one keeps the markers increasing |
| PerfHeaptrack.Converter.constructor | tests/manual/perf-heaptrack.py:134-136 | All tables are fresh and the three clocks are zero |
| PerfHeaptrack.Converter.TraceBegin | tests/manual/perf-heaptrack.py:127-129 | Writes the version line and the converter comment |
| PerfHeaptrack.Converter.Header | tests/manual/perf-heaptrack.py:128-129 | Writes one header line and keeps the converter valid |
| PerfHeaptrack.Converter.TraceEnd | tests/manual/perf-heaptrack.py:138-139 | Writes a final time marker one past the last event; the markers stay increasing |
| PerfHeaptrack.Converter.ProcessEvent | tests/manual/perf-heaptrack.py:141-169 | Writes a time marker only when the elapsed time grows; the reversed callchain walks the trie to the returned trace index; the trace's sample id is written as a "+" line; earlier output is kept as a prefix, the string, ip and trie tables only gain entries (no id changes) and the sample table is the old one with the trace interned |
| PerfHeaptrack.Converter.ProcessEvents | tests/manual/perf-heaptrack.py:131-169 | process_event once per sample: every event's call path leads to its trace at the end, each trace carries the event's sample id, the "+" lines are the sample ids in event order, and two events share a sample id exactly when their call paths are equal |
| PerfHeaptrack.Converter.ProcessNext | tests/manual/perf-heaptrack.py:141-169 | One more event is filed and the earlier ones stay filed; output is kept as a prefix and all four tables only gain entries |
| PerfHeaptrack.Converter.Tick | tests/manual/perf-heaptrack.py:142-149 | Rebases the start time, computes the elapsed ticks and marks a rise |
| PerfHeaptrack.Converter.Mark | tests/manual/perf-heaptrack.py:146-148 | A marker is written, and the last time advanced, only when the time exceeds the last one |
| PerfHeaptrack.Converter.Fold | tests/manual/perf-heaptrack.py:151-167 | The returned trace is where the event's call path leads in the trie; earlier output is kept as a prefix and the string, ip and trie tables only gain entries |
| PerfHeaptrack.Converter.Push | tests/manual/perf-heaptrack.py:160-167 | One frame: the ip table is the old one with the ip interned, the trie the old one with (node, ip index) interned; strings only gain entries and earlier output is kept as a prefix |
| PerfHeaptrack.Converter.IpId | tests/manual/perf-heaptrack.py:154-156 | Interns a frame's ip and returns its index; the string table only gains entries and earlier output is kept as a prefix |
| PerfHeaptrack.Converter.Child | tests/manual/perf-heaptrack.py:157 | Steps to the child (node, ip index) |
| PerfHeaptrack.Converter.Count | tests/manual/perf-heaptrack.py:151-169 | Folds the event and records one occurrence of its sample; earlier output is kept as a prefix, the string, ip and trie tables only gain entries, and the sample table is the old one with the trace interned |
| PerfHeaptrack.Converter.Sample | tests/manual/perf-heaptrack.py:168-169 | The sample table is the old one with the trace interned; the output gains an "a" line for a first-seen trace and then one "+" line |
| PerfHeaptrack.Converter.SampleId | tests/manual/perf-heaptrack.py:168 | The trace's sample id is looked up or created |
| PerfHeaptrack.Converter.Occur | tests/manual/perf-heaptrack.py:169 | Writes one "+" line for the sample |
| TraceTree.PathSplit | src/track/tracetree.h:141-145 | A backtrace is walked from its last entry to its first, skipping null entries |
| TraceTree.InsertSorted | src/track/tracetree.h:151-158 | Inserting at the lower-bound position keeps a node's children sorted by address |
| TraceTree.InsertKeepsTree | src/track/tracetree.h:154-158 | A new edge keeps the tree valid: dense indices, sorted children, and the child map agreeing with the edges |
| TraceTree.Absent | src/track/tracetree.h:151-154 | When the lower bound does not hold the address, the edge is absent and the position fits |
| TraceTree.TraceTree.constructor | src/track/tracetree.h:173-174 | Only the root {0, 0} exists and the next index is 1 |
| TraceTree.TraceTree.Clear | src/track/tracetree.h:123-127 | Drops all children and resets the next index to 1 |
| TraceTree.TraceTree.LowerBound | src/track/tracetree.h:151-153 | Returns the first child position whose address is not below the one sought |
| TraceTree.TraceTree.AddEdge | src/track/tracetree.h:155-158 | The new edge gets the next index and is inserted at the given sorted position |
| TraceTree.TraceTree.Descend | src/track/tracetree.h:151-165 | Returns the child for the address; it is created only when absent, and nothing else changes |
| TraceTree.TraceTree.Visit | src/track/tracetree.h:141-166 | One step of the walk keeps the tree valid and reports every edge it creates |
| TraceTree.TraceTree.Index | src/track/tracetree.h:135-168 | Existing edges are kept and every new edge is reported to the callback. A known trace returns its index with no calls. If every callback accepts, the trace walks to the returned index. If a callback rejects, the result is 0 and that call was the last one |
| LineWriter.HexTermsLength | src/util/linewriter.h:147-151 | Each 64-bit value with its separator takes at most 17 characters |
| LineWriter.HexLineFits | src/util/linewriter.h:146-152 | A record line never exceeds the size the writer reserves for it |
| LineWriter.RequiredBufSize | src/util/linewriter.h:200-211 | The computed size is exactly the number of digits written, between 1 and 16 |
| LineWriter.WriteHexNumber | src/util/linewriter.h:192-228 | Writes exactly the hexadecimal digits of the value at the position and returns the end |
| LineWriter.WriteHexField | src/util/linewriter.h:236-243 | Writes one value followed by the separator |
| LineWriter.WriteHexTerms | src/util/linewriter.h:230-243 | Writes every value followed by a space, in order |
| LineWriter.WriteLine | src/util/linewriter.h:158-172 | Writes "kind v1 v2 … vn\n" at the position |
| LineWriter.LineWriter.constructor | src/util/linewriter.h:48-53 | An empty buffer on the given file descriptor |
| LineWriter.LineWriter.AvailableSpace | src/util/linewriter.h:281-284 | The used part plus the available part is the capacity |
| LineWriter.LineWriter.CanWrite | src/util/linewriter.h:267-270 | True exactly while the descriptor is open |
| LineWriter.LineWriter.Close | src/util/linewriter.h:272-278 | Closes the descriptor without flushing. Text still in the buffer stays there and can no longer reach the file, since every later Flush fails |
| LineWriter.LineWriter.Flush | src/util/linewriter.h:245-265 | Succeeds iff the descriptor is open and the buffer is empty or was written. On success the buffer is moved to the file. The produced text never changes |
| LineWriter.LineWriter.WriteString | src/util/linewriter.h:115-133 | On success the line is appended to the produced text; on failure nothing changes. It succeeds iff the line fits, or a flush succeeds and the line then fits or is written directly |
| LineWriter.LineWriter.Append | src/util/linewriter.h:130-132 | A line that fits is copied to the end of the buffer |
| LineWriter.LineWriter.WriteHexLine | src/util/linewriter.h:143-175 | On success exactly the record line is appended to the produced text; it succeeds iff the reserved size fits or a flush succeeds |
| LineWriter.LineWriter.Fill | src/util/linewriter.h:158-174 | Lays the record line out in the buffer |
| LineReader.LineEnd | src/util/linereader.h:33 | The line ends at the first newline, or at the end of the input |
| LineReader.HexRun | src/util/linereader.h:63-79 | The run of lower-case hexadecimal digits starting at a position |
| LineReader.TokenEnd | src/util/linereader.h:130-132 | The end of a space-delimited token |
| LineReader.WrapHex | src/util/linereader.h:62-70 | Digits accumulate modulo the target width, as the C++ unsigned arithmetic does |
| LineReader.ReadHexAt | src/util/linereader.h:53-84 | A read value fits the target width and advances past its digits; a failed read does not move |
| LineReader.ReadSizedAt | src/util/linereader.h:113-126 | A sized string is read within the line |
| LineReader.ReadTokenAt | src/util/linereader.h:128-142 | An unsized string is a non-empty token without spaces; reading fails exactly at the end or at a space |
| LineReader.ScanHex | src/util/linereader.h:62-79 | The digit loop accepts iff the digit run ends at a space or the line end, and yields the wrapped value |
| LineReader.LineReader.constructor | src/util/linereader.h:23-26 | No line, unsized strings |
| LineReader.LineReader.SetExpectedSizedStrings | src/util/linereader.h:106-109 | Switches the string mode and nothing else |
| LineReader.LineReader.GetLine | src/util/linereader.h:28-41 | Takes the input up to the next newline as the current line and positions after the mode character; on a bad stream nothing changes |
| LineReader.LineReader.Mode | src/util/linereader.h:43-46 | The line's first character, or '#' for an empty line |
| LineReader.LineReader.ReadHex | src/util/linereader.h:53-84 | Reads one hexadecimal value as ReadHexAt specifies |
| LineReader.LineReader.ReadString | src/util/linereader.h:111-143 | Reads a sized or an unsized string according to the mode |
| LineReader.WrapHexExact | src/util/linereader.h:62-70 | Below the width limit the wrapped value is the exact value |
| LineReader.ReadHexOfHex | src/util/linereader.h:53-84 | readHex inverts writeHexNumber |
| LineReader.HexLineRoundTrip | src/util/linereader.h:28-84 | A line written by writeHexLine reads back, with getLine and readHex, to the same kind and values |
| LineReader.ReadSizedOfSized | src/util/linereader.h:113-126 | A length-prefixed string reads back as itself |
| LineReader.ReadTokenOfToken | src/util/linereader.h:128-142 | A space-free token reads back as itself |
| PointerMap.Split | src/util/pointermap.h:93-97 | A pointer splits into a big part and a small part below the page size that recombine to it |
| PointerMap.SplitIsBijective | src/util/pointermap.h:87-100 | Splitting is injective, and recombined parts split back to themselves |
| PointerMap.Position | src/util/pointermap.h:117 | The lower-bound position in a sorted sequence |
| PointerMap.LowerBound | src/util/pointermap.h:117 | The search loop returns the lower-bound position |
| PointerMap.Find | src/util/pointermap.h:127-139 | A small part is found in its bucket iff it is stored there |
| PointerMap.FindAt | src/util/pointermap.h:127-139 | Every stored small part is found with its own index |
| PointerMap.PlacedValid | src/util/pointermap.h:116-124 | Adding to a bucket keeps it sorted; the small part now maps to the index and the others are unchanged |
| PointerMap.RemovedValid | src/util/pointermap.h:135-146 | Erasing from a bucket keeps it sorted; the small part is gone and the others are unchanged |
| PointerMap.AddedLocate | src/util/pointermap.h:108-125 | After addPointer the pointer maps to the index and every other pointer is unchanged |
| PointerMap.TakenLocate | src/util/pointermap.h:127-148 | After takePointer the pointer is gone and every other pointer is unchanged |
| PointerMap.AddThenTake | src/util/pointermap.h:108-148 | Adding a pointer and taking it again finds it and then forgets it |
| PointerMap.PointerMap.constructor | src/util/pointermap.h:103-106 | An empty map |
| PointerMap.PointerMap.AddPointer | src/util/pointermap.h:108-125 | The contents become the old contents with the pointer mapped to the index |
| PointerMap.PointerMap.TakePointer | src/util/pointermap.h:127-148 | Found iff the pointer was held; the index is the one stored; the contents lose the pointer |
| PointerMap.AllocationInfoSet.constructor | src/util/pointermap.h:50-53 | No allocation infos |
| PointerMap.AllocationInfoSet.Add | src/util/pointermap.h:55-67 | A new (size, trace) pair gets the next index and is reported new; a known one returns its index and changes nothing |
| Suppressions.Trim | src/analyze/suppressions.cpp:80 | The result neither starts nor ends with whitespace |
| Suppressions.TrimIdempotent | src/analyze/suppressions.cpp:80 | Trimming twice is trimming once |
| Suppressions.TrimOfPadded | src/analyze/suppressions.cpp:80 | Trimming a padded trimmed string returns it |
| Suppressions.ParseSuppression | src/analyze/suppressions.cpp:78-89 | A trimmed "leak:" line yields its pattern; blank, comment and other lines yield nothing |
| Suppressions.ParseLeakLine | src/analyze/suppressions.cpp:78-89 | Whitespace around "leak:pattern" gives back the pattern |
| Suppressions.Kept | src/analyze/suppressions.cpp:16-27 | Only non-empty patterns are kept, in file order |
| Suppressions.ParseSuppressionsFile | src/analyze/suppressions.cpp:16-27 | The reading loop keeps the parsed non-empty patterns in order |
| Suppressions.KeptFromLeakLines | src/analyze/suppressions.cpp:16-27 | Every kept pattern comes from a "leak:" line of the file |
| Suppressions.KeptAppend | src/analyze/suppressions.cpp:16-27 | The patterns of a file split in two are those of the first part followed by those of the second |
| Suppressions.KeptOfOneLine | src/analyze/suppressions.cpp:19-23 | A one-line file keeps exactly that line's pattern, if it has one |
| Suppressions.KeptAround | src/analyze/suppressions.cpp:16-27 | A file's patterns are those of the lines before a given line, then that line's, then those after it |
| Suppressions.KeptAtLine | src/analyze/suppressions.cpp:16-27 | Every line with a pattern contributes it in its own place, after the patterns of the earlier lines and before those of the later ones |
| Suppressions.ParseSuppressions | src/analyze/suppressions.cpp:91-111 | No file name gives no patterns and ok. A named file that cannot be opened gives no patterns and clears ok. Otherwise the patterns are those kept from the file's lines, and ok stays set |
| Suppressions.Search | src/analyze/suppressions.cpp:62 | Returns the first occurrence of the literal, or none iff it does not occur |
| Suppressions.TemplateMatch | src/analyze/suppressions.cpp:34-75 | A template never matches an empty string |
| Suppressions.TemplateMatchLoop | src/analyze/suppressions.cpp:34-75 | The matching loop computes the recursive template-match specification |
| Suppressions.EmptyNeverMatches | src/analyze/suppressions.cpp:36-37 | No template matches an empty string |
| Suppressions.PlainIsSubstring | src/analyze/suppressions.cpp:34-75 | A template without '*', '$' or leading '^' matches iff it is a substring |
| Suppressions.AnchoredLiteral | src/analyze/suppressions.cpp:39-42 | "^lit" matches iff the string starts with lit |
| Suppressions.DollarNeedsFirstAtEnd | src/analyze/suppressions.cpp:51-52 | "lit$" matches iff the FIRST occurrence of lit ends the string |
| Suppressions.DollarMissesLaterOccurrence | src/analyze/suppressions.cpp:51-63 | "ab$" does not match "abab", although "abab" ends in "ab" |
| Suppressions.StarDollarAcceptsRest | src/analyze/suppressions.cpp:45-52 | "*$" accepts whatever remains |
| Suppressions.AnchoredStarDollar | src/analyze/suppressions.cpp:39-72 | "^a*b$" matches iff the string starts with a and the first b after it ends the string |
| Suppressions.LeakSuppPattern | src/analyze/suppressions.cpp:34-75 | The pattern "^leak*Supp$" worked out: a "leak" prefix and a first "Supp" at the end |
| Suppressions.LeakSuppMatches | src/analyze/suppressions.cpp:34-75 | "^leak*Supp$" matches "leakFooSupp" |
| Suppressions.LeakSuppMisses | src/analyze/suppressions.cpp:34-75 | "^leak*Supp$" matches neither "leak" nor "leakFoo" |
| Suppressions.MatchesSuppression | src/analyze/suppressions.cpp:113-116 | A string equal to the pattern matches; a match needs a non-empty C string |
| Suppressions.EmptyPatternMatchesAll | src/analyze/suppressions.cpp:113-116 | The empty pattern matches every non-empty string |
| Suppressions.BuiltinSuppressions | src/analyze/suppressions.cpp:118-133 | Eight non-empty patterns with zero counts; g_main_context_new appears twice |
| Suppressions.BuiltinArePlain | src/analyze/suppressions.cpp:118-133 | Each built-in pattern is a plain substring match |
| Accumulated.At | src/analyze/accumulatedtracedata.cpp:807-824 | A 1-based id looks up entry id−1; id 0 and ids past the end give the default value |
| Accumulated.AtStableUnderAppend | src/analyze/accumulatedtracedata.cpp:807-824 | Appending to a table keeps existing ids resolving to the same entries |
| Accumulated.PrettyRun | src/analyze/accumulatedtracedata.cpp:107-140 | The loop of prettyFunction, one PrettyStep per character in order (its bound is stated by Accumulated.PrettyRunLength, its composition by Accumulated.PrettyRunAppend) |
| Accumulated.PrettyRunLength | src/analyze/accumulatedtracedata.cpp:106-140 | The pass only appends to its output, at most one character per input character, so the result fits the space reserved for the input |
| Accumulated.PrettyRunAppend | src/analyze/accumulatedtracedata.cpp:102-142 | The per-character pass composes over concatenation |
| Accumulated.PrettyCopiesPlain | src/analyze/accumulatedtracedata.cpp:128-139 | Text without angle brackets is copied |
| Accumulated.PrettyDropsArguments | src/analyze/accumulatedtracedata.cpp:128-139 | A balanced template argument list becomes "<>" |
| Accumulated.PrettyKeepsOperator | src/analyze/accumulatedtracedata.cpp:112-126 | A '<' or '>' right after "operator" is kept |
| Accumulated.PrettyKeepsShiftOperator | src/analyze/accumulatedtracedata.cpp:115-126 | "operator<<" and "operator>>" are kept whole |
| Accumulated.Missing | src/analyze/accumulatedtracedata.cpp:529-548 | Each entry of the other table that this one lacks, in the other table's order, repeats included |
| Accumulated.RemapStrings | src/analyze/accumulatedtracedata.cpp:515-550 | The merged table is this table plus the missing strings. Id 0 maps to 0, and every other id maps to its string's id in the merged table |
| Accumulated.IndexStrings | src/analyze/accumulatedtracedata.cpp:520-527 | Each string is indexed with the 1-based id of its first occurrence |
| Accumulated.RemappedResolves | src/analyze/accumulatedtracedata.cpp:529-548 | A remapped id resolves in the merged table to the same string; it is old iff the string was already present |
| Accumulated.Reduced | src/analyze/accumulatedtracedata.cpp:622-637 | Equal neighbours are folded into one: never longer, empty iff empty |
| Accumulated.InplaceUniqueReduce | src/analyze/accumulatedtracedata.cpp:622-637 | The in-place loop leaves the reduced sequence in the array's prefix and returns its length |
| Accumulated.ReducedOfDistinctNeighbours | src/analyze/accumulatedtracedata.cpp:622-637 | Without equal neighbours nothing changes |
| Accumulated.ReducedKeys | src/analyze/accumulatedtracedata.cpp:622-637 | The keys of the reduced sequence are the keys with adjacent duplicates removed |
| Accumulated.ReducedKeepsTotal | src/analyze/accumulatedtracedata.cpp:622-637 | An additive reduction keeps the total |
| Accumulated.FindAllocation | src/analyze/accumulatedtracedata.cpp:776-783 | A trace is found in the sorted lookup iff it is present |
| Accumulated.MapIndexSpec | src/analyze/accumulatedtracedata.cpp:773-805 | The returned allocation has the trace and the lookup now finds it; other traces are unchanged. A known trace changes nothing; an unknown one appends a cleared allocation |
| Accumulated.MapIndexStable | src/analyze/accumulatedtracedata.cpp:773-805 | Mapping the same trace twice is mapping it once |
| Accumulated.MapIndex | src/analyze/accumulatedtracedata.cpp:773-805 | The allocations only grow, by at most one. A new allocation is the returned one, empty and carrying the trace |
| Accumulated.FoundAllocationHasTrace | src/analyze/accumulatedtracedata.cpp:776-783 | A found allocation carries the trace it was found for |
| Accumulated.InsertKeepsValid | src/analyze/accumulatedtracedata.cpp:784-789 | Inserting a trace below the maximum keeps the lookup sorted and consistent |
| Accumulated.AppendKeepsValid | src/analyze/accumulatedtracedata.cpp:794-803 | Appending a trace above the maximum keeps the lookup consistent and finds it |
| Accumulated.FirstMatchIsFirst | src/analyze/accumulatedtracedata.cpp:859-868 | A string is charged to the first suppression matching it, and none iff none matches |
| Accumulated.StringMatches | src/analyze/accumulatedtracedata.cpp:858-869 | One match per string, each naming a suppression |
| Accumulated.IpMatchIsFirst | src/analyze/accumulatedtracedata.cpp:892-908 | An ip matches through its first matching string: function, file, then inlined frames |
| Accumulated.InlinedMatchIsFirst | src/analyze/accumulatedtracedata.cpp:901-906 | Inlined frames are tried in order |
| Accumulated.TraceMatchAt | src/analyze/accumulatedtracedata.cpp:925-931 | A trace inherits its parent's match, or else takes its own ip's match |
| Accumulated.TraceMatchesPrefix | src/analyze/accumulatedtracedata.cpp:917-931 | A trace's match depends only on the traces before it |
| Accumulated.Zeroed | src/analyze/accumulatedtracedata.cpp:935-947 | Each allocation is silenced exactly when its trace is suppressed |
| Accumulated.Credited | src/analyze/accumulatedtracedata.cpp:938-943 | Each suppression is credited with its suppressed allocations |
| Accumulated.Silence | src/analyze/accumulatedtracedata.cpp:935-947 | The loop zeroes, credits and sums the leaked bytes as the specification functions say |
| Accumulated.NothingSuppressed | src/analyze/accumulatedtracedata.cpp:852-854 | With no matching trace nothing is zeroed or credited |
| Accumulated.ZeroedLeaked | src/analyze/accumulatedtracedata.cpp:944-945 | The leaked total drops by exactly the suppressed leak |
| Accumulated.CreditedTotals | src/analyze/accumulatedtracedata.cpp:938-942 | The suppressions' leaked bytes and match counts grow by the suppressed leak and hits |
| Accumulated.AccumulatedTraceData.constructor | src/analyze/accumulatedtracedata.cpp:79-88 | Empty tables and a cleared total cost |
| Accumulated.AccumulatedTraceData.IsStopIndex | src/analyze/accumulatedtracedata.cpp:826-829 | True iff the string index is a stop index |
| Accumulated.AccumulatedTraceData.PrettyFunction | src/analyze/accumulatedtracedata.cpp:102-142 | The name is unchanged unless templates are shortened; then it goes through the template-dropping pass |
| Accumulated.AccumulatedTraceData.MapToAllocationIndex | src/analyze/accumulatedtracedata.cpp:773-805 | Updates the lookup as MapIndex specifies and leaves all other data alone |
| Accumulated.AccumulatedTraceData.Stringify | src/analyze/accumulatedtracedata.cpp:92-100 | Id k in 1..count gives string k-1; id 0 and ids past the end give "" |
| Accumulated.AccumulatedTraceData.FindIp | src/analyze/accumulatedtracedata.cpp:807-815 | Id k in 1..count gives instruction pointer k-1; id 0 and ids past the end give the invalid one |
| Accumulated.AccumulatedTraceData.FindTrace | src/analyze/accumulatedtracedata.cpp:817-824 | Id k in 1..count gives trace node k-1; id 0 and ids past the end give the empty node |
| Accumulated.AccumulatedTraceData.ApplyLeakSuppressions | src/analyze/accumulatedtracedata.cpp:848-948 | Suppressed allocations are zeroed and the suppressions credited. The total leak is lowered by exactly the suppressed leak, which is recorded |
| Accumulated.AccumulatedTraceData.MatchTraces | src/analyze/accumulatedtracedata.cpp:856-931 | Computes each trace's suppression, or reports that no string matched |
| Accumulated.AccumulatedTraceData.SilenceAllocations | src/analyze/accumulatedtracedata.cpp:934-947 | Zeroes, credits and lowers the total as the specification functions say |
| AllocationData.Cleared | src/analyze/allocationdata.h:37-40 | clearCost sets every counter to zero |
| AllocationData.PlusMinusComponentwise | src/analyze/allocationdata.h:54-72 | += and -= act field by field on all five counters |
| AllocationData.Plus | src/analyze/allocationdata.h:54-62 | Subtracting either operand from the sum gives the other back |
| AllocationData.Minus | src/analyze/allocationdata.h:64-72 | The difference is all zeros iff the costs are equal, and zero outside inRam iff they agree outside inRam |
| AllocationData.Same | src/analyze/allocationdata.h:43-47 | == holds iff the difference is zero in every counter but inRam |
| AllocationData.PlusThenMinus | src/analyze/allocationdata.h:54-82 | Adding then subtracting the same cost restores the original |
| AllocationData.PlusCommutesAndAssociates | src/analyze/allocationdata.h:74-77 | Cost addition is commutative and associative |
| AllocationData.ClearedIsNeutral | src/analyze/allocationdata.h:37-82 | A cleared cost is neutral for + and - |
| AllocationData.SameIgnoresInRam | src/analyze/allocationdata.h:43-47 | == compares every counter except inRam |
| AllocationData.SameIsCongruence | src/analyze/allocationdata.h:43-82 | == is preserved by adding or subtracting the same cost |
| Btrace.GetHexValue | libbacktrace/btrace.cpp:343-354 | A digit of either case gives its value; anything else gives -1 |
| Btrace.GetHexValueOfDigit | libbacktrace/btrace.cpp:343-354 | Lower- and upper-case digits read back as their values |
| Btrace.ParseFrom | libbacktrace/btrace.cpp:361-368 | At most 20 bytes are parsed |
| Btrace.UuidStrToUuid | libbacktrace/btrace.cpp:356-371 | The loop stores the parsed bytes and returns their count; the rest of the buffer is untouched |
| Btrace.Encode | libbacktrace/btrace.cpp:381-387 | Two characters per byte |
| Btrace.ParseEncode | libbacktrace/btrace.cpp:356-389 | Parsing the encoding of up to 20 bytes gives them back |
| Btrace.ParseStopsAtTwenty | libbacktrace/btrace.cpp:361 | Longer ids are cut to 20 bytes |
| Btrace.Clamp | libbacktrace/btrace.cpp:379-380 | A length is clamped into [0, limit] |
| Btrace.StoredAsWritten | libbacktrace/btrace.cpp:379-388 | The source's clamp to 40 bytes writes 2·n+1 characters |
| Btrace.StoredAsWrittenOverflows | libbacktrace/btrace.cpp:379-380 | With 21 bytes, 43 characters go into a 41-character buffer |
| Btrace.UuidToStr | libbacktrace/btrace.cpp:373-389 | With the clamp at 20, the buffer holds the encoding of the first n bytes and a terminator, and the rest is untouched |
| Btrace.UuidToStrFits | libbacktrace/btrace.cpp:373-389 | The corrected output always fits the 41-character buffer |
| SymbolCache.StableSort | src/interpret/symbolcache.cpp:78 | Sorting keeps the number of entries (order and permutation are stated by SymbolCache.StableSortSpec) |
| SymbolCache.StableSortSpec | src/interpret/symbolcache.cpp:78 | Sorting by offset gives a sorted permutation that keeps the order of entries with equal offsets |
| SymbolCache.StableSortKeepsOrder | src/interpret/symbolcache.cpp:78 | Entries with the same offset keep their relative order |
| SymbolCache.Unique | src/interpret/symbolcache.cpp:79 | unique never lengthens the table and empties it only when it was empty |
| SymbolCache.UniqueNoNeighbours | src/interpret/symbolcache.cpp:79 | After unique no two neighbours are equal |
| SymbolCache.UniqueMembers | src/interpret/symbolcache.cpp:79 | unique only drops entries |
| SymbolCache.UniqueSorted | src/interpret/symbolcache.cpp:79 | unique keeps a sorted table sorted |
| SymbolCache.UniqueKeepsRanges | src/interpret/symbolcache.cpp:79 | unique keeps the set of (offset, size) ranges |
| SymbolCache.LowerBound | src/interpret/symbolcache.cpp:39 | The first entry whose offset is not below the address |
| SymbolCache.FindIndex | src/interpret/symbolcache.cpp:39-61 | The chosen entry, if any, is inside the table |
| SymbolCache.FindIndexIsScan | src/interpret/symbolcache.cpp:51-61 | On a sorted table the choice equals a plain scan: the first entry at the address, else the last entry below it, if it covers the address |
| SymbolCache.FirstAt | src/interpret/symbolcache.cpp:51-52 | The first entry whose offset equals the address |
| SymbolCache.LastBelow | src/interpret/symbolcache.cpp:56-61 | The last entry whose offset is below the address |
| SymbolCache.FindIndexSameRanges | src/interpret/symbolcache.cpp:39-61 | Tables with the same offsets and sizes choose the same entry |
| SymbolCache.SymbolCache.HasSymbols | src/interpret/symbolcache.cpp:31-34 | A path without symbols has the empty table, the one a lookup would create |
| SymbolCache.Demangled | src/interpret/symbolcache.cpp:43-49 | A demangled entry keeps its range and is marked demangled |
| SymbolCache.DemangledOnce | src/interpret/symbolcache.cpp:43-49 | Demangling is done once: the name is demangled on first use and kept thereafter |
| SymbolCache.Lookup | src/interpret/symbolcache.cpp:36-62 | findSymbol keeps the table's length, and an entry that differs afterwards is the returned one |
| SymbolCache.LookupSpec | src/interpret/symbolcache.cpp:36-62 | A lookup keeps the table sorted with the same ranges. A miss returns the invalid entry; a hit returns the chosen entry, demangled. Repeating the lookup changes nothing |
| SymbolCache.FindInTable | src/interpret/symbolcache.cpp:39-61 | The lookup method computes the lookup specification |
| SymbolCache.LazyDemangle | src/interpret/symbolcache.cpp:43-49 | The chosen entry is demangled in place |
| SymbolCache.SymbolCache.constructor | src/interpret/symbolcache.h:55 | No tables are cached |
| SymbolCache.SymbolCache.SetSymbols | src/interpret/symbolcache.cpp:64-81 | The file's table becomes its symbols stably sorted by offset with adjacent duplicates removed |
| SymbolCache.SymbolCache.FindSymbol | src/interpret/symbolcache.cpp:36-62 | Looks up in the file's table, created empty if absent, and stores the updated table back |
| GuiUtil.LastIndexOf | src/analyze/gui/util.cpp:26 | The last position of the character, or -1 |
| GuiUtil.Basename | src/analyze/gui/util.cpp:24-28 | The part after the last '/': a slash-free suffix of the path |
| GuiUtil.BasenameOfJoin | src/analyze/gui/util.cpp:24-28 | The basename of dir/name is name, and a slash-free name is its own basename |
| GuiUtil.FormatString | src/analyze/gui/util.cpp:56-59 | An empty string shows as "??"; anything else is unchanged |
| GuiUtil.ElideTemplateArguments | src/analyze/gui/util.cpp:30-54 | The character loop computes the depth-tracking specification |
| GuiUtil.ElideRunAppend | src/analyze/gui/util.cpp:30-54 | The pass composes over concatenation |
| GuiUtil.ElideStep | src/analyze/gui/util.cpp:36-51 | One character moves the depth by its bracket count and keeps at most that character |
| GuiUtil.ElideRun | src/analyze/gui/util.cpp:30-54 | The final depth is the start depth plus the net bracket count of the text. The kept text only grows, by at most one character per input character |
| GuiUtil.PlainCopied | src/analyze/gui/util.cpp:49-51 | Text without brackets at depth 0 is copied |
| GuiUtil.InsideDropped | src/analyze/gui/util.cpp:39-51 | Text inside brackets is dropped |
| GuiUtil.GroupElided | src/analyze/gui/util.cpp:39-48 | A balanced group "<…>" becomes "<>" |
| GuiUtil.ElideGroupThenRest | src/analyze/gui/util.cpp:30-54 | Text, then a group, then the rest: the text is kept, the group becomes "<>", and the pass goes on at depth 0 |
| GuiUtil.UnderflowDrops | src/analyze/gui/util.cpp:44-51 | After an unmatched '>', the depth stays negative and later text is dropped |
| GuiUtil.Padded | src/analyze/gui/util.cpp:63-65 | Left-padded with '0' to the width, the string at the end |
| GuiUtil.Optional | src/analyze/gui/util.cpp:81-85 | A zero fragment shows as nothing |
| GuiUtil.Split | src/analyze/gui/util.cpp:74-79 | Days, hours, minutes, seconds and milliseconds recombine to the input with each part in range |
| GuiUtil.Units | src/analyze/gui/util.cpp:87 | The d/h/min prefix is empty iff all of those parts are zero |
| GuiUtil.Body | src/analyze/gui/util.cpp:87-92 | The formatted time ends in 's' |
| GuiUtil.SubSecondAsWritten | src/analyze/gui/util.cpp:67-69 | As written, 500 ms formats as "00.500s"; the corrected formatTime gives "500ms" |
| GuiUtil.FormatTimeOfNegative | src/analyze/gui/util.cpp:71-94 | A negative time is the positive one with '-' prepended |
| GuiUtil.FormatTimeAsWritten | src/analyze/gui/util.cpp:61-94 | As written, every time ends in 's', and it starts with '-' iff it is negative |
| GuiUtil.FormatTime | src/analyze/gui/util.cpp:67-69 | As intended, a time under a second ends in "ms" and a longer one in 's'; it starts with '-' iff it is negative |
| GuiUtil.DotIffNoUnits | src/analyze/gui/util.cpp:88-91 | Milliseconds appear after a '.' iff there is no d/h/min part |
| GuiUtil.NoUnitsIffUnderAMinute | src/analyze/gui/util.cpp:74-88 | There is no d/h/min part iff the time is under a minute |
| GuiUtil.MillisShownIffUnderAMinute | src/analyze/gui/util.cpp:61-96 | From one second on, the output shows milliseconds iff under a minute, and ends in 's' |
| MiddleElide.SubstituteAngleBrackets | src/analyze/gui/middleelide.cpp:14-42 | The loop computes the depth-tracking substitution |
| MiddleElide.ElideAngleBracket | src/analyze/gui/middleelide.cpp:9-12 | Elides by that substitution |
| MiddleElide.RunAppend | src/analyze/gui/middleelide.cpp:14-42 | The pass composes over concatenation |
| MiddleElide.Step | src/analyze/gui/middleelide.cpp:22-40 | The depth never goes below zero and changes only on brackets. The output only grows, by at most "...>" |
| MiddleElide.Run | src/analyze/gui/middleelide.cpp:14-42 | The depth never goes below zero. The output only grows, by at most four characters per input character |
| MiddleElide.OutsideCopied | src/analyze/gui/middleelide.cpp:37-39 | Text without '<' at depth 0 is copied, any stray '>' included |
| MiddleElide.NoOpenUnchanged | src/analyze/gui/middleelide.cpp:14-42 | A string without '<' is unchanged |
| MiddleElide.InsideDropped | src/analyze/gui/middleelide.cpp:27-36 | Text inside a bracket is dropped |
| MiddleElide.GroupSubstituted | src/analyze/gui/middleelide.cpp:23-36 | An outermost group "<…>" becomes "<...>" |
| MiddleElide.GroupThenRest | src/analyze/gui/middleelide.cpp:14-42 | Text, group, rest: the text is kept, the group becomes "<...>", and the pass goes on |
| PeakTracking.Snapshot | src/analyze/peaktracker.h:87-90 | The starting snapshot is each allocation's leaked bytes |
| PeakTracking.SnippetReset | src/analyze/peaktracker.h:81-93 | A reset snippet is valid, empty, and holds the current snapshot and leak |
| PeakTracking.SnippetRecord | src/analyze/peaktracker.h:100-114 | Recording appends the event; the peak never falls and is at least the current leak |
| PeakTracking.TrackerFinalize | src/analyze/peaktracker.h:172-178 | The higher of the two snippets becomes the peak and the current one is reset |
| PeakTracking.TrackerRecord | src/analyze/peaktracker.h:163-170 | A full snippet is finalized (compared with the peak and emptied) and the event is not recorded; otherwise the event is appended and the peak is unchanged. The peak never falls |
| PeakTracking.RunPeak | src/analyze/peaktracker.h:108-113 | After a run, the peak is the first strictly highest leak, with its time and index, or the start |
| PeakTracking.ReplayAt | src/analyze/peaktracker.h:134-146 | The replay is the snapshot plus each allocation's signed event sizes |
| PeakTracking.ReplaySum | src/analyze/peaktracker.h:134-146 | The replayed total is the snapshot total plus the net of the events |
| PeakTracking.PeakReplayAddsUp | src/analyze/peaktracker.h:125-148 | Replaying the snippet up to its peak index gives per-allocation peaks that sum to the peak memory |
| PeakTracking.TraceSnippet.Snap | src/analyze/peaktracker.h:62-71 | The snippet's fields form a valid snippet value |
| PeakTracking.TraceSnippet.constructor | src/analyze/peaktracker.h:74-79 | A new snippet is a reset one |
| PeakTracking.TraceSnippet.Reset | src/analyze/peaktracker.h:81-93 | Equals SnippetReset |
| PeakTracking.TraceSnippet.RecordEvent | src/analyze/peaktracker.h:100-114 | Equals SnippetRecord |
| PeakTracking.TraceSnippet.PeakAllocations | src/analyze/peaktracker.h:125-148 | The loop returns the replay up to the peak index |
| PeakTracking.PeakTracker.constructor | src/analyze/peaktracker.h:157-161 | Peak and current snippets both start reset |
| PeakTracking.PeakTracker.Finalize | src/analyze/peaktracker.h:172-178 | Equals TrackerFinalize |
| PeakTracking.PeakTracker.RecordEvent | src/analyze/peaktracker.h:163-170 | Equals TrackerRecord |
| PeakTracking.PeakTracker.PeakAllocations | src/analyze/peaktracker.h:184-187 | The peak snippet's replay up to its peak index |
| Interpret.DenseIdsAdd | src/interpret/heaptrack_interpret.cpp:273-274 | Adding a new key with id count+1 keeps the ids 1..n dense |
| Interpret.Text | src/interpret/heaptrack_interpret.cpp:313-323 | Every output line ends in a newline |
| Interpret.InternStepSpec | src/interpret/heaptrack_interpret.cpp:260-282 | "" is 0. A known string keeps its id. A new one gets count+1 and exactly one "s" line. Old ids are kept |
| Interpret.InternStep | src/interpret/heaptrack_interpret.cpp:260-282 | The returned id is the string's id in the new table (0 for ""). Output is only appended, at most one line |
| Interpret.InternIdempotent | src/interpret/heaptrack_interpret.cpp:260-282 | Interning a string twice is interning it once |
| Interpret.SortModules | src/interpret/heaptrack_interpret.cpp:214-216 | Sorting keeps the number of modules (order and permutation are stated by Interpret.SortModulesSpec) |
| Interpret.SortModulesSpec | src/interpret/heaptrack_interpret.cpp:214-216 | Sorting modules gives a sorted permutation |
| Interpret.InsertModuleSorted | src/interpret/heaptrack_interpret.cpp:214-216 | Inserting into sorted modules keeps them sorted |
| Interpret.InsertModulePermutes | src/interpret/heaptrack_interpret.cpp:214-216 | Inserting adds exactly the module |
| Interpret.FirstEndingAtOrAfter | src/interpret/heaptrack_interpret.cpp:248-250 | The lower bound by module end |
| Interpret.FirstContaining | src/interpret/heaptrack_interpret.cpp:248-251 | The first module containing the address, or none |
| Interpret.FindModuleIsFirstContaining | src/interpret/heaptrack_interpret.cpp:248-251 | For disjoint sorted modules, the lower-bound lookup finds the module containing the address |
| Interpret.FindModule | src/interpret/heaptrack_interpret.cpp:246-251 | A found module contains the address, and every module before it ends below the address |
| Interpret.ResolveFrame | src/interpret/heaptrack_interpret.cpp:242-244 | The line is carried over, and the output grows by at most two "s" lines, one per new string |
| Interpret.ResolveFrameSpec | src/interpret/heaptrack_interpret.cpp:242-244 | A frame's function and file are interned, and the resolved frame names them |
| Interpret.ResolveFrames | src/interpret/heaptrack_interpret.cpp:255 | One resolved frame per inlined frame; the output grows by at most two "s" lines per frame |
| Interpret.ResolveFramesSpec | src/interpret/heaptrack_interpret.cpp:255 | Every inlined frame is resolved, in order |
| Interpret.ResolveSpec | src/interpret/heaptrack_interpret.cpp:212-258 | An address outside every module is unresolved and writes nothing; otherwise the module index is the containing module's, there is one resolved frame per inlined frame, and the output grows by at most two "s" lines per frame |
| Interpret.ResolveSpecProps | src/interpret/heaptrack_interpret.cpp:246-257 | An address outside all modules stays unresolved and adds nothing; otherwise the module, frame and inlined frames are named |
| Interpret.InlinedFieldsAt | src/interpret/heaptrack_interpret.cpp:318-320 | Each inlined frame writes function, file and line, in order |
| Interpret.IpFieldsLayout | src/interpret/heaptrack_interpret.cpp:313-322 | The "i" line has nothing without a function, the function alone without a file, else function, file, line and the inlined frames |
| Interpret.NewIpProps | src/interpret/heaptrack_interpret.cpp:309-324 | A new ip keeps the tables valid and ends with its "i" line |
| Interpret.NewIp | src/interpret/heaptrack_interpret.cpp:309-324 | The address gets id count+1, the modules end up sorted, and the output ends with the address's "i" line |
| Interpret.AddIpSpecProps | src/interpret/heaptrack_interpret.cpp:298-325 | Address 0 is id 0 and a known address keeps its id, neither writing anything. A new address gets count+1 and its "i" line |
| Interpret.AddIpSpec | src/interpret/heaptrack_interpret.cpp:298-325 | A non-zero address is mapped to the returned id, address 0 gets 0, and output is written only for a new address |
| Interpret.AddIpIdempotent | src/interpret/heaptrack_interpret.cpp:298-325 | Adding an address twice is adding it once |
| Interpret.ResolvedIdsBounded | src/interpret/heaptrack_interpret.cpp:312 | Resolved string ids never exceed the strings defined |
| Interpret.AddIpNamesDefined | src/interpret/heaptrack_interpret.cpp:312-323 | Every string id in an "i" line was defined by an earlier "s" line |
| Interpret.IpLineFields | src/interpret/heaptrack_interpret.cpp:313-322 | The loop builds the fields as the layout specifies |
| Interpret.TraceData.constructor | src/interpret/heaptrack_interpret.cpp:197-204 | Empty tables |
| Interpret.TraceData.Intern | src/interpret/heaptrack_interpret.cpp:260-282 | Equals InternStep and leaves ips and modules alone |
| Interpret.TraceData.AddModule | src/interpret/heaptrack_interpret.cpp:284-289 | Appends the module and marks the list dirty |
| Interpret.TraceData.ClearModules | src/interpret/heaptrack_interpret.cpp:291-296 | Drops all modules and marks the list dirty |
| Interpret.TraceData.Write | src/interpret/heaptrack_interpret.cpp:313-323 | Appends one output line |
| Interpret.TraceData.ResolveFrameIds | src/interpret/heaptrack_interpret.cpp:242-244 | Equals ResolveFrame |
| Interpret.TraceData.ResolveInlined | src/interpret/heaptrack_interpret.cpp:255 | Equals ResolveFrames |
| Interpret.TraceData.Resolve | src/interpret/heaptrack_interpret.cpp:212-258 | Sorts the modules if dirty, then resolves as ResolveSpec says |
| Interpret.TraceData.AddIp | src/interpret/heaptrack_interpret.cpp:298-325 | Equals AddIpSpec |
| Interpret.InfoAdded | src/interpret/heaptrack_interpret.cpp:481-483 | The (size, trace) pair has an info index afterwards |
| Interpret.AllocStepSpec | src/interpret/heaptrack_interpret.cpp:469-486 | A parsed '+' line maps the pointer to its info index (a new pair gets count and an "a" line). It writes a "+" line and sets the last pointer; other pointers are unchanged |
| Interpret.AllocStep | src/interpret/heaptrack_interpret.cpp:469-486 | Both counters go up by one. An unparsed line changes nothing else; a parsed one maps the pointer and makes it the last pointer. Output is only appended |
| Interpret.Allocated | src/interpret/heaptrack_interpret.cpp:480-486 | The pointer maps to its (size, trace) info index, is the last pointer, and a "+" line with that index ends the output |
| Interpret.AllocUnparsed | src/interpret/heaptrack_interpret.cpp:470-478 | An unparsed '+' line only bumps the counters |
| Interpret.FreeStepSpec | src/interpret/heaptrack_interpret.cpp:487-503 | A '-' line forgets the pointer and writes nothing if it was unknown. Otherwise it writes "-" with its index and counts a temporary iff it was the last allocation |
| Interpret.FreeStep | src/interpret/heaptrack_interpret.cpp:487-503 | A parsed pointer is forgotten and the last pointer is cleared. Leaked goes down by one exactly for a known pointer; allocations never change. Output is only appended, at most one line |
| Interpret.AllocThenFreeIsTemporary | src/interpret/heaptrack_interpret.cpp:485-494 | A free right after its allocation counts as temporary and restores the leak count. The pointer map is the old one without ptr |
| Interpret.Segments | src/interpret/heaptrack_interpret.cpp:454-456 | One module per segment |
| Interpret.Interpreter.constructor | src/interpret/heaptrack_interpret.cpp:418-426 | Empty state with the last pointer 0 |
| Interpret.Interpreter.OnAlloc | src/interpret/heaptrack_interpret.cpp:469-486 | Equals AllocStep |
| Interpret.Interpreter.Allocate | src/interpret/heaptrack_interpret.cpp:480-486 | The parsed case of AllocStep |
| Interpret.Interpreter.AddInfo | src/interpret/heaptrack_interpret.cpp:480-483 | Equals InfoAdded and returns the pair's index |
| Interpret.Interpreter.OnFree | src/interpret/heaptrack_interpret.cpp:487-503 | Equals FreeStep |
| Interpret.Interpreter.OnTrace | src/interpret/heaptrack_interpret.cpp:458-468 | Adds the address, then writes "t ipId parent" |
| Interpret.Interpreter.OnExe | src/interpret/heaptrack_interpret.cpp:429-434 | Records the executable's name the first time only |
| Interpret.Interpreter.OnModule | src/interpret/heaptrack_interpret.cpp:435-457 | "-" clears the modules. Otherwise the name ("x" meaning the executable) is interned and one module per segment is added |
| Interpret.Interpreter.AddSegments | src/interpret/heaptrack_interpret.cpp:452-456 | Appends one module per segment |
| Interpret.Interpreter.OnOther | src/interpret/heaptrack_interpret.cpp:504-506 | Other lines are copied |

## Left out

- PerfHeaptrack.Render: the contract states only the tag and the separating space. The field layout of each record is given by the function body.
- PerfHeaptrack.CallPath: the contract states only that the path is non-empty. Its order is stated by OuterFirstReverses.
- The printf-style `LineWriter::write(fmt, ...)` (src/util/linewriter.h:63-101) is not modelled: variadic formatting has no counterpart here. Lines are written with WriteString and WriteHexLine.
- LineWriter.LineWriter.Flush and WriteString: the `write` system call, with its EINTR retry, is a boolean parameter. The parameter says whether the write succeeded.
- LineWriter.LineWriter.Flush and WriteString: a short write (0 <= ret < length) is modelled as complete. The source treats any ret >= 0 as success and drops the unwritten bytes (src/util/linewriter.h:124-128, 253-262).
- LineWriter.LineWriter.Close: close() and the destructor never flush (src/util/linewriter.h:55-58, 272-278). Text left in the buffer is lost, and the model keeps it in the buffer rather than in the produced text.
- LineReader: `operator>>(bool)` and the signed integer targets of readHex are not modelled. Only the unsigned 32- and 64-bit widths are.
- Interpret: several parts are parameters or left out:
  - Address resolution through libbacktrace is a function parameter.
  - `findBacktraceState` and the debug-info state of modules are left out.
  - The "OVERLAPPING MODULES" debug check is left out.
  - The destructor's "# strings" and "# ips" summary lines are left out.
  - The error exits for lines that do not parse are left out: the model takes already-parsed `Option` values.
- Interpret.SortModules: std::sort is modelled as an insertion sort; only the result matters.
- Interpret.FindModule, SymbolCache.LowerBound, PointerMap.Position and Accumulated.FindAllocation: std::lower_bound is modelled by its result, not by binary search. The two agree only when the range is partitioned by the search predicate. For modules that means sorted by addressEnd; overlapping modules, which the debug check at src/interpret/heaptrack_interpret.cpp:217-233 expects may occur, can make the binary search land elsewhere. Interpret.FindModuleIsFirstContaining assumes disjoint modules.
- Interpret: the statistics counters (uint64_t) and the module address arithmetic (uintptr_t) are unbounded integers. Wrap-around is not modelled.
- AllocationData: the int64_t counters are unbounded. Overflow is not modelled.
- PerfHeaptrack: several parts are parameters or reduced:
  - The `addr2line` subprocess is a function parameter.
  - `print` output is collected as a sequence of records.
  - The perf event dictionary is reduced to the fields the converter reads.
  - perf itself, which reads perf.data and calls process_event once per sample, is the sequence of events given to Converter.ProcessEvents.
- SymbolCache: the demangler is a function parameter.
- TraceTree: the spin locks around the tree are not modelled. The model is single-threaded.
- TraceTree.TraceTree: the index counter `m_index` is a uint32_t (src/track/tracetree.h:174), and the model's `nextIndex` is unbounded. The wrap-around after 2^32 - 1 edges is not modelled.
- TraceTree.TraceTree.Index: the callback is a pure function value. Only its accept/reject answer is modelled, not its effects (in libheaptrack it writes the new trace lines).
- Diagnostics and formatting corners are not modelled: the stderr messages (src/analyze/suppressions.cpp:87, 103, and the error_out lines of src/interpret/heaptrack_interpret.cpp); the translated "??" of formatString (src/analyze/gui/util.cpp:58); negating INT64_MIN in formatTime (src/analyze/gui/util.cpp:71-73), where the model's integers are unbounded; and the signed int line number that heaptrack_interpret prints with %x (src/interpret/heaptrack_interpret.cpp:319), which the model's Frame.line, a nat, cannot hold when negative.
- PointerMap, Interpret and Accumulated: hash maps (tsl::robin_map/robin_set) are Dafny maps. Reserve sizes and hashing are not modelled.
- PeakTracking: the getters (peakTime, peakMem) are plain field reads and are not modelled as members. The snippet capacity takes a 4-byte AllocationInfoIndex.
- Accumulated: the reading of trace files (`AccumulatedTraceData::read`) is not part of this model, being I/O. Its helpers stringify, findIp and findTrace are modelled, as the 1-based lookup At.

## Findings

| source | as written | input that shows it | evidently intended | confidence | as-written member | corrected member |
|---|---|---|---|---|---|---|
| src/analyze/gui/util.cpp:67-69 | for \|ms\| < 1000 the string "<ms>ms" is built into a local and discarded, so control falls through to the general format | 500 ms formats as "00.500s" | "500ms" | not executed | GuiUtil.SubSecondAsWritten | GuiUtil.FormatTime |
| libbacktrace/btrace.cpp:379-380 | the byte count is clamped to 40 although the output buffer holds 41 characters, that is 20 bytes | a build id of 21 bytes writes 43 characters | clamp to 20 bytes | not executed | Btrace.StoredAsWrittenOverflows | Btrace.UuidToStr |
