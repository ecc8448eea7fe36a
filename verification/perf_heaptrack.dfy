/**
 * The perf-to-heaptrack converter: four interning tables (strings,
 * instruction pointers, a call trie of trace nodes and samples), a time
 * bucketer emitting `c` markers, and the event handler that ties them
 * together. Every `print` of the script becomes a `Record` appended to the
 * converter's output.
 */
module PerfHeaptrack {
  import opened Common
  import opened Tries

  /** One line of the generated heaptrack data file. */
  datatype Record =
    | Version
    | Comment(text: string)
    | StringDef(text: string)
    | IpDef(ip: nat, dso: nat, name: nat, file: nat, line: int)
    | TraceDef(ipIndex: nat, parent: nat)
    | SampleDef(trace: nat)
    | TimeMarker(elapsed: int)
    | Occurrence(sample: nat)

  function Tag(r: Record): char
  {
    match r
    case Version => 'v'
    case Comment(_) => '#'
    case StringDef(_) => 's'
    case IpDef(_, _, _, _, _) => 'i'
    case TraceDef(_, _) => 't'
    case SampleDef(_) => 'a'
    case TimeMarker(_) => 'c'
    case Occurrence(_) => '+'
  }

  /** The text the script prints for a record. */
  function Render(r: Record): (line: string)
    ensures |line| >= 2 && line[0] == Tag(r) && line[1] == ' '
  {
    match r
    case Version => "v 10000"
    case Comment(text) => "# " + text
    case StringDef(text) => "s " + text
    case IpDef(ip, dso, name, file, line) =>
      "i " + Hex(ip) + " " + Hex(dso) + " " + Hex(name) + " " + Hex(file) + " " + SignedDec(line)
    case TraceDef(ipIndex, parent) => "t " + Hex(ipIndex) + " " + Hex(parent)
    case SampleDef(trace) => "a 1 " + Hex(trace)
    case TimeMarker(elapsed) => "c " + SignedHex(elapsed)
    case Occurrence(sample) => "+ " + Hex(sample)
  }

  const CONVERTER_COMMENT: string := "perf.data converted using perf-heaptrack.py"

  /* ---------------------------------------------------------------------
   * Definition before use: how many strings, instruction pointers, trace
   * nodes and samples a prefix of the output has defined. String ids are
   * 1-based (0 is ""), ip ids and trace ids are 1-based (trace 0 is the
   * root), sample ids are 0-based.
   * ------------------------------------------------------------------- */

  datatype Tally = Tally(strings: nat, ips: nat, traces: nat, samples: nat)

  const EMPTY_TALLY := Tally(0, 0, 0, 0)

  /** Accepts a record only if every id it mentions is already defined. */
  function Step(t: Tally, r: Record): Option<Tally>
  {
    match r
    case StringDef(_) => Some(t.(strings := t.strings + 1))
    case IpDef(_, dso, name, file, _) =>
      if dso <= t.strings && name <= t.strings && file <= t.strings
      then Some(t.(ips := t.ips + 1)) else None
    case TraceDef(ipIndex, parent) =>
      if 1 <= ipIndex <= t.ips && parent <= t.traces
      then Some(t.(traces := t.traces + 1)) else None
    case SampleDef(trace) =>
      if trace <= t.traces then Some(t.(samples := t.samples + 1)) else None
    case Occurrence(sample) =>
      if sample < t.samples then Some(t) else None
    case _ => Some(t)
  }

  /** An `i` line whose names are defined defines one more address. */
  lemma StepDefinesIp(t: Tally, r: Record)
    requires r.IpDef? && r.dso <= t.strings && r.name <= t.strings && r.file <= t.strings
    ensures Step(t, r) == Some(t.(ips := t.ips + 1))
  {
  }

  /** A `c` line defines nothing. */
  lemma StepKeepsOnMarker(t: Tally, r: Record)
    requires r.TimeMarker?
    ensures Step(t, r) == Some(t)
  {
  }

  /** What a sequence of lines defines, or None if some line uses an id before its definition. */
  function Replay(t: Tally, rs: seq<Record>): Option<Tally>
    decreases |rs|
  {
    if rs == [] then Some(t)
    else match Replay(t, rs[..|rs| - 1])
      case None => None
      case Some(t') => Step(t', rs[|rs| - 1])
  }

  /** The values of the `c` markers, in output order. */
  function Times(rs: seq<Record>): seq<int>
    decreases |rs|
  {
    if rs == [] then []
    else Times(rs[..|rs| - 1]) + if rs[|rs| - 1].TimeMarker? then [rs[|rs| - 1].elapsed] else []
  }

  /** The sample ids of the `+` lines, in output order. */
  function Occurrences(rs: seq<Record>): seq<nat>
    decreases |rs|
  {
    if rs == [] then []
    else Occurrences(rs[..|rs| - 1]) + if rs[|rs| - 1].Occurrence? then [rs[|rs| - 1].sample] else []
  }

  /** Element i is larger than element i - 1. */
  predicate RisesAt(xs: seq<int>, i: int)
  {
    0 < i < |xs| ==> xs[i - 1] < xs[i]
  }

  /** Each element is larger than the one before it. */
  ghost predicate Increasing(xs: seq<int>)
  {
    forall i :: RisesAt(xs, i)
  }

  predicate StrictlyIncreasing(xs: seq<int>)
  {
    forall i, j :: 0 <= i < j < |xs| ==> xs[i] < xs[j]
  }

  /** Neighbours in order means every pair in order. */
  lemma {:induction false} IncreasingIsStrict(xs: seq<int>)
    requires Increasing(xs)
    ensures StrictlyIncreasing(xs)
    decreases |xs|
  {
    if |xs| > 1 {
      var ys := xs[..|xs| - 1];
      assert Increasing(ys) by {
        forall i ensures RisesAt(ys, i) {
          assert RisesAt(xs, i);
        }
      }
      IncreasingIsStrict(ys);
      forall i, j | 0 <= i < j < |xs| ensures xs[i] < xs[j] {
        if j < |xs| - 1 {
          assert xs[i] == ys[i] && xs[j] == ys[j];
        } else {
          assert RisesAt(xs, j);
          if i < j - 1 {
            assert xs[i] == ys[i] && xs[j - 1] == ys[j - 1];
          }
        }
      }
    }
  }

  /* ---------------------------------------------------------------------
   * Dense numbering shared by the four tables
   * ------------------------------------------------------------------- */

  /** The ids a table hands out when the keys of `order` arrive in that order: base, base + 1, ... */
  function IndexMap<K>(order: seq<K>, base: nat): map<K, nat>
    decreases |order|
  {
    if order == [] then map[]
    else IndexMap(order[..|order| - 1], base)[order[|order| - 1] := base + |order| - 1]
  }

  /**
   * Dense numbering: `m` is the table built from `order` and no key was
   * numbered twice, so the ids are exactly base, ..., base + |m| - 1.
   */
  ghost predicate Numbered<K>(m: map<K, nat>, order: seq<K>, base: nat)
  {
    m == IndexMap(order, base) && |m| == |order|
  }

  lemma {:induction false} IndexMapSize<K>(order: seq<K>, base: nat)
    ensures |IndexMap(order, base)| <= |order|
    decreases |order|
  {
    if order != [] {
      IndexMapSize(order[..|order| - 1], base);
    }
  }

  /** Ids lie in [base, base + |m|), and distinct keys have distinct ids. */
  lemma {:induction false} NumberedIds<K>(m: map<K, nat>, order: seq<K>, base: nat, k1: K, k2: K)
    requires Numbered(m, order, base) && k1 in m && k2 in m
    ensures base <= m[k1] < base + |m|
    ensures k1 != k2 ==> m[k1] != m[k2]
    decreases |order|
  {
    var o, x := order[..|order| - 1], order[|order| - 1];
    var m0 := IndexMap(o, base);
    IndexMapSize(o, base);
    assert x !in m0 && |m0| == |o|;
    if k1 != x && k2 != x {
      NumberedIds(m0, o, base, k1, k2);
    } else if k1 != x {
      NumberedIds(m0, o, base, k1, k1);
    } else if k2 != x {
      NumberedIds(m0, o, base, k2, k2);
    }
  }

  /** A new key takes the next id and keeps the numbering dense. */
  lemma GrowNumbered<K>(m: map<K, nat>, order: seq<K>, base: nat, k: K)
    requires Numbered(m, order, base) && k !in m
    ensures Numbered(m[k := base + |m|], order + [k], base)
  {
    assert (order + [k])[..|order|] == order;
  }

  /* ---------------------------------------------------------------------
   * Standard output: every `print` of the script appends one record.
   * ------------------------------------------------------------------- */

  class Output {
    var lines: seq<Record>
    /** What the lines printed so far have defined. */
    ghost var tally: Tally
    /** The `c` values and the `+` sample ids printed so far. */
    ghost var times: seq<int>
    ghost var occurrences: seq<nat>

    ghost predicate Valid()
      reads this
    {
      Replay(EMPTY_TALLY, lines) == Some(tally) && times == Times(lines) && occurrences == Occurrences(lines)
    }

    constructor()
      ensures Valid() && lines == [] && tally == EMPTY_TALLY
    {
      lines := [];
      tally := EMPTY_TALLY;
      times := [];
      occurrences := [];
    }

    /** Prints one line; only lines whose ids are already defined may be printed. */
    method Emit(r: Record)
      requires Valid() && Step(tally, r).Some?
      modifies this
      ensures Valid() && lines == old(lines) + [r] && tally == Step(old(tally), r).value
      ensures times == if r.TimeMarker? then old(times) + [r.elapsed] else old(times)
      ensures occurrences == if r.Occurrence? then old(occurrences) + [r.sample] else old(occurrences)
    {
      lines := lines + [r];
      assert lines[..|lines| - 1] == old(lines);
      tally := Step(tally, r).value;
      if r.TimeMarker? {
        times := times + [r.elapsed];
      }
      if r.Occurrence? {
        occurrences := occurrences + [r.sample];
      }
    }
  }

  /* ---------------------------------------------------------------------
   * InternMap
   * ------------------------------------------------------------------- */

  /** A table after numbering `k`: unchanged if known, else `k` takes the next id, base + |m|. */
  function Interned<K>(m: map<K, nat>, k: K, base: nat): (m': map<K, nat>)
    ensures k in m' && |m| <= |m'|
  {
    if k in m then m else m[k := base + |m|]
  }

  /** Every id `m` handed out is still in `m'`, for the same key. */
  ghost predicate Extends<K>(m: map<K, nat>, m': map<K, nat>)
  {
    forall k :: k in m ==> k in m' && m'[k] == m[k]
  }

  /** Interning never renumbers a key. */
  lemma InternedExtends<K>(m: map<K, nat>, k: K, base: nat)
    ensures Extends(m, Interned(m, k, base))
  {
    if k !in m {
      assert forall j :: j in m ==> j != k;
    }
  }

  lemma ExtendsTrans<K>(m0: map<K, nat>, m1: map<K, nat>, m2: map<K, nat>)
    requires Extends(m0, m1) && Extends(m1, m2)
    ensures Extends(m0, m2)
  {
  }

  /** The lines interning `s` prints: one `s` line for a new string. */
  function InternLines(m: map<string, nat>, s: string): seq<Record>
  {
    if s in m then [] else [StringDef(s)]
  }

  class InternMap {
    var entries: map<string, nat>
    /** The strings in id order. */
    ghost var order: seq<string>

    ghost predicate Valid()
      reads this
    {
      Numbered(entries, order, 0) && "" in entries && entries[""] == 0
    }

    constructor()
      ensures Valid() && entries == map["" := 0]
    {
      entries := map["" := 0];
      order := [""];
    }

    /** A new string gets id len(map) and one `s` line; a known one its old id and no line. */
    method Add(s: string, out: Output) returns (index: nat)
      requires Valid() && out.Valid() && out.tally.strings + 1 == |entries|
      modifies this, out
      ensures Valid() && out.Valid() && out.tally == old(out.tally).(strings := |entries| - 1)
      ensures |old(entries)| <= |entries|
      ensures entries == Interned(old(entries), s, 0) && index == entries[s] && index < |entries|
      ensures out.lines == old(out.lines) + InternLines(old(entries), s)
      ensures out.times == old(out.times) && out.occurrences == old(out.occurrences)
    {
      var nextIndex := |entries|;
      if s in entries {
        NumberedIds(entries, order, 0, s, s);
      }
      index := if s in entries then entries[s] else nextIndex;
      if index == nextIndex {
        assert s !in entries;
        out.Emit(StringDef(s));
        assert out.tally.strings == old(out.tally.strings) + 1;
        GrowNumbered(entries, order, 0, s);
        entries := entries[s := nextIndex];
        order := order + [s];
      } else {
        assert s in entries && InternLines(entries, s) == [];
      }
    }

    /** The three strings of an `i` line, interned left to right as the format arguments are evaluated. */
    method AddNames(dsoName: string, name: string, file: string, out: Output)
      returns (dsoId: nat, nameId: nat, fileId: nat)
      requires Valid() && out.Valid() && out.tally.strings + 1 == |entries|
      modifies this, out
      ensures Valid() && out.Valid() && out.tally == old(out.tally).(strings := |entries| - 1)
      ensures |old(entries)| <= |entries|
      ensures var s1 := Interned(old(entries), dsoName, 0);
        var s2 := Interned(s1, name, 0);
        entries == Interned(s2, file, 0) &&
        out.lines == old(out.lines) + InternLines(old(entries), dsoName) + InternLines(s1, name) + InternLines(s2, file)
      ensures dsoId == entries[dsoName] && nameId == entries[name] && fileId == entries[file]
      ensures dsoId < |entries| && nameId < |entries| && fileId < |entries|
      ensures out.times == old(out.times) && out.occurrences == old(out.occurrences)
    {
      dsoId := Add(dsoName, out);
      nameId, fileId := AddPair(name, file, out);
    }

    /** The function and file names of an `i` line, after its module name. */
    method AddPair(name: string, file: string, out: Output) returns (nameId: nat, fileId: nat)
      requires Valid() && out.Valid() && out.tally.strings + 1 == |entries|
      modifies this, out
      ensures Valid() && out.Valid() && out.tally == old(out.tally).(strings := |entries| - 1)
      ensures |old(entries)| <= |entries|
      ensures var s1 := Interned(old(entries), name, 0);
        entries == Interned(s1, file, 0) &&
        out.lines == old(out.lines) + InternLines(old(entries), name) + InternLines(s1, file)
      ensures nameId == entries[name] && fileId == entries[file]
      ensures nameId < |entries| && fileId < |entries|
      ensures out.times == old(out.times) && out.occurrences == old(out.occurrences)
    {
      nameId := Add(name, out);
      fileId := Add(file, out);
    }
  }

  /* ---------------------------------------------------------------------
   * InstructionPointerMap
   * ------------------------------------------------------------------- */

  /** What addr2line reports for an address; ("???", 0) when it fails. */
  datatype FileInfo = FileInfo(file: string, line: int)

  class InstructionPointerMap {
    var entries: map<nat, nat>
    var nextIpIndex: nat
    /** The addresses in id order (id i + 1 at position i). */
    ghost var order: seq<nat>

    ghost predicate Valid()
      reads this
    {
      Numbered(entries, order, 1) && nextIpIndex == |entries| + 1
    }

    constructor()
      ensures Valid() && entries == map[] && nextIpIndex == 1
    {
      entries := map[];
      nextIpIndex := 1;
      order := [];
    }

    /**
     * A new address gets the next id and one `i` line, printed after the `s`
     * lines of the strings it introduces (module, function, file, in that
     * order); a known address returns its id and prints nothing.
     */
    method Add(ip: nat, dsoName: string, name: string, strings: InternMap,
               addr2line: (string, nat) -> FileInfo, out: Output)
      returns (ipEntry: nat)
      requires Valid() && strings.Valid() && out.Valid()
      requires out.tally.strings + 1 == |strings.entries| && out.tally.ips == |entries|
      modifies this, strings, out
      ensures Valid() && strings.Valid() && out.Valid()
      ensures out.tally == old(out.tally).(strings := |strings.entries| - 1, ips := |entries|)
      ensures entries == Interned(old(entries), ip, 1) && ipEntry == entries[ip] && 1 <= ipEntry <= |entries|
      ensures ip in old(entries) ==> unchanged(strings) && unchanged(out)
      ensures ip !in old(entries) ==> IpDefined(old(strings.entries), old(out.lines), strings.entries, out.lines,
                                                ip, dsoName, name, addr2line(dsoName, ip))
      ensures out.times == old(out.times) && out.occurrences == old(out.occurrences)
    {
      var ipEntryOrNone := if ip in entries then Some(entries[ip]) else None;
      if ipEntryOrNone.None? {
        ipEntry := Define(ip, dsoName, name, strings, addr2line(dsoName, ip), out);
      } else {
        ipEntry := ipEntryOrNone.value;
        NumberedIds(entries, order, 1, ip, ip);
      }
    }

    /** The branch of Add for an address seen for the first time. */
    method Define(ip: nat, dsoName: string, name: string, strings: InternMap, fileInfo: FileInfo, out: Output)
      returns (ipEntry: nat)
      requires Valid() && strings.Valid() && out.Valid() && ip !in entries
      requires out.tally.strings + 1 == |strings.entries| && out.tally.ips == |entries|
      modifies this, strings, out
      ensures Valid() && strings.Valid() && out.Valid()
      ensures out.tally == old(out.tally).(strings := |strings.entries| - 1, ips := |entries|)
      ensures entries == old(entries)[ip := ipEntry] && ipEntry == old(nextIpIndex)
      ensures IpDefined(old(strings.entries), old(out.lines), strings.entries, out.lines, ip, dsoName, name, fileInfo)
      ensures out.times == old(out.times) && out.occurrences == old(out.occurrences)
    {
      Print(ip, dsoName, name, strings, fileInfo, out);
      ipEntry := Insert(ip);
    }

    /** The `i` line of a new address, after the `s` lines of its new strings. */
    method Print(ip: nat, dsoName: string, name: string, strings: InternMap, fileInfo: FileInfo, out: Output)
      requires strings.Valid() && out.Valid() && out.tally.strings + 1 == |strings.entries|
      modifies strings, out
      ensures strings.Valid() && out.Valid()
      ensures out.tally == old(out.tally).(strings := |strings.entries| - 1, ips := old(out.tally).ips + 1)
      ensures IpDefined(old(strings.entries), old(out.lines), strings.entries, out.lines, ip, dsoName, name, fileInfo)
      ensures out.times == old(out.times) && out.occurrences == old(out.occurrences)
    {
      var dsoId, nameId, fileId := strings.AddNames(dsoName, name, fileInfo.file, out);
      ghost var named := out.tally;
      StepDefinesIp(named, IpDef(ip, dsoId, nameId, fileId, fileInfo.line));
      out.Emit(IpDef(ip, dsoId, nameId, fileId, fileInfo.line));
    }

    /** The bookkeeping of a new address: it takes nextIpIndex, which moves on by one. */
    method Insert(ip: nat) returns (ipEntry: nat)
      requires Valid() && ip !in entries
      modifies this
      ensures Valid() && entries == old(entries)[ip := ipEntry] && ipEntry == old(nextIpIndex)
    {
      ipEntry := nextIpIndex;
      nextIpIndex := nextIpIndex + 1;
      GrowNumbered(entries, order, 1, ip);
      entries := entries[ip := ipEntry];
      order := order + [ip];
    }
  }

  /**
   * What defining a new address does to the string table and the output:
   * the module, function and file names are interned in that order, then
   * the `i` line refers to their ids.
   */
  ghost predicate IpDefined(strings0: map<string, nat>, lines0: seq<Record>,
                            strings: map<string, nat>, lines: seq<Record>,
                            ip: nat, dsoName: string, name: string, info: FileInfo)
  {
    var s1 := Interned(strings0, dsoName, 0);
    var s2 := Interned(s1, name, 0);
    strings == Interned(s2, info.file, 0) &&
    lines == lines0 + InternLines(strings0, dsoName) + InternLines(s1, name) + InternLines(s2, info.file) +
             [IpDef(ip, strings[dsoName], strings[name], strings[info.file], info.line)]
  }

  /* ---------------------------------------------------------------------
   * TraceEntry: the call trie. Node objects are identified by their index,
   * so the children dictionaries of all nodes form one map from
   * (parent index, ip id) to child index; the root has index 0.
   * ------------------------------------------------------------------- */

  /** Every child is younger than its parent and has an index of its own. */
  ghost predicate TrieShape(children: map<(nat, nat), nat>, order: seq<(nat, nat)>)
  {
    Numbered(children, order, 1) && forall k :: k in children ==> k.0 < children[k]
  }

  /** Each node of the trie stands for exactly one call path from the root. */
  lemma {:induction false} WalkInjective(children: map<(nat, nat), nat>, order: seq<(nat, nat)>,
                                         p1: seq<nat>, p2: seq<nat>)
    requires TrieShape(children, order)
    requires Walk(children, 0, p1).Some? && Walk(children, 0, p1) == Walk(children, 0, p2)
    ensures p1 == p2
    decreases |p1| + |p2|
  {
    if p1 == [] && p2 == [] {
      return;
    }
    if p1 != [] && p2 != [] {
      var q1, a1 := p1[..|p1| - 1], p1[|p1| - 1];
      var q2, a2 := p2[..|p2| - 1], p2[|p2| - 1];
      assert p1 == q1 + [a1] && p2 == q2 + [a2];
      WalkSnoc(children, 0, q1, a1);
      WalkSnoc(children, 0, q2, a2);
      var m1, m2 := Walk(children, 0, q1).value, Walk(children, 0, q2).value;
      NumberedIds(children, order, 1, (m1, a1), (m2, a2));
      WalkInjective(children, order, q1, q2);
    } else {
      var p := if p1 == [] then p2 else p1;
      var q, a := p[..|p| - 1], p[|p| - 1];
      assert p == q + [a];
      WalkSnoc(children, 0, q, a);
    }
  }

  class TraceTrie {
    var children: map<(nat, nat), nat>
    var nextTraceIndex: nat
    /** The (parent, ip id) keys in creation order: node i + 1 at position i. */
    ghost var order: seq<(nat, nat)>

    ghost predicate Valid()
      reads this
    {
      TrieShape(children, order) && nextTraceIndex == |children| + 1
    }

    constructor()
      ensures Valid() && children == map[] && nextTraceIndex == 1
    {
      children := map[];
      nextTraceIndex := 1;
      order := [];
    }

    /** TraceEntry(parent).add(ipIndex): at most one child per ip id, one `t` line when it is created. */
    method Add(parent: nat, ipIndex: nat, out: Output) returns (child: nat)
      requires Valid() && out.Valid() && parent < nextTraceIndex
      requires 1 <= ipIndex <= out.tally.ips && out.tally.traces + 1 == nextTraceIndex
      modifies this, out
      ensures Valid() && out.Valid() && out.tally == old(out.tally).(traces := nextTraceIndex - 1)
      ensures children == Interned(old(children), (parent, ipIndex), 1)
      ensures child == children[(parent, ipIndex)] && 1 <= child < nextTraceIndex
      ensures out.lines == old(out.lines) +
        if (parent, ipIndex) in old(children) then [] else [TraceDef(ipIndex, parent)]
      ensures out.times == old(out.times) && out.occurrences == old(out.occurrences)
    {
      var key := (parent, ipIndex);
      if key in children {
        child := children[key];
        NumberedIds(children, order, 1, key, key);
      } else {
        child := nextTraceIndex;
        nextTraceIndex := nextTraceIndex + 1;
        out.Emit(TraceDef(ipIndex, parent));
        GrowNumbered(children, order, 1, key);
        children := children[key := child];
        order := order + [key];
      }
    }
  }

  /* ---------------------------------------------------------------------
   * SampleMap
   * ------------------------------------------------------------------- */

  class SampleMap {
    var entries: map<nat, nat>
    var nextSampleIndex: nat
    /** The trace indices in sample order. */
    ghost var order: seq<nat>

    ghost predicate Valid()
      reads this
    {
      Numbered(entries, order, 0) && nextSampleIndex == |entries|
    }

    constructor()
      ensures Valid() && entries == map[] && nextSampleIndex == 0
    {
      entries := map[];
      nextSampleIndex := 0;
      order := [];
    }

    /** Samples are numbered from 0, with one `a 1 trace` line per distinct trace. */
    method Add(traceIndex: nat, out: Output) returns (sampleIndex: nat)
      requires Valid() && out.Valid()
      requires traceIndex <= out.tally.traces && out.tally.samples == nextSampleIndex
      modifies this, out
      ensures Valid() && out.Valid() && out.tally == old(out.tally).(samples := nextSampleIndex)
      ensures entries == Interned(old(entries), traceIndex, 0)
      ensures sampleIndex == entries[traceIndex] && sampleIndex < nextSampleIndex
      ensures out.lines == old(out.lines) +
        if traceIndex in old(entries) then [] else [SampleDef(traceIndex)]
      ensures out.times == old(out.times) && out.occurrences == old(out.occurrences)
    {
      if traceIndex in entries {
        sampleIndex := entries[traceIndex];
        NumberedIds(entries, order, 0, traceIndex, traceIndex);
      } else {
        sampleIndex := nextSampleIndex;
        nextSampleIndex := nextSampleIndex + 1;
        out.Emit(SampleDef(traceIndex));
        GrowNumbered(entries, order, 0, traceIndex);
        entries := entries[traceIndex := sampleIndex];
        order := order + [traceIndex];
      }
    }
  }

  /* ---------------------------------------------------------------------
   * Call paths: the addresses of a sample, outermost frame first, and the
   * ids the instruction-pointer table gives them.
   * ------------------------------------------------------------------- */

  /** One frame of a perf callchain; perf may omit its module and its symbol. */
  datatype ChainItem = ChainItem(ip: nat, dso: Option<string>, sym: Option<string>)

  /** A perf sample as process_event receives it: time stamp in ns, own address, callchain innermost first. */
  datatype Event = Event(time: int, ip: nat, dso: Option<string>, symbol: Option<string>, callchain: seq<ChainItem>)

  /** The script's placeholder for an unknown module, symbol or file. */
  const UNKNOWN: string := "???"

  /** The addresses of a callchain in the order the script folds them: reversed. */
  function OuterFirst(chain: seq<ChainItem>): (ips: seq<nat>)
    ensures |ips| == |chain|
  {
    if chain == [] then [] else OuterFirst(chain[1..]) + [chain[0].ip]
  }

  lemma {:induction false} OuterFirstReverses(chain: seq<ChainItem>)
    ensures forall i :: 0 <= i < |chain| ==> OuterFirst(chain)[i] == chain[|chain| - 1 - i].ip
  {
    if chain != [] {
      OuterFirstReverses(chain[1..]);
    }
  }

  /** The path a sample is filed under: its own address if perf gave no callchain. */
  function CallPath(e: Event): (path: seq<nat>)
    ensures |path| >= 1
  {
    if e.callchain == [] then [e.ip] else OuterFirst(e.callchain)
  }

  /** Every address of `ips` has an id in `m`. */
  predicate Known(m: map<nat, nat>, ips: seq<nat>)
    decreases |ips|
  {
    ips == [] || (Known(m, ips[..|ips| - 1]) && ips[|ips| - 1] in m)
  }

  /** The ids of a path of known addresses. */
  function IdsOf(m: map<nat, nat>, ips: seq<nat>): (ids: seq<nat>)
    requires Known(m, ips)
    ensures |ids| == |ips|
    decreases |ips|
  {
    if ips == [] then [] else IdsOf(m, ips[..|ips| - 1]) + [m[ips[|ips| - 1]]]
  }

  /** Ids handed out earlier stay valid when the table grows. */
  lemma {:induction false} IdsOfGrow(m: map<nat, nat>, m': map<nat, nat>, ips: seq<nat>)
    requires Known(m, ips)
    requires forall k :: k in m ==> k in m' && m'[k] == m[k]
    ensures Known(m', ips) && IdsOf(m', ips) == IdsOf(m, ips)
    decreases |ips|
  {
    if ips != [] {
      IdsOfGrow(m, m', ips[..|ips| - 1]);
    }
  }

  /** Distinct addresses have distinct ids, so a path of ids names one path of addresses. */
  lemma {:induction false} IdsOfInjective(m: map<nat, nat>, order: seq<nat>, p1: seq<nat>, p2: seq<nat>)
    requires Numbered(m, order, 1) && Known(m, p1) && Known(m, p2)
    requires IdsOf(m, p1) == IdsOf(m, p2)
    ensures p1 == p2
    decreases |p1|
  {
    if p1 != [] {
      var n := |p1| - 1;
      assert IdsOf(m, p1)[n] == IdsOf(m, p2)[n];
      assert IdsOf(m, p1)[..n] == IdsOf(m, p1[..n]);
      assert IdsOf(m, p2)[..n] == IdsOf(m, p2[..n]);
      NumberedIds(m, order, 1, p1[n], p2[n]);
      IdsOfInjective(m, order, p1[..n], p2[..n]);
      assert p1 == p1[..n] + [p1[n]];
      assert p2 == p2[..n] + [p2[n]];
    }
  }

  /**
   * The trace index of a sample determines its call path: two known paths
   * that end in the same trie node are the same path.
   */
  lemma SameTraceSamePath(ips: map<nat, nat>, ipOrder: seq<nat>,
                          children: map<(nat, nat), nat>, trieOrder: seq<(nat, nat)>,
                          p1: seq<nat>, p2: seq<nat>)
    requires Numbered(ips, ipOrder, 1) && TrieShape(children, trieOrder)
    requires Known(ips, p1) && Known(ips, p2)
    requires Walk(children, 0, IdsOf(ips, p1)).Some?
    requires Walk(children, 0, IdsOf(ips, p1)) == Walk(children, 0, IdsOf(ips, p2))
    ensures p1 == p2
  {
    WalkInjective(children, trieOrder, IdsOf(ips, p1), IdsOf(ips, p2));
    IdsOfInjective(ips, ipOrder, p1, p2);
  }

  /** Interning ip extends the ids of a known path by ip's id. */
  lemma IdsSnoc(m0: map<nat, nat>, m1: map<nat, nat>, path: seq<nat>, ip: nat)
    requires Known(m0, path) && m1 == Interned(m0, ip, 1)
    ensures Known(m1, path + [ip]) && IdsOf(m1, path + [ip]) == IdsOf(m0, path) + [m1[ip]]
  {
    assert forall k :: k in m0 ==> k in m1 && m1[k] == m0[k];
    IdsOfGrow(m0, m1, path);
    var p := path + [ip];
    assert p[..|p| - 1] == path;
  }

  /** One step of the fold: the node of path + [ip] is the child the trie hands out for ip's id. */
  lemma FoldStep(m0: map<nat, nat>, m1: map<nat, nat>, c0: map<(nat, nat), nat>, c1: map<(nat, nat), nat>,
                 path: seq<nat>, ip: nat, node: nat)
    requires Known(m0, path) && Walk(c0, 0, IdsOf(m0, path)) == Some(node)
    requires m1 == Interned(m0, ip, 1)
    requires c1 == Interned(c0, (node, m1[ip]), 1)
    ensures Known(m1, path + [ip])
    ensures Walk(c1, 0, IdsOf(m1, path + [ip])) == Some(c1[(node, m1[ip])])
  {
    IdsSnoc(m0, m1, path, ip);
    var ids := IdsOf(m0, path);
    assert forall k :: k in c0 ==> k in c1 && c1[k] == c0[k];
    WalkGrow(c0, c1, 0, ids);
    WalkSnoc(c1, 0, ids, m1[ip]);
  }

  /** A call path filed earlier leads to the same node once both tables have grown. */
  lemma NodeKept(m: map<nat, nat>, m': map<nat, nat>, c: map<(nat, nat), nat>, c': map<(nat, nat), nat>,
                 path: seq<nat>, node: nat)
    requires Known(m, path) && Walk(c, 0, IdsOf(m, path)) == Some(node)
    requires Extends(m, m') && Extends(c, c')
    ensures Known(m', path) && Walk(c', 0, IdsOf(m', path)) == Some(node)
  {
    IdsOfGrow(m, m', path);
    WalkGrow(c, c', 0, IdsOf(m, path));
  }

  /** The ids of a concatenation are the concatenation of the ids. */
  lemma {:induction false} IdsOfAppend(m: map<nat, nat>, p: seq<nat>, q: seq<nat>)
    requires Known(m, p + q)
    ensures Known(m, p) && Known(m, q) && IdsOf(m, p + q) == IdsOf(m, p) + IdsOf(m, q)
    decreases |q|
  {
    if q == [] {
      assert p + q == p;
    } else {
      var q0 := q[..|q| - 1];
      assert (p + q)[..|p + q| - 1] == p + q0;
      IdsOfAppend(m, p, q0);
      assert q[..|q| - 1] == q0;
    }
  }

  /**
   * Every outer part of a filed call path is a node of the trie, and the
   * node of the whole path hangs below it: samples whose call paths share
   * their outermost frames share the trie nodes of those frames.
   */
  lemma PrefixNode(m: map<nat, nat>, c: map<(nat, nat), nat>, path: seq<nat>, n: nat)
    requires Known(m, path) && Walk(c, 0, IdsOf(m, path)).Some? && n <= |path|
    ensures Known(m, path[..n]) && Known(m, path[n..]) && Walk(c, 0, IdsOf(m, path[..n])).Some?
    ensures Walk(c, Walk(c, 0, IdsOf(m, path[..n])).value, IdsOf(m, path[n..])) == Walk(c, 0, IdsOf(m, path))
  {
    assert path == path[..n] + path[n..];
    IdsOfAppend(m, path[..n], path[n..]);
    WalkAppend(c, 0, IdsOf(m, path[..n]), IdsOf(m, path[n..]));
  }

  /**
   * Two call paths with the same n outermost frames pass through one node:
   * the node of that common part, below which both traces hang.
   */
  lemma SharedPrefix(m: map<nat, nat>, c: map<(nat, nat), nat>, p1: seq<nat>, p2: seq<nat>, n: nat)
    requires Known(m, p1) && Walk(c, 0, IdsOf(m, p1)).Some?
    requires Known(m, p2) && Walk(c, 0, IdsOf(m, p2)).Some?
    requires n <= |p1| && n <= |p2| && p1[..n] == p2[..n]
    ensures Known(m, p1[..n]) && Walk(c, 0, IdsOf(m, p1[..n])).Some?
    ensures Known(m, p1[n..]) && Known(m, p2[n..])
    ensures var node := Walk(c, 0, IdsOf(m, p1[..n])).value;
      Walk(c, node, IdsOf(m, p1[n..])) == Walk(c, 0, IdsOf(m, p1)) &&
      Walk(c, node, IdsOf(m, p2[n..])) == Walk(c, 0, IdsOf(m, p2))
  {
    PrefixNode(m, c, p1, n);
    PrefixNode(m, c, p2, n);
  }

  /**
   * Events `es` were filed under `traces` with sample ids `sampleIds`: each
   * call path is known, leads to its trace, and the trace has that sample id.
   */
  ghost predicate Filed(m: map<nat, nat>, c: map<(nat, nat), nat>, n: map<nat, nat>,
                        es: seq<Event>, traces: seq<nat>, sampleIds: seq<nat>)
  {
    |traces| == |es| && |sampleIds| == |es| &&
    forall j :: 0 <= j < |es| ==>
      Known(m, CallPath(es[j])) && Walk(c, 0, IdsOf(m, CallPath(es[j]))) == Some(traces[j]) &&
      traces[j] in n && n[traces[j]] == sampleIds[j]
  }

  /** Events filed earlier stay filed where they were while the tables grow. */
  lemma FiledGrow(m: map<nat, nat>, m': map<nat, nat>, c: map<(nat, nat), nat>, c': map<(nat, nat), nat>,
                  n: map<nat, nat>, n': map<nat, nat>, es: seq<Event>, traces: seq<nat>, sampleIds: seq<nat>)
    requires Filed(m, c, n, es, traces, sampleIds)
    requires Extends(m, m') && Extends(c, c') && Extends(n, n')
    ensures Filed(m', c', n', es, traces, sampleIds)
  {
    forall j | 0 <= j < |es|
      ensures Known(m', CallPath(es[j])) && Walk(c', 0, IdsOf(m', CallPath(es[j]))) == Some(traces[j])
    {
      NodeKept(m, m', c, c', CallPath(es[j]), traces[j]);
    }
  }

  /** Filing event i of `es` under trace t and sample id sid extends the filed prefix by one. */
  lemma FiledSnoc(m: map<nat, nat>, c: map<(nat, nat), nat>, n: map<nat, nat>,
                  es: seq<Event>, i: nat, traces: seq<nat>, sampleIds: seq<nat>, t: nat, sid: nat)
    requires i < |es| && Filed(m, c, n, es[..i], traces, sampleIds)
    requires Known(m, CallPath(es[i])) && Walk(c, 0, IdsOf(m, CallPath(es[i]))) == Some(t) && t in n && n[t] == sid
    ensures Filed(m, c, n, es[..i + 1], traces + [t], sampleIds + [sid])
  {
    forall j | 0 <= j < i + 1
      ensures Known(m, CallPath(es[..i + 1][j]))
      ensures Walk(c, 0, IdsOf(m, CallPath(es[..i + 1][j]))) == Some((traces + [t])[j])
      ensures (traces + [t])[j] in n && n[(traces + [t])[j]] == (sampleIds + [sid])[j]
    {
      if j < i {
        assert es[..i + 1][j] == es[..i][j];
      }
    }
  }

  /**
   * With dense tables, filed events share a sample id exactly when they
   * share a call path: the sample id names the trace, and the trace the path.
   */
  lemma FiledSamePath(ips: map<nat, nat>, ipOrder: seq<nat>,
                      children: map<(nat, nat), nat>, trieOrder: seq<(nat, nat)>,
                      n: map<nat, nat>, sampleOrder: seq<nat>,
                      es: seq<Event>, traces: seq<nat>, sampleIds: seq<nat>)
    requires Numbered(ips, ipOrder, 1) && TrieShape(children, trieOrder) && Numbered(n, sampleOrder, 0)
    requires Filed(ips, children, n, es, traces, sampleIds)
    ensures forall j, k :: 0 <= j < |es| && 0 <= k < |es| ==>
      (sampleIds[j] == sampleIds[k] <==> CallPath(es[j]) == CallPath(es[k]))
  {
    forall j, k | 0 <= j < |es| && 0 <= k < |es|
      ensures sampleIds[j] == sampleIds[k] <==> CallPath(es[j]) == CallPath(es[k])
    {
      if sampleIds[j] == sampleIds[k] {
        NumberedIds(n, sampleOrder, 0, traces[j], traces[k]);
        SameTraceSamePath(ips, ipOrder, children, trieOrder, CallPath(es[j]), CallPath(es[k]));
      }
    }
  }

  /* ---------------------------------------------------------------------
   * Time buckets
   * ------------------------------------------------------------------- */

  /** perf time stamps are in ns; the script counts 10 ms buckets. */
  const TIME_BUCKET: nat := 10000000

  /** startTime after an event: the first event's time stamp, taken again while it is still 0. */
  function NextStart(startTime: int, time: int): int
  {
    if startTime == 0 then time else startTime
  }

  /** The bucket of an event, with Python 2's flooring integer division. */
  function Elapsed(startTime: int, time: int): int
  {
    (time - NextStart(startTime, time)) / TIME_BUCKET
  }

  /** The last element, if any, is at most `bound`. */
  predicate EndsAtMost(xs: seq<int>, bound: int)
  {
    xs == [] || xs[|xs| - 1] <= bound
  }

  lemma IncreasingSnoc(xs: seq<int>, x: int)
    requires Increasing(xs) && EndsAtMost(xs, x - 1)
    ensures Increasing(xs + [x]) && EndsAtMost(xs + [x], x)
  {
    forall i ensures RisesAt(xs + [x], i) {
      assert RisesAt(xs, i);
    }
  }

  /* ---------------------------------------------------------------------
   * The script's global state and its three perf callbacks
   * ------------------------------------------------------------------- */

  class Converter {
    const out: Output
    const strings: InternMap
    const ipMap: InstructionPointerMap
    const traceRoot: TraceTrie
    const samples: SampleMap
    /** The addr2line subprocess, as a function of module path and address. */
    const addr2line: (string, nat) -> FileInfo
    var startTime: int
    var lastTime: int
    var finalTime: int

    /** The tables agree with the output on how many ids of each kind are defined. */
    ghost predicate Tables()
      reads out, strings, ipMap, traceRoot, samples
    {
      out.Valid() && strings.Valid() && ipMap.Valid() && traceRoot.Valid() && samples.Valid() &&
      out.tally.strings + 1 == |strings.entries| && out.tally.ips == |ipMap.entries| &&
      out.tally.traces + 1 == traceRoot.nextTraceIndex && out.tally.samples == samples.nextSampleIndex
    }

    /** Besides, the `c` markers printed so far strictly increase and end at lastTime. */
    ghost predicate Valid()
      reads this, out, strings, ipMap, traceRoot, samples
    {
      Tables() && Increasing(out.times) && EndsAtMost(out.times, lastTime)
    }

    constructor(addr2line: (string, nat) -> FileInfo)
      ensures Valid() && fresh(out) && out.lines == []
      ensures startTime == 0 && lastTime == 0 && finalTime == 0
    {
      out := new Output();
      strings := new InternMap();
      ipMap := new InstructionPointerMap();
      traceRoot := new TraceTrie();
      samples := new SampleMap();
      this.addr2line := addr2line;
      startTime, lastTime, finalTime := 0, 0, 0;
    }

    /** trace_begin: the version line and a comment naming the converter. */
    method TraceBegin()
      requires Valid()
      modifies out
      ensures Valid() && out.lines == old(out.lines) + [Version, Comment(CONVERTER_COMMENT)]
    {
      Header(Version);
      Header(Comment(CONVERTER_COMMENT));
    }

    /** A line that defines nothing and refers to nothing. */
    method Header(r: Record)
      requires Valid() && (r.Version? || r.Comment?)
      modifies out
      ensures Valid() && out.lines == old(out.lines) + [r]
    {
      out.Emit(r);
    }

    /**
     * trace_end: one last marker, finalTime + 1. It continues the increasing
     * markers unless the last event was stamped earlier than the last marker.
     */
    method TraceEnd()
      requires Valid()
      modifies out
      ensures out.Valid() && out.lines == old(out.lines) + [TimeMarker(finalTime + 1)]
      ensures out.times == old(out.times) + [finalTime + 1]
      ensures finalTime >= lastTime ==> Increasing(out.times)
    {
      if finalTime >= lastTime {
        IncreasingSnoc(out.times, finalTime + 1);
      }
      out.Emit(TimeMarker(finalTime + 1));
    }

    /** process_event: bucket the time, file the call path in the trie, count one sample. */
    method ProcessEvent(e: Event) returns (traceIndex: nat, sampleIndex: nat)
      requires Valid()
      modifies this, out, strings, ipMap, traceRoot, samples
      ensures Valid()
      ensures startTime == NextStart(old(startTime), e.time) && finalTime == Elapsed(old(startTime), e.time)
      ensures lastTime == if old(lastTime) + 1 <= finalTime then finalTime else old(lastTime)
      ensures out.times == old(out.times) + if old(lastTime) + 1 <= finalTime then [finalTime] else []
      ensures out.occurrences == old(out.occurrences) + [sampleIndex]
      ensures old(out.lines) <= out.lines && out.lines[|out.lines| - 1] == Occurrence(sampleIndex)
      ensures Extends(old(strings.entries), strings.entries) && Extends(old(ipMap.entries), ipMap.entries)
      ensures Extends(old(traceRoot.children), traceRoot.children)
      ensures Known(ipMap.entries, CallPath(e))
      ensures Walk(traceRoot.children, 0, IdsOf(ipMap.entries, CallPath(e))) == Some(traceIndex)
      ensures samples.entries == Interned(old(samples.entries), traceIndex, 0)
      ensures samples.entries[traceIndex] == sampleIndex
    {
      Tick(e.time);
      traceIndex, sampleIndex := Count(e);
    }

    /**
     * perf's replay of a recording: process_event once per sample, in order.
     * Every event's call path still leads to the trace it was filed under
     * when the last one is done, and two events get the same sample id, and
     * so the same `+` line, exactly when their call paths are equal.
     */
    method ProcessEvents(es: seq<Event>) returns (traces: seq<nat>, sampleIds: seq<nat>)
      requires Valid()
      modifies this, out, strings, ipMap, traceRoot, samples
      ensures Valid() && |traces| == |es| && |sampleIds| == |es|
      ensures out.occurrences == old(out.occurrences) + sampleIds
      ensures Filed(ipMap.entries, traceRoot.children, samples.entries, es, traces, sampleIds)
      ensures forall j, k :: 0 <= j < |es| && 0 <= k < |es| ==>
        (sampleIds[j] == sampleIds[k] <==> CallPath(es[j]) == CallPath(es[k]))
    {
      traces, sampleIds := [], [];
      var i := 0;
      while i < |es|
        invariant 0 <= i <= |es|
        invariant Valid()
        invariant out.occurrences == old(out.occurrences) + sampleIds
        invariant Filed(ipMap.entries, traceRoot.children, samples.entries, es[..i], traces, sampleIds)
      {
        var t, sid := ProcessNext(es, i, traces, sampleIds);
        traces, sampleIds := traces + [t], sampleIds + [sid];
        i := i + 1;
      }
      assert es[..i] == es;
      FiledSamePath(ipMap.entries, ipMap.order, traceRoot.children, traceRoot.order,
                    samples.entries, samples.order, es, traces, sampleIds);
    }

    /** process_event for event i, with the events before it filed already and kept filed. */
    method ProcessNext(es: seq<Event>, i: nat, traces: seq<nat>, sampleIds: seq<nat>) returns (t: nat, sid: nat)
      requires Valid() && i < |es|
      requires Filed(ipMap.entries, traceRoot.children, samples.entries, es[..i], traces, sampleIds)
      modifies this, out, strings, ipMap, traceRoot, samples
      ensures Valid()
      ensures out.occurrences == old(out.occurrences) + [sid] && old(out.lines) <= out.lines
      ensures Extends(old(strings.entries), strings.entries) && Extends(old(ipMap.entries), ipMap.entries)
      ensures Extends(old(traceRoot.children), traceRoot.children) && Extends(old(samples.entries), samples.entries)
      ensures Filed(ipMap.entries, traceRoot.children, samples.entries, es[..i + 1], traces + [t], sampleIds + [sid])
    {
      ghost var m0, c0, n0 := ipMap.entries, traceRoot.children, samples.entries;
      t, sid := ProcessEvent(es[i]);
      InternedExtends(n0, t, 0);
      FiledGrow(m0, ipMap.entries, c0, traceRoot.children, n0, samples.entries, es[..i], traces, sampleIds);
      FiledSnoc(ipMap.entries, traceRoot.children, samples.entries, es, i, traces, sampleIds, t, sid);
    }

    /** The sample part of process_event: the trace of the call path, its sample id and the `+` line. */
    method Count(e: Event) returns (traceIndex: nat, sampleIndex: nat)
      requires Valid()
      modifies out, strings, ipMap, traceRoot, samples
      ensures Valid()
      ensures out.times == old(out.times)
      ensures out.occurrences == old(out.occurrences) + [sampleIndex]
      ensures old(out.lines) <= out.lines && out.lines[|out.lines| - 1] == Occurrence(sampleIndex)
      ensures Extends(old(strings.entries), strings.entries) && Extends(old(ipMap.entries), ipMap.entries)
      ensures Extends(old(traceRoot.children), traceRoot.children)
      ensures Known(ipMap.entries, CallPath(e))
      ensures Walk(traceRoot.children, 0, IdsOf(ipMap.entries, CallPath(e))) == Some(traceIndex)
      ensures samples.entries == Interned(old(samples.entries), traceIndex, 0)
      ensures samples.entries[traceIndex] == sampleIndex
    {
      traceIndex := Fold(e);
      sampleIndex := Sample(traceIndex);
    }

    /** The end of process_event: the sample id of a trace, then one `+` line. */
    method Sample(traceIndex: nat) returns (sampleIndex: nat)
      requires Valid() && traceIndex < traceRoot.nextTraceIndex
      modifies out, samples
      ensures Valid()
      ensures out.times == old(out.times)
      ensures out.occurrences == old(out.occurrences) + [sampleIndex]
      ensures samples.entries == Interned(old(samples.entries), traceIndex, 0)
      ensures samples.entries[traceIndex] == sampleIndex
      ensures out.lines == old(out.lines) +
        (if traceIndex in old(samples.entries) then [] else [SampleDef(traceIndex)]) + [Occurrence(sampleIndex)]
    {
      sampleIndex := SampleId(traceIndex);
      Occur(sampleIndex);
    }

    /** samples.add(traceIndex), with the `a` line of a first-seen trace. */
    method SampleId(traceIndex: nat) returns (sampleIndex: nat)
      requires Valid() && traceIndex < traceRoot.nextTraceIndex
      modifies out, samples
      ensures Valid()
      ensures out.times == old(out.times) && out.occurrences == old(out.occurrences)
      ensures samples.entries == Interned(old(samples.entries), traceIndex, 0)
      ensures sampleIndex == samples.entries[traceIndex] && sampleIndex < samples.nextSampleIndex
      ensures out.lines == old(out.lines) + if traceIndex in old(samples.entries) then [] else [SampleDef(traceIndex)]
    {
      sampleIndex := samples.Add(traceIndex, out);
    }

    /** The `+ sampleIndex` line: one more occurrence of a defined sample. */
    method Occur(sampleIndex: nat)
      requires Valid() && sampleIndex < samples.nextSampleIndex
      modifies out
      ensures Valid()
      ensures out.lines == old(out.lines) + [Occurrence(sampleIndex)]
      ensures out.times == old(out.times) && out.occurrences == old(out.occurrences) + [sampleIndex]
    {
      out.Emit(Occurrence(sampleIndex));
    }

    /** The time part of process_event: a `c` marker when the bucket passed lastTime. */
    method Tick(time: int)
      requires Valid()
      modifies this, out
      ensures Valid() && out.tally == old(out.tally)
      ensures startTime == NextStart(old(startTime), time) && finalTime == Elapsed(old(startTime), time)
      ensures lastTime == if old(lastTime) + 1 <= finalTime then finalTime else old(lastTime)
      ensures out.lines == old(out.lines) + if old(lastTime) + 1 <= finalTime then [TimeMarker(finalTime)] else []
      ensures out.times == old(out.times) + if old(lastTime) + 1 <= finalTime then [finalTime] else []
      ensures out.occurrences == old(out.occurrences)
    {
      if startTime == 0 {
        startTime := time;
      }
      var elapsed := (time - startTime) / TIME_BUCKET;
      Mark(elapsed);
      finalTime := elapsed;
    }

    /** A `c` marker for a bucket beyond lastTime, which then moves up to it. */
    method Mark(elapsed: int)
      requires Valid()
      modifies this, out
      ensures Valid() && out.tally == old(out.tally)
      ensures startTime == old(startTime) && finalTime == old(finalTime)
      ensures lastTime == if old(lastTime) + 1 <= elapsed then elapsed else old(lastTime)
      ensures out.lines == old(out.lines) + if old(lastTime) + 1 <= elapsed then [TimeMarker(elapsed)] else []
      ensures out.times == old(out.times) + if old(lastTime) + 1 <= elapsed then [elapsed] else []
      ensures out.occurrences == old(out.occurrences)
    {
      if lastTime + 1 <= elapsed {
        IncreasingSnoc(out.times, elapsed);
        StepKeepsOnMarker(out.tally, TimeMarker(elapsed));
        out.Emit(TimeMarker(elapsed));
        lastTime := elapsed;
      }
    }

    /** The trie part of process_event: the node of the sample's call path, outermost frame first. */
    method Fold(e: Event) returns (traceIndex: nat)
      requires Valid()
      modifies out, strings, ipMap, traceRoot
      ensures Valid()
      ensures out.times == old(out.times) && out.occurrences == old(out.occurrences)
      ensures old(out.lines) <= out.lines
      ensures Extends(old(strings.entries), strings.entries) && Extends(old(ipMap.entries), ipMap.entries)
      ensures Extends(old(traceRoot.children), traceRoot.children)
      ensures traceIndex < traceRoot.nextTraceIndex && Known(ipMap.entries, CallPath(e))
      ensures Walk(traceRoot.children, 0, IdsOf(ipMap.entries, CallPath(e))) == Some(traceIndex)
    {
      var chain := e.callchain;
      if chain == [] {
        ghost var m0, c0 := ipMap.entries, traceRoot.children;
        traceIndex := Push(0, e.ip, GetOr(e.dso, UNKNOWN), GetOr(e.symbol, UNKNOWN));
        FoldStep(m0, ipMap.entries, c0, traceRoot.children, [], e.ip, 0);
        InternedExtends(m0, e.ip, 1);
        InternedExtends(c0, (0, ipMap.entries[e.ip]), 1);
      } else {
        var trace := 0;
        var i := |chain|;
        while i > 0
          invariant 0 <= i <= |chain|
          invariant Valid()
          invariant out.times == old(out.times) && out.occurrences == old(out.occurrences)
          invariant old(out.lines) <= out.lines
          invariant Extends(old(strings.entries), strings.entries) && Extends(old(ipMap.entries), ipMap.entries)
          invariant Extends(old(traceRoot.children), traceRoot.children)
          invariant trace < traceRoot.nextTraceIndex && Known(ipMap.entries, OuterFirst(chain[i..]))
          invariant Walk(traceRoot.children, 0, IdsOf(ipMap.entries, OuterFirst(chain[i..]))) == Some(trace)
        {
          i := i - 1;
          var item := chain[i];
          ghost var m0, c0, s0, node := ipMap.entries, traceRoot.children, strings.entries, trace;
          trace := Push(trace, item.ip, GetOr(item.dso, UNKNOWN), GetOr(item.sym, UNKNOWN));
          FoldStep(m0, ipMap.entries, c0, traceRoot.children, OuterFirst(chain[i + 1..]), item.ip, node);
          InternedExtends(m0, item.ip, 1);
          InternedExtends(c0, (node, ipMap.entries[item.ip]), 1);
          ExtendsTrans(old(ipMap.entries), m0, ipMap.entries);
          ExtendsTrans(old(traceRoot.children), c0, traceRoot.children);
          ExtendsTrans(old(strings.entries), s0, strings.entries);
          assert chain[i..][1..] == chain[i + 1..];
        }
        traceIndex := trace;
      }
    }

    /** One frame: the id of its address (defining it if new), then the child of `node` for that id. */
    method Push(node: nat, ip: nat, dsoName: string, name: string) returns (child: nat)
      requires Valid() && node < traceRoot.nextTraceIndex
      modifies out, strings, ipMap, traceRoot
      ensures Valid()
      ensures out.times == old(out.times) && out.occurrences == old(out.occurrences)
      ensures old(out.lines) <= out.lines && Extends(old(strings.entries), strings.entries)
      ensures ipMap.entries == Interned(old(ipMap.entries), ip, 1)
      ensures traceRoot.children == Interned(old(traceRoot.children), (node, ipMap.entries[ip]), 1)
      ensures child == traceRoot.children[(node, ipMap.entries[ip])] && child < traceRoot.nextTraceIndex
    {
      var ipIndex := IpId(ip, dsoName, name);
      child := Child(node, ipIndex);
    }

    /** ipMap.add for one frame, defining the address and its strings if it is new. */
    method IpId(ip: nat, dsoName: string, name: string) returns (ipIndex: nat)
      requires Valid()
      modifies out, strings, ipMap
      ensures Valid()
      ensures out.times == old(out.times) && out.occurrences == old(out.occurrences)
      ensures old(out.lines) <= out.lines && Extends(old(strings.entries), strings.entries)
      ensures ipMap.entries == Interned(old(ipMap.entries), ip, 1)
      ensures ipIndex == ipMap.entries[ip] && 1 <= ipIndex <= |ipMap.entries|
    {
      ipIndex := ipMap.Add(ip, dsoName, name, strings, addr2line, out);
      if ip !in old(ipMap.entries) {
        var s0, info := old(strings.entries), addr2line(dsoName, ip);
        var s1 := Interned(s0, dsoName, 0);
        var s2 := Interned(s1, name, 0);
        InternedExtends(s0, dsoName, 0);
        InternedExtends(s1, name, 0);
        InternedExtends(s2, info.file, 0);
        ExtendsTrans(s0, s1, s2);
        ExtendsTrans(s0, s2, strings.entries);
      }
    }

    /** trace.add(ipIndex): the child of `node` for an address id, created with a `t` line if new. */
    method Child(node: nat, ipIndex: nat) returns (child: nat)
      requires Valid() && node < traceRoot.nextTraceIndex && 1 <= ipIndex <= |ipMap.entries|
      modifies out, traceRoot
      ensures Valid()
      ensures out.times == old(out.times) && out.occurrences == old(out.occurrences)
      ensures traceRoot.children == Interned(old(traceRoot.children), (node, ipIndex), 1)
      ensures child == traceRoot.children[(node, ipIndex)] && child < traceRoot.nextTraceIndex
      ensures out.lines == old(out.lines) +
        if (node, ipIndex) in old(traceRoot.children) then [] else [TraceDef(ipIndex, node)]
    {
      child := traceRoot.Add(node, ipIndex, out);
    }
  }
}
