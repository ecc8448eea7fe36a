/**
 * Interpret: the heaptrack_interpret filter. It reads the raw trace,
 * interns strings and instruction pointers, resolves addresses against
 * the loaded modules, deduplicates (size, trace) allocation infos and
 * rewrites pointers as allocation indices.
 */
module Interpret {
  import opened Common
  import opened LineWriter
  import PointerMap

  /** A source location reported for an address: a demangled function, a file and a line. */
  datatype Frame = Frame(functionName: string, file: string, line: nat)

  /** What resolving an address yields: the frame and the frames inlined into it. */
  datatype AddressInformation = AddressInformation(frame: Frame, inlined: seq<Frame>)

  /** A frame with its strings replaced by their interned ids (0 for an empty string). */
  datatype ResolvedFrame = ResolvedFrame(functionIndex: nat, fileIndex: nat, line: nat)

  datatype ResolvedIP = ResolvedIP(moduleIndex: nat, frame: ResolvedFrame, inlined: seq<ResolvedFrame>)

  /** A ResolvedIP as default-constructed: no module, no frame. */
  const Unresolved: ResolvedIP := ResolvedIP(0, ResolvedFrame(0, 0, 0), [])

  /** A loaded segment [addressStart, addressEnd] of a module (its debug-info state is not modelled). */
  datatype Module = Module(fileName: string, addressStart: nat, addressEnd: nat, moduleIndex: nat)

  // ---------------------------------------------------------------------
  // Dense ids

  /** The ids of a map are 1, 2, ..., |m|, each used once. */
  ghost predicate DenseIds<K>(m: map<K, nat>)
  {
    (forall k :: k in m ==> 1 <= m[k] <= |m|)
    && (forall a, b :: a in m && b in m && m[a] == m[b] ==> a == b)
  }

  /** Giving a new key the id |m| + 1 keeps the ids dense. */
  lemma DenseIdsAdd<K>(m: map<K, nat>, k: K)
    requires DenseIds(m) && k !in m
    ensures DenseIds(m[k := |m| + 1]) && |m[k := |m| + 1]| == |m| + 1
  {
  }

  // ---------------------------------------------------------------------
  // intern

  /**
   * A line of output: an interned string, a record of hex values, or an
   * input line copied through.
   */
  datatype Line = StringDef(str: string) | Record(kind: char, values: seq<nat>) | Copied(text: string)

  /**
   * The text of a line: "s str" for a string, the writeHexLine format for
   * a record (the "i" line is written with printf in the same format), the
   * line itself for a copy; each ends in a newline.
   */
  function Text(l: Line): (t: string)
    ensures |t| >= 1 && t[|t| - 1] == '\n'
  {
    match l
    case StringDef(str) => "s " + str + "\n"
    case Record(kind, values) => if values == [] then [kind, '\n'] else HexLine(kind, values)
    case Copied(text) => text + "\n"
  }

  /** The interned strings and the output lines written so far. */
  datatype Names = Names(ids: map<string, nat>, lines: seq<Line>)

  /** intern: "" is 0; a known string keeps its id; a new one gets count + 1 and an "s" line. */
  function InternStep(n: Names, str: string): (r: (nat, Names))
    ensures IdOf(r.1.ids, str, r.0)
    ensures n.lines <= r.1.lines && |r.1.lines| <= |n.lines| + 1
  {
    if str == "" then (0, n)
    else if str in n.ids then (n.ids[str], n)
    else
      var id := |n.ids| + 1;
      (id, Names(n.ids[str := id], n.lines + [StringDef(str)]))
  }

  /** id is the interned id of str: 0 for "", else the id the table holds for it. */
  predicate IdOf(ids: map<string, nat>, str: string, id: nat)
  {
    if str == "" then id == 0 else str in ids && ids[str] == id
  }

  /** Tables whose ids are dense and that never hold "". */
  ghost predicate InternValid(ids: map<string, nat>)
  {
    DenseIds(ids) && "" !in ids
  }

  /**
   * intern maps "" to 0 and nothing else to 0; a known string returns its
   * id and writes nothing; a new string gets the next id and exactly one
   * "s" line; ids of other strings never change.
   */
  lemma InternStepSpec(n: Names, str: string)
    requires InternValid(n.ids)
    ensures var (id, n') := InternStep(n, str);
      && InternValid(n'.ids)
      && (id == 0 <==> str == "")
      && IdOf(n'.ids, str, id)
      && (forall s :: s in n.ids ==> s in n'.ids && n'.ids[s] == n.ids[s])
      && (str == "" || str in n.ids ==> n' == n)
      && (str != "" && str !in n.ids ==>
            id == |n.ids| + 1 && |n'.ids| == id && n'.lines == n.lines + [StringDef(str)])
  {
    if str != "" && str !in n.ids {
      DenseIdsAdd(n.ids, str);
    }
  }

  /** Interning the same string twice gives the same id and writes nothing the second time. */
  lemma InternIdempotent(n: Names, str: string)
    requires InternValid(n.ids)
    ensures var (id, n') := InternStep(n, str); InternStep(n', str) == (id, n')
  {
    InternStepSpec(n, str);
  }

  // ---------------------------------------------------------------------
  // resolve

  /** resolveFrame: intern the function name, then the file name. */
  function ResolveFrame(n: Names, f: Frame): (r: (ResolvedFrame, Names))
    ensures r.0.line == f.line && |n.lines| <= |r.1.lines| <= |n.lines| + 2
  {
    var (fn, n1) := InternStep(n, f.functionName);
    var (fl, n2) := InternStep(n1, f.file);
    (ResolvedFrame(fn, fl, f.line), n2)
  }

  /** The inlined frames resolved one after the other, in order. */
  function ResolveFrames(n: Names, fs: seq<Frame>): (r: (seq<ResolvedFrame>, Names))
    ensures |r.0| == |fs| && |n.lines| <= |r.1.lines| <= |n.lines| + 2 * |fs|
  {
    if fs == [] then ([], n)
    else
      var (rs, n1) := ResolveFrames(n, fs[..|fs| - 1]);
      var (r, n2) := ResolveFrame(n1, fs[|fs| - 1]);
      (rs + [r], n2)
  }

  /** Module::operator<, lexicographic on (addressStart, addressEnd, moduleIndex), as "not greater". */
  predicate ModuleLeq(a: Module, b: Module)
  {
    a.addressStart < b.addressStart
    || (a.addressStart == b.addressStart
        && (a.addressEnd < b.addressEnd || (a.addressEnd == b.addressEnd && a.moduleIndex <= b.moduleIndex)))
  }

  predicate ModulesSorted(ms: seq<Module>)
  {
    forall i, j :: 0 <= i < j < |ms| ==> ModuleLeq(ms[i], ms[j])
  }

  function InsertModule(ms: seq<Module>, m: Module): (r: seq<Module>)
    ensures |r| == |ms| + 1
  {
    if ms == [] || ModuleLeq(ms[|ms| - 1], m) then ms + [m]
    else InsertModule(ms[..|ms| - 1], m) + [ms[|ms| - 1]]
  }

  /** The modules in (addressStart, addressEnd, moduleIndex) order (an insertion sort). */
  function SortModules(ms: seq<Module>): (r: seq<Module>)
    ensures |r| == |ms|
  {
    if ms == [] then [] else InsertModule(SortModules(ms[..|ms| - 1]), ms[|ms| - 1])
  }

  lemma {:induction false} InsertModulePermutes(ms: seq<Module>, m: Module)
    ensures multiset(InsertModule(ms, m)) == multiset(ms) + multiset{m}
    decreases |ms|
  {
    if ms != [] && !ModuleLeq(ms[|ms| - 1], m) {
      var init := ms[..|ms| - 1];
      InsertModulePermutes(init, m);
      assert ms == init + [ms[|ms| - 1]];
    }
  }

  lemma {:induction false} InsertModuleSorted(ms: seq<Module>, m: Module)
    requires ModulesSorted(ms)
    ensures ModulesSorted(InsertModule(ms, m))
    decreases |ms|
  {
    if ms != [] && !ModuleLeq(ms[|ms| - 1], m) {
      var init := ms[..|ms| - 1];
      var last := ms[|ms| - 1];
      InsertModuleSorted(init, m);
      var r0 := InsertModule(init, m);
      forall k | 0 <= k < |r0| ensures ModuleLeq(r0[k], last) {
        InsertModulePermutes(init, m);
        assert r0[k] in multiset(r0);
        if r0[k] != m {
          assert r0[k] in multiset(init);
        }
      }
    }
  }

  /** sort(m_modules): the result is ordered and holds the same modules. */
  lemma {:induction false} SortModulesSpec(ms: seq<Module>)
    ensures ModulesSorted(SortModules(ms))
    ensures multiset(SortModules(ms)) == multiset(ms)
    decreases |ms|
  {
    if ms != [] {
      var init := ms[..|ms| - 1];
      SortModulesSpec(init);
      InsertModuleSorted(SortModules(init), ms[|ms| - 1]);
      InsertModulePermutes(SortModules(init), ms[|ms| - 1]);
      assert ms == init + [ms[|ms| - 1]];
    }
  }

  /**
   * The position lower_bound finds with the comparator addressEnd < ip:
   * the first module whose end is not below ip.
   */
  function FirstEndingAtOrAfter(ms: seq<Module>, ip: nat): (k: nat)
    ensures k <= |ms|
    ensures forall j :: 0 <= j < k ==> ms[j].addressEnd < ip
    ensures k < |ms| ==> ms[k].addressEnd >= ip
    decreases |ms|
  {
    if ms == [] || ms[0].addressEnd >= ip then 0 else 1 + FirstEndingAtOrAfter(ms[1..], ip)
  }

  /** The candidate module is accepted only if it contains ip, both ends included. */
  function FindModule(ms: seq<Module>, ip: nat): (r: Option<nat>)
    ensures r.Some? ==> r.value < |ms| && Contains(ms[r.value], ip)
    ensures r.Some? ==> forall j :: 0 <= j < r.value ==> ms[j].addressEnd < ip
  {
    var k := FirstEndingAtOrAfter(ms, ip);
    if k < |ms| && ms[k].addressStart <= ip && ms[k].addressEnd >= ip then Some(k) else None
  }

  predicate Contains(m: Module, ip: nat)
  {
    m.addressStart <= ip <= m.addressEnd
  }

  /** The first module containing ip, by a plain scan. */
  function FirstContaining(ms: seq<Module>, ip: nat): (r: Option<nat>)
    ensures r.Some? ==> r.value < |ms| && Contains(ms[r.value], ip)
    ensures r.Some? ==> forall j :: 0 <= j < r.value ==> !Contains(ms[j], ip)
    ensures r.None? ==> forall j :: 0 <= j < |ms| ==> !Contains(ms[j], ip)
    decreases |ms|
  {
    if ms == [] then None
    else if Contains(ms[0], ip) then Some(0)
    else
      var r := FirstContaining(ms[1..], ip);
      if r.Some? then Some(r.value + 1) else None
  }

  /**
   * Modules in order whose segments do not overlap (the debug check in
   * resolve reports none); a segment may end where the next one starts.
   */
  predicate Disjoint(ms: seq<Module>)
  {
    (forall i :: 0 <= i < |ms| ==> ms[i].addressStart <= ms[i].addressEnd)
    && (forall i, j :: 0 <= i < j < |ms| ==> ms[i].addressEnd <= ms[j].addressStart)
  }

  /** For non-overlapping sorted modules the lookup finds exactly the first module containing ip. */
  lemma FindModuleIsFirstContaining(ms: seq<Module>, ip: nat)
    requires Disjoint(ms)
    ensures FindModule(ms, ip) == FirstContaining(ms, ip)
  {
    var k := FirstEndingAtOrAfter(ms, ip);
    var f := FirstContaining(ms, ip);
    if k < |ms| && Contains(ms[k], ip) {
      assert f.Some? && f.value <= k;
      assert f.value >= k by {
        forall j | 0 <= j < k ensures !Contains(ms[j], ip) {
          assert ms[j].addressEnd < ip;
        }
      }
    } else {
      forall j | 0 <= j < |ms| ensures !Contains(ms[j], ip) {
        if j > k {
          assert ms[k].addressStart > ip by {
            assert ms[k].addressEnd >= ip;
          }
          assert ms[k].addressEnd <= ms[j].addressStart;
        }
      }
    }
  }

  /** The modules resolve searches: sorted first if the list changed since the last sort. */
  function SortedIfDirty(ms: seq<Module>, dirty: bool): seq<Module>
  {
    if dirty then SortModules(ms) else ms
  }

  /**
   * resolve: an ip outside every module stays unresolved; otherwise the
   * module index is taken and the frame and the inlined frames are resolved,
   * in that order. Resolving an address inside a module (libbacktrace) is
   * the parameter resolveAddress.
   */
  function ResolveSpec(ms: seq<Module>, n: Names, ip: nat, resolveAddress: (Module, nat) -> AddressInformation)
    : (r: (ResolvedIP, Names))
    ensures FindModule(ms, ip).None? ==> r == (Unresolved, n)
    ensures FindModule(ms, ip).Some? ==>
      var k := FindModule(ms, ip).value;
      var inlined := resolveAddress(ms[k], ip).inlined;
      r.0.moduleIndex == ms[k].moduleIndex && |r.0.inlined| == |inlined| &&
      |n.lines| <= |r.1.lines| <= |n.lines| + 2 + 2 * |inlined|
  {
    match FindModule(ms, ip)
    case None => (Unresolved, n)
    case Some(k) =>
      var info := resolveAddress(ms[k], ip);
      var (frame, n1) := ResolveFrame(n, info.frame);
      var (inlined, n2) := ResolveFrames(n1, info.inlined);
      (ResolvedIP(ms[k].moduleIndex, frame, inlined), n2)
  }

  /** A resolved frame names the strings of its frame by their ids in ids. */
  predicate NamedBy(ids: map<string, nat>, r: ResolvedFrame, f: Frame)
  {
    IdOf(ids, f.functionName, r.functionIndex) && IdOf(ids, f.file, r.fileIndex) && r.line == f.line
  }

  /**
   * n' extends n: valid, every known id kept, the old output kept as a
   * prefix and one new line per new string.
   */
  ghost predicate Grows(n: Names, n': Names)
  {
    InternValid(n'.ids)
    && (forall s :: s in n.ids ==> s in n'.ids && n'.ids[s] == n.ids[s])
    && |n.lines| <= |n'.lines| && n'.lines[..|n.lines|] == n.lines
    && |n'.lines| - |n.lines| == |n'.ids| - |n.ids|
  }

  /** resolveFrame names both strings of the frame by their (possibly new) ids. */
  lemma ResolveFrameSpec(n: Names, f: Frame)
    requires InternValid(n.ids)
    ensures var (r, n') := ResolveFrame(n, f); Grows(n, n') && NamedBy(n'.ids, r, f)
  {
    var (fn, n1) := InternStep(n, f.functionName);
    InternStepSpec(n, f.functionName);
    InternStepSpec(n1, f.file);
  }

  /** Growing is transitive. */
  lemma GrowsTrans(n0: Names, n1: Names, n2: Names)
    requires Grows(n0, n1) && Grows(n1, n2)
    ensures Grows(n0, n2)
  {
    assert n2.lines[..|n1.lines|][..|n0.lines|] == n2.lines[..|n0.lines|];
  }

  /** A frame named by a table stays named by every table grown from it. */
  lemma NamedByKept(n: Names, n': Names, r: ResolvedFrame, f: Frame)
    requires Grows(n, n') && InternValid(n.ids) && NamedBy(n.ids, r, f)
    ensures NamedBy(n'.ids, r, f)
  {
  }

  /** Resolving the inlined frames grows the table and yields one frame per frame. */
  lemma {:induction false} ResolveFramesGrows(n: Names, fs: seq<Frame>)
    requires InternValid(n.ids)
    ensures Grows(n, ResolveFrames(n, fs).1) && |ResolveFrames(n, fs).0| == |fs|
    decreases |fs|
  {
    if fs != [] {
      var init := fs[..|fs| - 1];
      var n1 := ResolveFrames(n, init).1;
      ResolveFramesGrows(n, init);
      ResolveFrameSpec(n1, fs[|fs| - 1]);
      GrowsTrans(n, n1, ResolveFrame(n1, fs[|fs| - 1]).1);
    }
  }

  /** Frames named, one by one, by a table. */
  predicate AllNamedBy(ids: map<string, nat>, rs: seq<ResolvedFrame>, fs: seq<Frame>)
  {
    |rs| == |fs| && forall k :: 0 <= k < |fs| ==> NamedBy(ids, rs[k], fs[k])
  }

  /** Frames named by a table stay named by every table grown from it. */
  lemma AllNamedByKept(n: Names, n': Names, rs: seq<ResolvedFrame>, fs: seq<Frame>)
    requires Grows(n, n') && InternValid(n.ids) && AllNamedBy(n.ids, rs, fs)
    ensures AllNamedBy(n'.ids, rs, fs)
  {
    forall k | 0 <= k < |fs| ensures NamedBy(n'.ids, rs[k], fs[k]) {
      NamedByKept(n, n', rs[k], fs[k]);
    }
  }

  /** One more frame named by the same table. */
  lemma AllNamedByAppend(ids: map<string, nat>, rs: seq<ResolvedFrame>, fs: seq<Frame>, r: ResolvedFrame)
    requires fs != [] && AllNamedBy(ids, rs, fs[..|fs| - 1]) && NamedBy(ids, r, fs[|fs| - 1])
    ensures AllNamedBy(ids, rs + [r], fs)
  {
    assert forall k :: 0 <= k < |fs| - 1 ==> (rs + [r])[k] == rs[k] && fs[..|fs| - 1][k] == fs[k];
  }

  /** The inlined frames come out in order, each named by the final table. */
  lemma {:induction false} ResolveFramesSpec(n: Names, fs: seq<Frame>)
    requires InternValid(n.ids)
    ensures Grows(n, ResolveFrames(n, fs).1) && |ResolveFrames(n, fs).0| == |fs|
    ensures forall k :: 0 <= k < |fs| ==> NamedBy(ResolveFrames(n, fs).1.ids, ResolveFrames(n, fs).0[k], fs[k])
    decreases |fs|
  {
    ResolveFramesGrows(n, fs);
    ResolveFramesNamed(n, fs);
  }

  /** The inductive step of ResolveFramesSpec, stated with AllNamedBy. */
  lemma {:induction false} ResolveFramesNamed(n: Names, fs: seq<Frame>)
    requires InternValid(n.ids)
    ensures AllNamedBy(ResolveFrames(n, fs).1.ids, ResolveFrames(n, fs).0, fs)
    decreases |fs|
  {
    if fs != [] {
      var init, f := fs[..|fs| - 1], fs[|fs| - 1];
      var rs, n1 := ResolveFrames(n, init).0, ResolveFrames(n, init).1;
      ResolveFramesNamed(n, init);
      ResolveFramesGrows(n, init);
      var r, n2 := ResolveFrame(n1, f).0, ResolveFrame(n1, f).1;
      ResolveFrameSpec(n1, f);
      AllNamedByKept(n1, n2, rs, init);
      AllNamedByAppend(n2.ids, rs, fs, r);
    }
  }

  /**
   * resolve: an ip in no module stays unresolved and interns nothing; an ip
   * in a module gets that module's index and its frame and inlined frames
   * named by their interned ids, the new strings' "s" lines being written
   * first.
   */
  lemma ResolveSpecProps(ms: seq<Module>, n: Names, ip: nat, resolveAddress: (Module, nat) -> AddressInformation)
    requires InternValid(n.ids)
    ensures var (r, n') := ResolveSpec(ms, n, ip, resolveAddress);
      && Grows(n, n')
      && (FindModule(ms, ip).None? ==> r == Unresolved && n' == n)
      && (FindModule(ms, ip).Some? ==>
            var m := ms[FindModule(ms, ip).value];
            var info := resolveAddress(m, ip);
            && r.moduleIndex == m.moduleIndex
            && NamedBy(n'.ids, r.frame, info.frame)
            && |r.inlined| == |info.inlined|
            && forall k :: 0 <= k < |info.inlined| ==> NamedBy(n'.ids, r.inlined[k], info.inlined[k]))
  {
    if FindModule(ms, ip).Some? {
      var info := resolveAddress(ms[FindModule(ms, ip).value], ip);
      var (frame, n1) := ResolveFrame(n, info.frame);
      ResolveFrameSpec(n, info.frame);
      var (inlined, n2) := ResolveFrames(n1, info.inlined);
      ResolveFramesSpec(n1, info.inlined);
      GrowsTrans(n, n1, n2);
      NamedByKept(n1, n2, frame, info.frame);
    }
  }

  // ---------------------------------------------------------------------
  // addIp

  /** The three fields written for each inlined frame: function, file, line. */
  function InlinedFields(fs: seq<ResolvedFrame>): seq<nat>
  {
    if fs == [] then []
    else
      var f := fs[|fs| - 1];
      InlinedFields(fs[..|fs| - 1]) + [f.functionIndex, f.fileIndex, f.line]
  }

  /**
   * The fields of an "i" line after the address and the module: the
   * function if the function or the file is known, then the file, the line
   * and the inlined frames if the file is known.
   */
  function IpFields(r: ResolvedIP): seq<nat>
  {
    if r.frame.functionIndex == 0 && r.frame.fileIndex == 0 then []
    else if r.frame.fileIndex == 0 then [r.frame.functionIndex]
    else [r.frame.functionIndex, r.frame.fileIndex, r.frame.line] + InlinedFields(r.inlined)
  }

  /** The "i" line addIp writes for a new address. */
  function IpLine(ip: nat, r: ResolvedIP): Line
  {
    Record('i', [ip, r.moduleIndex] + IpFields(r))
  }

  lemma {:induction false} InlinedFieldsAt(fs: seq<ResolvedFrame>)
    ensures |InlinedFields(fs)| == 3 * |fs|
    ensures forall k :: 0 <= k < |fs| ==>
      && InlinedFields(fs)[3 * k] == fs[k].functionIndex
      && InlinedFields(fs)[3 * k + 1] == fs[k].fileIndex
      && InlinedFields(fs)[3 * k + 2] == fs[k].line
    decreases |fs|
  {
    if fs != [] {
      InlinedFieldsAt(fs[..|fs| - 1]);
    }
  }

  /**
   * The layout of an "i" line's optional fields: none when neither the
   * function nor the file is known, the function alone when only the file
   * is unknown, and otherwise function, file, line and three fields per
   * inlined frame.
   */
  lemma IpFieldsLayout(r: ResolvedIP)
    ensures var f := IpFields(r);
      && (f == [] <==> r.frame.functionIndex == 0 && r.frame.fileIndex == 0)
      && (f != [] ==> f[0] == r.frame.functionIndex)
      && (|f| > 1 <==> r.frame.fileIndex != 0)
      && (r.frame.fileIndex == 0 ==> |f| <= 1)
      && (r.frame.fileIndex != 0 ==>
            && |f| == 3 + 3 * |r.inlined|
            && f[1] == r.frame.fileIndex && f[2] == r.frame.line
            && forall k :: 0 <= k < |r.inlined| ==>
                 f[3 + 3 * k] == r.inlined[k].functionIndex
                 && f[4 + 3 * k] == r.inlined[k].fileIndex
                 && f[5 + 3 * k] == r.inlined[k].line)
  {
    InlinedFieldsAt(r.inlined);
  }

  /** l is an "i" line for address ip. */
  predicate IsIpLine(l: Line, ip: nat)
  {
    l.Record? && l.kind == 'i' && |l.values| >= 2 && l.values[0] == ip
  }

  /** The state addIp and resolve work on. */
  datatype Tables = Tables(ids: map<string, nat>, ips: map<nat, nat>, modules: seq<Module>, dirty: bool,
                           lines: seq<Line>)

  /** Dense string and address ids, neither "" nor address 0 interned, modules sorted unless dirty. */
  ghost predicate TablesValid(t: Tables)
  {
    InternValid(t.ids) && DenseIds(t.ips) && 0 !in t.ips && (!t.dirty ==> ModulesSorted(t.modules))
  }

  /** What addIp does for a new address: resolve it, then write its "i" line. */
  function NewIp(t: Tables, ip: nat, resolveAddress: (Module, nat) -> AddressInformation): (r: Tables)
    ensures ip in r.ips && r.ips[ip] == |t.ips| + 1 && !r.dirty
    ensures |r.lines| >= 1 && IsIpLine(r.lines[|r.lines| - 1], ip)
  {
    var ms := SortedIfDirty(t.modules, t.dirty);
    var res := ResolveSpec(ms, Names(t.ids, t.lines), ip, resolveAddress);
    Tables(res.1.ids, t.ips[ip := |t.ips| + 1], ms, false, res.1.lines + [IpLine(ip, res.0)])
  }

  /**
   * addIp: address 0 is 0; a known address keeps its id; a new one gets
   * count + 1, is resolved (sorting the modules first if needed) and gets an
   * "i" line after the "s" lines of the strings its resolution interned.
   */
  function AddIpSpec(t: Tables, ip: nat, resolveAddress: (Module, nat) -> AddressInformation): (r: (nat, Tables))
    ensures ip != 0 ==> ip in r.1.ips && r.1.ips[ip] == r.0
    ensures ip == 0 ==> r.0 == 0
    ensures r.1.lines != t.lines ==> ip != 0 && ip !in t.ips
  {
    if ip == 0 then (0, t)
    else if ip in t.ips then (t.ips[ip], t)
    else (|t.ips| + 1, NewIp(t, ip, resolveAddress))
  }

  /** A new address keeps the tables valid, keeps the output so far and ends it with an "i" line. */
  lemma NewIpProps(t: Tables, ip: nat, resolveAddress: (Module, nat) -> AddressInformation)
    requires TablesValid(t) && ip != 0 && ip !in t.ips
    ensures var t' := NewIp(t, ip, resolveAddress);
      && TablesValid(t')
      && Grows(Names(t.ids, t.lines), Names(t'.ids, t'.lines[..|t'.lines| - 1]))
      && IsIpLine(t'.lines[|t'.lines| - 1], ip)
  {
    var ms := SortedIfDirty(t.modules, t.dirty);
    var res := ResolveSpec(ms, Names(t.ids, t.lines), ip, resolveAddress);
    var t' := NewIp(t, ip, resolveAddress);
    assert TablesValid(t') by {
      DenseIdsAdd(t.ips, ip);
      SortModulesSpec(t.modules);
      ResolveSpecProps(ms, Names(t.ids, t.lines), ip, resolveAddress);
    }
    assert Grows(Names(t.ids, t.lines), Names(t'.ids, t'.lines[..|t'.lines| - 1])) by {
      ResolveSpecProps(ms, Names(t.ids, t.lines), ip, resolveAddress);
      assert t'.lines[..|t'.lines| - 1] == res.1.lines;
    }
  }

  /**
   * addIp maps 0 and only 0 to 0; a known address returns its id and
   * changes nothing; a new address gets the next id, keeps every earlier id
   * and string and the output so far, and ends the output with its "i" line.
   */
  lemma AddIpSpecProps(t: Tables, ip: nat, resolveAddress: (Module, nat) -> AddressInformation)
    requires TablesValid(t)
    ensures var (id, t') := AddIpSpec(t, ip, resolveAddress);
      && TablesValid(t')
      && (id == 0 <==> ip == 0)
      && (ip != 0 ==> ip in t'.ips && t'.ips[ip] == id)
      && (ip == 0 || ip in t.ips ==> t' == t)
      && (ip != 0 && ip !in t.ips ==>
            && id == |t.ips| + 1 && t'.ips == t.ips[ip := id]
            && Grows(Names(t.ids, t.lines), Names(t'.ids, t'.lines[..|t'.lines| - 1]))
            && IsIpLine(t'.lines[|t'.lines| - 1], ip))
  {
    if ip != 0 && ip !in t.ips {
      NewIpProps(t, ip, resolveAddress);
    }
  }

  /** Adding the same address twice gives the same id and writes nothing the second time. */
  lemma AddIpIdempotent(t: Tables, ip: nat, resolveAddress: (Module, nat) -> AddressInformation)
    requires TablesValid(t)
    ensures var (id, t') := AddIpSpec(t, ip, resolveAddress); AddIpSpec(t', ip, resolveAddress) == (id, t')
  {
    AddIpSpecProps(t, ip, resolveAddress);
  }

  /** An id a valid table holds is at most the number of strings interned. */
  lemma IdBounded(ids: map<string, nat>, str: string, id: nat)
    requires InternValid(ids) && IdOf(ids, str, id)
    ensures id <= |ids|
  {
  }

  /** Every function and file id of a resolved address is at most bound. */
  predicate IdsAtMost(r: ResolvedIP, bound: nat)
  {
    r.frame.functionIndex <= bound && r.frame.fileIndex <= bound
    && forall j :: 0 <= j < |r.inlined| ==> r.inlined[j].functionIndex <= bound && r.inlined[j].fileIndex <= bound
  }

  /** The string ids resolve writes are ids of the table it leaves behind. */
  lemma ResolvedIdsBounded(ms: seq<Module>, n: Names, ip: nat, resolveAddress: (Module, nat) -> AddressInformation)
    requires InternValid(n.ids)
    ensures var res := ResolveSpec(ms, n, ip, resolveAddress); IdsAtMost(res.0, |res.1.ids|)
  {
    var res := ResolveSpec(ms, n, ip, resolveAddress);
    var r, n' := res.0, res.1;
    ResolveSpecProps(ms, n, ip, resolveAddress);
    if FindModule(ms, ip).Some? {
      var info := resolveAddress(ms[FindModule(ms, ip).value], ip);
      IdBounded(n'.ids, info.frame.functionName, r.frame.functionIndex);
      IdBounded(n'.ids, info.frame.file, r.frame.fileIndex);
      forall j | 0 <= j < |r.inlined| ensures r.inlined[j].functionIndex <= |n'.ids| && r.inlined[j].fileIndex <= |n'.ids| {
        IdBounded(n'.ids, info.inlined[j].functionName, r.inlined[j].functionIndex);
        IdBounded(n'.ids, info.inlined[j].file, r.inlined[j].fileIndex);
      }
    }
  }

  /** In an "i" line's optional fields, every field but the lines (each third one) is a string id. */
  lemma FieldsAtMost(r: ResolvedIP, bound: nat)
    requires IdsAtMost(r, bound)
    ensures forall k :: 0 <= k < |IpFields(r)| && k % 3 != 2 ==> IpFields(r)[k] <= bound
  {
    IpFieldsLayout(r);
    forall k | 0 <= k < |IpFields(r)| && k % 3 != 2 ensures IpFields(r)[k] <= bound {
      if k >= 3 {
        var j := (k - 3) / 3;
        assert r.frame.fileIndex != 0 && 0 <= j < |r.inlined|;
        assert k == 3 + 3 * j || k == 4 + 3 * j;
        assert r.inlined[j].functionIndex <= bound && r.inlined[j].fileIndex <= bound;
      } else if k == 1 {
        assert r.frame.fileIndex != 0;
      }
    }
  }

  /**
   * Definition before use: every function and file id in a new address's
   * "i" line is at most the number of strings interned by then, so the
   * string it names had its "s" line written before the "i" line.
   */
  lemma AddIpNamesDefined(t: Tables, ip: nat, resolveAddress: (Module, nat) -> AddressInformation)
    requires TablesValid(t) && ip != 0 && ip !in t.ips
    ensures var res := ResolveSpec(SortedIfDirty(t.modules, t.dirty), Names(t.ids, t.lines), ip, resolveAddress);
      && NewIp(t, ip, resolveAddress).lines == res.1.lines + [IpLine(ip, res.0)]
      && forall k :: 0 <= k < |IpFields(res.0)| && k % 3 != 2 ==> IpFields(res.0)[k] <= |res.1.ids|
  {
    var res := ResolveSpec(SortedIfDirty(t.modules, t.dirty), Names(t.ids, t.lines), ip, resolveAddress);
    ResolvedIdsBounded(SortedIfDirty(t.modules, t.dirty), Names(t.ids, t.lines), ip, resolveAddress);
    FieldsAtMost(res.0, |res.1.ids|);
  }

  /** The values of the "i" line for an address, built field by field as addIp writes them. */
  method IpLineFields(instructionPointer: nat, ip: ResolvedIP) returns (fields: seq<nat>)
    ensures fields == [instructionPointer, ip.moduleIndex] + IpFields(ip)
  {
    fields := [instructionPointer, ip.moduleIndex];
    if ip.frame.functionIndex != 0 || ip.frame.fileIndex != 0 {
      fields := fields + [ip.frame.functionIndex];
      if ip.frame.fileIndex != 0 {
        fields := fields + [ip.frame.fileIndex, ip.frame.line];
        var i := 0;
        while i < |ip.inlined|
          invariant i <= |ip.inlined|
          invariant fields == [instructionPointer, ip.moduleIndex, ip.frame.functionIndex, ip.frame.fileIndex, ip.frame.line]
            + InlinedFields(ip.inlined[..i])
        {
          var inlined := ip.inlined[i];
          assert ip.inlined[..i + 1][..i] == ip.inlined[..i];
          fields := fields + [inlined.functionIndex, inlined.fileIndex, inlined.line];
          i := i + 1;
        }
        assert ip.inlined[..i] == ip.inlined;
      }
    }
  }

  // ---------------------------------------------------------------------
  // AccumulatedTraceData

  /** The interpreter's tables and output: interned strings and addresses, modules, written lines. */
  class TraceData {
    var internedData: map<string, nat>
    var encounteredIps: map<nat, nat>
    var modules: seq<Module>
    var modulesDirty: bool
    /** The lines written to standard output, in order. */
    var out: seq<Line>

    ghost function State(): Tables
      reads this
    {
      Tables(internedData, encounteredIps, modules, modulesDirty, out)
    }

    ghost predicate Valid()
      reads this
    {
      TablesValid(State())
    }

    constructor()
      ensures Valid() && State() == Tables(map[], map[], [], false, [])
    {
      internedData := map[];
      encounteredIps := map[];
      modules := [];
      modulesDirty := false;
      out := [];
    }

    /** intern: look the string up, else number it count + 1 and write its "s" line. */
    method Intern(str: string) returns (id: nat)
      requires Valid()
      modifies this
      ensures Valid()
      ensures (id, Names(internedData, out)) == InternStep(Names(old(internedData), old(out)), str)
      ensures encounteredIps == old(encounteredIps) && modules == old(modules) && modulesDirty == old(modulesDirty)
    {
      InternStepSpec(Names(internedData, out), str);
      if str == "" {
        return 0;
      }
      if str in internedData {
        return internedData[str];
      }
      id := |internedData| + 1;
      internedData := internedData[str := id];
      out := out + [StringDef(str)];
    }

    /** addModule: append the segment and mark the list unsorted. */
    method AddModule(fileName: string, moduleIndex: nat, addressStart: nat, addressEnd: nat)
      modifies this
      ensures modules == old(modules) + [Module(fileName, addressStart, addressEnd, moduleIndex)] && modulesDirty
      ensures internedData == old(internedData) && encounteredIps == old(encounteredIps) && out == old(out)
    {
      modules := modules + [Module(fileName, addressStart, addressEnd, moduleIndex)];
      modulesDirty := true;
    }

    /** clearModules: forget every segment (the list is marked unsorted all the same). */
    method ClearModules()
      requires Valid()
      modifies this
      ensures Valid()
      ensures State() == old(State()).(modules := [], dirty := true)
    {
      modules := [];
      modulesDirty := true;
    }

    /** Write one line to the output. */
    method Write(line: Line)
      modifies this
      ensures out == old(out) + [line]
      ensures internedData == old(internedData) && encounteredIps == old(encounteredIps)
      ensures modules == old(modules) && modulesDirty == old(modulesDirty)
    {
      out := out + [line];
    }

    /** resolveFrame: intern the function name, then the file name. */
    method ResolveFrameIds(f: Frame) returns (r: ResolvedFrame)
      requires Valid()
      modifies this
      ensures Valid()
      ensures (r, Names(internedData, out)) == ResolveFrame(Names(old(internedData), old(out)), f)
      ensures encounteredIps == old(encounteredIps) && modules == old(modules) && modulesDirty == old(modulesDirty)
    {
      var fn := Intern(f.functionName);
      var fl := Intern(f.file);
      r := ResolvedFrame(fn, fl, f.line);
    }

    /** std::transform of the inlined frames with resolveFrame, in order. */
    method ResolveInlined(fs: seq<Frame>) returns (rs: seq<ResolvedFrame>)
      requires Valid()
      modifies this
      ensures Valid()
      ensures (rs, Names(internedData, out)) == ResolveFrames(Names(old(internedData), old(out)), fs)
      ensures encounteredIps == old(encounteredIps) && modules == old(modules) && modulesDirty == old(modulesDirty)
    {
      rs := [];
      var i := 0;
      while i < |fs|
        invariant i <= |fs| && Valid()
        invariant encounteredIps == old(encounteredIps) && modules == old(modules) && modulesDirty == old(modulesDirty)
        invariant (rs, Names(internedData, out)) == ResolveFrames(Names(old(internedData), old(out)), fs[..i])
      {
        var r := ResolveFrameIds(fs[i]);
        assert fs[..i + 1][..i] == fs[..i];
        rs := rs + [r];
        i := i + 1;
      }
      assert fs[..i] == fs;
    }

    /**
     * resolve: sort the modules if they changed, take the first module
     * whose end is not below ip, and if it contains ip resolve the frame and
     * then each inlined frame.
     */
    method Resolve(ip: nat, resolveAddress: (Module, nat) -> AddressInformation) returns (data: ResolvedIP)
      requires Valid()
      modifies this
      ensures Valid() && !modulesDirty
      ensures modules == SortedIfDirty(old(modules), old(modulesDirty)) && encounteredIps == old(encounteredIps)
      ensures (data, Names(internedData, out)) == ResolveSpec(modules, Names(old(internedData), old(out)), ip, resolveAddress)
    {
      if modulesDirty {
        SortModulesSpec(modules);
        modules := SortModules(modules);
        modulesDirty := false;
      }
      data := Unresolved;
      var k := FirstEndingAtOrAfter(modules, ip);
      if k < |modules| && modules[k].addressStart <= ip && modules[k].addressEnd >= ip {
        var info := resolveAddress(modules[k], ip);
        var frame := ResolveFrameIds(info.frame);
        var inlined := ResolveInlined(info.inlined);
        data := ResolvedIP(modules[k].moduleIndex, frame, inlined);
      }
    }

    /**
     * addIp: 0 is 0, a known address returns its id, a new one is numbered
     * count + 1, resolved and written as an "i" line whose optional fields
     * follow what is known about its frame.
     */
    method AddIp(instructionPointer: nat, resolveAddress: (Module, nat) -> AddressInformation) returns (ipId: nat)
      requires Valid()
      modifies this
      ensures Valid()
      ensures (ipId, State()) == AddIpSpec(old(State()), instructionPointer, resolveAddress)
    {
      AddIpSpecProps(State(), instructionPointer, resolveAddress);
      if instructionPointer == 0 {
        return 0;
      }
      if instructionPointer in encounteredIps {
        return encounteredIps[instructionPointer];
      }
      ipId := |encounteredIps| + 1;
      encounteredIps := encounteredIps[instructionPointer := ipId];
      DenseIdsAdd(old(encounteredIps), instructionPointer);
      var ip := Resolve(instructionPointer, resolveAddress);
      var fields := IpLineFields(instructionPointer, ip);
      out := out + [Record('i', fields)];
    }
  }

  // ---------------------------------------------------------------------
  // The main loop's '+' and '-' handling

  /** What the main loop keeps for allocations: pointers, infos, the last pointer, counters, output. */
  datatype Loop = Loop(ptrs: map<nat, nat>, infos: map<(nat, nat), nat>, lastPtr: nat,
                       allocations: nat, leaked: int, temporary: nat, lines: seq<Line>)

  /**
   * A '+' line: both counters go up even when the line does not parse;
   * a parsed (size, trace, ptr) gets the info index of its (size, trace)
   * pair (a new pair is numbered count and written as an "a" line), ptr is
   * mapped to that index and remembered as the last pointer, and a "+" line
   * is written.
   */
  function AllocStep(st: Loop, parsed: Option<(nat, nat, nat)>): (r: Loop)
    ensures r.allocations == st.allocations + 1 && r.leaked == st.leaked + 1 && r.temporary == st.temporary
    ensures parsed.None? ==> r.ptrs == st.ptrs && r.lines == st.lines
    ensures parsed.Some? ==> r.lastPtr == parsed.value.2 && parsed.value.2 in r.ptrs
    ensures st.lines <= r.lines
  {
    var counted := st.(allocations := st.allocations + 1, leaked := st.leaked + 1);
    if parsed.None? then counted
    else Allocated(counted, parsed.value.0, parsed.value.1, parsed.value.2)
  }

  /** A parsed '+' line after the counters: the info index, the "a" and "+" lines, the pointer. */
  function Allocated(st: Loop, size: nat, trace: nat, ptr: nat): (r: Loop)
    ensures (size, trace) in r.infos && ptr in r.ptrs && r.ptrs[ptr] == r.infos[(size, trace)] && r.lastPtr == ptr
    ensures |r.lines| > |st.lines| && r.lines[|r.lines| - 1] == Record('+', [r.ptrs[ptr]])
    ensures st.lines <= r.lines
  {
    var withInfo := InfoAdded(st, size, trace);
    var index := withInfo.infos[(size, trace)];
    withInfo.(ptrs := st.ptrs[ptr := index], lastPtr := ptr, lines := withInfo.lines + [Record('+', [index])])
  }

  /** allocationInfos.add: a new (size, trace) pair is numbered count and written as an "a" line. */
  function InfoAdded(st: Loop, size: nat, trace: nat): (r: Loop)
    ensures (size, trace) in r.infos
  {
    if (size, trace) in st.infos then st
    else st.(infos := st.infos[(size, trace) := |st.infos|], lines := st.lines + [Record('a', [size, trace])])
  }

  /**
   * A '-' line: an unparsed line changes nothing; otherwise the last
   * pointer is cleared and ptr is taken from the map; an unknown ptr writes
   * nothing and counts nothing; a known one writes "-" with its index, is
   * temporary iff it was the last pointer, and is no longer leaked.
   */
  function FreeStep(st: Loop, parsed: Option<nat>): (r: Loop)
    ensures parsed.Some? ==> parsed.value !in r.ptrs && r.lastPtr == 0
    ensures r.leaked == st.leaked - (if parsed.Some? && parsed.value in st.ptrs then 1 else 0)
    ensures r.allocations == st.allocations && r.temporary <= st.temporary + 1
    ensures st.lines <= r.lines && |r.lines| <= |st.lines| + 1
  {
    match parsed
    case None => st
    case Some(ptr) =>
      var temporary := st.lastPtr == ptr;
      var taken := st.(lastPtr := 0, ptrs := st.ptrs - {ptr});
      if ptr !in st.ptrs then taken
      else taken.(lines := st.lines + [Record('-', [st.ptrs[ptr]])],
                  temporary := st.temporary + (if temporary then 1 else 0),
                  leaked := st.leaked - 1)
  }

  /**
   * '+' writes an "a" line exactly for a first-seen (size, trace) pair,
   * then always "+ index"; the pointer now maps to that index, other
   * pointers keep theirs, and it becomes the last pointer.
   */
  lemma AllocStepSpec(st: Loop, size: nat, trace: nat, ptr: nat)
    ensures var r := AllocStep(st, Some((size, trace, ptr)));
      var index := r.infos[(size, trace)];
      && ((size, trace) !in st.infos <==> |r.lines| == |st.lines| + 2)
      && ((size, trace) !in st.infos ==> index == |st.infos| && r.lines[|st.lines|] == Record('a', [size, trace]))
      && ((size, trace) in st.infos ==> index == st.infos[(size, trace)] && r.infos == st.infos)
      && r.lines[..|st.lines|] == st.lines && r.lines[|r.lines| - 1] == Record('+', [index])
      && ptr in r.ptrs && r.ptrs[ptr] == index
      && (forall q :: q != ptr ==> (q in r.ptrs <==> q in st.ptrs) && (q in st.ptrs ==> r.ptrs[q] == st.ptrs[q]))
      && r.lastPtr == ptr && r.allocations == st.allocations + 1 && r.leaked == st.leaked + 1
  {
  }

  /** A '+' line that does not parse only counts: nothing is written and no pointer changes. */
  lemma AllocUnparsed(st: Loop)
    ensures var r := AllocStep(st, None);
      r.lines == st.lines && r.ptrs == st.ptrs && r.lastPtr == st.lastPtr
      && r.allocations == st.allocations + 1 && r.leaked == st.leaked + 1
  {
  }

  /**
   * '-' of an unknown pointer writes nothing and leaves the counters alone;
   * of a known one writes "- index" with the index the pointer had, counts
   * it temporary iff it was the last pointer, and forgets it. Either way the
   * last pointer is cleared and other pointers keep their indices.
   */
  lemma FreeStepSpec(st: Loop, ptr: nat)
    ensures var r := FreeStep(st, Some(ptr));
      && r.lastPtr == 0
      && ptr !in r.ptrs
      && (forall q :: q != ptr ==> (q in r.ptrs <==> q in st.ptrs) && (q in st.ptrs ==> r.ptrs[q] == st.ptrs[q]))
      && (ptr !in st.ptrs ==> r.lines == st.lines && r.temporary == st.temporary && r.leaked == st.leaked)
      && (ptr in st.ptrs ==>
            && r.lines == st.lines + [Record('-', [st.ptrs[ptr]])]
            && (r.temporary == st.temporary + 1 <==> st.lastPtr == ptr)
            && (r.temporary == st.temporary <==> st.lastPtr != ptr)
            && r.leaked == st.leaked - 1)
      && r.allocations == st.allocations && r.infos == st.infos
  {
  }

  /**
   * A free right after the allocation of the same pointer is temporary: it
   * writes "-" with the index the "+" line carried, and the pair of lines
   * leaves the leaked count and the pointer map where they were, apart
   * from ptr.
   */
  lemma AllocThenFreeIsTemporary(st: Loop, size: nat, trace: nat, ptr: nat)
    ensures var a := AllocStep(st, Some((size, trace, ptr)));
      var f := FreeStep(a, Some(ptr));
      && f.lines == a.lines + [Record('-', [a.infos[(size, trace)]])]
      && f.temporary == st.temporary + 1
      && f.leaked == st.leaked
      && f.ptrs == st.ptrs - {ptr}
  {
    var a := AllocStep(st, Some((size, trace, ptr)));
    AllocStepSpec(st, size, trace, ptr);
    FreeStepSpec(a, ptr);
    assert a.ptrs == st.ptrs[ptr := a.infos[(size, trace)]];
    assert a.ptrs - {ptr} == st.ptrs - {ptr};
  }

  /** The segments an 'm' line lists, as modules of the file name with index moduleIndex. */
  function Segments(name: string, moduleIndex: nat, addressStart: nat, segments: seq<(nat, nat)>): (ms: seq<Module>)
    ensures |ms| == |segments|
  {
    if segments == [] then []
    else
      var (vAddr, memSize) := segments[|segments| - 1];
      Segments(name, moduleIndex, addressStart, segments[..|segments| - 1])
        + [Module(name, addressStart + vAddr, addressStart + vAddr + memSize, moduleIndex)]
  }

  /** One more segment adds one module at the end. */
  lemma SegmentsSnoc(name: string, moduleIndex: nat, addressStart: nat, segments: seq<(nat, nat)>, i: nat)
    requires i < |segments|
    ensures Segments(name, moduleIndex, addressStart, segments[..i + 1])
         == Segments(name, moduleIndex, addressStart, segments[..i])
            + [Module(name, addressStart + segments[i].0, addressStart + segments[i].0 + segments[i].1, moduleIndex)]
  {
    assert segments[..i + 1][..i] == segments[..i];
  }

  /** The main loop's state: the tables and output, the pointer map and the allocation infos. */
  class Interpreter {
    const data: TraceData
    const ptrToIndex: PointerMap.PointerMap
    const allocationInfos: PointerMap.AllocationInfoSet
    var exe: string
    var lastPtr: nat
    var allocations: nat
    var leakedAllocations: int
    var temporaryAllocations: nat

    ghost predicate Valid()
      reads this, data, ptrToIndex, allocationInfos
    {
      data.Valid() && AllocValid()
    }

    /** The allocation side: the pointer map and the info set. */
    ghost predicate AllocValid()
      reads this, ptrToIndex, allocationInfos
    {
      ptrToIndex.Valid() && allocationInfos.Valid()
    }

    /** The allocation side of the state, as AllocStep and FreeStep see it. */
    ghost function State(): Loop
      reads this, data, ptrToIndex, allocationInfos
    {
      Loop(ptrToIndex.contents, allocationInfos.infos, lastPtr, allocations, leakedAllocations, temporaryAllocations,
           data.out)
    }

    constructor()
      ensures Valid() && exe == [] && fresh(data) && fresh(ptrToIndex) && fresh(allocationInfos)
      ensures State() == Loop(map[], map[], 0, 0, 0, 0, [])
      ensures data.State() == Tables(map[], map[], [], false, [])
    {
      data := new TraceData();
      ptrToIndex := new PointerMap.PointerMap();
      allocationInfos := new PointerMap.AllocationInfoSet();
      exe := [];
      lastPtr := 0;
      allocations := 0;
      leakedAllocations := 0;
      temporaryAllocations := 0;
    }

    /** A '+' line, parsed into (size, trace, ptr) or not parsed. */
    method OnAlloc(parsed: Option<(nat, nat, nat)>)
      requires AllocValid()
      modifies this, data, ptrToIndex, allocationInfos
      ensures AllocValid()
      ensures State() == AllocStep(old(State()), parsed)
      ensures data.internedData == old(data.internedData) && data.encounteredIps == old(data.encounteredIps)
      ensures data.modules == old(data.modules) && data.modulesDirty == old(data.modulesDirty)
      ensures exe == old(exe)
    {
      allocations := allocations + 1;
      leakedAllocations := leakedAllocations + 1;
      if parsed.Some? {
        var (size, trace, ptr) := parsed.value;
        Allocate(size, trace, ptr);
      }
    }

    /** The '+' handling once the line parsed. */
    method Allocate(size: nat, trace: nat, ptr: nat)
      requires AllocValid()
      modifies this, data, ptrToIndex, allocationInfos
      ensures AllocValid()
      ensures State() == Allocated(old(State()), size, trace, ptr)
      ensures data.internedData == old(data.internedData) && data.encounteredIps == old(data.encounteredIps)
      ensures data.modules == old(data.modules) && data.modulesDirty == old(data.modulesDirty)
      ensures exe == old(exe)
    {
      var index := AddInfo(size, trace);
      ptrToIndex.AddPointer(ptr, index);
      lastPtr := ptr;
      data.Write(Record('+', [index]));
    }

    /** allocationInfos.add, writing the "a" line for a new pair. */
    method AddInfo(size: nat, trace: nat) returns (index: nat)
      requires AllocValid()
      modifies data, allocationInfos
      ensures AllocValid()
      ensures State() == InfoAdded(old(State()), size, trace) && index == allocationInfos.infos[(size, trace)]
      ensures data.internedData == old(data.internedData) && data.encounteredIps == old(data.encounteredIps)
      ensures data.modules == old(data.modules) && data.modulesDirty == old(data.modulesDirty)
    {
      var isNew;
      isNew, index := allocationInfos.Add(size, trace);
      if isNew {
        data.Write(Record('a', [size, trace]));
      }
    }

    /** A '-' line, parsed into ptr or not parsed. */
    method OnFree(parsed: Option<nat>)
      requires AllocValid()
      modifies this, data, ptrToIndex
      ensures AllocValid()
      ensures State() == FreeStep(old(State()), parsed)
      ensures data.internedData == old(data.internedData) && data.encounteredIps == old(data.encounteredIps)
      ensures data.modules == old(data.modules) && data.modulesDirty == old(data.modulesDirty)
      ensures exe == old(exe)
    {
      if parsed.None? {
        return;
      }
      var ptr := parsed.value;
      var temporary := lastPtr == ptr;
      lastPtr := 0;
      var index, found := ptrToIndex.TakePointer(ptr);
      if !found {
        return;
      }
      data.Write(Record('-', [index]));
      if temporary {
        temporaryAllocations := temporaryAllocations + 1;
      }
      leakedAllocations := leakedAllocations - 1;
    }

    /** A 't' line: make sure the address is known, then write "t ipId parentIndex". */
    method OnTrace(instructionPointer: nat, parentIndex: nat, resolveAddress: (Module, nat) -> AddressInformation)
      requires Valid()
      modifies data
      ensures Valid()
      ensures var (ipId, t) := AddIpSpec(old(data.State()), instructionPointer, resolveAddress);
        data.State() == t.(lines := t.lines + [Record('t', [ipId, parentIndex])])
    {
      var ipId := data.AddIp(instructionPointer, resolveAddress);
      data.Write(Record('t', [ipId, parentIndex]));
    }

    /**
     * An 'x' line names the executable; a second one stops the interpreter
     * (ok is false), since child processes are not supported.
     */
    method OnExe(name: string) returns (ok: bool)
      requires Valid()
      modifies this
      ensures Valid() && ok == (old(exe) == [])
      ensures exe == if ok then name else old(exe)
      ensures State() == old(State())
    {
      if exe != [] {
        return false;
      }
      exe := name;
      ok := true;
    }

    /**
     * An 'm' line: "-" clears the modules; otherwise the file ("x" meaning
     * the executable) is interned and each (vAddr, memSize) pair adds the
     * segment [addressStart + vAddr, addressStart + vAddr + memSize].
     */
    method OnModule(fileName: string, addressStart: nat, segments: seq<(nat, nat)>)
      requires Valid()
      modifies data
      ensures Valid() && data.encounteredIps == old(data.encounteredIps)
      ensures fileName == "-" ==> data.State() == old(data.State()).(modules := [], dirty := true)
      ensures fileName != "-" ==>
        var name := if fileName == "x" then exe else fileName;
        var (moduleIndex, n) := InternStep(Names(old(data.internedData), old(data.out)), name);
        && data.internedData == n.ids && data.out == n.lines
        && data.modules == old(data.modules) + Segments(name, moduleIndex, addressStart, segments)
        && data.modulesDirty == (old(data.modulesDirty) || segments != [])
    {
      if fileName == "-" {
        data.ClearModules();
        return;
      }
      var name := if fileName == "x" then exe else fileName;
      var moduleIndex := data.Intern(name);
      AddSegments(name, moduleIndex, addressStart, segments);
    }

    /** The segment loop of an 'm' line: one addModule per (vAddr, memSize) pair. */
    method AddSegments(name: string, moduleIndex: nat, addressStart: nat, segments: seq<(nat, nat)>)
      requires data.Valid()
      modifies data
      ensures data.Valid()
      ensures data.internedData == old(data.internedData) && data.encounteredIps == old(data.encounteredIps)
      ensures data.out == old(data.out)
      ensures data.modules == old(data.modules) + Segments(name, moduleIndex, addressStart, segments)
      ensures data.modulesDirty == (old(data.modulesDirty) || segments != [])
    {
      ghost var ids, ips, lines, modules, dirty :=
        data.internedData, data.encounteredIps, data.out, data.modules, data.modulesDirty;
      var i := 0;
      while i < |segments|
        invariant i <= |segments|
        invariant data.internedData == ids && data.encounteredIps == ips && data.out == lines
        invariant data.modules == modules + Segments(name, moduleIndex, addressStart, segments[..i])
        invariant data.modulesDirty == (dirty || i > 0)
      {
        var vAddr, memSize := segments[i].0, segments[i].1;
        data.AddModule(name, moduleIndex, addressStart + vAddr, addressStart + vAddr + memSize);
        SegmentsSnoc(name, moduleIndex, addressStart, segments, i);
        i := i + 1;
      }
      assert segments[..i] == segments;
    }

    /** Any other line is copied to the output unchanged. */
    method OnOther(line: string)
      requires Valid()
      modifies data
      ensures Valid() && data.State() == old(data.State()).(lines := old(data.out) + [Copied(line)])
    {
      data.Write(Copied(line));
    }
  }
}
