/**
 * Accumulated: the bookkeeping of heaptrack's analysis side — the interned
 * strings, instruction pointers and trace nodes read back from a trace file
 * (all numbered from 1, with 0 as the invalid index), the allocations keyed
 * by trace, template shortening for display, merging of two string tables,
 * folding runs of equal neighbours, and the application of leak
 * suppressions.
 */
module Accumulated {
  import opened Common
  import opened AllocationData
  import opened Suppressions
  import PointerMap

  /** A resolved source location: function and file as string ids, and a line. */
  datatype Frame = Frame(functionIndex: nat, fileIndex: nat, line: int)

  /** An instruction pointer with its module, its frame and the frames inlined into it. */
  datatype InstructionPointer = InstructionPointer(
    instructionPointer: nat, moduleIndex: nat, frame: Frame, inlined: seq<Frame>)

  /** A node of the trace tree: its instruction pointer and its parent trace (0 at the root). */
  datatype TraceNode = TraceNode(ipIndex: nat, parentIndex: nat)

  /** The cost attributed to one trace. */
  datatype Allocation = Allocation(cost: Cost, traceIndex: nat)

  const InvalidIp := InstructionPointer(0, 0, Frame(0, 0, 0), [])
  const InvalidTrace := TraceNode(0, 0)

  // ---------------------------------------------------------------------
  // 1-based lookups (stringify, findIp, findTrace)

  /** Entry id of a 1-based table, or the default value for 0 and for ids past the end. */
  function At<T>(xs: seq<T>, id: nat, default: T): (x: T)
    ensures 1 <= id <= |xs| ==> x == xs[id - 1]
    ensures id == 0 || id > |xs| ==> x == default
  {
    if id == 0 || id > |xs| then default else xs[id - 1]
  }

  /** Appending to a table keeps every id that was valid, and the new entry gets the next id. */
  lemma AtStableUnderAppend<T>(xs: seq<T>, ys: seq<T>, id: nat, default: T)
    requires id <= |xs| + |ys|
    ensures id <= |xs| ==> At(xs + ys, id, default) == At(xs, id, default)
    ensures |xs| < id ==> At(xs + ys, id, default) == ys[id - |xs| - 1]
  {
  }

  // ---------------------------------------------------------------------
  // prettyFunction

  /** The state of prettyFunction's loop: the text produced so far and the template depth. */
  datatype Pretty = Pretty(ret: string, depth: int)

  predicate EndsWith(s: string, suffix: string)
  {
    |suffix| <= |s| && s[|s| - |suffix|..] == suffix
  }

  /** The operator name an angle bracket c may continue: "operator", or "operator<"/"operator>" after the same bracket. */
  function OperatorTail(ret: string, c: char): string
  {
    if ret != [] && ret[|ret| - 1] == c then (if c == '<' then "operator<" else "operator>") else "operator"
  }

  /**
   * One character of prettyFunction: an angle bracket completing an
   * operator name is kept; otherwise '<' and '>' move the depth, the '<'
   * that opens depth 1 is kept, and a character is kept only when the
   * depth after it is 0.
   */
  function PrettyStep(st: Pretty, c: char): Pretty
  {
    if (c == '<' || c == '>') && |st.ret| >= 8 && EndsWith(st.ret, OperatorTail(st.ret, c)) then
      Pretty(st.ret + [c], st.depth)
    else
      var d := if c == '<' then st.depth + 1 else if c == '>' then st.depth - 1 else st.depth;
      var r := if c == '<' && d == 1 then st.ret + [c] else st.ret;
      if d != 0 then Pretty(r, d) else Pretty(r + [c], d)
  }

  /** The loop run over s from state st. */
  function PrettyRun(st: Pretty, s: string): (r: Pretty)
  {
    if s == [] then st else PrettyStep(PrettyRun(st, s[..|s| - 1]), s[|s| - 1])
  }

  /**
   * The loop only appends to ret, at most one character per character read,
   * so the result fits the space reserved for the input.
   */
  lemma {:induction false} PrettyRunLength(st: Pretty, s: string)
    ensures st.ret <= PrettyRun(st, s).ret && |PrettyRun(st, s).ret| <= |st.ret| + |s|
    decreases |s|
  {
    if s != [] {
      PrettyRunLength(st, s[..|s| - 1]);
    }
  }

  /** Running over x + y is running over x, then over y. */
  lemma {:induction false} PrettyRunAppend(st: Pretty, x: string, y: string)
    ensures PrettyRun(st, x + y) == PrettyRun(PrettyRun(st, x), y)
    decreases |y|
  {
    if y != [] {
      assert (x + y)[..|x + y| - 1] == x + y[..|y| - 1];
      PrettyRunAppend(st, x, y[..|y| - 1]);
    } else {
      assert x + y == x;
    }
  }

  /** Text without angle brackets, at depth 0, is copied unchanged. */
  lemma {:induction false} PrettyCopiesPlain(out: string, s: string)
    requires '<' !in s && '>' !in s
    ensures PrettyRun(Pretty(out, 0), s) == Pretty(out + s, 0)
    decreases |s|
  {
    if s != [] {
      var init := s[..|s| - 1];
      assert s == init + [s[|s| - 1]];
      PrettyCopiesPlain(out, init);
    }
  }

  /** Inside a template (depth 1 or more throughout) after a '<' that ends no operator name, nothing is produced. */
  lemma {:induction false} PrettyDropsInside(out: string, l: int, s: string)
    requires NoOperatorEnd(out)
    requires forall k :: 0 <= k <= |s| ==> l + Net(s[..k]) >= 1
    ensures PrettyRun(Pretty(out + ['<'], l), s) == Pretty(out + ['<'], l + Net(s))
    decreases |s|
  {
    if s != [] {
      var init := s[..|s| - 1];
      forall k | 0 <= k <= |init| ensures l + Net(init[..k]) >= 1 {
        assert init[..k] == s[..k];
      }
      PrettyDropsInside(out, l, init);
      assert s[..|s|] == s;
      PrettyStepInside(out, l + Net(init), s[|s| - 1]);
    }
  }

  lemma PrettyStepInside(out: string, d: int, c: char)
    requires NoOperatorEnd(out) && d >= 1
    requires c == '>' ==> d >= 2
    ensures PrettyStep(Pretty(out + ['<'], d), c)
      == Pretty(out + ['<'], d + (if c == '<' then 1 else if c == '>' then -1 else 0))
  {
    var ret := out + ['<'];
    if c == '<' && |ret| >= 9 {
      assert OperatorTail(ret, c) == "operator<";
      assert ret[|ret| - 9..|ret| - 1] == out[|out| - 8..] != "operator";
      assert !EndsWith(ret, "operator<");
    }
  }

  /** out does not end in an operator name a following '<' would continue. */
  predicate NoOperatorEnd(out: string)
  {
    !EndsWith(out, "operator") && !EndsWith(out, "operator<")
  }

  /** A template argument list "<inner>" after a name that is no operator becomes "<>". */
  lemma PrettyDropsArguments(out: string, inner: string)
    requires NoOperatorEnd(out) && Nested(inner)
    ensures PrettyRun(Pretty(out, 0), ['<'] + inner + ['>']) == Pretty(out + "<>", 0)
  {
    RunOpen(out);
    PrettyRunAppend(Pretty(out, 0), ['<'] + inner, ['>']);
    PrettyRunAppend(Pretty(out, 0), ['<'], inner);
    PrettyDropsInside(out, 1, inner);
    assert inner[..|inner|] == inner;
    assert ['>'][..0] == [];
    assert out + ['<'] + ['>'] == out + "<>";
  }

  /** The opening '<' of a template argument list is kept and enters depth 1. */
  lemma RunOpen(out: string)
    requires NoOperatorEnd(out)
    ensures PrettyRun(Pretty(out, 0), ['<']) == Pretty(out + ['<'], 1)
  {
    assert ['<'][..0] == [];
  }

  /** An angle bracket right after "operator" is kept and leaves the depth alone. */
  lemma PrettyKeepsOperator(out: string, d: int, c: char)
    requires EndsWith(out, "operator") && (c == '<' || c == '>')
    ensures PrettyStep(Pretty(out, d), c) == Pretty(out + [c], d)
  {
  }

  /** "operator<<" and "operator>>" keep both brackets. */
  lemma PrettyKeepsShiftOperator(out: string, d: int, c: char)
    requires EndsWith(out, "operator") && (c == '<' || c == '>')
    ensures PrettyRun(Pretty(out, d), [c, c]) == Pretty(out + [c, c], d)
  {
    assert [c, c][..1] == [c];
    assert [c][..0] == [];
    assert OperatorTail(out, c) == "operator";
    var r := out + [c];
    assert PrettyRun(Pretty(out, d), [c]) == Pretty(r, d);
    assert r[|r| - 9..] == out[|out| - 8..] + [c];
    assert OperatorTail(r, c) == "operator" + [c];
  }

  /** An instance: "operator<<" is kept whole. */
  lemma PrettyShiftExample()
    ensures PrettyRun(Pretty([], 0), "operator<<").ret == "operator<<"
  {
    var op := "operator";
    assert '<' !in op && '>' !in op;
    PrettyCopiesPlain([], op);
    PrettyKeepsShiftOperator(op, 0, '<');
    assert [] + op == op;
    assert "operator<<" == op + ['<', '<'];
    PrettyRunAppend(Pretty([], 0), op, ['<', '<']);
  }

  // ---------------------------------------------------------------------
  // remapStrings

  /** x first occurs in xs at position i. */
  predicate FirstAt(xs: seq<string>, x: string, i: int)
  {
    0 <= i < |xs| && xs[i] == x && x !in xs[..i]
  }

  /** The strings of rhs that lhs lacks, in order and with repeats, as remapStrings appends them. */
  function Missing(lhs: seq<string>, rhs: seq<string>): (m: seq<string>)
    ensures |m| <= |rhs|
    ensures forall i :: 0 <= i < |m| ==> m[i] !in lhs
  {
    if rhs == [] then []
    else
      var m := Missing(lhs, rhs[..|rhs| - 1]);
      if rhs[|rhs| - 1] in lhs then m else m + [rhs[|rhs| - 1]]
  }

  /**
   * The id remapStrings gives rhs entry k (1-based): the first position of
   * that string in lhs if it has one, else the position it was appended at.
   */
  predicate RemappedAt(lhs: seq<string>, rhs: seq<string>, k: nat, v: nat)
    requires 1 <= k <= |rhs|
  {
    if rhs[k - 1] in lhs then v >= 1 && FirstAt(lhs, rhs[k - 1], v - 1)
    else v == |lhs| + |Missing(lhs, rhs[..k])|
  }

  /**
   * remapStrings: lhs grows by the strings it lacks, and the result maps
   * each string id of rhs (id 0 to 0) to an id into the grown lhs.
   */
  method RemapStrings(lhs: seq<string>, rhs: seq<string>) returns (merged: seq<string>, mapping: seq<nat>)
    ensures merged == lhs + Missing(lhs, rhs)
    ensures |mapping| == |rhs| + 1 && mapping[0] == 0
    ensures forall k :: 1 <= k <= |rhs| ==> RemappedAt(lhs, rhs, k, mapping[k])
  {
    var remapping := IndexStrings(lhs);
    merged := lhs;
    mapping := [0];
    var k := 0;
    while k < |rhs|
      invariant k <= |rhs| && |mapping| == k + 1 && mapping[0] == 0
      invariant merged == lhs + Missing(lhs, rhs[..k])
      invariant forall j :: 1 <= j <= k ==> RemappedAt(lhs, rhs, j, mapping[j])
    {
      var str := rhs[k];
      assert rhs[..k + 1][..k] == rhs[..k];
      var id: nat;
      if str in remapping {
        id := remapping[str];
        assert Missing(lhs, rhs[..k + 1]) == Missing(lhs, rhs[..k]);
      } else {
        merged := merged + [str];
        id := |merged|;
        assert Missing(lhs, rhs[..k + 1]) == Missing(lhs, rhs[..k]) + [str];
      }
      assert RemappedAt(lhs, rhs, k + 1, id);
      mapping := mapping + [id];
      k := k + 1;
    }
    assert rhs[..k] == rhs;
  }

  /** The lookup table remapStrings builds first: each string of lhs to the id of its first occurrence. */
  method IndexStrings(lhs: seq<string>) returns (remapping: map<string, nat>)
    ensures forall x :: x in remapping <==> x in lhs
    ensures forall x :: x in remapping ==> remapping[x] >= 1 && FirstAt(lhs, x, remapping[x] - 1)
  {
    remapping := map[];
    var n := 0;
    while n < |lhs|
      invariant n <= |lhs|
      invariant forall x :: x in remapping <==> x in lhs[..n]
      invariant forall x :: x in remapping ==> remapping[x] >= 1 && FirstAt(lhs, x, remapping[x] - 1)
    {
      assert lhs[..n + 1] == lhs[..n] + [lhs[n]];
      if lhs[n] !in remapping {
        remapping := remapping[lhs[n] := n + 1];
      }
      n := n + 1;
    }
    assert lhs[..n] == lhs;
  }

  /** The missing strings of a prefix of rhs are a prefix of those of rhs. */
  lemma {:induction false} MissingPrefix(lhs: seq<string>, rhs: seq<string>, k: nat)
    requires k <= |rhs|
    ensures Missing(lhs, rhs[..k]) <= Missing(lhs, rhs)
    decreases |rhs| - k
  {
    if k < |rhs| {
      var r := rhs[..|rhs| - 1];
      assert r[..k] == rhs[..k];
      MissingPrefix(lhs, r, k);
    } else {
      assert rhs[..k] == rhs;
    }
  }

  /**
   * Looking up a remapped id in the grown lhs gives back the rhs string,
   * and the id points into the old part exactly when lhs already had it.
   */
  lemma RemappedResolves(lhs: seq<string>, rhs: seq<string>, k: nat, v: nat)
    requires 1 <= k <= |rhs| && RemappedAt(lhs, rhs, k, v)
    ensures 1 <= v <= |lhs| + |Missing(lhs, rhs)|
    ensures At(lhs + Missing(lhs, rhs), v, "") == rhs[k - 1]
    ensures rhs[k - 1] in lhs <==> v <= |lhs|
  {
    MissingPrefix(lhs, rhs, k);
    if rhs[k - 1] !in lhs {
      assert rhs[..k][..k - 1] == rhs[..k - 1];
      var m := Missing(lhs, rhs[..k]);
      assert m[|m| - 1] == rhs[k - 1];
      assert (lhs + Missing(lhs, rhs))[v - 1] == m[|m| - 1];
    }
  }

  // ---------------------------------------------------------------------
  // inplace_unique_reduce

  /**
   * The sequence inplace_unique_reduce leaves in front: each element that
   * is the same as the last one kept is folded into it with reduce, any
   * other is kept.
   */
  function Reduced<T>(s: seq<T>, same: (T, T) -> bool, reduce: (T, T) -> T): (r: seq<T>)
    ensures |r| <= |s| && (r == [] <==> s == [])
  {
    if s == [] then [] else FoldIn(Reduced(s[..|s| - 1], same, reduce), s[|s| - 1], same, reduce)
  }

  /** One element of inplace_unique_reduce: folded into the last one kept if the same, else kept. */
  function FoldIn<T>(r: seq<T>, x: T, same: (T, T) -> bool, reduce: (T, T) -> T): (r': seq<T>)
    ensures r' != [] && |r'| <= |r| + 1
  {
    if r != [] && same(r[|r| - 1], x) then r[..|r| - 1] + [reduce(r[|r| - 1], x)] else r + [x]
  }

  /** inplace_unique_reduce over the whole array: returns the new end, with the folded elements before it. */
  method InplaceUniqueReduce<T>(a: array<T>, same: (T, T) -> bool, reduce: (T, T) -> T) returns (end: nat)
    modifies a
    ensures end <= a.Length && a[..end] == Reduced(old(a[..]), same, reduce)
  {
    ghost var s := a[..];
    if a.Length == 0 {
      return 0;
    }
    var result := 0;
    var first := 0;
    ReducedSnoc(s, 0, same, reduce);
    while first + 1 < a.Length
      invariant 0 <= result <= first < a.Length
      invariant a[..result + 1] == Reduced(s[..first + 1], same, reduce)
      invariant forall j :: first < j < a.Length ==> a[j] == s[j]
    {
      first := first + 1;
      ReducedSnoc(s, first, same, reduce);
      result := FoldInPlace(a, result, first, same, reduce);
    }
    assert s[..first + 1] == s;
    end := result + 1;
  }

  lemma ReducedSnoc<T>(s: seq<T>, k: nat, same: (T, T) -> bool, reduce: (T, T) -> T)
    requires k < |s|
    ensures Reduced(s[..k + 1], same, reduce) == FoldIn(Reduced(s[..k], same, reduce), s[k], same, reduce)
  {
    assert s[..k + 1][..k] == s[..k];
  }

  /** One step of inplace_unique_reduce: a[first] is folded into a[result] or moved behind it. */
  method FoldInPlace<T>(a: array<T>, result: nat, first: nat, same: (T, T) -> bool, reduce: (T, T) -> T)
      returns (result': nat)
    requires result < first < a.Length
    modifies a
    ensures result' <= first
    ensures a[..result' + 1] == FoldIn(old(a[..result + 1]), old(a[first]), same, reduce)
    ensures forall j :: first < j < a.Length ==> a[j] == old(a[j])
  {
    ghost var kept := a[..result + 1];
    var x := a[first];
    result' := result;
    if same(a[result], x) {
      a[result] := reduce(a[result], x);
      assert a[..result + 1] == kept[..result] + [reduce(kept[result], x)];
    } else {
      result' := result + 1;
      if result' != first {
        a[result'] := x;
      }
      assert a[..result' + 1] == kept + [x];
    }
  }

  /** An array with no two neighbours the same is left as it is. */
  lemma {:induction false} ReducedOfDistinctNeighbours<T>(s: seq<T>, same: (T, T) -> bool, reduce: (T, T) -> T)
    requires forall i :: 0 < i < |s| ==> !same(s[i - 1], s[i])
    ensures Reduced(s, same, reduce) == s
    decreases |s|
  {
    if s != [] {
      ReducedOfDistinctNeighbours(s[..|s| - 1], same, reduce);
    }
  }

  /** The keys of a sequence. */
  function Keys<T, K>(s: seq<T>, key: T -> K): (ks: seq<K>)
    ensures |ks| == |s|
  {
    if s == [] then [] else Keys(s[..|s| - 1], key) + [key(s[|s| - 1])]
  }

  /** A sequence with every repeat of its neighbour dropped. */
  ghost function Dedup<K>(ks: seq<K>): (d: seq<K>)
    ensures |d| <= |ks| && (d == [] <==> ks == [])
  {
    if ks == [] then [] else Push(Dedup(ks[..|ks| - 1]), ks[|ks| - 1])
  }

  /** k appended unless it repeats the last element. */
  ghost function Push<K>(d: seq<K>, k: K): (d': seq<K>)
    ensures d' != [] && |d'| <= |d| + 1
  {
    if d != [] && d[|d| - 1] == k then d else d + [k]
  }

  /**
   * When same compares keys and reduce keeps the key of its left operand,
   * the folded sequence has exactly one element per run of equal keys.
   */
  lemma {:induction false} ReducedKeys<T, K>(s: seq<T>, same: (T, T) -> bool, reduce: (T, T) -> T, key: T -> K)
    requires forall x, y :: same(x, y) == (key(x) == key(y))
    requires forall x, y :: key(reduce(x, y)) == key(x)
    ensures Keys(Reduced(s, same, reduce), key) == Dedup(Keys(s, key))
    decreases |s|
  {
    if s != [] {
      var init, x := s[..|s| - 1], s[|s| - 1];
      ReducedKeys(init, same, reduce, key);
      assert Keys(s, key)[..|s| - 1] == Keys(init, key);
      FoldInKeys(Reduced(init, same, reduce), x, same, reduce, key);
    }
  }

  lemma FoldInKeys<T, K>(r: seq<T>, x: T, same: (T, T) -> bool, reduce: (T, T) -> T, key: T -> K)
    requires forall x, y :: same(x, y) == (key(x) == key(y))
    requires forall x, y :: key(reduce(x, y)) == key(x)
    ensures Keys(FoldIn(r, x, same, reduce), key) == Push(Keys(r, key), key(x))
  {
    if r != [] {
      KeysLast(r, key);
      KeysOfInit(r, key);
      if same(r[|r| - 1], x) {
        assert Keys(r, key)[..|r| - 1] + [key(r[|r| - 1])] == Keys(r, key);
      }
    }
  }

  lemma KeysLast<T, K>(s: seq<T>, key: T -> K)
    requires s != []
    ensures Keys(s, key)[|s| - 1] == key(s[|s| - 1])
  {
  }

  lemma KeysOfInit<T, K>(s: seq<T>, key: T -> K)
    requires s != []
    ensures forall x :: Keys(s[..|s| - 1] + [x], key) == Keys(s, key)[..|s| - 1] + [key(x)]
  {
    assert forall x :: (s[..|s| - 1] + [x])[..|s| - 1] == s[..|s| - 1];
  }

  /** The total of a weight over a sequence. */
  function Total<T>(s: seq<T>, w: T -> int): int
  {
    if s == [] then 0 else Total(s[..|s| - 1], w) + w(s[|s| - 1])
  }

  /** When reduce adds weights, folding keeps the total: no cost is lost or counted twice. */
  lemma {:induction false} ReducedKeepsTotal<T>(s: seq<T>, same: (T, T) -> bool, reduce: (T, T) -> T, w: T -> int)
    requires forall x, y :: w(reduce(x, y)) == w(x) + w(y)
    ensures Total(Reduced(s, same, reduce), w) == Total(s, w)
    decreases |s|
  {
    if s != [] {
      var init := s[..|s| - 1];
      ReducedKeepsTotal(init, same, reduce, w);
      FoldInTotal(Reduced(init, same, reduce), s[|s| - 1], same, reduce, w);
    }
  }

  lemma FoldInTotal<T>(r: seq<T>, x: T, same: (T, T) -> bool, reduce: (T, T) -> T, w: T -> int)
    requires forall x, y :: w(reduce(x, y)) == w(x) + w(y)
    ensures Total(FoldIn(r, x, same, reduce), w) == Total(r, w) + w(x)
  {
    var n := FoldIn(r, x, same, reduce);
    if r != [] && same(r[|r| - 1], x) {
      assert n[..|r| - 1] == r[..|r| - 1];
    } else {
      assert n[..|r|] == r;
    }
  }

  // ---------------------------------------------------------------------
  // The trace-to-allocation lookup vector of mapToAllocationIndex

  /** An entry of the lookup vector: a trace and the allocation that holds its cost. */
  datatype IndexPair = IndexPair(traceIndex: nat, allocationIndex: nat)

  /** The trace column of the lookup vector. */
  function TraceKeys(ps: seq<IndexPair>): (ks: seq<nat>)
    ensures |ks| == |ps| && forall i :: 0 <= i < |ps| ==> ks[i] == ps[i].traceIndex
  {
    seq(|ps|, i requires 0 <= i < |ps| => ps[i].traceIndex)
  }

  /** The allocation a sorted lookup vector holds for trace t, found by lower_bound. */
  function FindAllocation(ps: seq<IndexPair>, t: nat): (r: Option<nat>)
    requires PointerMap.Sorted(TraceKeys(ps))
    ensures r.None? <==> t !in TraceKeys(ps)
  {
    var k := PointerMap.Position(TraceKeys(ps), t);
    if k < |ps| && ps[k].traceIndex == t then Some(ps[k].allocationIndex) else None
  }

  /** Each entry of a sorted lookup vector is found by its trace. */
  lemma FindAllocationAt(ps: seq<IndexPair>, k: nat)
    requires PointerMap.Sorted(TraceKeys(ps)) && k < |ps|
    ensures FindAllocation(ps, ps[k].traceIndex) == Some(ps[k].allocationIndex)
  {
  }

  /**
   * Inserting a pair for a trace the vector lacks, at its lower_bound
   * position, keeps the vector sorted, finds the new pair, and finds every
   * other trace as before.
   */
  lemma InsertedPair(ps: seq<IndexPair>, p: IndexPair)
    requires PointerMap.Sorted(TraceKeys(ps)) && p.traceIndex !in TraceKeys(ps)
    ensures var k := PointerMap.Position(TraceKeys(ps), p.traceIndex);
      var ps' := ps[..k] + [p] + ps[k..];
      PointerMap.Sorted(TraceKeys(ps')) && FindAllocation(ps', p.traceIndex) == Some(p.allocationIndex)
      && forall u :: u != p.traceIndex ==> FindAllocation(ps', u) == FindAllocation(ps, u)
  {
    var xs := TraceKeys(ps);
    var k := PointerMap.Position(xs, p.traceIndex);
    var ps' := ps[..k] + [p] + ps[k..];
    var xs' := TraceKeys(ps');
    assert xs' == xs[..k] + [p.traceIndex] + xs[k..];
    forall i, j | 0 <= i < j < |xs'| ensures xs'[i] < xs'[j] {
      PointerMap.InsertedAt(xs, k, p.traceIndex, i);
      PointerMap.InsertedAt(xs, k, p.traceIndex, j);
    }
    assert ps'[k] == p;
    FindAllocationAt(ps', k);
    forall u | u != p.traceIndex ensures FindAllocation(ps', u) == FindAllocation(ps, u) {
      InsertedOther(ps, p, u);
    }
  }

  lemma InsertedOther(ps: seq<IndexPair>, p: IndexPair, u: nat)
    requires PointerMap.Sorted(TraceKeys(ps)) && p.traceIndex !in TraceKeys(ps) && u != p.traceIndex
    requires var k := PointerMap.Position(TraceKeys(ps), p.traceIndex);
      PointerMap.Sorted(TraceKeys(ps[..k] + [p] + ps[k..]))
    ensures var k := PointerMap.Position(TraceKeys(ps), p.traceIndex);
      FindAllocation(ps[..k] + [p] + ps[k..], u) == FindAllocation(ps, u)
  {
    var xs := TraceKeys(ps);
    var k := PointerMap.Position(xs, p.traceIndex);
    var ps' := ps[..k] + [p] + ps[k..];
    var xs' := TraceKeys(ps');
    if u in xs {
      var j :| 0 <= j < |xs| && xs[j] == u;
      FindAllocationAt(ps, j);
      var j' := if j < k then j else j + 1;
      assert ps'[j'] == ps[j];
      FindAllocationAt(ps', j');
    } else {
      forall j' | 0 <= j' < |xs'| ensures xs'[j'] != u {
        PointerMap.InsertedAt(xs, k, p.traceIndex, j');
      }
      assert u !in xs';
    }
  }

  /** A trace above every trace in the vector goes at its end. */
  lemma AppendedAtEnd(ps: seq<IndexPair>, p: IndexPair)
    requires PointerMap.Sorted(TraceKeys(ps))
    requires forall i :: 0 <= i < |ps| ==> ps[i].traceIndex < p.traceIndex
    ensures p.traceIndex !in TraceKeys(ps)
    ensures var k := PointerMap.Position(TraceKeys(ps), p.traceIndex); ps[..k] + [p] + ps[k..] == ps + [p]
  {
    var k := PointerMap.Position(TraceKeys(ps), p.traceIndex);
    assert k == |ps|;
    assert ps[..k] == ps && ps[k..] == [];
  }

  /** The fields mapToAllocationIndex works on: the allocations, the lookup vector, the largest trace seen and its allocation. */
  datatype Lookup = Lookup(allocations: seq<Allocation>, pairs: seq<IndexPair>, maxTrace: nat, maxIndex: nat)

  /** pair p names an allocation with p's trace, and that trace is at most maxT. */
  predicate RegisteredIn(allocs: seq<Allocation>, p: IndexPair, maxT: nat)
  {
    p.allocationIndex < |allocs| && allocs[p.allocationIndex].traceIndex == p.traceIndex && p.traceIndex <= maxT
  }

  /**
   * The invariant of mapToAllocationIndex's state: the lookup vector is
   * sorted by trace and has one entry per allocation, each naming an
   * allocation with that trace; no trace is above the largest one seen,
   * whose allocation is kept for reuse.
   */
  ghost predicate LookupValid(st: Lookup)
  {
    |st.pairs| == |st.allocations| && PointerMap.Sorted(TraceKeys(st.pairs))
    && (forall k :: 0 <= k < |st.pairs| ==> RegisteredIn(st.allocations, st.pairs[k], st.maxTrace))
    && (st.allocations == [] ==> st.maxTrace == 0)
    && (st.allocations != [] ==> FindAllocation(st.pairs, st.maxTrace) == Some(st.maxIndex))
  }

  /**
   * mapToAllocationIndex on values: below the largest trace seen, search
   * the lookup vector and insert at the lower_bound position if absent; at
   * the largest trace, reuse its allocation; above it (or for the very
   * first trace), append and make it the largest.
   */
  function MapIndex(st: Lookup, t: nat): (r: (Lookup, nat))
    requires PointerMap.Sorted(TraceKeys(st.pairs))
    ensures st.allocations <= r.0.allocations && |r.0.allocations| <= |st.allocations| + 1
    ensures r.0.allocations != st.allocations ==>
      r.1 == |st.allocations| && r.0.allocations[r.1] == Allocation(Cleared(), t)
  {
    var ps := st.pairs;
    var n := |st.allocations|;
    var grown := st.allocations + [Allocation(Cleared(), t)];
    if t < st.maxTrace then
      var k := PointerMap.Position(TraceKeys(ps), t);
      if k < |ps| && ps[k].traceIndex == t then (st, ps[k].allocationIndex)
      else (Lookup(grown, ps[..k] + [IndexPair(t, n)] + ps[k..], st.maxTrace, st.maxIndex), n)
    else if t == st.maxTrace && st.allocations != [] then (st, st.maxIndex)
    else (Lookup(grown, ps + [IndexPair(t, n)], t, n), n)
  }

  /**
   * mapToAllocationIndex keeps the invariant and returns an allocation
   * with the requested trace: the one already recorded, with nothing
   * changed, or a new empty one appended; the lookup answers for every
   * other trace stay as they were.
   */
  lemma MapIndexSpec(st: Lookup, t: nat)
    requires LookupValid(st)
    ensures var r := MapIndex(st, t);
      LookupValid(r.0) && r.1 < |r.0.allocations| && r.0.allocations[r.1].traceIndex == t
      && FindAllocation(r.0.pairs, t) == Some(r.1)
      && (forall u :: u != t ==> FindAllocation(r.0.pairs, u) == FindAllocation(st.pairs, u))
      && (FindAllocation(st.pairs, t).Some? ==> r.1 == FindAllocation(st.pairs, t).value && r.0 == st)
      && (FindAllocation(st.pairs, t).None? ==>
            r.1 == |st.allocations| && r.0.allocations == st.allocations + [Allocation(Cleared(), t)])
  {
    var ps := st.pairs;
    var p := IndexPair(t, |st.allocations|);
    if t < st.maxTrace {
      var k := PointerMap.Position(TraceKeys(ps), t);
      if k < |ps| && ps[k].traceIndex == t {
        assert RegisteredIn(st.allocations, ps[k], st.maxTrace);
      } else {
        InsertedPair(ps, p);
        InsertKeepsValid(st, t);
      }
    } else if t == st.maxTrace && st.allocations != [] {
      FoundAllocationHasTrace(st, t);
    } else {
      AppendKeepsValid(st, t);
    }
  }

  /** mapToAllocationIndex keeps the invariant. */
  lemma MapIndexKeepsValid(st: Lookup, t: nat)
    requires LookupValid(st)
    ensures LookupValid(MapIndex(st, t).0)
  {
    MapIndexSpec(st, t);
  }

  /** Mapping the same trace again returns the same allocation and changes nothing. */
  lemma MapIndexStable(st: Lookup, t: nat)
    requires LookupValid(st)
    ensures var r := MapIndex(st, t); LookupValid(r.0) && MapIndex(r.0, t) == r
  {
    var r := MapIndex(st, t);
    MapIndexSpec(st, t);
    MapIndexSpec(r.0, t);
  }

  /** Under the invariant, the allocation found for a trace has that trace: distinct traces get distinct allocations. */
  lemma FoundAllocationHasTrace(st: Lookup, t: nat)
    requires LookupValid(st) && FindAllocation(st.pairs, t).Some?
    ensures FindAllocation(st.pairs, t).value < |st.allocations|
    ensures st.allocations[FindAllocation(st.pairs, t).value].traceIndex == t
  {
    var k := PointerMap.Position(TraceKeys(st.pairs), t);
    assert RegisteredIn(st.allocations, st.pairs[k], st.maxTrace);
  }

  /** A new trace below the largest one, inserted at its lower_bound position, keeps the invariant. */
  lemma InsertKeepsValid(st: Lookup, t: nat)
    requires LookupValid(st) && t < st.maxTrace && t !in TraceKeys(st.pairs)
    ensures var k := PointerMap.Position(TraceKeys(st.pairs), t);
      LookupValid(Lookup(st.allocations + [Allocation(Cleared(), t)],
                         st.pairs[..k] + [IndexPair(t, |st.allocations|)] + st.pairs[k..], st.maxTrace, st.maxIndex))
  {
    var ps, allocs := st.pairs, st.allocations;
    var p := IndexPair(t, |allocs|);
    InsertedPair(ps, p);
    InsertedRegistered(st, t);
  }

  lemma InsertedRegistered(st: Lookup, t: nat)
    requires LookupValid(st) && t < st.maxTrace
    ensures var k := PointerMap.Position(TraceKeys(st.pairs), t);
      var ps' := st.pairs[..k] + [IndexPair(t, |st.allocations|)] + st.pairs[k..];
      forall i :: 0 <= i < |ps'| ==> RegisteredIn(st.allocations + [Allocation(Cleared(), t)], ps'[i], st.maxTrace)
  {
    var ps, allocs := st.pairs, st.allocations;
    var k := PointerMap.Position(TraceKeys(ps), t);
    var ps' := ps[..k] + [IndexPair(t, |allocs|)] + ps[k..];
    var allocs' := allocs + [Allocation(Cleared(), t)];
    forall i | 0 <= i < |ps'| ensures RegisteredIn(allocs', ps'[i], st.maxTrace) {
      if i != k {
        var j := if i < k then i else i - 1;
        assert ps'[i] == ps[j];
        assert RegisteredIn(allocs, ps[j], st.maxTrace);
      }
    }
  }

  /** A trace above every trace seen (or the first one) is appended, becomes the largest, and keeps the invariant. */
  lemma AppendKeepsValid(st: Lookup, t: nat)
    requires LookupValid(st) && (t > st.maxTrace || (t == st.maxTrace && st.allocations == []))
    ensures var ps' := st.pairs + [IndexPair(t, |st.allocations|)];
      t !in TraceKeys(st.pairs)
      && LookupValid(Lookup(st.allocations + [Allocation(Cleared(), t)], ps', t, |st.allocations|))
      && FindAllocation(ps', t) == Some(|st.allocations|)
      && forall u :: u != t ==> FindAllocation(ps', u) == FindAllocation(st.pairs, u)
  {
    var ps, allocs := st.pairs, st.allocations;
    var p := IndexPair(t, |allocs|);
    forall i | 0 <= i < |ps| ensures ps[i].traceIndex < t {
      assert RegisteredIn(allocs, ps[i], st.maxTrace);
    }
    AppendedAtEnd(ps, p);
    InsertedPair(ps, p);
    var allocs' := allocs + [Allocation(Cleared(), t)];
    forall i | 0 <= i < |ps| + 1 ensures RegisteredIn(allocs', (ps + [p])[i], t) {
      if i < |ps| {
        assert RegisteredIn(allocs, ps[i], st.maxTrace);
      }
    }
  }

  // ---------------------------------------------------------------------
  // The matching steps of applyLeakSuppressions

  /** The first suppression whose pattern matches str (std::find_if), searching from i. */
  function FirstMatchFrom(sups: seq<Suppression>, str: string, i: nat): (r: Option<nat>)
    requires i <= |sups|
    ensures r.Some? ==> i <= r.value < |sups|
    decreases |sups| - i
  {
    if i == |sups| then None
    else if MatchesSuppression(sups[i].pattern, str) then Some(i)
    else FirstMatchFrom(sups, str, i + 1)
  }

  /** The search finds the first suppression that matches, and none exactly when none matches. */
  lemma {:induction false} FirstMatchIsFirst(sups: seq<Suppression>, str: string, i: nat)
    requires i <= |sups|
    ensures var r := FirstMatchFrom(sups, str, i);
      r.Some? ==> (MatchesSuppression(sups[r.value].pattern, str)
                   && forall j :: i <= j < r.value ==> !MatchesSuppression(sups[j].pattern, str))
    ensures FirstMatchFrom(sups, str, i).None? <==> forall j :: i <= j < |sups| ==> !MatchesSuppression(sups[j].pattern, str)
    decreases |sups| - i
  {
    if i < |sups| && !MatchesSuppression(sups[i].pattern, str) {
      FirstMatchIsFirst(sups, str, i + 1);
    }
  }

  /** All entries that are set point into a list of n suppressions. */
  predicate Below(ms: seq<Option<nat>>, n: nat)
  {
    forall i :: 0 <= i < |ms| && ms[i].Some? ==> ms[i].value < n
  }

  /** Every entry that is set is copied from src. */
  predicate From(ms: seq<Option<nat>>, src: seq<Option<nat>>)
  {
    forall i :: 0 <= i < |ms| && ms[i].Some? ==> ms[i] in src
  }

  lemma FromBelow(ms: seq<Option<nat>>, src: seq<Option<nat>>, n: nat)
    requires From(ms, src) && Below(src, n)
    ensures Below(ms, n)
  {
    forall i | 0 <= i < |ms| && ms[i].Some? ensures ms[i].value < n {
      var j :| 0 <= j < |src| && src[j] == ms[i];
    }
  }

  /** The first suppression each string matches, or none. */
  function StringMatches(sups: seq<Suppression>, strings: seq<string>): (sm: seq<Option<nat>>)
    ensures |sm| == |strings| && Below(sm, |sups|)
  {
    seq(|strings|, i requires 0 <= i < |strings| => FirstMatchFrom(sups, strings[i], 0))
  }

  /** Whether any string matched (hasAnyMatch). */
  predicate AnyMatch(sm: seq<Option<nat>>)
  {
    exists i :: 0 <= i < |sm| && sm[i].Some?
  }

  /** The match of string id (isSuppressedString): none for 0 and for ids past the end. */
  function StringMatch(sm: seq<Option<nat>>, id: nat): (m: Option<nat>)
    ensures m.Some? ==> m in sm
  {
    At(sm, id, None)
  }

  /** isSuppressedFrame: the match of the function name, else that of the file. */
  function FrameMatch(sm: seq<Option<nat>>, f: Frame): (m: Option<nat>)
    ensures m.Some? ==> m in sm
  {
    var m := StringMatch(sm, f.functionIndex);
    if m.Some? then m else StringMatch(sm, f.fileIndex)
  }

  /** The first inlined frame that matches. */
  function InlinedMatch(sm: seq<Option<nat>>, frames: seq<Frame>): (m: Option<nat>)
    ensures m.Some? ==> m in sm
  {
    if frames == [] then None
    else
      var m := FrameMatch(sm, frames[0]);
      if m.Some? then m else InlinedMatch(sm, frames[1..])
  }

  /** The match of an instruction pointer: its module, then its frame, then its inlined frames. */
  function IpMatch(sm: seq<Option<nat>>, ip: InstructionPointer): (m: Option<nat>)
    ensures m.Some? ==> m in sm
  {
    var m := StringMatch(sm, ip.moduleIndex);
    if m.Some? then m
    else
      var f := FrameMatch(sm, ip.frame);
      if f.Some? then f else InlinedMatch(sm, ip.inlined)
  }

  /** The match of every instruction pointer. */
  function IpMatches(sm: seq<Option<nat>>, ips: seq<InstructionPointer>): (im: seq<Option<nat>>)
    ensures |im| == |ips| && From(im, sm)
  {
    seq(|ips|, i requires 0 <= i < |ips| => IpMatch(sm, ips[i]))
  }

  /**
   * The match of every trace, filled in order: a trace takes the match of
   * its parent if the parent comes before it and matched, else that of
   * its instruction pointer. A parent at or after the trace itself is
   * still unfilled and counts as no match.
   */
  function TraceMatches(im: seq<Option<nat>>, traces: seq<TraceNode>): (tm: seq<Option<nat>>)
    ensures |tm| == |traces|
  {
    if traces == [] then []
    else
      var prev := TraceMatches(im, traces[..|traces| - 1]);
      var t := traces[|traces| - 1];
      var parent := At<Option<nat>>(prev, t.parentIndex, None);
      prev + [if parent.Some? then parent else At(im, t.ipIndex, None)]
  }

  /** The match of every trace as applyLeakSuppressions computes it; empty when it returns early. */
  function SuppressedTraces(sups: seq<Suppression>, strings: seq<string>, ips: seq<InstructionPointer>,
                            traces: seq<TraceNode>): (tm: seq<Option<nat>>)
    ensures Below(tm, |sups|)
  {
    if sups == [] then []
    else
      var sm := StringMatches(sups, strings);
      if !AnyMatch(sm) then []
      else
        var im := IpMatches(sm, ips);
        FromBelow(im, sm, |sups|);
        var tm := TraceMatches(im, traces);
        TraceMatchesBelow(im, traces, |sups|);
        tm
  }

  lemma {:induction false} TraceMatchesBelow(im: seq<Option<nat>>, traces: seq<TraceNode>, n: nat)
    requires Below(im, n)
    ensures Below(TraceMatches(im, traces), n)
    decreases |traces|
  {
    if traces != [] {
      var prev := TraceMatches(im, traces[..|traces| - 1]);
      TraceMatchesBelow(im, traces[..|traces| - 1], n);
      var t := traces[|traces| - 1];
      var parent := At<Option<nat>>(prev, t.parentIndex, None);
      var x := if parent.Some? then parent else At(im, t.ipIndex, None);
      assert x.Some? ==> x.value < n;
      assert TraceMatches(im, traces) == prev + [x];
    }
  }

  // ---------------------------------------------------------------------
  // The effect of applyLeakSuppressions on allocations and suppressions

  /** An allocation whose trace is suppressed loses its leaked bytes. */
  function Silenced(tm: seq<Option<nat>>, a: Allocation): (a': Allocation)
    ensures a'.traceIndex == a.traceIndex
  {
    if At(tm, a.traceIndex, None).Some? then a.(cost := a.cost.(leaked := 0)) else a
  }

  function Zeroed(tm: seq<Option<nat>>, allocs: seq<Allocation>): (r: seq<Allocation>)
    ensures |r| == |allocs| && forall j :: 0 <= j < |allocs| ==> r[j] == Silenced(tm, allocs[j])
  {
    seq(|allocs|, i requires 0 <= i < |allocs| => Silenced(tm, allocs[i]))
  }

  /** The leaked bytes of the suppressed allocations (totalLeakedSuppressed). */
  function LeakOf(tm: seq<Option<nat>>, allocs: seq<Allocation>): int
  {
    if allocs == [] then 0
    else
      var a := allocs[|allocs| - 1];
      LeakOf(tm, allocs[..|allocs| - 1]) + if At(tm, a.traceIndex, None).Some? then a.cost.leaked else 0
  }

  /** The number of suppressed allocations. */
  function Hits(tm: seq<Option<nat>>, allocs: seq<Allocation>): nat
  {
    if allocs == [] then 0
    else Hits(tm, allocs[..|allocs| - 1]) + if At(tm, allocs[|allocs| - 1].traceIndex, None).Some? then 1 else 0
  }

  /** Each suppressed allocation counted, with its leaked bytes, on the suppression that matched it. */
  function Credited(sups: seq<Suppression>, tm: seq<Option<nat>>, allocs: seq<Allocation>): (r: seq<Suppression>)
    requires Below(tm, |sups|)
    ensures |r| == |sups|
  {
    if allocs == [] then sups
    else
      var c := Credited(sups, tm, allocs[..|allocs| - 1]);
      var a := allocs[|allocs| - 1];
      var m := At(tm, a.traceIndex, None);
      if m.Some? then c[m.value := Credit(c[m.value], a.cost.leaked)] else c
  }

  function Credit(s: Suppression, leaked: int): Suppression
  {
    s.(matches := s.matches + 1, leaked := s.leaked + leaked)
  }

  /**
   * The loop over the allocations in applyLeakSuppressions, on values: the
   * allocations with their suppressed leaks zeroed, the suppressions
   * credited, and the sum of the leaked bytes taken away.
   */
  method Silence(tm: seq<Option<nat>>, allocs: seq<Allocation>, sups: seq<Suppression>)
      returns (allocs': seq<Allocation>, sups': seq<Suppression>, leaked: int)
    requires Below(tm, |sups|)
    ensures allocs' == Zeroed(tm, allocs) && sups' == Credited(sups, tm, allocs) && leaked == LeakOf(tm, allocs)
  {
    allocs', sups', leaked := allocs, sups, 0;
    var i := 0;
    while i < |allocs'|
      invariant i <= |allocs'| == |allocs| && |sups'| == |sups|
      invariant forall j :: 0 <= j < i ==> allocs'[j] == Silenced(tm, allocs[j])
      invariant forall j :: i <= j < |allocs| ==> allocs'[j] == allocs[j]
      invariant leaked == LeakOf(tm, allocs[..i])
      invariant sups' == Credited(sups, tm, allocs[..i])
    {
      var allocation := allocs'[i];
      assert allocation == allocs[i];
      SilenceStep(tm, allocs, sups, i);
      var found := At(tm, allocation.traceIndex, None);
      if found.Some? {
        leaked := leaked + allocation.cost.leaked;
        sups' := sups'[found.value := Credit(sups'[found.value], allocation.cost.leaked)];
        allocs' := allocs'[i := allocation.(cost := allocation.cost.(leaked := 0))];
      }
      i := i + 1;
    }
    assert allocs[..i] == allocs;
  }

  /** What one more allocation adds to the zeroed prefix, the suppressed sum and the credits. */
  lemma SilenceStep(tm: seq<Option<nat>>, allocs: seq<Allocation>, sups: seq<Suppression>, i: nat)
    requires i < |allocs| && Below(tm, |sups|)
    ensures var a := allocs[i];
      var m := At(tm, a.traceIndex, None);
      var c := Credited(sups, tm, allocs[..i]);
      LeakOf(tm, allocs[..i + 1]) == LeakOf(tm, allocs[..i]) + (if m.Some? then a.cost.leaked else 0)
      && Credited(sups, tm, allocs[..i + 1]) == if m.Some? then c[m.value := Credit(c[m.value], a.cost.leaked)] else c
  {
    assert allocs[..i + 1][..i] == allocs[..i];
  }

  /** Without trace matches (the early returns) nothing is zeroed, summed or credited. */
  lemma {:induction false} NothingSuppressed(sups: seq<Suppression>, allocs: seq<Allocation>)
    ensures Zeroed([], allocs) == allocs && LeakOf([], allocs) == 0 && Credited(sups, [], allocs) == sups
    decreases |allocs|
  {
    if allocs != [] {
      NothingSuppressed(sups, allocs[..|allocs| - 1]);
    }
  }

  /** The bytes leaked by a list of allocations. */
  function Leaked(allocs: seq<Allocation>): int
  {
    if allocs == [] then 0 else Leaked(allocs[..|allocs| - 1]) + allocs[|allocs| - 1].cost.leaked
  }

  /** The leaked bytes and the match counts recorded on a list of suppressions. */
  function SuppressedLeaked(sups: seq<Suppression>): int
  {
    if sups == [] then 0 else SuppressedLeaked(sups[..|sups| - 1]) + sups[|sups| - 1].leaked
  }

  function SuppressedMatches(sups: seq<Suppression>): int
  {
    if sups == [] then 0 else SuppressedMatches(sups[..|sups| - 1]) + sups[|sups| - 1].matches
  }

  /** Zeroing the suppressed allocations removes exactly their leaked bytes from the total. */
  lemma {:induction false} ZeroedLeaked(tm: seq<Option<nat>>, allocs: seq<Allocation>)
    ensures Leaked(Zeroed(tm, allocs)) == Leaked(allocs) - LeakOf(tm, allocs)
    decreases |allocs|
  {
    if allocs != [] {
      var init := allocs[..|allocs| - 1];
      ZeroedLeaked(tm, init);
      assert Zeroed(tm, allocs)[..|init|] == Zeroed(tm, init);
    }
  }

  /** Crediting one suppression raises the recorded totals by one match and by its leaked bytes. */
  lemma {:induction false} CreditTotals(sups: seq<Suppression>, j: nat, leaked: int)
    requires j < |sups|
    ensures SuppressedLeaked(sups[j := Credit(sups[j], leaked)]) == SuppressedLeaked(sups) + leaked
    ensures SuppressedMatches(sups[j := Credit(sups[j], leaked)]) == SuppressedMatches(sups) + 1
    decreases |sups|
  {
    var s' := sups[j := Credit(sups[j], leaked)];
    var init := sups[..|sups| - 1];
    if j < |sups| - 1 {
      CreditTotals(init, j, leaked);
      assert s'[..|sups| - 1] == init[j := Credit(init[j], leaked)];
    } else {
      assert s'[..|sups| - 1] == init;
    }
  }

  /**
   * The suppressions are credited with exactly the suppressed bytes and one
   * match per suppressed allocation.
   */
  lemma {:induction false} CreditedTotals(sups: seq<Suppression>, tm: seq<Option<nat>>, allocs: seq<Allocation>)
    requires Below(tm, |sups|)
    ensures SuppressedLeaked(Credited(sups, tm, allocs)) == SuppressedLeaked(sups) + LeakOf(tm, allocs)
    ensures SuppressedMatches(Credited(sups, tm, allocs)) == SuppressedMatches(sups) + Hits(tm, allocs)
    decreases |allocs|
  {
    if allocs != [] {
      var init := allocs[..|allocs| - 1];
      CreditedTotals(sups, tm, init);
      var a := allocs[|allocs| - 1];
      var m := At(tm, a.traceIndex, None);
      if m.Some? {
        CreditTotals(Credited(sups, tm, init), m.value, a.cost.leaked);
      }
    }
  }

  /** The trace matches of a prefix of the traces are the prefix of the matches. */
  lemma {:induction false} TraceMatchesPrefix(im: seq<Option<nat>>, traces: seq<TraceNode>, k: nat)
    requires k <= |traces|
    ensures TraceMatches(im, traces[..k]) == TraceMatches(im, traces)[..k]
    decreases |traces| - k
  {
    if k < |traces| {
      var init := traces[..|traces| - 1];
      assert init[..k] == traces[..k];
      TraceMatchesPrefix(im, init, k);
    } else {
      assert traces[..k] == traces;
    }
  }

  /**
   * Trace k (0-based) takes the match of its parent when that parent comes
   * before it and matched, else the match of its own instruction pointer.
   */
  lemma TraceMatchAt(im: seq<Option<nat>>, traces: seq<TraceNode>, k: nat)
    requires k < |traces|
    ensures var tm := TraceMatches(im, traces);
      var p := traces[k].parentIndex;
      var parent := if 1 <= p <= k then tm[p - 1] else None;
      tm[k] == if parent.Some? then parent else At(im, traces[k].ipIndex, None)
  {
    TraceMatchesPrefix(im, traces, k + 1);
    TraceMatchesPrefix(im, traces, k);
    assert traces[..k + 1][..k] == traces[..k];
    var tm := TraceMatches(im, traces);
    assert TraceMatches(im, traces[..k + 1])[..k] == tm[..k];
  }

  /** The strings of an instruction pointer in the order they are tried: module, function, file, then each inlined function and file. */
  function IpStrings(ip: InstructionPointer): seq<nat>
  {
    [ip.moduleIndex] + FrameStrings([ip.frame] + ip.inlined)
  }

  function FrameStrings(frames: seq<Frame>): seq<nat>
  {
    if frames == [] then [] else [frames[0].functionIndex, frames[0].fileIndex] + FrameStrings(frames[1..])
  }

  /** The match of the first string id that matched. */
  function FirstSome(sm: seq<Option<nat>>, ids: seq<nat>): (m: Option<nat>)
    ensures m.None? <==> forall i :: 0 <= i < |ids| ==> StringMatch(sm, ids[i]).None?
  {
    if ids == [] then None
    else if StringMatch(sm, ids[0]).Some? then StringMatch(sm, ids[0])
    else FirstSome(sm, ids[1..])
  }

  lemma {:induction false} FirstSomeAppend(sm: seq<Option<nat>>, a: seq<nat>, b: seq<nat>)
    ensures FirstSome(sm, a + b) == if FirstSome(sm, a).Some? then FirstSome(sm, a) else FirstSome(sm, b)
    decreases |a|
  {
    if a != [] {
      assert (a + b)[1..] == a[1..] + b;
      FirstSomeAppend(sm, a[1..], b);
    } else {
      assert a + b == b;
    }
  }

  lemma {:induction false} InlinedMatchIsFirst(sm: seq<Option<nat>>, frames: seq<Frame>)
    ensures InlinedMatch(sm, frames) == FirstSome(sm, FrameStrings(frames))
    decreases |frames|
  {
    if frames != [] {
      InlinedMatchIsFirst(sm, frames[1..]);
      var f := frames[0];
      FirstSomeAppend(sm, [f.functionIndex, f.fileIndex], FrameStrings(frames[1..]));
      assert [f.functionIndex, f.fileIndex][1..] == [f.fileIndex];
      assert [f.fileIndex][1..] == [];
    }
  }

  /**
   * The module, frame and inlined checks of applyLeakSuppressions give the
   * match of the first of the instruction pointer's strings that matched,
   * and none exactly when none of them did.
   */
  lemma IpMatchIsFirst(sm: seq<Option<nat>>, ip: InstructionPointer)
    ensures IpMatch(sm, ip) == FirstSome(sm, IpStrings(ip))
  {
    var fs := [ip.frame] + ip.inlined;
    assert fs[1..] == ip.inlined && fs[0] == ip.frame;
    InlinedMatchIsFirst(sm, fs);
    InlinedMatchIsFirst(sm, ip.inlined);
    FirstSomeAppend(sm, [ip.moduleIndex], FrameStrings(fs));
    FirstSomeAppend(sm, [ip.frame.functionIndex, ip.frame.fileIndex], FrameStrings(ip.inlined));
    assert [ip.moduleIndex][1..] == [];
    assert [ip.frame.functionIndex, ip.frame.fileIndex][1..] == [ip.frame.fileIndex];
    assert [ip.frame.fileIndex][1..] == [];
  }

  // ---------------------------------------------------------------------
  // AccumulatedTraceData

  class AccumulatedTraceData {
    var shortenTemplates: bool
    var allocations: seq<Allocation>
    var totalCost: Cost
    var maxAllocationTraceIndex: nat
    var maxAllocationIndex: nat
    var traceIndexToAllocationIndex: seq<IndexPair>
    var stopIndices: seq<nat>
    var instructionPointers: seq<InstructionPointer>
    var traces: seq<TraceNode>
    var strings: seq<string>
    var suppressions: seq<Suppression>
    var totalLeakedSuppressed: int

    /** The fields mapToAllocationIndex works on. */
    function State(): Lookup
      reads this
    {
      Lookup(allocations, traceIndexToAllocationIndex, maxAllocationTraceIndex, maxAllocationIndex)
    }

    ghost predicate Valid()
      reads this
    {
      LookupValid(State())
    }

    /** The tables neither mapToAllocationIndex nor applyLeakSuppressions touch. */
    function Tables(): (bool, seq<nat>, seq<InstructionPointer>, seq<TraceNode>, seq<string>)
      reads this
    {
      (shortenTemplates, stopIndices, instructionPointers, traces, strings)
    }

    constructor ()
      ensures Valid() && allocations == [] && traceIndexToAllocationIndex == []
      ensures !shortenTemplates && totalCost == Cleared() && totalLeakedSuppressed == 0
      ensures stopIndices == [] && instructionPointers == [] && traces == [] && strings == [] && suppressions == []
    {
      shortenTemplates := false;
      allocations := [];
      totalCost := Cleared();
      maxAllocationTraceIndex := 0;
      maxAllocationIndex := 0;
      traceIndexToAllocationIndex := [];
      stopIndices := [];
      instructionPointers := [];
      traces := [];
      strings := [];
      suppressions := [];
      totalLeakedSuppressed := 0;
    }

    /** stringify: the string with 1-based id, or "" for 0 and for ids past the end. */
    function Stringify(id: nat): (s: string)
      reads this
      ensures 1 <= id <= |strings| ==> s == strings[id - 1]
      ensures id == 0 || id > |strings| ==> s == ""
    {
      At(strings, id, "")
    }

    /** findIp: the instruction pointer with 1-based id, or the invalid one. */
    function FindIp(id: nat): (ip: InstructionPointer)
      reads this
      ensures 1 <= id <= |instructionPointers| ==> ip == instructionPointers[id - 1]
      ensures id == 0 || id > |instructionPointers| ==> ip == InvalidIp
    {
      At(instructionPointers, id, InvalidIp)
    }

    /** findTrace: the trace node with 1-based id, or the empty one. */
    function FindTrace(id: nat): (node: TraceNode)
      reads this
      ensures 1 <= id <= |traces| ==> node == traces[id - 1]
      ensures id == 0 || id > |traces| ==> node == InvalidTrace
    {
      At(traces, id, InvalidTrace)
    }

    /** isStopIndex: a linear search of the stop indices. */
    method IsStopIndex(index: nat) returns (found: bool)
      ensures found <==> index in stopIndices
    {
      var i := 0;
      while i < |stopIndices|
        invariant i <= |stopIndices| && index !in stopIndices[..i]
      {
        if stopIndices[i] == index {
          return true;
        }
        assert stopIndices[..i + 1] == stopIndices[..i] + [stopIndices[i]];
        i := i + 1;
      }
      assert stopIndices[..i] == stopIndices;
      return false;
    }

    /** prettyFunction with template shortening on or off. */
    method PrettyFunction(name: string) returns (ret: string)
      ensures !shortenTemplates ==> ret == name
      ensures shortenTemplates ==> ret == PrettyRun(Pretty([], 0), name).ret
    {
      if !shortenTemplates {
        return name;
      }
      ret := [];
      var depth := 0;
      var i := 0;
      while i < |name|
        invariant i <= |name| && Pretty(ret, depth) == PrettyRun(Pretty([], 0), name[..i])
      {
        var c := name[i];
        assert name[..i + 1][..i] == name[..i];
        i := i + 1;
        if (c == '<' || c == '>') && |ret| >= 8 {
          var cmp := "operator";
          if ret[|ret| - 1] == c {
            if c == '<' {
              cmp := "operator<";
            } else {
              cmp := "operator>";
            }
          }
          if EndsWith(ret, cmp) {
            ret := ret + [c];
            continue;
          }
        }
        if c == '<' {
          depth := depth + 1;
          if depth == 1 {
            ret := ret + [c];
          }
        } else if c == '>' {
          depth := depth - 1;
        }
        if depth != 0 {
          continue;
        }
        ret := ret + [c];
      }
      assert name[..i] == name;
    }

    /**
     * mapToAllocationIndex: the allocation already recorded for the trace,
     * or a new, empty allocation appended for it (see MapIndexSpec).
     */
    method MapToAllocationIndex(traceIndex: nat) returns (allocationIndex: nat)
      requires Valid()
      modifies this
      ensures (State(), allocationIndex) == MapIndex(old(State()), traceIndex)
      ensures Valid()
      ensures Tables() == old(Tables()) && totalCost == old(totalCost)
      ensures suppressions == old(suppressions) && totalLeakedSuppressed == old(totalLeakedSuppressed)
    {
      ghost var before := State();
      var pairs := traceIndexToAllocationIndex;
      if traceIndex < maxAllocationTraceIndex {
        var it := PointerMap.LowerBound(TraceKeys(pairs), traceIndex);
        if it < |pairs| && pairs[it].traceIndex == traceIndex {
          return pairs[it].allocationIndex;
        }
        allocationIndex := |allocations|;
        traceIndexToAllocationIndex := pairs[..it] + [IndexPair(traceIndex, allocationIndex)] + pairs[it..];
        allocations := allocations + [Allocation(Cleared(), traceIndex)];
      } else if traceIndex == maxAllocationTraceIndex && allocations != [] {
        allocationIndex := maxAllocationIndex;
      } else {
        allocationIndex := |allocations|;
        traceIndexToAllocationIndex := pairs + [IndexPair(traceIndex, allocationIndex)];
        maxAllocationIndex := |allocations|;
        allocations := allocations + [Allocation(Cleared(), traceIndex)];
        maxAllocationTraceIndex := traceIndex;
      }
      MapIndexKeepsValid(before, traceIndex);
    }

    /**
     * applyLeakSuppressions: every allocation whose trace a suppression
     * matches loses its leaked bytes, which are taken off the total cost,
     * summed in totalLeakedSuppressed and credited, with one match, to the
     * first suppression that matched.
     */
    method ApplyLeakSuppressions()
      modifies this
      ensures Tables() == old(Tables()) && traceIndexToAllocationIndex == old(traceIndexToAllocationIndex)
      ensures maxAllocationTraceIndex == old(maxAllocationTraceIndex) && maxAllocationIndex == old(maxAllocationIndex)
      ensures var tm := SuppressedTraces(old(suppressions), old(strings), old(instructionPointers), old(traces));
        allocations == Zeroed(tm, old(allocations))
        && totalLeakedSuppressed == LeakOf(tm, old(allocations))
        && totalCost == old(totalCost).(leaked := old(totalCost).leaked - totalLeakedSuppressed)
        && suppressions == Credited(old(suppressions), tm, old(allocations))
    {
      totalLeakedSuppressed := 0;
      var suppressedTraces, anyMatch := MatchTraces();
      if !anyMatch {
        NothingSuppressed(suppressions, allocations);
        return;
      }
      SilenceAllocations(suppressedTraces);
    }

    /**
     * The matching half of applyLeakSuppressions: each string against the
     * suppressions, each instruction pointer against its strings, each
     * trace against its parent and its instruction pointer. It stops early,
     * with no matches, when there are no suppressions or no string matched.
     */
    method MatchTraces() returns (suppressedTraces: seq<Option<nat>>, anyMatch: bool)
      ensures SuppressedTraces(suppressions, strings, instructionPointers, traces)
        == if anyMatch then suppressedTraces else []
    {
      if suppressions == [] {
        return [], false;
      }
      var suppressedStrings := StringMatches(suppressions, strings);
      if !AnyMatch(suppressedStrings) {
        return [], false;
      }
      var suppressedIps := IpMatches(suppressedStrings, instructionPointers);
      suppressedTraces := TraceMatches(suppressedIps, traces);
      anyMatch := true;
    }

    /** The zeroing half of applyLeakSuppressions, over the allocations in order. */
    method SilenceAllocations(tm: seq<Option<nat>>)
      requires Below(tm, |suppressions|)
      modifies this
      ensures Tables() == old(Tables()) && traceIndexToAllocationIndex == old(traceIndexToAllocationIndex)
      ensures maxAllocationTraceIndex == old(maxAllocationTraceIndex) && maxAllocationIndex == old(maxAllocationIndex)
      ensures allocations == Zeroed(tm, old(allocations))
      ensures totalLeakedSuppressed == old(totalLeakedSuppressed) + LeakOf(tm, old(allocations))
      ensures totalCost == old(totalCost).(leaked := old(totalCost).leaked - LeakOf(tm, old(allocations)))
      ensures suppressions == Credited(old(suppressions), tm, old(allocations))
    {
      var allocs, sups, leaked := Silence(tm, allocations, suppressions);
      allocations := allocs;
      suppressions := sups;
      totalLeakedSuppressed := totalLeakedSuppressed + leaked;
      totalCost := totalCost.(leaked := totalCost.leaked - leaked);
    }
  }
}
