/**
 * PeakTracking: the analyzer's peak tracker. Allocation events are recorded
 * in fixed-size snippets. Each snippet starts from a snapshot of every
 * allocation's leaked bytes and remembers the event at which the leaked
 * total was highest. The snippet with the highest peak is kept, and at the
 * end it is replayed from its snapshot up to that event.
 */
module PeakTracking {
  import AllocationData
  import Accumulated

  /** 128 MiB of overhead in all. */
  const PeakTrackingMaxOverhead: nat := 128 * 1024 * 1024

  /** Two buffers of 4-byte allocation-info indices fit in the overhead. */
  const AllocEventsCapacity: nat := PeakTrackingMaxOverhead / 4 / 2

  /** One call to an allocation function: its size and the allocation it belongs to. */
  datatype AllocationInfo = AllocationInfo(size: nat, allocationIndex: nat)

  /** The parts of the trace data that a snippet reads. */
  datatype TraceState = TraceState(
    timestamp: int,
    totalCost: AllocationData.Cost,
    allocations: seq<Accumulated.Allocation>,
    allocationInfos: seq<AllocationInfo>)

  /** A recorded event: an index into allocationInfos, and whether it allocated or freed. */
  datatype Event = Event(info: nat, isAlloc: bool)

  /** The abstract value of a snippet. */
  datatype Snippet = Snippet(peakTime: int, peakMem: int, peakIdx: nat, start: seq<int>, events: seq<Event>)

  /** The peak index points into the recorded events, and the buffer never overflows. */
  predicate SnippetValid(s: Snippet)
  {
    s.peakIdx <= |s.events| <= AllocEventsCapacity
  }

  /** The leaked bytes of every allocation, in order. */
  function Snapshot(allocs: seq<Accumulated.Allocation>): (r: seq<int>)
    ensures |r| == |allocs|
    ensures forall i :: 0 <= i < |allocs| ==> r[i] == allocs[i].cost.leaked
  {
    if allocs == [] then [] else Snapshot(allocs[..|allocs| - 1]) + [allocs[|allocs| - 1].cost.leaked]
  }

  /** reset: the snapshot, the current leaked total as the peak so far, and no events. */
  function SnippetReset(trace: TraceState): (s: Snippet)
    ensures SnippetValid(s)
  {
    Snippet(trace.timestamp, trace.totalCost.leaked, 0, Snapshot(trace.allocations), [])
  }

  /**
   * recordEvent on a snippet with room: the event is appended, and a leaked
   * total above the peak becomes the new peak, located just after this event.
   */
  function SnippetRecord(s: Snippet, e: Event, timestamp: int, leaked: int): (r: Snippet)
    requires |s.events| < AllocEventsCapacity
    ensures r.events == s.events + [e] && r.start == s.start
    ensures SnippetValid(s) ==> SnippetValid(r)
    ensures r.peakMem >= s.peakMem && r.peakMem >= leaked
  {
    var events := s.events + [e];
    if leaked > s.peakMem then Snippet(timestamp, leaked, |events|, s.start, events)
    else s.(events := events)
  }

  /**
   * finalize: whichever of the two snippets has the higher peak (the kept
   * one on a tie) becomes the peak snippet; the current one starts afresh.
   */
  function TrackerFinalize(peak: Snippet, curr: Snippet, trace: TraceState): (r: (Snippet, Snippet))
    ensures r.0 == peak || r.0 == curr
    ensures r.0.peakMem >= peak.peakMem && r.0.peakMem >= curr.peakMem
    ensures r.1.events == [] && r.1.peakIdx == 0 && r.1.peakMem == trace.totalCost.leaked
  {
    (if curr.peakMem > peak.peakMem then curr else peak, SnippetReset(trace))
  }

  /** PeakTracker.recordEvent: a full current snippet is finalized, and the event is then not recorded. */
  function TrackerRecord(peak: Snippet, curr: Snippet, e: Event, trace: TraceState): (r: (Snippet, Snippet))
    requires |curr.events| <= AllocEventsCapacity
    ensures |curr.events| == AllocEventsCapacity ==> r.1.events == [] && r.0.peakMem >= curr.peakMem
    ensures |curr.events| < AllocEventsCapacity ==> r.0 == peak && r.1.events == curr.events + [e]
    ensures SnippetValid(peak) && SnippetValid(curr) ==> SnippetValid(r.0) && SnippetValid(r.1)
    ensures r.0.peakMem >= peak.peakMem
  {
    if |curr.events| == AllocEventsCapacity then TrackerFinalize(peak, curr, trace)
    else (peak, SnippetRecord(curr, e, trace.timestamp, trace.totalCost.leaked))
  }

  // ---------------------------------------------------------------------
  // Runs of events and where the peak lands

  /** An event of the stream, with the time and the leaked total at which it is recorded. */
  datatype Step = Step(event: Event, timestamp: int, leaked: int)

  function EventsOf(steps: seq<Step>): (evs: seq<Event>)
    ensures |evs| == |steps|
    ensures forall i :: 0 <= i < |steps| ==> evs[i] == steps[i].event
  {
    if steps == [] then [] else EventsOf(steps[..|steps| - 1]) + [steps[|steps| - 1].event]
  }

  /** Recording every step in turn into a snippet with room for them. */
  function RecordRun(s: Snippet, steps: seq<Step>): (r: Snippet)
    requires |s.events| + |steps| <= AllocEventsCapacity
    ensures r.start == s.start && r.events == s.events + EventsOf(steps)
  {
    if steps == [] then s
    else
      var last := steps[|steps| - 1];
      SnippetRecord(RecordRun(s, steps[..|steps| - 1]), last.event, last.timestamp, last.leaked)
  }

  /** Where the peak of r lies, for a run of steps recorded after a reset into s. */
  ghost predicate PeakFacts(s: Snippet, steps: seq<Step>, r: Snippet)
  {
    && r.peakMem >= s.peakMem
    && r.peakIdx <= |steps|
    && (forall j :: 0 <= j < |steps| ==> steps[j].leaked <= r.peakMem)
    && (r.peakIdx == 0 ==> r.peakMem == s.peakMem && r.peakTime == s.peakTime)
    && (r.peakIdx > 0 ==>
          && r.peakMem == steps[r.peakIdx - 1].leaked > s.peakMem
          && r.peakTime == steps[r.peakIdx - 1].timestamp
          && forall j :: 0 <= j < r.peakIdx - 1 ==> steps[j].leaked < r.peakMem)
  }

  lemma PeakFactsStep(s: Snippet, init: seq<Step>, last: Step, r0: Snippet)
    requires |r0.events| == |init| < AllocEventsCapacity
    requires PeakFacts(s, init, r0)
    ensures PeakFacts(s, init + [last], SnippetRecord(r0, last.event, last.timestamp, last.leaked))
  {
    var steps := init + [last];
    var r := SnippetRecord(r0, last.event, last.timestamp, last.leaked);
    assert forall j :: 0 <= j < |init| ==> steps[j] == init[j];
    if last.leaked > r0.peakMem {
      assert r.peakIdx == |steps| && r.peakMem == last.leaked && r.peakTime == last.timestamp;
    } else {
      assert r.peakIdx == r0.peakIdx && r.peakMem == r0.peakMem && r.peakTime == r0.peakTime;
    }
  }

  lemma {:induction false} RunPeakFacts(s: Snippet, steps: seq<Step>)
    requires s.events == [] && s.peakIdx == 0 && |steps| <= AllocEventsCapacity
    ensures PeakFacts(s, steps, RecordRun(s, steps))
  {
    if steps != [] {
      var init := steps[..|steps| - 1];
      var last := steps[|steps| - 1];
      RunPeakFacts(s, init);
      assert steps == init + [last];
      PeakFactsStep(s, init, last, RecordRun(s, init));
    }
  }

  /**
   * After a reset, recording a run of events leaves as peak the highest
   * leaked total seen. The peak index is the first event that reached it,
   * counted from 1, or 0 when nothing rose above the starting total.
   */
  lemma RunPeak(s: Snippet, steps: seq<Step>)
    requires s.events == [] && s.peakIdx == 0 && |steps| <= AllocEventsCapacity
    ensures var r := RecordRun(s, steps);
      && r.peakMem >= s.peakMem
      && r.peakIdx <= |steps|
      && (forall j :: 0 <= j < |steps| ==> steps[j].leaked <= r.peakMem)
      && (r.peakIdx == 0 ==> r.peakMem == s.peakMem && r.peakTime == s.peakTime)
      && (r.peakIdx > 0 ==>
            && r.peakMem == steps[r.peakIdx - 1].leaked > s.peakMem
            && r.peakTime == steps[r.peakIdx - 1].timestamp
            && forall j :: 0 <= j < r.peakIdx - 1 ==> steps[j].leaked < r.peakMem)
  {
    RunPeakFacts(s, steps);
  }

  // ---------------------------------------------------------------------
  // Replaying a snippet

  /** Every event names an existing allocation info. */
  predicate Known(evs: seq<Event>, infos: seq<AllocationInfo>)
  {
    forall i :: 0 <= i < |evs| ==> evs[i].info < |infos|
  }

  /** The allocation an event belongs to. */
  function Slot(e: Event, infos: seq<AllocationInfo>): nat
    requires e.info < |infos|
  {
    infos[e.info].allocationIndex
  }

  /** The change in leaked bytes of an event: its size for an allocation, minus its size for a free. */
  function Signed(e: Event, infos: seq<AllocationInfo>): int
    requires e.info < |infos|
  {
    if e.isAlloc then infos[e.info].size else -(infos[e.info].size as int)
  }

  /** n zeros. */
  function Zeros(n: nat): (z: seq<int>)
    ensures |z| == n && forall i :: 0 <= i < n ==> z[i] == 0
  {
    seq(n, _ => 0)
  }

  /** One replayed event: grow the vector with zeros to reach its allocation, then add the change. */
  function Apply(v: seq<int>, e: Event, infos: seq<AllocationInfo>): seq<int>
    requires e.info < |infos|
  {
    var j := Slot(e, infos);
    var grown := if j >= |v| then v + Zeros(j + 1 - |v|) else v;
    grown[j := grown[j] + Signed(e, infos)]
  }

  /** The events replayed in order on the starting values. */
  function Replay(start: seq<int>, evs: seq<Event>, infos: seq<AllocationInfo>): seq<int>
    requires Known(evs, infos)
  {
    if evs == [] then start
    else Apply(Replay(start, evs[..|evs| - 1], infos), evs[|evs| - 1], infos)
  }

  /** The starting value of allocation j, 0 for one the snapshot did not have. */
  function Base(start: seq<int>, j: nat): int
  {
    if j < |start| then start[j] else 0
  }

  /** The total change the events make to allocation j. */
  function Delta(evs: seq<Event>, infos: seq<AllocationInfo>, j: nat): int
    requires Known(evs, infos)
  {
    if evs == [] then 0
    else
      var last := evs[|evs| - 1];
      Delta(evs[..|evs| - 1], infos, j) + (if Slot(last, infos) == j then Signed(last, infos) else 0)
  }

  /** Enough entries for the snapshot and for every allocation an event touches. */
  function Width(start: seq<int>, evs: seq<Event>, infos: seq<AllocationInfo>): (w: nat)
    requires Known(evs, infos)
    ensures w >= |start|
    ensures forall i :: 0 <= i < |evs| ==> Slot(evs[i], infos) < w
  {
    if evs == [] then |start|
    else
      var w0 := Width(start, evs[..|evs| - 1], infos);
      var j := Slot(evs[|evs| - 1], infos);
      if j + 1 > w0 then j + 1 else w0
  }

  /**
   * Replaying gives every allocation its starting value plus the changes of
   * the events that belong to it, and the vector is exactly as long as the
   * snapshot and the touched allocations require.
   */
  lemma {:induction false} ReplayAt(start: seq<int>, evs: seq<Event>, infos: seq<AllocationInfo>)
    requires Known(evs, infos)
    ensures |Replay(start, evs, infos)| == Width(start, evs, infos)
    ensures forall j :: 0 <= j < |Replay(start, evs, infos)| ==>
      Replay(start, evs, infos)[j] == Base(start, j) + Delta(evs, infos, j)
    ensures forall j :: Width(start, evs, infos) <= j ==> Delta(evs, infos, j) == 0
  {
    if evs != [] {
      var init := evs[..|evs| - 1];
      var last := evs[|evs| - 1];
      ReplayAt(start, init, infos);
      var v := Replay(start, init, infos);
      var k := Slot(last, infos);
      var grown := if k >= |v| then v + Zeros(k + 1 - |v|) else v;
      forall j | 0 <= j < |grown|
        ensures grown[j] == Base(start, j) + Delta(init, infos, j)
      {
        if j >= |v| {
          assert Base(start, j) == 0;
        }
      }
    }
  }

  /** The sum of a vector. */
  function Sum(v: seq<int>): int
  {
    if v == [] then 0 else Sum(v[..|v| - 1]) + v[|v| - 1]
  }

  /** The total change in leaked bytes of the events. */
  function Net(evs: seq<Event>, infos: seq<AllocationInfo>): int
    requires Known(evs, infos)
  {
    if evs == [] then 0 else Net(evs[..|evs| - 1], infos) + Signed(evs[|evs| - 1], infos)
  }

  /** Adding d to one entry adds d to the sum. */
  lemma {:induction false} SumUpdate(v: seq<int>, j: nat, d: int)
    requires j < |v|
    ensures Sum(v[j := v[j] + d]) == Sum(v) + d
    decreases |v|
  {
    var w := v[j := v[j] + d];
    if j == |v| - 1 {
      assert w[..|w| - 1] == v[..|v| - 1];
    } else {
      assert w[..|w| - 1] == v[..|v| - 1][j := v[j] + d];
      SumUpdate(v[..|v| - 1], j, d);
    }
  }

  /** Padding with zeros keeps the sum. */
  lemma {:induction false} SumPadded(v: seq<int>, n: nat)
    ensures Sum(v + Zeros(n)) == Sum(v)
    decreases n
  {
    if n > 0 {
      assert (v + Zeros(n))[..|v| + n - 1] == v + Zeros(n - 1);
      SumPadded(v, n - 1);
    } else {
      assert v + Zeros(0) == v;
    }
  }

  /** Replaying adds the events' net change to the sum of the snapshot. */
  lemma {:induction false} ReplaySum(start: seq<int>, evs: seq<Event>, infos: seq<AllocationInfo>)
    requires Known(evs, infos)
    ensures Sum(Replay(start, evs, infos)) == Sum(start) + Net(evs, infos)
  {
    if evs != [] {
      var init := evs[..|evs| - 1];
      var last := evs[|evs| - 1];
      ReplaySum(start, init, infos);
      var v := Replay(start, init, infos);
      var k := Slot(last, infos);
      if k >= |v| {
        SumPadded(v, k + 1 - |v|);
        SumUpdate(v + Zeros(k + 1 - |v|), k, Signed(last, infos));
      } else {
        SumUpdate(v, k, Signed(last, infos));
      }
    }
  }

  /** Each recorded leaked total is the starting total plus the changes of the events so far. */
  predicate Tracked(leaked0: int, steps: seq<Step>, infos: seq<AllocationInfo>)
    requires Known(EventsOf(steps), infos)
  {
    forall i :: 0 <= i < |steps| ==> steps[i].leaked == leaked0 + Net(EventsOf(steps)[..i + 1], infos)
  }

  lemma KnownPrefix(evs: seq<Event>, infos: seq<AllocationInfo>, k: nat)
    requires k <= |evs| && Known(evs, infos)
    ensures Known(evs[..k], infos)
  {
    forall i | 0 <= i < k ensures evs[..k][i].info < |infos| {
      assert evs[..k][i] == evs[i];
    }
  }

  lemma TrackedAt(leaked0: int, steps: seq<Step>, infos: seq<AllocationInfo>, i: nat)
    requires i < |steps| && Known(EventsOf(steps), infos) && Tracked(leaked0, steps, infos)
    ensures Known(EventsOf(steps)[..i + 1], infos)
    ensures steps[i].leaked == leaked0 + Net(EventsOf(steps)[..i + 1], infos)
  {
    KnownPrefix(EventsOf(steps), infos, i + 1);
  }

  /** Replaying the first k events yields a sum of peakMem when the net change up to k is what the peak added. */
  lemma ReplayPrefixSum(start: seq<int>, evs: seq<Event>, infos: seq<AllocationInfo>, k: nat, peakMem: int)
    requires k <= |evs| && Known(evs, infos)
    requires k == 0 ==> peakMem == Sum(start)
    requires k > 0 ==> peakMem == Sum(start) + Net(evs[..k], infos)
    ensures Known(evs[..k], infos)
    ensures Sum(Replay(start, evs[..k], infos)) == peakMem
  {
    KnownPrefix(evs, infos, k);
    ReplaySum(start, evs[..k], infos);
    if k == 0 {
      assert evs[..k] == [];
    }
  }

  /**
   * The point of the snippet design: when the snapshot adds up to the leaked
   * total at reset and the leaked totals follow the events, replaying the
   * snippet up to its peak index yields allocations that add up to the peak.
   */
  lemma PeakReplayAddsUp(s: Snippet, steps: seq<Step>, infos: seq<AllocationInfo>)
    requires s.events == [] && s.peakIdx == 0 && |steps| <= AllocEventsCapacity
    requires Sum(s.start) == s.peakMem
    requires Known(EventsOf(steps), infos) && Tracked(s.peakMem, steps, infos)
    ensures var r := RecordRun(s, steps);
      && r.peakIdx <= |r.events|
      && Known(r.events[..r.peakIdx], infos)
      && Sum(Replay(r.start, r.events[..r.peakIdx], infos)) == r.peakMem
  {
    var r := RecordRun(s, steps);
    var evs := EventsOf(steps);
    RunPeakFacts(s, steps);
    assert r.events == evs;
    var k := r.peakIdx;
    if k > 0 {
      TrackedAt(s.peakMem, steps, infos, k - 1);
      assert k - 1 + 1 == k;
    }
    ReplayPrefixSum(r.start, evs, infos, k, r.peakMem);
  }

  // ---------------------------------------------------------------------
  // The objects

  /** Pairs up the two parallel event buffers. */
  function Zip(infos: seq<nat>, allocs: seq<bool>): (evs: seq<Event>)
    requires |infos| == |allocs|
    ensures |evs| == |infos|
  {
    seq(|infos|, i requires 0 <= i < |infos| => Event(infos[i], allocs[i]))
  }

  /** TraceSnippet: a snapshot and a fixed-size buffer of events. */
  class TraceSnippet {
    var peakTime: int
    var peakMem: int
    /** 0: the peak is the snapshot; otherwise replay up to and including event peakIdx - 1. */
    var peakIdx: nat
    var startingAllocations: seq<int>
    var numAllocEvents: nat
    const allocEvents: array<nat>
    const isAlloc: array<bool>

    ghost predicate Buffers()
      reads this
    {
      allocEvents.Length == AllocEventsCapacity && isAlloc.Length == AllocEventsCapacity
    }

    ghost predicate Valid()
      reads this
    {
      Buffers() && peakIdx <= numAllocEvents <= AllocEventsCapacity
    }

    /** The events recorded so far. */
    function Events(): seq<Event>
      reads this, allocEvents, isAlloc
      requires Valid()
    {
      Zip(allocEvents[..numAllocEvents], isAlloc[..numAllocEvents])
    }

    /** The snippet as a value. */
    function Snap(): (s: Snippet)
      reads this, allocEvents, isAlloc
      requires Valid()
      ensures SnippetValid(s)
    {
      Snippet(peakTime, peakMem, peakIdx, startingAllocations, Events())
    }

    constructor (trace: TraceState)
      ensures Valid() && fresh(allocEvents) && fresh(isAlloc)
      ensures Snap() == SnippetReset(trace)
    {
      allocEvents := new nat[AllocEventsCapacity];
      isAlloc := new bool[AllocEventsCapacity](_ => false);
      new;
      Reset(trace);
    }

    /** reset: snapshot every allocation's leaked bytes and start a new, empty run of events. */
    method Reset(trace: TraceState)
      requires Buffers()
      modifies this
      ensures Valid() && Snap() == SnippetReset(trace)
    {
      peakTime := trace.timestamp;
      peakMem := trace.totalCost.leaked;
      peakIdx := 0;
      var snapshot: seq<int> := [];
      var i := 0;
      while i < |trace.allocations|
        invariant i <= |trace.allocations|
        invariant snapshot == Snapshot(trace.allocations[..i])
      {
        snapshot := snapshot + [trace.allocations[i].cost.leaked];
        assert trace.allocations[..i + 1][..i] == trace.allocations[..i];
        i := i + 1;
      }
      assert trace.allocations[..i] == trace.allocations;
      startingAllocations := snapshot;
      numAllocEvents := 0;
    }

    predicate IsFull()
      reads this
    {
      numAllocEvents == AllocEventsCapacity
    }

    /** recordEvent: append one event; a leaked total above the peak moves the peak here. */
    method RecordEvent(allocInfoIdx: nat, alloc: bool, trace: TraceState)
      requires Valid() && !IsFull()
      modifies this, allocEvents, isAlloc
      ensures Valid()
      ensures Snap() == SnippetRecord(old(Snap()), Event(allocInfoIdx, alloc), trace.timestamp, trace.totalCost.leaked)
    {
      ghost var before := Events();
      var n := numAllocEvents;
      allocEvents[n] := allocInfoIdx;
      isAlloc[n] := alloc;
      numAllocEvents := n + 1;
      assert Events() == before + [Event(allocInfoIdx, alloc)] by {
        forall i | 0 <= i < n ensures Events()[i] == before[i] {
          assert allocEvents[..n + 1][i] == old(allocEvents[..n])[i];
          assert isAlloc[..n + 1][i] == old(isAlloc[..n])[i];
        }
      }
      if trace.totalCost.leaked > peakMem {
        peakTime := trace.timestamp;
        peakMem := trace.totalCost.leaked;
        peakIdx := numAllocEvents;
      }
    }

    /** peakAllocations: the snapshot with the events up to the peak replayed on it. */
    method PeakAllocations(infos: seq<AllocationInfo>) returns (peakAllocations: seq<int>)
      requires Valid() && forall i :: 0 <= i < peakIdx ==> allocEvents[i] < |infos|
      ensures Known(Events()[..peakIdx], infos)
      ensures peakAllocations == Replay(startingAllocations, Events()[..peakIdx], infos)
    {
      peakAllocations := startingAllocations;
      if peakIdx == 0 {
        assert Events()[..peakIdx] == [];
        return;
      }
      ghost var evs := Events()[..peakIdx];
      assert Known(evs, infos) by {
        forall i | 0 <= i < peakIdx ensures evs[i].info < |infos| {
          assert evs[i] == Event(allocEvents[i], isAlloc[i]);
        }
      }
      var idx := 0;
      while idx < peakIdx
        invariant idx <= peakIdx
        invariant Known(evs[..idx], infos)
        invariant peakAllocations == Replay(startingAllocations, evs[..idx], infos)
      {
        var info := infos[allocEvents[idx]];
        var allocIdx := info.allocationIndex;
        ghost var before := peakAllocations;
        if allocIdx >= |peakAllocations| {
          peakAllocations := peakAllocations + Zeros(allocIdx + 1 - |peakAllocations|);
        }
        peakAllocations := peakAllocations[allocIdx := peakAllocations[allocIdx] + if isAlloc[idx] then info.size else -(info.size as int)];
        assert evs[idx] == Event(allocEvents[idx], isAlloc[idx]);
        assert peakAllocations == Apply(before, evs[idx], infos);
        KnownPrefix(evs, infos, idx + 1);
        assert evs[..idx + 1][..idx] == evs[..idx];
        assert Replay(startingAllocations, evs[..idx + 1], infos) == Apply(before, evs[idx], infos);
        idx := idx + 1;
      }
      assert evs[..idx] == evs;
    }
  }

  /** PeakTracker: the current snippet and the one with the highest peak so far. */
  class PeakTracker {
    var peakTraceSnippet: TraceSnippet
    var currTraceSnippet: TraceSnippet

    ghost predicate Valid()
      reads this, peakTraceSnippet, currTraceSnippet
    {
      && peakTraceSnippet != currTraceSnippet
      && peakTraceSnippet.allocEvents != currTraceSnippet.allocEvents
      && peakTraceSnippet.isAlloc != currTraceSnippet.isAlloc
      && peakTraceSnippet.Valid() && currTraceSnippet.Valid()
    }

    function Peak(): Snippet
      reads this, peakTraceSnippet, currTraceSnippet, peakTraceSnippet.allocEvents, peakTraceSnippet.isAlloc
      requires Valid()
    {
      peakTraceSnippet.Snap()
    }

    function Current(): Snippet
      reads this, peakTraceSnippet, currTraceSnippet, currTraceSnippet.allocEvents, currTraceSnippet.isAlloc
      requires Valid()
    {
      currTraceSnippet.Snap()
    }

    constructor (trace: TraceState)
      ensures Valid()
      ensures Peak() == SnippetReset(trace) && Current() == SnippetReset(trace)
    {
      peakTraceSnippet := new TraceSnippet(trace);
      currTraceSnippet := new TraceSnippet(trace);
    }

    /** finalize: keep the snippet with the higher peak, then reset the current one. */
    method Finalize(trace: TraceState)
      requires Valid()
      modifies this, peakTraceSnippet, currTraceSnippet
      ensures Valid()
      ensures (Peak(), Current()) == TrackerFinalize(old(Peak()), old(Current()), trace)
    {
      if currTraceSnippet.peakMem > peakTraceSnippet.peakMem {
        peakTraceSnippet, currTraceSnippet := currTraceSnippet, peakTraceSnippet;
      }
      currTraceSnippet.Reset(trace);
    }

    /** recordEvent: finalize a full snippet, otherwise record into the current one. */
    method RecordEvent(allocInfoIdx: nat, alloc: bool, trace: TraceState)
      requires Valid()
      modifies this, peakTraceSnippet, currTraceSnippet, currTraceSnippet.allocEvents, currTraceSnippet.isAlloc
      ensures Valid()
      ensures (Peak(), Current()) == TrackerRecord(old(Peak()), old(Current()), Event(allocInfoIdx, alloc), trace)
    {
      if currTraceSnippet.IsFull() {
        Finalize(trace);
      } else {
        currTraceSnippet.RecordEvent(allocInfoIdx, alloc, trace);
      }
    }

    /** peakAllocations of the peak snippet. */
    method PeakAllocations(infos: seq<AllocationInfo>) returns (peakAllocations: seq<int>)
      requires Valid()
      requires forall i :: 0 <= i < peakTraceSnippet.peakIdx ==> peakTraceSnippet.allocEvents[i] < |infos|
      ensures Known(Peak().events[..Peak().peakIdx], infos)
      ensures peakAllocations == Replay(Peak().start, Peak().events[..Peak().peakIdx], infos)
    {
      peakAllocations := peakTraceSnippet.PeakAllocations(infos);
    }
  }
}
