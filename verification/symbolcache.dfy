/**
 * SymbolCache: the interpreter's per-module symbol tables. Each table is
 * stably sorted by offset with adjacent duplicates removed, and an address
 * is resolved to the symbol starting exactly there or else to the nearest
 * symbol below it whose range covers it. Names are demangled lazily, once.
 */
module SymbolCache {
  import opened Common

  /** Addresses and sizes are 64-bit: the end of a symbol's range wraps. */
  const U64: nat := 0x1_0000_0000_0000_0000

  datatype Entry = Entry(offset: nat, value: nat, size: nat, symname: string, demangled: bool)

  /** The default-constructed entry, returned when nothing is found. */
  const Invalid := Entry(0, 0, 0, "", false)

  predicate IsValid(e: Entry)
  {
    e.symname != []
  }

  /** Entries are ordered by offset. */
  predicate SortedByOffset(s: seq<Entry>)
  {
    forall i, j :: 0 <= i < j < |s| ==> s[i].offset <= s[j].offset
  }

  // ---------------------------------------------------------------------
  // std::stable_sort by offset

  /** e placed after every entry of t whose offset is not above its own. */
  function InsertSorted(t: seq<Entry>, e: Entry): (r: seq<Entry>)
    ensures |r| == |t| + 1
  {
    if t == [] || t[|t| - 1].offset <= e.offset then t + [e]
    else InsertSorted(t[..|t| - 1], e) + [t[|t| - 1]]
  }

  /** A stable sort by offset (an insertion sort). */
  function StableSort(s: seq<Entry>): (r: seq<Entry>)
    ensures |r| == |s|
  {
    if s == [] then [] else InsertSorted(StableSort(s[..|s| - 1]), s[|s| - 1])
  }

  /** The entries at offset o, in order. */
  function WithOffset(s: seq<Entry>, o: nat): seq<Entry>
  {
    if s == [] then []
    else WithOffset(s[..|s| - 1], o) + (if s[|s| - 1].offset == o then [s[|s| - 1]] else [])
  }

  lemma {:induction false} InsertSortedMultiset(t: seq<Entry>, e: Entry)
    ensures multiset(InsertSorted(t, e)) == multiset(t) + multiset{e}
    decreases |t|
  {
    if t != [] && t[|t| - 1].offset > e.offset {
      var init := t[..|t| - 1];
      InsertSortedMultiset(init, e);
      assert t == init + [t[|t| - 1]];
    }
  }

  /** Appending an entry not below any other keeps a table sorted. */
  lemma SortedSnoc(r: seq<Entry>, x: Entry)
    requires SortedByOffset(r) && forall k :: 0 <= k < |r| ==> r[k].offset <= x.offset
    ensures SortedByOffset(r + [x])
  {
  }

  lemma {:induction false} InsertSortedSorted(t: seq<Entry>, e: Entry)
    requires SortedByOffset(t)
    ensures SortedByOffset(InsertSorted(t, e))
    decreases |t|
  {
    if t == [] || t[|t| - 1].offset <= e.offset {
      SortedSnoc(t, e);
    } else {
      var init := t[..|t| - 1];
      var last := t[|t| - 1];
      InsertSortedSorted(init, e);
      var r0 := InsertSorted(init, e);
      forall k | 0 <= k < |r0| ensures r0[k].offset <= last.offset {
        InsertSortedMultiset(init, e);
        assert r0[k] in multiset(r0);
        if r0[k] != e {
          assert r0[k] in multiset(init);
        }
      }
      SortedSnoc(r0, last);
    }
  }

  lemma {:induction false} InsertSortedWithOffset(t: seq<Entry>, e: Entry, o: nat)
    ensures WithOffset(InsertSorted(t, e), o) == WithOffset(t, o) + (if e.offset == o then [e] else [])
    decreases |t|
  {
    if t == [] || t[|t| - 1].offset <= e.offset {
      assert (t + [e])[..|t|] == t;
    } else {
      var init := t[..|t| - 1];
      var last := t[|t| - 1];
      InsertSortedWithOffset(init, e, o);
      var r0 := InsertSorted(init, e);
      assert InsertSorted(t, e) == r0 + [last];
      assert (r0 + [last])[..|r0|] == r0;
      assert WithOffset(r0 + [last], o) == WithOffset(r0, o) + (if last.offset == o then [last] else []);
      assert WithOffset(t, o) == WithOffset(init, o) + (if last.offset == o then [last] else []);
    }
  }

  /**
   * The sort is a stable sort by offset: the result is sorted, is a
   * permutation of the input, and keeps entries of equal offset in their
   * input order.
   */
  lemma {:induction false} StableSortSorted(s: seq<Entry>)
    ensures SortedByOffset(StableSort(s))
    decreases |s|
  {
    if s != [] {
      StableSortSorted(s[..|s| - 1]);
      InsertSortedSorted(StableSort(s[..|s| - 1]), s[|s| - 1]);
    }
  }

  lemma {:induction false} StableSortPermutes(s: seq<Entry>)
    ensures multiset(StableSort(s)) == multiset(s)
    decreases |s|
  {
    if s != [] {
      var init := s[..|s| - 1];
      var last := s[|s| - 1];
      StableSortPermutes(init);
      InsertSortedMultiset(StableSort(init), last);
      assert s == init + [last];
    }
  }

  lemma {:induction false} StableSortKeepsOrder(s: seq<Entry>, o: nat)
    ensures WithOffset(StableSort(s), o) == WithOffset(s, o)
    decreases |s|
  {
    if s != [] {
      StableSortKeepsOrder(s[..|s| - 1], o);
      InsertSortedWithOffset(StableSort(s[..|s| - 1]), s[|s| - 1], o);
    }
  }

  /**
   * The sort is a stable sort by offset: the result is sorted, is a
   * permutation of the input, and keeps entries of equal offset in their
   * input order.
   */
  lemma StableSortSpec(s: seq<Entry>)
    ensures SortedByOffset(StableSort(s))
    ensures multiset(StableSort(s)) == multiset(s)
    ensures forall o: nat :: WithOffset(StableSort(s), o) == WithOffset(s, o)
  {
    StableSortSorted(s);
    StableSortPermutes(s);
    forall o: nat ensures WithOffset(StableSort(s), o) == WithOffset(s, o) {
      StableSortKeepsOrder(s, o);
    }
  }

  // ---------------------------------------------------------------------
  // std::unique with equality on offset and size

  /** Two entries describe the same range. */
  predicate Same(a: Entry, b: Entry)
  {
    a.offset == b.offset && a.size == b.size
  }

  /** Keeps the first entry of every run of entries describing the same range. */
  function Unique(s: seq<Entry>): (u: seq<Entry>)
    ensures |u| <= |s| && (u == [] <==> s == [])
  {
    if s == [] then []
    else
      var u0 := Unique(s[..|s| - 1]);
      if u0 != [] && Same(u0[|u0| - 1], s[|s| - 1]) then u0 else u0 + [s[|s| - 1]]
  }

  /** Unique leaves no two neighbours describing the same range. */
  lemma {:induction false} UniqueNoNeighbours(s: seq<Entry>)
    ensures forall i :: 0 < i < |Unique(s)| ==> !Same(Unique(s)[i - 1], Unique(s)[i])
    decreases |s|
  {
    if s != [] {
      UniqueNoNeighbours(s[..|s| - 1]);
    }
  }

  lemma {:induction false} UniqueMembers(s: seq<Entry>)
    ensures forall x :: x in Unique(s) ==> x in s
    decreases |s|
  {
    if s != [] {
      UniqueMembers(s[..|s| - 1]);
    }
  }

  /** Unique keeps a table sorted by offset. */
  lemma {:induction false} UniqueSorted(s: seq<Entry>)
    requires SortedByOffset(s)
    ensures SortedByOffset(Unique(s))
    decreases |s|
  {
    if s != [] {
      var init := s[..|s| - 1];
      var last := s[|s| - 1];
      assert SortedByOffset(init);
      UniqueSorted(init);
      UniqueMembers(init);
      var u0 := Unique(init);
      forall k | 0 <= k < |u0| ensures u0[k].offset <= last.offset {
        assert u0[k] in init;
      }
    }
  }

  /** The (offset, size) ranges that occur in a table. */
  function Ranges(s: seq<Entry>): set<(nat, nat)>
  {
    if s == [] then {} else Ranges(s[..|s| - 1]) + {(s[|s| - 1].offset, s[|s| - 1].size)}
  }

  /** Unique drops only entries whose range it keeps. */
  lemma {:induction false} UniqueKeepsRanges(s: seq<Entry>)
    ensures Ranges(Unique(s)) == Ranges(s)
    decreases |s|
  {
    if s != [] {
      var init := s[..|s| - 1];
      var last := s[|s| - 1];
      var u0 := Unique(init);
      UniqueKeepsRanges(init);
      if u0 != [] && Same(u0[|u0| - 1], last) {
        assert Unique(s) == u0;
        assert (last.offset, last.size) in Ranges(u0);
      } else {
        assert Ranges(Unique(s)) == Ranges(u0) + {(last.offset, last.size)} by {
          assert Unique(s)[..|Unique(s)| - 1] == u0;
        }
      }
    }
  }

  // ---------------------------------------------------------------------
  // Looking an address up

  /** std::lower_bound by offset: the first entry not below x. */
  function LowerBound(s: seq<Entry>, x: nat): (k: nat)
    ensures k <= |s|
    ensures forall j :: 0 <= j < k ==> s[j].offset < x
    ensures k < |s| ==> s[k].offset >= x
  {
    if s == [] || s[0].offset >= x then 0 else 1 + LowerBound(s[1..], x)
  }

  /** The range test of findSymbol, with the 64-bit end address wrapping. */
  predicate Covers(e: Entry, x: nat)
  {
    e.offset <= x && ((e.offset + e.size) % U64 > x || e.size == 0)
  }

  /** findSymbol's choice: an exact match at the lower bound, else the entry just below if it covers x. */
  function FindIndex(s: seq<Entry>, x: nat): (r: Option<nat>)
    ensures r.Some? ==> r.value < |s|
  {
    var k := LowerBound(s, x);
    if k < |s| && s[k].offset == x then Some(k)
    else if k == 0 then None
    else if Covers(s[k - 1], x) then Some(k - 1)
    else None
  }

  /** A linear scan for the first entry starting at x. */
  function FirstAt(s: seq<Entry>, x: nat): (r: Option<nat>)
    ensures r.Some? ==> r.value < |s| && s[r.value].offset == x && forall j :: 0 <= j < r.value ==> s[j].offset != x
    ensures r.None? ==> forall j :: 0 <= j < |s| ==> s[j].offset != x
  {
    if s == [] then None
    else if s[0].offset == x then Some(0)
    else match FirstAt(s[1..], x)
      case None => None
      case Some(i) => Some(i + 1)
  }

  /** A linear scan from the end for the last entry starting below x. */
  function LastBelow(s: seq<Entry>, x: nat): (r: Option<nat>)
    ensures r.Some? ==> r.value < |s| && s[r.value].offset < x && forall j :: r.value < j < |s| ==> s[j].offset >= x
    ensures r.None? ==> forall j :: 0 <= j < |s| ==> s[j].offset >= x
  {
    if s == [] then None
    else if s[|s| - 1].offset < x then Some(|s| - 1)
    else LastBelow(s[..|s| - 1], x)
  }

  /** What findSymbol answers, stated by scans instead of a binary search. */
  function ScanIndex(s: seq<Entry>, x: nat): Option<nat>
  {
    if FirstAt(s, x).Some? then FirstAt(s, x)
    else match LastBelow(s, x)
      case None => None
      case Some(i) => if Covers(s[i], x) then Some(i) else None
  }

  /**
   * On a sorted table the lookup returns the first entry that starts exactly
   * at x; failing that the last entry that starts below x, when it covers
   * x; and otherwise nothing.
   */
  lemma FindIndexIsScan(s: seq<Entry>, x: nat)
    requires SortedByOffset(s)
    ensures FindIndex(s, x) == ScanIndex(s, x)
  {
    var k := LowerBound(s, x);
    var first := FirstAt(s, x);
    var below := LastBelow(s, x);
    forall j | k <= j < |s| ensures s[j].offset >= x {
      assert s[k].offset <= s[j].offset;
    }
    if k < |s| && s[k].offset == x {
      assert first.Some?;
      assert first.value <= k;
      assert first.value >= k;
    } else {
      forall j | 0 <= j < |s| ensures s[j].offset != x {
        if k < |s| {
          assert s[k].offset <= s[j].offset || j < k;
        }
      }
      assert first.None?;
      if k == 0 {
        assert below.None?;
      } else {
        assert s[k - 1].offset < x;
        assert below.Some?;
        assert below.value >= k - 1;
        assert below.value <= k - 1;
      }
    }
  }

  /** Two tables with the same ranges in the same order. */
  predicate SameRanges(s: seq<Entry>, t: seq<Entry>)
  {
    |s| == |t| && forall i :: 0 <= i < |s| ==> Same(s[i], t[i])
  }

  lemma {:induction false} LowerBoundSameRanges(s: seq<Entry>, t: seq<Entry>, x: nat)
    requires SameRanges(s, t)
    ensures LowerBound(s, x) == LowerBound(t, x)
    decreases |s|
  {
    if s != [] && s[0].offset < x {
      LowerBoundSameRanges(s[1..], t[1..], x);
    }
  }

  /** The lookup depends only on the ranges, so demangling a name does not change later answers. */
  lemma FindIndexSameRanges(s: seq<Entry>, t: seq<Entry>, x: nat)
    requires SameRanges(s, t)
    ensures FindIndex(s, x) == FindIndex(t, x)
  {
    LowerBoundSameRanges(s, t, x);
    var k := LowerBound(s, x);
    if k < |s| {
      assert Same(s[k], t[k]);
    }
    if 0 < k {
      assert Same(s[k - 1], t[k - 1]);
      assert Covers(s[k - 1], x) == Covers(t[k - 1], x);
    }
  }

  // ---------------------------------------------------------------------
  // Demangling

  /** lazyDemangle: demangle the name unless that was done already. */
  function Demangled(e: Entry, demangle: string -> string): (d: Entry)
    ensures d.demangled && Same(d, e) && d.value == e.value
  {
    if e.demangled then e else e.(symname := demangle(e.symname), demangled := true)
  }

  /** Demangling is done at most once: a demangled entry is left as it is. */
  lemma DemangledOnce(e: Entry, demangle: string -> string)
    ensures Demangled(Demangled(e, demangle), demangle) == Demangled(e, demangle)
    ensures e.demangled ==> Demangled(e, demangle) == e
    ensures !e.demangled ==> Demangled(e, demangle).symname == demangle(e.symname)
  {
  }

  // ---------------------------------------------------------------------
  // The cache

  /** The table stored for a path, or the empty table that looking it up creates. */
  function Table(cache: map<string, seq<Entry>>, filePath: string): seq<Entry>
  {
    if filePath in cache then cache[filePath] else []
  }

  /** findSymbol on one table: the entry returned and the table afterwards. */
  function Lookup(symbols: seq<Entry>, x: nat, demangle: string -> string): (r: (Entry, seq<Entry>))
    ensures |r.1| == |symbols|
    ensures forall i :: 0 <= i < |symbols| && r.1[i] != symbols[i] ==> r.1[i] == r.0
  {
    match FindIndex(symbols, x)
    case None => (Invalid, symbols)
    case Some(i) =>
      var e := Demangled(symbols[i], demangle);
      (e, symbols[i := e])
  }

  /**
   * A lookup changes at most the one entry it returns, and only its name:
   * the table keeps its ranges and order, the returned entry is the one
   * FindIndex chose, demangled, and a second lookup of the same address
   * returns the same entry without demangling again.
   */
  lemma LookupSpec(symbols: seq<Entry>, x: nat, demangle: string -> string)
    requires SortedByOffset(symbols)
    ensures var (e, t) := Lookup(symbols, x, demangle);
      && SortedByOffset(t)
      && SameRanges(symbols, t)
      && (FindIndex(symbols, x).None? ==> e == Invalid && t == symbols)
      && (FindIndex(symbols, x).Some? ==> e.demangled && Same(e, symbols[FindIndex(symbols, x).value]))
      && Lookup(t, x, demangle) == (e, t)
  {
    var (e, t) := Lookup(symbols, x, demangle);
    FindIndexSameRanges(symbols, t, x);
    match FindIndex(symbols, x)
    case None =>
    case Some(i) =>
      DemangledOnce(symbols[i], demangle);
      assert t[i := e] == t;
  }


  /**
   * The search of findSymbol on one table: lower_bound, then the exact
   * match, then the entry just below it if its range covers the address;
   * a found entry is demangled lazily in the table.
   */
  method FindInTable(symbols: seq<Entry>, relAddr: nat, demangle: string -> string) returns (entry: Entry, updated: seq<Entry>)
    ensures (entry, updated) == Lookup(symbols, relAddr, demangle)
  {
    updated := symbols;
    var it := LowerBound(symbols, relAddr);
    if it < |symbols| && symbols[it].offset == relAddr {
      entry, updated := LazyDemangle(symbols, it, demangle);
      return;
    }
    if it == 0 {
      entry := Invalid;
      return;
    }
    it := it - 1;
    var e := symbols[it];
    if e.offset <= relAddr && ((e.offset + e.size) % U64 > relAddr || e.size == 0) {
      entry, updated := LazyDemangle(symbols, it, demangle);
      return;
    }
    entry := Invalid;
  }

  /** lazyDemangle: demangle entry i unless that was done already, and return it. */
  method LazyDemangle(symbols: seq<Entry>, i: nat, demangle: string -> string) returns (entry: Entry, updated: seq<Entry>)
    requires i < |symbols|
    ensures entry == Demangled(symbols[i], demangle) && updated == symbols[i := entry]
  {
    entry := symbols[i];
    updated := symbols;
    if !entry.demangled {
      entry := entry.(symname := demangle(entry.symname), demangled := true);
      updated := updated[i := entry];
    } else {
      assert symbols[i := entry] == symbols;
    }
  }

  /** Every stored table is sorted by offset. */
  ghost predicate AllSorted(cache: map<string, seq<Entry>>)
  {
    forall path :: path in cache ==> SortedByOffset(cache[path])
  }

  lemma StoreSorted(cache: map<string, seq<Entry>>, filePath: string, t: seq<Entry>)
    requires AllSorted(cache) && SortedByOffset(t)
    ensures AllSorted(cache[filePath := t])
  {
  }

  class SymbolCache {
    var symbolCache: map<string, seq<Entry>>

    ghost predicate Valid()
      reads this
    {
      AllSorted(symbolCache)
    }

    constructor ()
      ensures Valid() && symbolCache == map[]
    {
      symbolCache := map[];
    }

    /** hasSymbols: whether a table was stored (or looked up) for the path. */
    predicate HasSymbols(filePath: string)
      reads this
      ensures !HasSymbols(filePath) ==> Table(symbolCache, filePath) == []
    {
      filePath in symbolCache
    }

    /** setSymbols: sort the symbols stably by offset, drop adjacent duplicates, and store them. */
    method SetSymbols(filePath: string, symbols: seq<Entry>)
      requires Valid()
      modifies this
      ensures Valid()
      ensures symbolCache == old(symbolCache)[filePath := Unique(StableSort(symbols))]
    {
      var sorted := StableSort(symbols);
      StableSortSpec(symbols);
      var unique := Unique(sorted);
      UniqueSorted(sorted);
      StoreSorted(symbolCache, filePath, unique);
      symbolCache := symbolCache[filePath := unique];
    }

    /**
     * findSymbol: the table of an unknown path is created empty; the entry
     * chosen by FindIndex is demangled in place and returned; otherwise the
     * invalid entry is returned.
     */
    method FindSymbol(filePath: string, relAddr: nat, demangle: string -> string) returns (entry: Entry)
      requires Valid()
      modifies this
      ensures Valid() && HasSymbols(filePath)
      ensures (entry, symbolCache[filePath]) == Lookup(Table(old(symbolCache), filePath), relAddr, demangle)
      ensures symbolCache == old(symbolCache)[filePath := symbolCache[filePath]]
    {
      var symbols := Table(symbolCache, filePath);
      var updated;
      entry, updated := FindInTable(symbols, relAddr, demangle);
      LookupSpec(symbols, relAddr, demangle);
      StoreSorted(symbolCache, filePath, updated);
      symbolCache := symbolCache[filePath := updated];
    }
  }
}
