/**
 * PointerMap: the interpreter's map from live pointers to allocation-info
 * indices. A pointer is split into a big part (the hash-map key) and a small
 * part; each big part keeps two parallel vectors, the small parts sorted and
 * the allocation indices beside them. AllocationInfoSet numbers the distinct
 * (size, trace) pairs in the order they are first seen.
 */
module PointerMap {
  import opened Common

  /** SplitPointer::PageSize: the largest uint16_t divided by 4. */
  const PAGE_SIZE: nat := 65535 / 4

  /** SplitPointer: the quotient and the remainder of ptr by the page size. */
  function Split(ptr: nat): (parts: (nat, nat))
    ensures parts.1 < PAGE_SIZE && parts.0 * PAGE_SIZE + parts.1 == ptr
  {
    (ptr / PAGE_SIZE, ptr % PAGE_SIZE)
  }

  /** A pointer is determined by its two parts, and every pair with a small small part is some pointer's split. */
  lemma SplitIsBijective(p: nat, q: nat, big: nat, small: nat)
    requires small < PAGE_SIZE
    ensures Split(p) == Split(q) ==> p == q
    ensures Split(big * PAGE_SIZE + small) == (big, small)
  {
    DivUnique(big * PAGE_SIZE + small, PAGE_SIZE, big, small);
  }

  /** Quotient and remainder are the only such pair. */
  lemma DivUnique(n: int, d: int, q: int, r: int)
    requires d > 0 && 0 <= r < d && n == q * d + r
    ensures n / d == q && n % d == r
  {
    var q', r' := n / d, n % d;
    assert (q' - q) * d == r - r';
    if q' > q {
      MulAtLeast(q' - q, d);
    } else if q' < q {
      MulAtLeast(q - q', d);
    }
  }

  lemma MulAtLeast(a: int, d: int)
    requires a >= 1 && d > 0
    ensures a * d >= d
  {
  }

  predicate Sorted(xs: seq<nat>)
  {
    forall i, j :: 0 <= i < j < |xs| ==> xs[i] < xs[j]
  }

  /** Where x goes in sorted xs: the number of elements smaller than x. */
  function Position(xs: seq<nat>, x: nat): (k: nat)
    requires Sorted(xs)
    ensures k <= |xs|
    ensures forall j :: 0 <= j < k ==> xs[j] < x
    ensures forall j :: k <= j < |xs| ==> xs[j] >= x
  {
    if xs == [] || xs[|xs| - 1] < x then |xs| else Position(xs[..|xs| - 1], x)
  }

  /** std::lower_bound by bisection over the sorted small parts. */
  method LowerBound(xs: seq<nat>, x: nat) returns (lo: nat)
    requires Sorted(xs)
    ensures lo == Position(xs, x)
  {
    lo := 0;
    var hi := |xs|;
    while lo < hi
      invariant lo <= hi <= |xs|
      invariant forall j :: 0 <= j < lo ==> xs[j] < x
      invariant forall j :: hi <= j < |xs| ==> xs[j] >= x
    {
      var mid := (lo + hi) / 2;
      if xs[mid] < x {
        lo := mid + 1;
      } else {
        hi := mid;
      }
    }
    var k := Position(xs, x);
    assert lo < |xs| ==> xs[lo] >= x;
    assert k < |xs| ==> xs[k] >= x;
  }

  /** One bucket: the sorted small parts and, at the same positions, their allocation indices. */
  datatype Indices = Indices(smallPtrParts: seq<nat>, allocationIndices: seq<nat>)

  ghost predicate BucketValid(b: Indices)
  {
    |b.smallPtrParts| == |b.allocationIndices| && |b.smallPtrParts| > 0 && Sorted(b.smallPtrParts)
    && forall i :: 0 <= i < |b.smallPtrParts| ==> b.smallPtrParts[i] < PAGE_SIZE
  }

  /** The allocation index a bucket holds for a small part. */
  function Find(b: Indices, small: nat): (r: Option<nat>)
    requires |b.smallPtrParts| == |b.allocationIndices| && Sorted(b.smallPtrParts)
    ensures r.None? <==> small !in b.smallPtrParts
  {
    var k := Position(b.smallPtrParts, small);
    if k < |b.smallPtrParts| && b.smallPtrParts[k] == small then Some(b.allocationIndices[k]) else None
  }

  lemma FindAt(b: Indices, k: nat)
    requires |b.smallPtrParts| == |b.allocationIndices| && Sorted(b.smallPtrParts) && k < |b.smallPtrParts|
    ensures Find(b, b.smallPtrParts[k]) == Some(b.allocationIndices[k])
  {
  }

  /** The bucket after addPointer of small with idx: overwritten in place, or inserted at its position. */
  function Placed(b: Indices, small: nat, idx: nat): (b': Indices)
    requires |b.smallPtrParts| == |b.allocationIndices| && Sorted(b.smallPtrParts)
  {
    var k := Position(b.smallPtrParts, small);
    if k < |b.smallPtrParts| && b.smallPtrParts[k] == small then
      Indices(b.smallPtrParts, b.allocationIndices[k := idx])
    else
      Indices(b.smallPtrParts[..k] + [small] + b.smallPtrParts[k..],
              b.allocationIndices[..k] + [idx] + b.allocationIndices[k..])
  }

  /** The bucket after takePointer of a small part it holds: both vectors lose that position. */
  function Removed(b: Indices, small: nat): (b': Indices)
    requires |b.smallPtrParts| == |b.allocationIndices| && Sorted(b.smallPtrParts)
  {
    var k := Position(b.smallPtrParts, small);
    if k < |b.smallPtrParts| && b.smallPtrParts[k] == small then
      Indices(b.smallPtrParts[..k] + b.smallPtrParts[k + 1..],
              b.allocationIndices[..k] + b.allocationIndices[k + 1..])
    else b
  }

  /** Placing keeps the bucket sorted, unique and parallel, and maps small to idx and nothing else anew. */
  lemma PlacedValid(b: Indices, small: nat, idx: nat)
    requires (b.smallPtrParts == [] && b.allocationIndices == []) || BucketValid(b)
    requires small < PAGE_SIZE
    ensures BucketValid(Placed(b, small, idx))
    ensures Find(Placed(b, small, idx), small) == Some(idx)
    ensures forall s :: s != small ==> Find(Placed(b, small, idx), s) == Find(b, s)
  {
    var xs := b.smallPtrParts;
    var k := Position(xs, small);
    var b' := Placed(b, small, idx);
    var xs' := b'.smallPtrParts;
    if !(k < |xs| && xs[k] == small) {
      forall i, j | 0 <= i < j < |xs'| ensures xs'[i] < xs'[j] {
        InsertedAt(xs, k, small, i);
        InsertedAt(xs, k, small, j);
      }
      forall i | 0 <= i < |xs'| ensures xs'[i] < PAGE_SIZE {
        InsertedAt(xs, k, small, i);
      }
      InsertedAt(xs, k, small, k);
      InsertedAt(b.allocationIndices, k, idx, k);
    }
    FindAt(b', k);
    forall s | s != small ensures Find(b', s) == Find(b, s) {
      PlacedOther(b, small, idx, s);
    }
  }

  lemma PlacedOther(b: Indices, small: nat, idx: nat, s: nat)
    requires |b.smallPtrParts| == |b.allocationIndices| && Sorted(b.smallPtrParts)
    requires Sorted(Placed(b, small, idx).smallPtrParts) && s != small
    ensures Find(Placed(b, small, idx), s) == Find(b, s)
  {
    var xs := b.smallPtrParts;
    var k := Position(xs, small);
    if k < |xs| && xs[k] == small {
      OverwrittenOther(b, k, idx, s);
    } else {
      InsertedOther(b, k, small, idx, s);
    }
  }

  /** Overwriting the index at position k leaves every other small part's index alone. */
  lemma OverwrittenOther(b: Indices, k: nat, idx: nat, s: nat)
    requires |b.smallPtrParts| == |b.allocationIndices| && Sorted(b.smallPtrParts)
    requires k < |b.smallPtrParts| && b.smallPtrParts[k] != s
    ensures Find(Indices(b.smallPtrParts, b.allocationIndices[k := idx]), s) == Find(b, s)
  {
    var b' := Indices(b.smallPtrParts, b.allocationIndices[k := idx]);
    var p := Position(b.smallPtrParts, s);
    assert Position(b'.smallPtrParts, s) == p;
    if p < |b.smallPtrParts| && b.smallPtrParts[p] == s {
      assert p != k;
    }
  }

  /** Inserting small with idx at its position k leaves every other small part's index alone. */
  lemma InsertedOther(b: Indices, k: nat, small: nat, idx: nat, s: nat)
    requires |b.smallPtrParts| == |b.allocationIndices| && Sorted(b.smallPtrParts)
    requires k <= |b.smallPtrParts| && s != small
    requires Sorted(b.smallPtrParts[..k] + [small] + b.smallPtrParts[k..])
    ensures Find(Indices(b.smallPtrParts[..k] + [small] + b.smallPtrParts[k..],
                         b.allocationIndices[..k] + [idx] + b.allocationIndices[k..]), s) == Find(b, s)
  {
    var xs, ys := b.smallPtrParts, b.allocationIndices;
    var b' := Indices(xs[..k] + [small] + xs[k..], ys[..k] + [idx] + ys[k..]);
    var xs' := b'.smallPtrParts;
    InsertedAt(xs, k, small, 0);
    InsertedAt(ys, k, idx, 0);
    if s in xs {
      var j :| 0 <= j < |xs| && xs[j] == s;
      FindAt(b, j);
      var j' := if j < k then j else j + 1;
      InsertedAt(xs, k, small, j');
      InsertedAt(ys, k, idx, j');
      assert xs'[j'] == s && b'.allocationIndices[j'] == ys[j];
      FindAt(b', j');
    } else {
      forall j' | 0 <= j' < |xs'| ensures xs'[j'] != s {
        InsertedAt(xs, k, small, j');
      }
      assert s !in xs';
    }
  }

  /** Position j of xs[..k] + [x] + xs[k..]. */
  lemma InsertedAt(xs: seq<nat>, k: nat, x: nat, j: nat)
    requires k <= |xs| && j <= |xs|
    ensures var ys := xs[..k] + [x] + xs[k..];
      |ys| == |xs| + 1 && ys[j] == if j < k then xs[j] else if j == k then x else xs[j - 1]
  {
  }

  /** Position j of xs[..k] + xs[k + 1..]. */
  lemma ErasedAt(xs: seq<nat>, k: nat, j: nat)
    requires k < |xs| && j < |xs| - 1
    ensures var ys := xs[..k] + xs[k + 1..];
      |ys| == |xs| - 1 && ys[j] == if j < k then xs[j] else xs[j + 1]
  {
  }

  /** Removing a small part keeps the bucket sorted and parallel, and forgets exactly that part. */
  lemma RemovedValid(b: Indices, small: nat)
    requires BucketValid(b)
    ensures var b' := Removed(b, small);
      |b'.smallPtrParts| == |b'.allocationIndices| && Sorted(b'.smallPtrParts)
      && (forall i :: 0 <= i < |b'.smallPtrParts| ==> b'.smallPtrParts[i] < PAGE_SIZE)
    ensures Find(Removed(b, small), small) == None
    ensures forall s :: s != small ==> Find(Removed(b, small), s) == Find(b, s)
  {
    var xs := b.smallPtrParts;
    var k := Position(xs, small);
    var b' := Removed(b, small);
    var xs' := b'.smallPtrParts;
    if k < |xs| && xs[k] == small {
      forall i, j | 0 <= i < j < |xs'| ensures xs'[i] < xs'[j] {
        ErasedAt(xs, k, i);
        ErasedAt(xs, k, j);
      }
      forall i | 0 <= i < |xs'| ensures xs'[i] < PAGE_SIZE {
        ErasedAt(xs, k, i);
      }
      forall j | 0 <= j < |xs'| ensures xs'[j] != small {
        ErasedAt(xs, k, j);
      }
      assert small !in xs';
    }
    forall s | s != small ensures Find(b', s) == Find(b, s) {
      RemovedOther(b, small, s);
    }
  }

  lemma RemovedOther(b: Indices, small: nat, s: nat)
    requires |b.smallPtrParts| == |b.allocationIndices| && Sorted(b.smallPtrParts)
    requires Sorted(Removed(b, small).smallPtrParts) && s != small
    ensures Find(Removed(b, small), s) == Find(b, s)
  {
    var xs, ys := b.smallPtrParts, b.allocationIndices;
    var k := Position(xs, small);
    var b' := Removed(b, small);
    var xs' := b'.smallPtrParts;
    if k < |xs| && xs[k] == small {
      if s in xs {
        var j :| 0 <= j < |xs| && xs[j] == s;
        FindAt(b, j);
        var j' := if j < k then j else j - 1;
        ErasedAt(xs, k, j');
        ErasedAt(ys, k, j');
        FindAt(b', j');
      } else {
        forall j' | 0 <= j' < |xs'| ensures xs'[j'] != s {
          ErasedAt(xs, k, j');
        }
        assert s !in xs';
      }
    }
  }

  /** Every bucket is non-empty, sorted and parallel. */
  ghost predicate AllValid(buckets: map<nat, Indices>)
  {
    forall big :: big in buckets ==> BucketValid(buckets[big])
  }

  /** The allocation index the map holds for ptr. */
  function Locate(buckets: map<nat, Indices>, ptr: nat): Option<nat>
    requires AllValid(buckets)
  {
    var big, small := Split(ptr).0, Split(ptr).1;
    if big in buckets then
      assert BucketValid(buckets[big]);
      Find(buckets[big], small)
    else None
  }

  /** The map after addPointer(ptr, idx). */
  function Added(buckets: map<nat, Indices>, ptr: nat, idx: nat): map<nat, Indices>
    requires AllValid(buckets)
  {
    var big, small := Split(ptr).0, Split(ptr).1;
    var b := if big in buckets then buckets[big] else Indices([], []);
    assert big in buckets ==> BucketValid(buckets[big]);
    buckets[big := Placed(b, small, idx)]
  }

  /** The map after takePointer(ptr): the bucket loses ptr's small part and is erased once empty. */
  function Taken(buckets: map<nat, Indices>, ptr: nat): map<nat, Indices>
    requires AllValid(buckets)
  {
    var big, small := Split(ptr).0, Split(ptr).1;
    if big !in buckets then buckets
    else
      assert BucketValid(buckets[big]);
      var b := Removed(buckets[big], small);
      if b.allocationIndices == [] then buckets - {big} else buckets[big := b]
  }

  /** addPointer keeps every bucket valid, maps ptr to idx (overwriting) and leaves other pointers alone. */
  lemma AddedLocate(buckets: map<nat, Indices>, ptr: nat, idx: nat, q: nat)
    requires AllValid(buckets)
    ensures AllValid(Added(buckets, ptr, idx))
    ensures Locate(Added(buckets, ptr, idx), q) == if q == ptr then Some(idx) else Locate(buckets, q)
  {
    var big, small := Split(ptr).0, Split(ptr).1;
    PlacedValid(if big in buckets then buckets[big] else Indices([], []), small, idx);
    SplitIsBijective(ptr, q, 0, 0);
  }

  /** takePointer keeps every bucket valid and non-empty. */
  lemma TakenValid(buckets: map<nat, Indices>, ptr: nat)
    requires AllValid(buckets)
    ensures AllValid(Taken(buckets, ptr))
  {
    var big, small := Split(ptr).0, Split(ptr).1;
    if big in buckets {
      RemovedValid(buckets[big], small);
      var taken := Taken(buckets, ptr);
      forall k | k in taken ensures BucketValid(taken[k]) {
        if k != big {
          assert taken[k] == buckets[k];
        }
      }
    }
  }

  /** takePointer keeps every bucket valid, forgets ptr and leaves other pointers alone. */
  lemma TakenLocate(buckets: map<nat, Indices>, ptr: nat, q: nat)
    requires AllValid(buckets)
    ensures AllValid(Taken(buckets, ptr))
    ensures Locate(Taken(buckets, ptr), q) == if q == ptr then None else Locate(buckets, q)
  {
    TakenValid(buckets, ptr);
    var big, small := Split(ptr).0, Split(ptr).1;
    var qBig, qSmall := Split(q).0, Split(q).1;
    var taken := Taken(buckets, ptr);
    SplitIsBijective(ptr, q, 0, 0);
    if big in buckets {
      RemovedValid(buckets[big], small);
      if qBig != big {
        assert (qBig in taken) == (qBig in buckets);
        assert qBig in taken ==> taken[qBig] == buckets[qBig];
      } else if q != ptr {
        assert qSmall != small;
      }
    } else {
      assert taken == buckets;
    }
  }

  /** Adding then taking a pointer gives its index back and forgets it; a second take finds nothing. */
  lemma AddThenTake(buckets: map<nat, Indices>, ptr: nat, idx: nat, added: map<nat, Indices>)
    requires AllValid(buckets) && added == Added(buckets, ptr, idx)
    ensures AllValid(added) && Locate(added, ptr) == Some(idx)
    ensures AllValid(Taken(added, ptr)) && Locate(Taken(added, ptr), ptr) == None
  {
    AddedLocate(buckets, ptr, idx, ptr);
    TakenLocate(added, ptr, ptr);
  }

  /** The index a map of pointers holds for q, if any. */
  function Held(m: map<nat, nat>, q: nat): Option<nat>
  {
    if q in m then Some(m[q]) else None
  }

  class PointerMap {
    var buckets: map<nat, Indices>
    /** The pointers held and their allocation indices. */
    ghost var contents: map<nat, nat>

    /** Every bucket is valid, and the buckets hold exactly the pointers of contents. */
    ghost predicate Valid()
      reads this
    {
      AllValid(buckets) && forall q :: Locate(buckets, q) == Held(contents, q)
    }

    constructor()
      ensures Valid() && buckets == map[] && contents == map[]
    {
      buckets := map[];
      contents := map[];
    }

    /** The allocation index held for ptr. */
    ghost function Lookup(ptr: nat): Option<nat>
      reads this
      requires Valid()
    {
      Locate(buckets, ptr)
    }

    /** addPointer: find or create the bucket, then overwrite or insert at the lower bound. */
    method AddPointer(ptr: nat, idx: nat)
      requires Valid()
      modifies this
      ensures Valid() && buckets == Added(old(buckets), ptr, idx)
      ensures contents == old(contents)[ptr := idx]
    {
      var big, small := Split(ptr).0, Split(ptr).1;
      var indices := if big in buckets then buckets[big] else Indices([], []);
      var pos := LowerBound(indices.smallPtrParts, small);
      if pos == |indices.smallPtrParts| || indices.smallPtrParts[pos] != small {
        indices := Indices(indices.smallPtrParts[..pos] + [small] + indices.smallPtrParts[pos..],
                           indices.allocationIndices[..pos] + [idx] + indices.allocationIndices[pos..]);
      } else {
        indices := Indices(indices.smallPtrParts, indices.allocationIndices[pos := idx]);
      }
      ghost var before := buckets;
      buckets := buckets[big := indices];
      contents := contents[ptr := idx];
      AddedLocate(before, ptr, idx, ptr);
      forall q ensures Locate(buckets, q) == Held(contents, q) {
        AddedLocate(before, ptr, idx, q);
      }
    }

    /** takePointer: the index and true when ptr is held (it is then removed), else false. */
    method TakePointer(ptr: nat) returns (index: nat, found: bool)
      requires Valid()
      modifies this
      ensures Valid() && buckets == Taken(old(buckets), ptr)
      ensures found <==> ptr in old(contents)
      ensures found ==> index == old(contents)[ptr]
      ensures contents == old(contents) - {ptr}
    {
      var big, small := Split(ptr).0, Split(ptr).1;
      ghost var before := buckets;
      TakenLocate(before, ptr, ptr);
      if big !in buckets {
        assert ptr !in contents by {
          assert Locate(before, ptr) == None;
        }
        assert contents - {ptr} == contents;
        return 0, false;
      }
      var indices := buckets[big];
      var pos := LowerBound(indices.smallPtrParts, small);
      if pos == |indices.smallPtrParts| || indices.smallPtrParts[pos] != small {
        assert ptr !in contents by {
          assert Locate(before, ptr) == Find(indices, small) == None;
        }
        assert contents - {ptr} == contents;
        return 0, false;
      }
      assert Locate(before, ptr) == Some(indices.allocationIndices[pos]);
      index := indices.allocationIndices[pos];
      indices := Indices(indices.smallPtrParts[..pos] + indices.smallPtrParts[pos + 1..],
                         indices.allocationIndices[..pos] + indices.allocationIndices[pos + 1..]);
      assert indices == Removed(before[big], small);
      if indices.allocationIndices == [] {
        buckets := buckets - {big};
      } else {
        buckets := buckets[big := indices];
      }
      found := true;
      assert buckets == Taken(before, ptr);
      ghost var held := contents;
      contents := contents - {ptr};
      forall q ensures Locate(buckets, q) == Held(contents, q) {
        TakenLocate(before, ptr, q);
        assert Locate(before, q) == Held(held, q);
      }
    }
  }

  /**
   * AllocationInfoSet: the distinct (size, trace index) pairs, each with the
   * allocation-info index it got when first added.
   */
  class AllocationInfoSet {
    var infos: map<(nat, nat), nat>
    /** The pairs in the order they were added. */
    ghost var order: seq<(nat, nat)>

    /** Indices are dense: the pair added k-th has index k. */
    ghost predicate Valid()
      reads this
    {
      |order| == |infos|
      && (forall k :: 0 <= k < |order| ==> order[k] in infos && infos[order[k]] == k)
      && (forall key :: key in infos ==> infos[key] < |order| && order[infos[key]] == key)
    }

    constructor()
      ensures Valid() && infos == map[] && order == []
    {
      infos := map[];
      order := [];
    }

    /**
     * add: a new pair gets the current set size as its index and true; a
     * known pair returns its stored index and false.
     */
    method Add(size: nat, trace: nat) returns (isNew: bool, index: nat)
      requires Valid()
      modifies this
      ensures Valid()
      ensures isNew <==> (size, trace) !in old(infos)
      ensures !isNew ==> index == old(infos)[(size, trace)] && infos == old(infos) && order == old(order)
      ensures isNew ==> (index == |old(infos)| && infos == old(infos)[(size, trace) := index]
        && order == old(order) + [(size, trace)])
    {
      var key := (size, trace);
      index := |infos|;
      if key in infos {
        return false, infos[key];
      }
      infos := infos[key := index];
      order := order + [key];
      isNew := true;
    }
  }
}
