/**
 * The trace tree of libheaptrack's writer side: backtraces are folded
 * top-down into a tree of instruction pointers whose edges are numbered
 * once, so a backtrace is written as the index of its innermost edge and
 * each new edge is announced through a callback as (ip, parent index).
 */
module TraceTree {
  import opened Common
  import opened Tries

  /**
   * A node of the tree: the instruction pointer of its frame, its index and
   * its children, given as positions in the edge store and sorted by ip.
   */
  datatype TraceEdge = TraceEdge(ip: nat, index: nat, children: seq<nat>)

  /**
   * The frames of a backtrace in the order the tree is walked: the trace is
   * stored innermost frame first, the walk starts at the outermost one, and
   * null entries (0) are skipped.
   */
  function Path(trace: seq<nat>): (path: seq<nat>)
    ensures forall k :: 0 <= k < |path| ==> path[k] != 0
    decreases |trace|
  {
    if trace == [] then [] else Path(trace[1..]) + (if trace[0] == 0 then [] else [trace[0]])
  }

  /** Folding the outer frames trace[i..] first, then the inner ones trace[..i]. */
  lemma {:induction false} PathSplit(trace: seq<nat>, i: nat)
    requires i <= |trace|
    ensures Path(trace) == Path(trace[i..]) + Path(trace[..i])
    decreases i
  {
    if i == 0 {
      assert trace[0..] == trace;
    } else {
      PathSplit(trace[1..], i - 1);
      assert trace[1..][i - 1..] == trace[i..];
      assert trace[1..][..i - 1] == trace[..i][1..];
    }
  }

  /** Children are younger edges with strictly increasing ips. */
  ghost predicate SortedChildren(edges: seq<TraceEdge>, k: nat)
    requires k < |edges|
  {
    var cs := edges[k].children;
    (forall j :: 0 <= j < |cs| ==> k < cs[j] < |edges|) &&
    (forall i, j :: 0 <= i < j < |cs| ==> edges[cs[i]].ip < edges[cs[j]].ip)
  }

  /** `c` is the child of node key.0 for ip key.1. */
  ghost predicate Linked(edges: seq<TraceEdge>, key: (nat, nat), c: nat)
  {
    key.0 < c < |edges| && edges[c].ip == key.1 && c in edges[key.0].children
  }

  /**
   * The edge store: the root (ip 0) at position 0, every edge's index equal
   * to its position, sorted children, and `child` the same tree as a map
   * from (node, ip) to child.
   */
  ghost predicate Tree(edges: seq<TraceEdge>, child: map<(nat, nat), nat>)
  {
    |edges| >= 1 && edges[0].ip == 0 &&
    (forall k :: 0 <= k < |edges| ==> edges[k].index == k && SortedChildren(edges, k)) &&
    (forall key :: key in child ==> Linked(edges, key, child[key])) &&
    (forall k, j :: 0 <= k < |edges| && 0 <= j < |edges[k].children| ==>
       var c := edges[k].children[j];
       c < |edges| && (k, edges[c].ip) in child && child[(k, edges[c].ip)] == c)
  }

  /** `pos` is where lower_bound puts a new ip among the children of node p. */
  ghost predicate Fits(edges: seq<TraceEdge>, p: nat, pos: nat, ip: nat)
    requires p < |edges|
  {
    var cs := edges[p].children;
    pos <= |cs| &&
    (forall j :: 0 <= j < pos ==> cs[j] < |edges| && edges[cs[j]].ip < ip) &&
    (forall j :: pos <= j < |cs| ==> cs[j] < |edges| && ip < edges[cs[j]].ip)
  }

  /** The store after a new edge for `ip` is created under node p at child position pos. */
  function Inserted(edges: seq<TraceEdge>, p: nat, pos: nat, ip: nat): (edges': seq<TraceEdge>)
    requires p < |edges| && pos <= |edges[p].children|
    ensures |edges'| == |edges| + 1
  {
    var cs := edges[p].children;
    edges[p := edges[p].(children := cs[..pos] + [|edges|] + cs[pos..])] + [TraceEdge(ip, |edges|, [])]
  }

  lemma InsertedChildren(edges: seq<TraceEdge>, p: nat, pos: nat, ip: nat, j: nat)
    requires p < |edges| && pos <= |edges[p].children|
    requires j < |edges[p].children| + 1
    ensures var cs, cs' := edges[p].children, Inserted(edges, p, pos, ip)[p].children;
      |cs'| == |cs| + 1 &&
      cs'[j] == if j < pos then cs[j] else if j == pos then |edges| else cs[j - 1]
  {
  }

  /** The children of p after the insertion are still younger edges in ip order. */
  lemma InsertSorted(edges: seq<TraceEdge>, child: map<(nat, nat), nat>, p: nat, pos: nat, ip: nat)
    requires Tree(edges, child) && p < |edges| && Fits(edges, p, pos, ip)
    ensures SortedChildren(Inserted(edges, p, pos, ip), p)
  {
    var e' := Inserted(edges, p, pos, ip);
    var m := |edges|;
    var cs := edges[p].children;
    assert SortedChildren(edges, p);
    forall j | 0 <= j < |e'[p].children|
      ensures p < e'[p].children[j] < |e'| && e'[e'[p].children[j]].ip == Key(edges, cs, pos, ip, j)
    {
      InsertedChildren(edges, p, pos, ip, j);
    }
    forall i, j | 0 <= i < j < |e'[p].children|
      ensures e'[e'[p].children[i]].ip < e'[e'[p].children[j]].ip
    {
      InsertedChildren(edges, p, pos, ip, i);
      InsertedChildren(edges, p, pos, ip, j);
      if j < pos {
        assert i < j;
      } else if j > pos && i > pos {
        assert i - 1 < j - 1;
      }
    }
  }

  /** The ip of the j-th child of p after the insertion. */
  function Key(edges: seq<TraceEdge>, cs: seq<nat>, pos: nat, ip: nat, j: nat): nat
    requires pos <= |cs| && j <= |cs|
    requires forall k :: 0 <= k < |cs| ==> cs[k] < |edges|
  {
    if j < pos then edges[cs[j]].ip else if j == pos then ip else edges[cs[j - 1]].ip
  }

  /** Every other node keeps its children, and every old edge its ip and index. */
  lemma InsertKeepsOthers(edges: seq<TraceEdge>, p: nat, pos: nat, ip: nat, k: nat)
    requires p < |edges| && pos <= |edges[p].children| && k < |edges|
    ensures var e' := Inserted(edges, p, pos, ip);
      e'[k].ip == edges[k].ip && e'[k].index == edges[k].index &&
      (k != p ==> e'[k].children == edges[k].children)
  {
  }

  /** After the insertion every edge keeps its index and every node sorted children. */
  lemma InsertKeepsNodes(edges: seq<TraceEdge>, child: map<(nat, nat), nat>, p: nat, pos: nat, ip: nat)
    requires Tree(edges, child) && p < |edges| && Fits(edges, p, pos, ip)
    ensures var e' := Inserted(edges, p, pos, ip);
      forall k :: 0 <= k < |e'| ==> e'[k].index == k && SortedChildren(e', k)
  {
    var e' := Inserted(edges, p, pos, ip);
    InsertSorted(edges, child, p, pos, ip);
    forall k | 0 <= k < |e'|
      ensures e'[k].index == k && SortedChildren(e', k)
    {
      if k < |edges| {
        InsertKeepsOthers(edges, p, pos, ip, k);
        if k != p {
          assert SortedChildren(edges, k);
          forall j | 0 <= j < |e'[k].children| ensures e'[e'[k].children[j]].ip == edges[edges[k].children[j]].ip {
            InsertKeepsOthers(edges, p, pos, ip, edges[k].children[j]);
          }
        }
      }
    }
  }

  /** After the insertion every entry of the map, old or new, is an edge of the store. */
  lemma InsertKeepsLinks(edges: seq<TraceEdge>, child: map<(nat, nat), nat>, p: nat, pos: nat, ip: nat)
    requires Tree(edges, child) && p < |edges| && Fits(edges, p, pos, ip) && (p, ip) !in child
    ensures var e', c' := Inserted(edges, p, pos, ip), child[(p, ip) := |edges|];
      forall key :: key in c' ==> Linked(e', key, c'[key])
  {
    var e' := Inserted(edges, p, pos, ip);
    var c' := child[(p, ip) := |edges|];
    var cs := edges[p].children;
    forall key | key in c' ensures Linked(e', key, c'[key]) {
      if key != (p, ip) {
        assert Linked(edges, key, child[key]);
        InsertKeepsOthers(edges, p, pos, ip, child[key]);
        InsertKeepsOthers(edges, p, pos, ip, key.0);
        if key.0 == p {
          var j :| 0 <= j < |cs| && cs[j] == child[key];
          InsertedChildren(edges, p, pos, ip, if j < pos then j else j + 1);
        }
      } else {
        InsertedChildren(edges, p, pos, ip, pos);
      }
    }
  }

  /** After the insertion every edge of the store, old or new, is an entry of the map. */
  lemma InsertKeepsEntries(edges: seq<TraceEdge>, child: map<(nat, nat), nat>, p: nat, pos: nat, ip: nat)
    requires Tree(edges, child) && p < |edges| && Fits(edges, p, pos, ip) && (p, ip) !in child
    ensures var e', c' := Inserted(edges, p, pos, ip), child[(p, ip) := |edges|];
      forall k, j :: 0 <= k < |e'| && 0 <= j < |e'[k].children| ==>
        var c := e'[k].children[j];
        c < |e'| && (k, e'[c].ip) in c' && c'[(k, e'[c].ip)] == c
  {
    var e' := Inserted(edges, p, pos, ip);
    var c' := child[(p, ip) := |edges|];
    var cs := edges[p].children;
    forall k, j | 0 <= k < |e'| && 0 <= j < |e'[k].children|
      ensures var c := e'[k].children[j]; c < |e'| && (k, e'[c].ip) in c' && c'[(k, e'[c].ip)] == c
    {
      if k != p {
        InsertKeepsOthers(edges, p, pos, ip, k);
        var c := edges[k].children[j];
        InsertKeepsOthers(edges, p, pos, ip, c);
      } else {
        InsertedChildren(edges, p, pos, ip, j);
        if j != pos {
          var c := cs[if j < pos then j else j - 1];
          InsertKeepsOthers(edges, p, pos, ip, c);
        }
      }
    }
  }

  /** Creating a new edge under p keeps the store a tree, with the new edge the child for `ip`. */
  lemma InsertKeepsTree(edges: seq<TraceEdge>, child: map<(nat, nat), nat>, p: nat, pos: nat, ip: nat)
    requires Tree(edges, child) && p < |edges| && Fits(edges, p, pos, ip) && (p, ip) !in child
    ensures Tree(Inserted(edges, p, pos, ip), child[(p, ip) := |edges|])
  {
    InsertKeepsOthers(edges, p, pos, ip, 0);
    InsertKeepsNodes(edges, child, p, pos, ip);
    InsertKeepsLinks(edges, child, p, pos, ip);
    InsertKeepsEntries(edges, child, p, pos, ip);
  }

  /** When lower_bound lands on no edge for `ip`, node p has no child for it. */
  lemma Absent(edges: seq<TraceEdge>, child: map<(nat, nat), nat>, p: nat, pos: nat, ip: nat)
    requires Tree(edges, child) && p < |edges|
    requires pos <= |edges[p].children|
    requires forall j :: 0 <= j < pos ==> edges[edges[p].children[j]].ip < ip
    requires forall j :: pos <= j < |edges[p].children| ==> ip <= edges[edges[p].children[j]].ip
    requires pos == |edges[p].children| || edges[edges[p].children[pos]].ip != ip
    ensures (p, ip) !in child
    ensures Fits(edges, p, pos, ip)
  {
    var cs := edges[p].children;
    assert SortedChildren(edges, p);
    if (p, ip) in child {
      assert Linked(edges, (p, ip), child[(p, ip)]);
      var j :| 0 <= j < |cs| && cs[j] == child[(p, ip)];
      assert false;
    }
  }

  class TraceTree {
    /** m_root at position 0, then the edges in creation order. */
    var edges: seq<TraceEdge>
    /** m_index: the index of the next new edge. */
    var nextIndex: nat
    /** The same tree as a map from (node, ip) to child. */
    ghost var child: map<(nat, nat), nat>

    ghost predicate Valid()
      reads this
    {
      Tree(edges, child) && nextIndex == |edges|
    }

    constructor()
      ensures Valid() && edges == [TraceEdge(0, 0, [])] && nextIndex == 1 && child == map[]
    {
      edges := [TraceEdge(0, 0, [])];
      nextIndex := 1;
      child := map[];
    }

    /** clear(): the root loses all its children and numbering restarts at 1. */
    method Clear()
      modifies this
      ensures Valid() && edges == [TraceEdge(0, 0, [])] && nextIndex == 1 && child == map[]
    {
      edges := [TraceEdge(0, 0, [])];
      nextIndex := 1;
      child := map[];
    }

    /** std::lower_bound over the children of `node`: the first child whose ip is not below `ip`. */
    method LowerBound(node: nat, ip: nat) returns (pos: nat)
      requires Valid() && node < |edges|
      ensures pos <= |edges[node].children|
      ensures forall j :: 0 <= j < pos ==> edges[edges[node].children[j]].ip < ip
      ensures forall j :: pos <= j < |edges[node].children| ==> ip <= edges[edges[node].children[j]].ip
    {
      var cs := edges[node].children;
      assert SortedChildren(edges, node);
      var lo, hi := 0, |cs|;
      while lo < hi
        invariant 0 <= lo <= hi <= |cs|
        invariant forall j :: 0 <= j < lo ==> edges[cs[j]].ip < ip
        invariant forall j :: hi <= j < |cs| ==> ip <= edges[cs[j]].ip
      {
        var mid := lo + (hi - lo) / 2;
        if edges[cs[mid]].ip < ip {
          lo := mid + 1;
        } else {
          hi := mid;
        }
      }
      pos := lo;
    }

    /** A new edge for `ip` under `parent`, inserted at child position pos; it takes the next index. */
    method AddEdge(parent: nat, pos: nat, ip: nat) returns (e: nat)
      requires Valid() && parent < |edges| && Fits(edges, parent, pos, ip) && (parent, ip) !in child
      modifies this
      ensures Valid() && e == old(|edges|)
      ensures edges == Inserted(old(edges), parent, pos, ip) && child == old(child)[(parent, ip) := e]
    {
      InsertKeepsTree(edges, child, parent, pos, ip);
      e := nextIndex;
      nextIndex := nextIndex + 1;
      edges := Inserted(edges, parent, pos, ip);
      child := child[(parent, ip) := e];
    }

    /**
     * One step of the walk: the child of `parent` for `ip`, found by
     * lower_bound among the sorted children or created at that position.
     */
    method Descend(parent: nat, ip: nat) returns (it: nat, created: bool)
      requires Valid() && parent < |edges|
      modifies this
      ensures Valid() && it < |edges| && (parent, ip) in child && child[(parent, ip)] == it
      ensures created <==> (parent, ip) !in old(child)
      ensures !created ==> edges == old(edges) && child == old(child)
      ensures created ==> it == old(|edges|) && |edges| == it + 1 && child == old(child)[(parent, ip) := it]
    {
      var pos := LowerBound(parent, ip);
      var cs := edges[parent].children;
      if pos == |cs| || edges[cs[pos]].ip != ip {
        Absent(edges, child, parent, pos, ip);
        it := AddEdge(parent, pos, ip);
        created := true;
      } else {
        assert SortedChildren(edges, parent);
        it := cs[pos];
        created := false;
      }
    }

    /**
     * One step of the walk in Index: follow (or create) the edge for trace[i]
     * below `parent`, keeping the walk of the suffix trace[i..] and the report
     * of the edges created so far in step with the tree.
     */
    method Visit(trace: seq<nat>, i: nat, parent: nat, ghost calls: seq<(nat, nat)>,
                 ghost start: map<(nat, nat), nat>, ghost base: nat) returns (it: nat, created: bool)
      requires Valid() && i < |trace| && trace[i] != 0 && parent < |edges|
      requires Extends(start, child)
      requires |edges| == base + |calls| && |child| == |start| + |calls|
      requires Reported(child, calls, base)
      requires Walk(child, 0, Path(trace[i + 1..])) == Some(parent)
      requires Walk(start, 0, Path(trace)).Some? ==> calls == [] && child == start
      modifies this
      ensures Valid() && it < |edges| && edges[it].index == it
      ensures var calls' := if created then calls + [(trace[i], parent)] else calls;
        Extends(start, child) && |edges| == base + |calls'| && |child| == |start| + |calls'| &&
        Reported(child, calls', base)
      ensures Walk(child, 0, Path(trace[i..])) == Some(it)
      ensures !created ==> edges == old(edges) && child == old(child)
      ensures Walk(start, 0, Path(trace)).Some? ==> !created
    {
      var ip := trace[i];
      assert trace[i..][1..] == trace[i + 1..];
      ghost var path := Path(trace[i + 1..]);
      assert Path(trace[i..]) == path + [ip];
      ghost var before := child;
      it, created := Descend(parent, ip);
      if created {
        NotWalked(trace, i, start, before, path, parent);
        WalkGrow(before, child, 0, path);
        ExtendsTrans(start, before, child);
        ReportedSnoc(before, child, calls, base, ip, parent);
      }
      WalkSnoc(child, 0, path, ip);
    }

    /**
     * index(trace, callback): walks the tree from the outermost frame,
     * creating missing edges, and returns the index of the innermost one.
     * Each new edge is reported to the callback as (ip, parent index); when
     * the callback refuses, the walk stops and 0 is returned.
     */
    method Index(trace: seq<nat>, callback: (nat, nat) -> bool) returns (index: nat, calls: seq<(nat, nat)>)
      requires Valid()
      modifies this
      ensures Valid()
      ensures Extends(old(child), child)
      ensures |edges| == old(|edges|) + |calls| && |child| == old(|child|) + |calls|
      ensures Reported(child, calls, old(|edges|))
      ensures Walk(old(child), 0, Path(trace)).Some? ==>
        calls == [] && edges == old(edges) && child == old(child) && index == Walk(old(child), 0, Path(trace)).value
      ensures Accepted(callback, calls) ==> Walk(child, 0, Path(trace)) == Some(index)
      ensures !Accepted(callback, calls) ==>
        index == 0 && calls != [] && Accepted(callback, calls[..|calls| - 1]) &&
        !callback(calls[|calls| - 1].0, calls[|calls| - 1].1)
    {
      index := 0;
      calls := [];
      var parent: nat := 0;
      var i := |trace|;
      while i > 0
        invariant 0 <= i <= |trace| && Valid()
        invariant parent < |edges| && index == parent
        invariant Extends(old(child), child)
        invariant |edges| == old(|edges|) + |calls| && |child| == old(|child|) + |calls|
        invariant Reported(child, calls, old(|edges|))
        invariant Accepted(callback, calls)
        invariant Walk(child, 0, Path(trace[i..])) == Some(parent)
        invariant Walk(old(child), 0, Path(trace)).Some? ==> calls == [] && edges == old(edges) && child == old(child)
      {
        ghost var walked := trace[i..];
        i := i - 1;
        var ip := trace[i];
        assert trace[i + 1..] == walked;
        if ip == 0 {
          assert trace[i..][1..] == trace[i + 1..];
          assert Path(trace[i..]) == Path(trace[i + 1..]);
        } else {
          var it, created := Visit(trace, i, parent, calls, old(child), old(|edges|));
          if created {
            ghost var prior := calls;
            calls := calls + [(ip, parent)];
            AcceptedSnoc(callback, prior, (ip, parent));
            if !callback(ip, parent) {
              index := 0;
              return;
            }
          }
          index := it;
          parent := it;
        }
      }
      assert trace[0..] == trace;
    }
  }

  /** Every reported edge was accepted by the callback. */
  ghost predicate Accepted(callback: (nat, nat) -> bool, calls: seq<(nat, nat)>)
  {
    forall j :: 0 <= j < |calls| ==> callback(calls[j].0, calls[j].1)
  }

  lemma AcceptedSnoc(callback: (nat, nat) -> bool, calls: seq<(nat, nat)>, c: (nat, nat))
    ensures Accepted(callback, calls + [c]) <==> Accepted(callback, calls) && callback(c.0, c.1)
    ensures (calls + [c])[..|calls|] == calls
  {
    assert (calls + [c])[..|calls|] == calls;
    if Accepted(callback, calls + [c]) {
      assert callback((calls + [c])[|calls|].0, (calls + [c])[|calls|].1);
    }
  }

  /** Every node of c is still there, with the same child, in c'. */
  ghost predicate Extends(c: map<(nat, nat), nat>, c': map<(nat, nat), nat>)
  {
    forall key :: key in c ==> key in c' && c'[key] == c[key]
  }

  lemma ExtendsTrans(c0: map<(nat, nat), nat>, c1: map<(nat, nat), nat>, c2: map<(nat, nat), nat>)
    requires Extends(c0, c1) && Extends(c1, c2)
    ensures Extends(c0, c2)
  {
  }

  /** Call j reported the edge created j-th after `base`: its ip and its parent's index. */
  ghost predicate Reported(child: map<(nat, nat), nat>, calls: seq<(nat, nat)>, base: nat)
  {
    forall j :: 0 <= j < |calls| ==>
      calls[j].0 != 0 && (calls[j].1, calls[j].0) in child && child[(calls[j].1, calls[j].0)] == base + j
  }

  lemma ReportedSnoc(child: map<(nat, nat), nat>, child': map<(nat, nat), nat>, calls: seq<(nat, nat)>,
                     base: nat, ip: nat, parent: nat)
    requires Reported(child, calls, base) && Extends(child, child')
    requires ip != 0 && (parent, ip) in child' && child'[(parent, ip)] == base + |calls|
    ensures Reported(child', calls + [(ip, parent)], base)
  {
  }

  /**
   * A trace whose whole path already existed creates nothing: if the walk
   * reached `parent` with `ip` still missing, the old tree cannot have had
   * the whole path, unless the tree has changed since.
   */
  lemma NotWalked(trace: seq<nat>, i: nat, old_child: map<(nat, nat), nat>, child: map<(nat, nat), nat>,
                  path: seq<nat>, parent: nat)
    requires i < |trace| && trace[i] != 0
    requires path == Path(trace[i + 1..]) && Path(trace[i..]) == path + [trace[i]]
    requires Walk(child, 0, path) == Some(parent) && (parent, trace[i]) !in child
    ensures Walk(old_child, 0, Path(trace)).Some? ==> old_child != child
  {
    if Walk(old_child, 0, Path(trace)).Some? && old_child == child {
      PathSplit(trace, i);
      WalkAppend(child, 0, Path(trace[i..]), Path(trace[..i]));
      WalkSnoc(child, 0, path, trace[i]);
    }
  }
}
