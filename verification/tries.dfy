/**
 * Paths in a trie whose edges are stored as one map from (parent node, key)
 * to child node, the shape shared by the converter's call trie and the
 * writer-side trace tree.
 */
module Tries {
  import opened Common

  /** The node reached from `node` by following the keys `keys`, if it exists. */
  function Walk(children: map<(nat, nat), nat>, node: nat, keys: seq<nat>): Option<nat>
    decreases |keys|
  {
    if keys == [] then Some(node)
    else if (node, keys[0]) in children then Walk(children, children[(node, keys[0])], keys[1..])
    else None
  }

  /** Walking a path p + q goes through the node of p: paths with a common prefix share its nodes. */
  lemma {:induction false} WalkAppend(children: map<(nat, nat), nat>, node: nat, p: seq<nat>, q: seq<nat>)
    ensures Walk(children, node, p + q) ==
      match Walk(children, node, p) case None => None case Some(n) => Walk(children, n, q)
    decreases |p|
  {
    if p == [] {
      assert p + q == q;
    } else {
      assert (p + q)[0] == p[0] && (p + q)[1..] == p[1..] + q;
      if (node, p[0]) in children {
        WalkAppend(children, children[(node, p[0])], p[1..], q);
      }
    }
  }

  /** One key more: the child of the node of p for that key. */
  lemma WalkSnoc(children: map<(nat, nat), nat>, node: nat, p: seq<nat>, key: nat)
    ensures Walk(children, node, p + [key]) ==
      match Walk(children, node, p)
      case None => None
      case Some(n) => if (n, key) in children then Some(children[(n, key)]) else None
  {
    WalkAppend(children, node, p, [key]);
    match Walk(children, node, p)
    case None =>
    case Some(n) =>
      assert [key][1..] == [];
  }

  /** Adding children never changes where an existing path leads. */
  lemma {:induction false} WalkGrow(c: map<(nat, nat), nat>, c': map<(nat, nat), nat>, node: nat, p: seq<nat>)
    requires forall k :: k in c ==> k in c' && c'[k] == c[k]
    requires Walk(c, node, p).Some?
    ensures Walk(c', node, p) == Walk(c, node, p)
    decreases |p|
  {
    if p != [] {
      WalkGrow(c, c', c[(node, p[0])], p[1..]);
    }
  }
}
