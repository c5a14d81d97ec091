/**
 * node.go's link operations performed in place. A `Tree` owns the arena of
 * one document: its six fields are the node records and the five pointer
 * fields of every node, and each method updates them the way the Go function
 * updates the pointers of the nodes it touches. Every method is tied to the
 * value-level definition in XmlNode, whose properties are proved there.
 */
module XmlTree {
  import opened Wrappers
  import opened GoStrings
  import opened XmlNode

  class Tree {
    var nodes: seq<Node>
    var parent: seq<int>
    var firstChild: seq<int>
    var lastChild: seq<int>
    var prevSibling: seq<int>
    var nextSibling: seq<int>

    /** The arena the fields hold. */
    function Snapshot(): Arena
      reads this
    {
      Arena(nodes, parent, firstChild, lastChild, prevSibling, nextSibling)
    }

    /** A tree holding the single node `root` (node 0). */
    constructor (root: Node)
      ensures Snapshot() == Appended(Arena([], [], [], [], [], []), root)
    {
      nodes, parent, firstChild, lastChild, prevSibling, nextSibling := [root], [Nil], [Nil], [Nil], [Nil], [Nil];
    }

    /** Allocates the node `nd` (a `&Node{...}` literal), unlinked, as node `n`. */
    method NewNode(nd: Node) returns (n: int)
      requires Sized(Snapshot())
      modifies this
      ensures n == old(|nodes|)
      ensures Snapshot() == Appended(old(Snapshot()), nd)
    {
      n := |nodes|;
      nodes := nodes + [nd];
      parent := parent + [Nil];
      firstChild := firstChild + [Nil];
      lastChild := lastChild + [Nil];
      prevSibling := prevSibling + [Nil];
      nextSibling := nextSibling + [Nil];
    }

    /** `addChild(p, n)` (node.go:167-177). */
    method AddChild(p: int, n: int)
      requires CanAddChild(Snapshot(), p, n)
      modifies this
      ensures Snapshot() == ChildAdded(old(Snapshot()), p, n)
    {
      parent := parent[n := p];
      if firstChild[p] == Nil {
        firstChild := firstChild[p := n];
      } else {
        var last := lastChild[p];
        nextSibling := nextSibling[last := n];
        prevSibling := prevSibling[n := last];
      }
      lastChild := lastChild[p := n];
    }

    /** `addSibling(s, n)` (node.go:179-189): walk to the end of the chain, then link `n` after it. */
    method AddSibling(s: int, n: int)
      requires CanAddSibling(Snapshot(), s, n)
      modifies this
      ensures Snapshot() == SiblingAdded(old(Snapshot()), s, n)
    {
      var sibling := s;
      var t := nextSibling[sibling];
      while t != Nil
        invariant 0 <= sibling < |nodes|
        invariant t == nextSibling[sibling]
        invariant LastSibling(nextSibling, sibling) == LastSibling(nextSibling, s)
        decreases |nodes| - sibling
      {
        assert NodeLinked(Snapshot(), sibling);
        sibling := t;
        t := nextSibling[t];
      }
      assert NodeLinked(Snapshot(), sibling);
      var p := parent[sibling];
      parent := parent[n := p];
      nextSibling := nextSibling[sibling := n];
      prevSibling := prevSibling[n := sibling];
      if p != Nil {
        lastChild := lastChild[p := n];
      }
    }

    /** `remove(n)` (node.go:192-217), called RemoveFromTree by the parser. */
    method RemoveFromTree(n: int)
      requires WellLinked(Snapshot()) && 0 <= n < |nodes|
      modifies this
      ensures Snapshot() == Removed(old(Snapshot()), n)
    {
      assert NodeLinked(Snapshot(), n);
      var p := parent[n];
      if p == Nil {
        return;
      }
      var nx, pv := nextSibling[n], prevSibling[n];
      if firstChild[p] == n {
        if lastChild[p] == n {
          firstChild := firstChild[p := Nil];
          lastChild := lastChild[p := Nil];
        } else {
          firstChild := firstChild[p := nx];
          prevSibling := prevSibling[nx := Nil];
        }
      } else {
        if lastChild[p] == n {
          lastChild := lastChild[p := pv];
          nextSibling := nextSibling[pv := Nil];
        } else {
          nextSibling := nextSibling[pv := nx];
          prevSibling := prevSibling[nx := pv];
        }
      }
      parent := parent[n := Nil];
      prevSibling := prevSibling[n := Nil];
      nextSibling := nextSibling[n := Nil];
    }

    /** `addAttr(n, key, val)` (node.go:150-165). */
    method AddAttr(n: int, key: string, val: string)
      requires IsNode(Snapshot(), n)
      modifies this
      ensures Snapshot() == AttrAdded(old(Snapshot()), n, key, val)
      ensures nodes == old(nodes)[n := old(nodes[n]).(attrs := old(nodes[n].attrs) + [MakeAttr(key, val)])]
    {
      var attr: Attr;
      var i := Index(key, ":");
      if i > 0 {
        attr := Attr(Name(key[..i], key[i + 1..]), val, "");
      } else {
        attr := Attr(Name("", key), val, "");
      }
      nodes := nodes[n := nodes[n].(attrs := nodes[n].attrs + [attr])];
    }

    /** Replaces the record of node `n`, leaving every link alone (an assignment to the node's own fields). */
    method SetNode(n: int, nd: Node)
      requires 0 <= n < |nodes|
      modifies this
      ensures Snapshot() == old(Snapshot()).(nodes := old(nodes)[n := nd])
    {
      nodes := nodes[n := nd];
    }
  }
}
