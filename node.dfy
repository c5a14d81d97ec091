/**
 * The node tree of node.go, held in an arena: node `i` is `a.nodes[i]`, and
 * each of Go's five pointer fields is a sequence of indices (`a.parent[i]`
 * is node i's Parent), with `Nil` for a nil pointer. A well-linked arena also
 * keeps arena order equal to creation order: a node's parent and previous
 * sibling are older than the node, its next sibling and its children newer.
 */
module XmlNode {
  import opened Wrappers
  import opened GoStrings

  /** The absent link (a nil *Node). */
  const Nil: int := -1

  /** The kinds of node.go:19-36, with the two more that parse.go creates. */
  datatype NodeType =
    | DocumentNode
    | DeclarationNode
    | ElementNode
    | TextNode
    | CharDataNode
    | CommentNode
    | AttributeNode
    | ProcessingInstruction
    | NotationNode

  datatype Name = Name(space: string, local: string)

  /** An attribute; `namespaceURI` keeps the namespace the attribute's prefix resolved from. */
  datatype Attr = Attr(name: Name, value: string, namespaceURI: string)

  datatype ProcInstData = ProcInstData(target: string, inst: string)

  /** What a node holds besides its links. */
  datatype Node = Node(
    kind: NodeType,
    data: string,
    prefix: string,
    namespaceURI: string,
    attrs: seq<Attr>,
    level: int,
    lineNumber: int,
    procInst: Option<ProcInstData>)

  /** The nodes of one document and their five pointer fields, by index. */
  datatype Arena = Arena(
    nodes: seq<Node>,
    parent: seq<int>,
    firstChild: seq<int>,
    lastChild: seq<int>,
    prevSibling: seq<int>,
    nextSibling: seq<int>)

  /** A new node of the given kind, with no attributes. */
  function NewNode(kind: NodeType, data: string, level: int): (nd: Node)
    ensures nd.kind == kind && nd.data == data && nd.level == level && nd.attrs == []
    ensures nd.prefix == "" && nd.namespaceURI == "" && nd.procInst == None
  {
    Node(kind, data, "", "", [], level, 0, None)
  }

  /** Every pointer field has one entry per node. */
  predicate Sized(a: Arena) {
    |a.parent| == |a.nodes| && |a.firstChild| == |a.nodes| && |a.lastChild| == |a.nodes| &&
    |a.prevSibling| == |a.nodes| && |a.nextSibling| == |a.nodes|
  }

  /** `i` names a node of the arena. */
  predicate IsNode(a: Arena, i: int) {
    Sized(a) && 0 <= i < |a.nodes|
  }

  /** Node `i` has no parent and no siblings. */
  predicate Detached(a: Arena, i: int)
    requires IsNode(a, i)
  {
    a.parent[i] == Nil && a.prevSibling[i] == Nil && a.nextSibling[i] == Nil
  }

  /** `r` is nil or an older node than `i`. */
  predicate Older(r: int, i: int) {
    r == Nil || 0 <= r < i
  }

  /** `r` is nil or a newer node than `i` in an arena of `n` nodes. */
  predicate Newer(r: int, i: int, n: int) {
    r == Nil || i < r < n
  }

  /**
   * The links of node `i` agree with its neighbours': arena order, sibling
   * symmetry, shared parents, and FirstChild/LastChild naming the two ends of
   * the child chain (what node_test.go:83-118 checks node by node).
   */
  ghost predicate NodeLinked(a: Arena, i: int)
    requires IsNode(a, i)
  {
    var n := |a.nodes|;
    var p, f, l, pv, nx := a.parent[i], a.firstChild[i], a.lastChild[i], a.prevSibling[i], a.nextSibling[i];
    Older(p, i) && Older(pv, i) && Newer(nx, i, n) && Newer(f, i, n) && Newer(l, i, n) &&
    (nx != Nil ==> a.prevSibling[nx] == i && a.parent[nx] == p) &&
    (pv != Nil ==> a.nextSibling[pv] == i) &&
    (f == Nil <==> l == Nil) &&
    (f != Nil ==> a.parent[f] == i && a.prevSibling[f] == Nil) &&
    (l != Nil ==> a.parent[l] == i && a.nextSibling[l] == Nil) &&
    (p != Nil && pv == Nil ==> a.firstChild[p] == i) &&
    (p != Nil && nx == Nil ==> a.lastChild[p] == i)
  }

  /** Every node of the arena is linked consistently. */
  ghost predicate WellLinked(a: Arena) {
    Sized(a) && forall i | 0 <= i < |a.nodes| :: NodeLinked(a, i)
  }

  // ---------------------------------------------------------------------------
  // Sibling chains and child lists

  /** The sibling chain that starts at `x`, following NextSibling links that lead to newer nodes. */
  function Chain(next: seq<int>, x: int): (c: seq<int>)
    ensures (c == []) == !(0 <= x < |next|)
    ensures forall i | 0 <= i < |c| :: x <= c[i] < |next|
    ensures c != [] ==> c[0] == x && !(Last(c) < next[Last(c)] < |next|)
    decreases if 0 <= x < |next| then |next| - x else 0
  {
    if 0 <= x < |next| then
      if x < next[x] < |next| then [x] + Chain(next, next[x]) else [x]
    else []
  }

  /** Consecutive members of a chain are joined by a NextSibling link. */
  lemma {:induction false} ChainStep(next: seq<int>, x: int, i: int)
    requires 0 <= i < |Chain(next, x)| - 1
    ensures next[Chain(next, x)[i]] == Chain(next, x)[i + 1]
    decreases |next| - x
  {
    if i > 0 {
      ChainStep(next, next[x], i - 1);
    }
  }

  /** The children of `p`, in order. */
  function Children(a: Arena, p: int): (cs: seq<int>)
    requires IsNode(a, p)
    ensures WellLinked(a) ==> forall i | 0 <= i < |cs| :: p < cs[i] < |a.nodes|
  {
    assert WellLinked(a) ==> NodeLinked(a, p);
    Chain(a.nextSibling, a.firstChild[p])
  }

  function Last(s: seq<int>): int
    requires |s| > 0
  {
    s[|s| - 1]
  }

  /** `s` without the elements equal to `x`. */
  function Without(s: seq<int>, x: int): (r: seq<int>)
    ensures forall y :: y in r <==> y in s && y != x
  {
    if s == [] then []
    else if s[0] == x then Without(s[1..], x)
    else [s[0]] + Without(s[1..], x)
  }

  /** In a well-linked arena a chain is a run of siblings that ends at a nil link, its parent's LastChild. */
  lemma {:induction false} ChainFacts(a: Arena, x: int)
    requires WellLinked(a) && 0 <= x < |a.nodes|
    ensures var c := Chain(a.nextSibling, x);
      (forall i | 0 <= i < |c| :: a.parent[c[i]] == a.parent[x]) &&
      a.nextSibling[Last(c)] == Nil &&
      (0 <= a.parent[x] < |a.nodes| ==> a.lastChild[a.parent[x]] == Last(c))
    decreases |a.nodes| - x
  {
    assert NodeLinked(a, x);
    var t := a.nextSibling[x];
    if t != Nil {
      assert NodeLinked(a, t);
      ChainFacts(a, t);
    }
  }

  /** The child list of `p` consists of children of `p`, from FirstChild to LastChild. */
  lemma ChildrenFacts(a: Arena, p: int)
    requires WellLinked(a) && 0 <= p < |a.nodes|
    ensures var c := Children(a, p);
      (c == [] <==> a.firstChild[p] == Nil) &&
      (forall i | 0 <= i < |c| :: a.parent[c[i]] == p) &&
      (c != [] ==> c[0] == a.firstChild[p] && Last(c) == a.lastChild[p])
  {
    assert NodeLinked(a, p);
    var f := a.firstChild[p];
    if f != Nil {
      assert NodeLinked(a, f);
      ChainFacts(a, f);
    }
  }

  /** Walking the child list of `p`: each child is newer than `p`, and its NextSibling is the next child or nil. */
  lemma ChildStep(a: Arena, p: int, k: int)
    requires WellLinked(a) && 0 <= p < |a.nodes| && 0 <= k < |Children(a, p)|
    ensures var cs := Children(a, p);
      p < cs[k] < |a.nodes| && a.parent[cs[k]] == p &&
      a.nextSibling[cs[k]] == (if k + 1 < |cs| then cs[k + 1] else Nil)
  {
    assert NodeLinked(a, p);
    ChildrenFacts(a, p);
    if k + 1 < |Children(a, p)| {
      ChainStep(a.nextSibling, a.firstChild[p], k);
    } else {
      ChainFacts(a, a.firstChild[p]);
    }
  }

  /** Every node whose Parent is `p` is on `p`'s child list. */
  lemma {:induction false} ChildIsListed(a: Arena, p: int, x: int)
    requires WellLinked(a) && 0 <= p < |a.nodes| && 0 <= x < |a.nodes| && a.parent[x] == p
    ensures x in Children(a, p)
    decreases x
  {
    assert NodeLinked(a, x);
    ChildrenFacts(a, p);
    var c := Children(a, p);
    var y := a.prevSibling[x];
    if y != Nil {
      assert NodeLinked(a, y);
      ChildIsListed(a, p, y);
      var i :| 0 <= i < |c| && c[i] == y;
      assert i < |c| - 1 by {
        assert NodeLinked(a, p);
      }
      ChainStep(a.nextSibling, a.firstChild[p], i);
    }
  }

  /** A chain only depends on the NextSibling links of its own members. */
  lemma {:induction false} ChainFrame(next: seq<int>, next': seq<int>, x: int)
    requires |next'| == |next|
    requires forall y | y in Chain(next, x) :: next'[y] == next[y]
    ensures Chain(next', x) == Chain(next, x)
    decreases if 0 <= x < |next| then |next| - x else 0
  {
    if 0 <= x < |next| && x < next[x] < |next| {
      ChainFrame(next, next', next[x]);
    }
  }

  /** Linking `n` after the chain's end `last` extends the chain by `n`. */
  lemma {:induction false} ChainExtended(next: seq<int>, x: int, last: int, n: int)
    requires 0 <= x < |next| && last == Last(Chain(next, x)) && last < n < |next| && next[n] == Nil
    ensures Chain(next[last := n], x) == Chain(next, x) + [n]
    decreases |next| - x
  {
    var next' := next[last := n];
    if x == last {
      assert Chain(next', n) == [n];
    } else {
      ChainExtended(next, next[x], last, n);
    }
  }

  /** A node is not on a chain that starts after it. */
  lemma NotInLaterChain(next: seq<int>, x: int, n: int)
    requires n < x || x == Nil
    ensures n !in Chain(next, x)
  {
  }

  /** Dropping an element that is not there changes nothing. */
  lemma WithoutAbsent(s: seq<int>, x: int)
    requires x !in s
    ensures Without(s, x) == s
  {
  }

  /** Dropping from a sequence with a known head. */
  lemma WithoutCons(h: int, s: seq<int>, x: int)
    ensures Without([h] + s, x) == if h == x then Without(s, x) else [h] + Without(s, x)
  {
    assert ([h] + s)[0] == h && ([h] + s)[1..] == s;
  }

  /** Making `x` skip over its successor `n` drops `n` from the chain. */
  lemma ChainBypassed(next: seq<int>, x: int, n: int)
    requires 0 <= x < n < |next| && next[x] == n && Newer(next[n], n, |next|)
    ensures Chain(next[x := next[n]], x) == Without(Chain(next, x), n)
  {
    var next' := next[x := next[n]];
    var nx := next[n];
    var tail := Chain(next, nx);
    assert Chain(next, n) == [n] + tail;
    assert Chain(next, x) == [x] + ([n] + tail);
    NotInLaterChain(next, nx, n);
    WithoutAbsent(tail, n);
    WithoutCons(n, tail, n);
    WithoutCons(x, [n] + tail, n);
    if nx == Nil {
      assert Chain(next', x) == [x];
    } else {
      NotInLaterChain(next, nx, x);
      ChainFrame(next, next', nx);
      assert Chain(next', x) == [x] + Chain(next', nx);
    }
  }

  /** Making `pv` skip over its successor `n` drops `n` from a chain through `pv`. */
  lemma {:induction false} ChainShortened(next: seq<int>, x: int, pv: int, n: int)
    requires 0 <= x <= pv < n < |next|
    requires pv in Chain(next, x) && next[pv] == n && Newer(next[n], n, |next|)
    ensures Chain(next[pv := next[n]], x) == Without(Chain(next, x), n)
    decreases |next| - x
  {
    if x == pv {
      ChainBypassed(next, x, n);
    } else {
      assert Chain(next, x) == [x] + Chain(next, next[x]);
      ChainShortened(next, next[x], pv, n);
      assert Chain(next[pv := next[n]], x) == [x] + Chain(next[pv := next[n]], next[x]);
    }
  }

  /** A chain in which every link stays inside the arena is unchanged when a node is appended. */
  lemma {:induction false} ChainGrown(next: seq<int>, x: int)
    requires x < |next|
    requires forall y | y in Chain(next, x) :: next[y] < |next|
    ensures Chain(next + [Nil], x) == Chain(next, x)
    decreases if 0 <= x < |next| then |next| - x else 0
  {
    if 0 <= x < |next| {
      assert x in Chain(next, x);
      if x < next[x] {
        assert Chain(next, x) == [x] + Chain(next, next[x]);
        ChainGrown(next, next[x]);
        assert Chain(next + [Nil], x) == [x] + Chain(next + [Nil], next[x]);
      }
    }
  }

  // ---------------------------------------------------------------------------
  // Creating a node, addChild, addSibling, remove, addAttr

  /** The arena with a new, unlinked node `nd` at index |a.nodes| (a Go `&Node{...}` literal). */
  function Appended(a: Arena, nd: Node): (r: Arena)
    requires Sized(a)
    ensures Sized(r) && r.nodes == a.nodes + [nd]
  {
    Arena(a.nodes + [nd], a.parent + [Nil], a.firstChild + [Nil], a.lastChild + [Nil],
          a.prevSibling + [Nil], a.nextSibling + [Nil])
  }

  /** Replacing the record of the node just appended is appending the new record instead. */
  lemma AppendedReplaced(a: Arena, nd: Node, nd': Node)
    requires Sized(a)
    ensures var r := Appended(a, nd); r.(nodes := r.nodes[|a.nodes| := nd']) == Appended(a, nd')
  {
    assert (a.nodes + [nd])[|a.nodes| := nd'] == a.nodes + [nd'];
  }

  /** A new node is detached and childless, and every existing child list is unchanged. */
  lemma AppendedSpec(a: Arena, nd: Node)
    requires WellLinked(a)
    ensures var r := Appended(a, nd); var n := |a.nodes|;
      WellLinked(r) && Detached(r, n) && Children(r, n) == [] &&
      (forall q | 0 <= q < n :: Children(r, q) == Children(a, q))
  {
    var r := Appended(a, nd);
    var n := |a.nodes|;
    forall i | 0 <= i < |r.nodes|
      ensures NodeLinked(r, i)
    {
      if i < n {
        assert NodeLinked(a, i);
      }
    }
    forall q | 0 <= q < n
      ensures Children(r, q) == Children(a, q)
    {
      assert NodeLinked(a, q);
      forall y | y in Children(a, q)
        ensures a.nextSibling[y] < |a.nextSibling|
      {
        assert NodeLinked(a, y);
      }
      ChainGrown(a.nextSibling, a.firstChild[q]);
    }
  }

  /** What addChild needs: a detached node newer than the parent and its current last child. */
  ghost predicate CanAddChild(a: Arena, p: int, n: int) {
    WellLinked(a) && 0 <= p < |a.nodes| && 0 <= n < |a.nodes| && Detached(a, n) &&
    NodeLinked(a, p) && p < n && a.lastChild[p] < n
  }

  /** The arena after `addChild(p, n)` (node.go:167-177). */
  function ChildAdded(a: Arena, p: int, n: int): (r: Arena)
    requires IsNode(a, p) && IsNode(a, n)
    requires a.firstChild[p] != Nil ==> 0 <= a.lastChild[p] < |a.nodes|
    ensures Sized(r) && r.nodes == a.nodes
  {
    var last := a.lastChild[p];
    if a.firstChild[p] == Nil then
      a.(parent := a.parent[n := p], firstChild := a.firstChild[p := n], lastChild := a.lastChild[p := n])
    else
      a.(parent := a.parent[n := p], nextSibling := a.nextSibling[last := n],
         prevSibling := a.prevSibling[n := last], lastChild := a.lastChild[p := n])
  }

  /** addChild keeps the tree well linked and appends `n` to the parent's child list, touching no other list. */
  lemma ChildAddedSpec(a: Arena, p: int, n: int)
    requires CanAddChild(a, p, n)
    ensures var r := ChildAdded(a, p, n);
      WellLinked(r) && r.nodes == a.nodes &&
      r.parent[n] == p && r.lastChild[p] == n &&
      (a.firstChild[p] == Nil ==> r.firstChild[p] == n && r.prevSibling[n] == Nil) &&
      (a.firstChild[p] != Nil ==>
         r.firstChild[p] == a.firstChild[p] && r.nextSibling[a.lastChild[p]] == n &&
         r.prevSibling[n] == a.lastChild[p]) &&
      Children(r, p) == Children(a, p) + [n] &&
      (forall q | 0 <= q < |a.nodes| && q != p :: Children(r, q) == Children(a, q))
  {
    var r := ChildAdded(a, p, n);
    assert NodeLinked(a, n);
    ChildAddedLinked(a, p, n);
    ChildAddedList(a, p, n);
    ChildAddedOthers(a, p, n);
  }

  /** addChild appends `n` to the parent's child list. */
  lemma ChildAddedList(a: Arena, p: int, n: int)
    requires CanAddChild(a, p, n)
    ensures WellLinked(ChildAdded(a, p, n)) && Children(ChildAdded(a, p, n), p) == Children(a, p) + [n]
  {
    var r := ChildAdded(a, p, n);
    assert NodeLinked(a, n);
    ChildAddedLinked(a, p, n);
    ChildrenFacts(a, p);
    if a.firstChild[p] == Nil {
      assert Children(r, p) == Chain(r.nextSibling, n) == [n];
    } else {
      ChainExtended(a.nextSibling, a.firstChild[p], a.lastChild[p], n);
    }
  }

  /** addChild leaves the child list of every other node as it was. */
  lemma ChildAddedOthers(a: Arena, p: int, n: int)
    requires CanAddChild(a, p, n)
    ensures WellLinked(ChildAdded(a, p, n))
    ensures forall q | 0 <= q < |a.nodes| && q != p :: Children(ChildAdded(a, p, n), q) == Children(a, q)
  {
    var r := ChildAdded(a, p, n);
    var last := a.lastChild[p];
    assert NodeLinked(a, n);
    ChildAddedLinked(a, p, n);
    forall q | 0 <= q < |a.nodes| && q != p
      ensures Children(r, q) == Children(a, q)
    {
      ChildrenFacts(a, q);
      if last != Nil {
        assert NodeLinked(a, last);
      }
      ChainFrame(a.nextSibling, r.nextSibling, a.firstChild[q]);
    }
  }

  lemma ChildAddedLinked(a: Arena, p: int, n: int)
    requires CanAddChild(a, p, n)
    ensures WellLinked(ChildAdded(a, p, n))
  {
    var r := ChildAdded(a, p, n);
    var last := a.lastChild[p];
    assert NodeLinked(a, n);
    if last != Nil {
      assert NodeLinked(a, last);
    }
    forall i | 0 <= i < |r.nodes|
      ensures NodeLinked(r, i)
    {
      assert NodeLinked(a, i);
      if last == Nil {
        FirstChildAddedNode(a, p, n, i);
      } else {
        LaterChildAddedNode(a, p, n, i);
      }
    }
  }

  lemma FirstChildAddedNode(a: Arena, p: int, n: int, i: int)
    requires IsNode(a, p) && IsNode(a, n) && NodeLinked(a, p) && NodeLinked(a, n) && Detached(a, n)
    requires p < n && a.lastChild[p] == Nil
    requires 0 <= i < |a.nodes| && NodeLinked(a, i)
    ensures NodeLinked(ChildAdded(a, p, n), i)
  {
  }

  lemma LaterChildAddedNode(a: Arena, p: int, n: int, i: int)
    requires IsNode(a, p) && IsNode(a, n) && NodeLinked(a, p) && NodeLinked(a, n) && Detached(a, n)
    requires p < n && a.lastChild[p] != Nil && a.lastChild[p] < n && NodeLinked(a, a.lastChild[p])
    requires 0 <= i < |a.nodes| && NodeLinked(a, i)
    ensures NodeLinked(ChildAdded(a, p, n), i)
  {
  }

  /** The end of the sibling chain through `s` (the loop at node.go:180-182). */
  function LastSibling(next: seq<int>, s: int): (r: int)
    requires 0 <= s < |next|
    ensures r == Last(Chain(next, s))
    decreases |next| - s
  {
    if s < next[s] < |next| then LastSibling(next, next[s]) else s
  }

  /** The walk ends at a sibling of `s` with a nil NextSibling, its parent's last child. */
  lemma LastSiblingFacts(a: Arena, s: int)
    requires WellLinked(a) && 0 <= s < |a.nodes|
    ensures var last := LastSibling(a.nextSibling, s);
      s <= last < |a.nodes| && a.nextSibling[last] == Nil && a.parent[last] == a.parent[s] &&
      (0 <= a.parent[s] < |a.nodes| ==> last == a.lastChild[a.parent[s]])
  {
    ChainFacts(a, s);
  }

  /** What addSibling needs: a detached node newer than the end of the target chain. */
  ghost predicate CanAddSibling(a: Arena, s: int, n: int) {
    WellLinked(a) && 0 <= s < |a.nodes| && 0 <= n < |a.nodes| && Detached(a, n) &&
    NodeLinked(a, s) && NodeLinked(a, LastSibling(a.nextSibling, s)) && LastSibling(a.nextSibling, s) < n
  }

  /** The arena after `addSibling(s, n)` (node.go:179-189). */
  function SiblingAdded(a: Arena, s: int, n: int): (r: Arena)
    requires IsNode(a, s) && IsNode(a, n)
    requires Older(a.parent[LastSibling(a.nextSibling, s)], |a.nodes|)
    ensures Sized(r) && r.nodes == a.nodes
  {
    var last := LastSibling(a.nextSibling, s);
    var p := a.parent[last];
    var r := a.(parent := a.parent[n := p], nextSibling := a.nextSibling[last := n],
                prevSibling := a.prevSibling[n := last]);
    if p != Nil then r.(lastChild := a.lastChild[p := n]) else r
  }

  /** Under a parent, addSibling from any member of the chain is addChild on that parent. */
  lemma SiblingAddedIsChildAdded(a: Arena, s: int, n: int)
    requires CanAddSibling(a, s, n) && a.parent[s] != Nil
    ensures CanAddChild(a, a.parent[s], n)
    ensures SiblingAdded(a, s, n) == ChildAdded(a, a.parent[s], n)
  {
    var p := a.parent[s];
    LastSiblingFacts(a, s);
    assert NodeLinked(a, p);
  }

  /** addSibling keeps the tree well linked and appends `n` to the chain through `s`. */
  lemma SiblingAddedSpec(a: Arena, s: int, n: int)
    requires CanAddSibling(a, s, n)
    ensures var r := SiblingAdded(a, s, n); var last := LastSibling(a.nextSibling, s);
      WellLinked(r) && r.nodes == a.nodes &&
      r.parent[n] == a.parent[s] && r.prevSibling[n] == last && r.nextSibling[last] == n &&
      (a.parent[s] != Nil ==> r.lastChild[a.parent[s]] == n) &&
      Chain(r.nextSibling, s) == Chain(a.nextSibling, s) + [n] &&
      (a.parent[s] == Nil ==> forall q | 0 <= q < |a.nodes| :: Children(r, q) == Children(a, q))
  {
    LastSiblingFacts(a, s);
    var last := LastSibling(a.nextSibling, s);
    var r := SiblingAdded(a, s, n);
    assert NodeLinked(a, n);
    if a.parent[s] != Nil {
      SiblingAddedIsChildAdded(a, s, n);
      ChildAddedLinked(a, a.parent[s], n);
    } else {
      RootSiblingAddedLinked(a, s, n);
      RootSiblingAddedOthers(a, s, n);
    }
    ChainExtended(a.nextSibling, s, last, n);
  }

  /** A sibling added at the top level changes no child list. */
  lemma RootSiblingAddedOthers(a: Arena, s: int, n: int)
    requires CanAddSibling(a, s, n) && a.parent[s] == Nil
    ensures forall q | 0 <= q < |a.nodes| :: Children(SiblingAdded(a, s, n), q) == Children(a, q)
  {
    LastSiblingFacts(a, s);
    var last := LastSibling(a.nextSibling, s);
    var r := SiblingAdded(a, s, n);
    RootSiblingAddedLinked(a, s, n);
    forall q | 0 <= q < |a.nodes|
      ensures Children(r, q) == Children(a, q)
    {
      ChildrenFacts(a, q);
      assert NodeLinked(a, last);
      ChainFrame(a.nextSibling, r.nextSibling, a.firstChild[q]);
    }
  }

  lemma RootSiblingAddedLinked(a: Arena, s: int, n: int)
    requires CanAddSibling(a, s, n) && a.parent[s] == Nil
    ensures WellLinked(SiblingAdded(a, s, n))
  {
    LastSiblingFacts(a, s);
    var last := LastSibling(a.nextSibling, s);
    var r := SiblingAdded(a, s, n);
    assert NodeLinked(a, last) && NodeLinked(a, n);
    forall i | 0 <= i < |r.nodes|
      ensures NodeLinked(r, i)
    {
      assert NodeLinked(a, i);
    }
  }

  /** The arena after `remove(n)` (node.go:192-217). */
  function Removed(a: Arena, n: int): (r: Arena)
    requires WellLinked(a) && 0 <= n < |a.nodes|
    ensures Sized(r) && r.nodes == a.nodes
  {
    assert NodeLinked(a, n);
    var p := a.parent[n];
    if p == Nil then a
    else
      var nx, pv := a.nextSibling[n], a.prevSibling[n];
      var a1 :=
        if a.firstChild[p] == n then
          if a.lastChild[p] == n then
            a.(firstChild := a.firstChild[p := Nil], lastChild := a.lastChild[p := Nil])
          else
            a.(firstChild := a.firstChild[p := nx], prevSibling := a.prevSibling[nx := Nil])
        else if a.lastChild[p] == n then
          a.(lastChild := a.lastChild[p := pv], nextSibling := a.nextSibling[pv := Nil])
        else
          a.(nextSibling := a.nextSibling[pv := nx], prevSibling := a.prevSibling[nx := pv]);
      a1.(parent := a1.parent[n := Nil], prevSibling := a1.prevSibling[n := Nil],
          nextSibling := a1.nextSibling[n := Nil])
  }

  /** remove is a no-op on a parentless node such as the document root. */
  lemma RemovedRootIsNoop(a: Arena, n: int)
    requires WellLinked(a) && 0 <= n < |a.nodes| && a.parent[n] == Nil
    ensures Removed(a, n) == a
  {
  }

  /**
   * The four cases of remove, stated once: the parent's ends move past `n`, the
   * neighbours are joined to each other, and `n` loses its parent and siblings.
   */
  function Unlinked(a: Arena, n: int): (r: Arena)
    requires IsNode(a, n) && 0 <= a.parent[n] < |a.nodes|
    requires Older(a.prevSibling[n], |a.nodes|) && Older(a.nextSibling[n], |a.nodes|)
    ensures Sized(r) && r.nodes == a.nodes
  {
    var p, nx, pv := a.parent[n], a.nextSibling[n], a.prevSibling[n];
    var next := if pv != Nil then a.nextSibling[pv := nx] else a.nextSibling;
    var prev := if nx != Nil then a.prevSibling[nx := pv] else a.prevSibling;
    a.(firstChild := if a.firstChild[p] == n then a.firstChild[p := nx] else a.firstChild,
       lastChild := if a.lastChild[p] == n then a.lastChild[p := pv] else a.lastChild,
       parent := a.parent[n := Nil], prevSibling := prev[n := Nil], nextSibling := next[n := Nil])
  }

  lemma RemovedIsUnlinked(a: Arena, n: int)
    requires WellLinked(a) && 0 <= n < |a.nodes| && NodeLinked(a, n) && a.parent[n] != Nil
    ensures Removed(a, n) == Unlinked(a, n)
  {
    assert NodeLinked(a, a.parent[n]);
  }

  /**
   * remove keeps the tree well linked, detaches `n` while its own children stay
   * under it, and drops `n` from its parent's child list and from no other list.
   */
  lemma RemovedSpec(a: Arena, n: int)
    requires WellLinked(a) && 0 <= n < |a.nodes| && NodeLinked(a, n) && a.parent[n] != Nil
    ensures var r := Removed(a, n); var p := a.parent[n];
      WellLinked(r) && r.nodes == a.nodes && Detached(r, n) &&
      r.firstChild[n] == a.firstChild[n] && r.lastChild[n] == a.lastChild[n] &&
      Children(r, p) == Without(Children(a, p), n) &&
      (forall q | 0 <= q < |a.nodes| && q != p :: Children(r, q) == Children(a, q))
  {
    RemovedIsUnlinked(a, n);
    UnlinkedLinked(a, n);
    UnlinkedFromParent(a, n);
    UnlinkedOtherLists(a, n);
  }

  lemma UnlinkedOtherLists(a: Arena, n: int)
    requires WellLinked(a) && 0 <= n < |a.nodes| && NodeLinked(a, n) && a.parent[n] != Nil
    ensures var r := Unlinked(a, n);
      forall q | 0 <= q < |a.nodes| && q != a.parent[n] :: Children(r, q) == Children(a, q)
  {
    var r := Unlinked(a, n);
    var p, pv := a.parent[n], a.prevSibling[n];
    if pv != Nil {
      assert NodeLinked(a, pv);
    }
    forall q | 0 <= q < |a.nodes| && q != p
      ensures Children(r, q) == Children(a, q)
    {
      ChildrenFacts(a, q);
      ChainFrame(a.nextSibling, r.nextSibling, a.firstChild[q]);
    }
  }

  lemma UnlinkedFromParent(a: Arena, n: int)
    requires WellLinked(a) && 0 <= n < |a.nodes| && NodeLinked(a, n) && a.parent[n] != Nil
    ensures Children(Unlinked(a, n), a.parent[n]) == Without(Children(a, a.parent[n]), n)
  {
    if a.prevSibling[n] == Nil {
      UnlinkedFirst(a, n);
    } else {
      assert NodeLinked(a, a.prevSibling[n]);
      assert NodeLinked(a, a.parent[n]);
      ChildIsListed(a, a.parent[n], a.prevSibling[n]);
      UnlinkedLater(a, n);
    }
  }

  /** Removing the first child makes its next sibling the first. */
  lemma UnlinkedFirst(a: Arena, n: int)
    requires IsNode(a, n) && NodeLinked(a, n) && a.parent[n] != Nil && a.prevSibling[n] == Nil
    ensures Children(Unlinked(a, n), a.parent[n]) == Without(Children(a, a.parent[n]), n)
  {
    var r := Unlinked(a, n);
    var p, nx := a.parent[n], a.nextSibling[n];
    assert r.firstChild[p] == nx && r.nextSibling == a.nextSibling[n := Nil];
    NotInLaterChain(a.nextSibling, nx, n);
    ChainFrame(a.nextSibling, r.nextSibling, nx);
    WithoutAbsent(Chain(a.nextSibling, nx), n);
    assert Children(a, p) == [n] + Chain(a.nextSibling, nx);
  }

  /** Removing a later child joins its previous sibling to its next one. */
  lemma UnlinkedLater(a: Arena, n: int)
    requires IsNode(a, n) && NodeLinked(a, n) && a.parent[n] != Nil && a.prevSibling[n] != Nil
    requires NodeLinked(a, a.parent[n]) && NodeLinked(a, a.prevSibling[n])
    requires a.prevSibling[n] in Children(a, a.parent[n])
    ensures Children(Unlinked(a, n), a.parent[n]) == Without(Children(a, a.parent[n]), n)
  {
    var p, pv := a.parent[n], a.prevSibling[n];
    ShortenedAndCleared(a.nextSibling, a.firstChild[p], pv, n);
  }

  /** ChainShortened, followed by clearing the removed node's own link. */
  lemma ShortenedAndCleared(next: seq<int>, x: int, pv: int, n: int)
    requires 0 <= x <= pv < n < |next|
    requires pv in Chain(next, x) && next[pv] == n && Newer(next[n], n, |next|)
    ensures Chain(next[pv := next[n]][n := Nil], x) == Without(Chain(next, x), n)
  {
    var next1 := next[pv := next[n]];
    ChainShortened(next, x, pv, n);
    ChainFrame(next1, next1[n := Nil], x);
  }

  lemma UnlinkedLinked(a: Arena, n: int)
    requires WellLinked(a) && 0 <= n < |a.nodes| && NodeLinked(a, n) && a.parent[n] != Nil
    ensures WellLinked(Unlinked(a, n))
  {
    var r := Unlinked(a, n);
    var p, nx, pv := a.parent[n], a.nextSibling[n], a.prevSibling[n];
    assert NodeLinked(a, p);
    if nx != Nil {
      assert NodeLinked(a, nx);
    }
    if pv != Nil {
      assert NodeLinked(a, pv);
    }
    forall i | 0 <= i < |r.nodes|
      ensures NodeLinked(r, i)
    {
      assert NodeLinked(a, i);
      UnlinkedNode(a, n, i);
    }
  }

  /** One node's links after remove. */
  lemma UnlinkedNode(a: Arena, n: int, i: int)
    requires IsNode(a, n) && NodeLinked(a, n) && a.parent[n] != Nil && NodeLinked(a, a.parent[n])
    requires a.nextSibling[n] != Nil ==> NodeLinked(a, a.nextSibling[n])
    requires a.prevSibling[n] != Nil ==> NodeLinked(a, a.prevSibling[n])
    requires 0 <= i < |a.nodes| && NodeLinked(a, i)
    ensures NodeLinked(Unlinked(a, n), i)
  {
    var nx, pv := a.nextSibling[n], a.prevSibling[n];
    if pv == Nil && nx == Nil {
      UnlinkedOnly(a, n, i);
    } else if pv == Nil {
      UnlinkedFirstNode(a, n, i);
    } else if nx == Nil {
      UnlinkedLastNode(a, n, i);
    } else {
      UnlinkedMiddleNode(a, n, i);
    }
  }

  lemma UnlinkedOnly(a: Arena, n: int, i: int)
    requires IsNode(a, n) && NodeLinked(a, n) && a.parent[n] != Nil && NodeLinked(a, a.parent[n])
    requires a.nextSibling[n] == Nil && a.prevSibling[n] == Nil
    requires 0 <= i < |a.nodes| && NodeLinked(a, i)
    ensures NodeLinked(Unlinked(a, n), i)
  {
    var p := a.parent[n];
    assert Unlinked(a, n) == a.(firstChild := a.firstChild[p := Nil], lastChild := a.lastChild[p := Nil],
      parent := a.parent[n := Nil]);
  }

  lemma UnlinkedFirstNode(a: Arena, n: int, i: int)
    requires IsNode(a, n) && NodeLinked(a, n) && a.parent[n] != Nil && NodeLinked(a, a.parent[n])
    requires a.nextSibling[n] != Nil && a.prevSibling[n] == Nil && NodeLinked(a, a.nextSibling[n])
    requires 0 <= i < |a.nodes| && NodeLinked(a, i)
    ensures NodeLinked(Unlinked(a, n), i)
  {
    var p, nx := a.parent[n], a.nextSibling[n];
    assert Unlinked(a, n) == a.(firstChild := a.firstChild[p := nx], parent := a.parent[n := Nil],
      prevSibling := a.prevSibling[nx := Nil], nextSibling := a.nextSibling[n := Nil]);
  }

  lemma UnlinkedLastNode(a: Arena, n: int, i: int)
    requires IsNode(a, n) && NodeLinked(a, n) && a.parent[n] != Nil && NodeLinked(a, a.parent[n])
    requires a.nextSibling[n] == Nil && a.prevSibling[n] != Nil && NodeLinked(a, a.prevSibling[n])
    requires 0 <= i < |a.nodes| && NodeLinked(a, i)
    ensures NodeLinked(Unlinked(a, n), i)
  {
    var p, pv := a.parent[n], a.prevSibling[n];
    assert Unlinked(a, n) == a.(lastChild := a.lastChild[p := pv], parent := a.parent[n := Nil],
      prevSibling := a.prevSibling[n := Nil], nextSibling := a.nextSibling[pv := Nil]);
  }

  lemma UnlinkedMiddleNode(a: Arena, n: int, i: int)
    requires IsNode(a, n) && NodeLinked(a, n) && a.parent[n] != Nil && NodeLinked(a, a.parent[n])
    requires a.nextSibling[n] != Nil && a.prevSibling[n] != Nil
    requires NodeLinked(a, a.prevSibling[n]) && NodeLinked(a, a.nextSibling[n])
    requires 0 <= i < |a.nodes| && NodeLinked(a, i)
    ensures NodeLinked(Unlinked(a, n), i)
  {
    var r := Bypassed(a, n);
    assert Unlinked(a, n) == r;
    var nx, pv := a.nextSibling[n], a.prevSibling[n];
    if i == n {
      assert NodeLinked(r, i);
    } else if i == nx {
      BypassedNext(a, n);
    } else if i == pv {
      BypassedPrevious(a, n);
    } else {
      BypassedOther(a, n, i);
    }
  }

  /** `n` taken out from between its two siblings, which are joined to each other (node.go:209-211). */
  function Bypassed(a: Arena, n: int): (r: Arena)
    requires IsNode(a, n) && NodeLinked(a, n) && a.nextSibling[n] != Nil && a.prevSibling[n] != Nil
    ensures Sized(r) && r.nodes == a.nodes && r.firstChild == a.firstChild && r.lastChild == a.lastChild
  {
    var nx, pv := a.nextSibling[n], a.prevSibling[n];
    a.(parent := a.parent[n := Nil],
      prevSibling := a.prevSibling[nx := pv][n := Nil], nextSibling := a.nextSibling[pv := nx][n := Nil])
  }

  /** The next sibling of a bypassed node stays linked. */
  lemma BypassedNext(a: Arena, n: int)
    requires IsNode(a, n) && NodeLinked(a, n) && a.parent[n] != Nil && NodeLinked(a, a.parent[n])
    requires a.nextSibling[n] != Nil && a.prevSibling[n] != Nil
    requires NodeLinked(a, a.prevSibling[n]) && NodeLinked(a, a.nextSibling[n])
    ensures NodeLinked(Bypassed(a, n), a.nextSibling[n])
  {
    var r, nx, pv := Bypassed(a, n), a.nextSibling[n], a.prevSibling[n];
    assert r.prevSibling[nx] == pv && r.nextSibling[pv] == nx && r.parent[nx] == a.parent[nx];
    assert r.nextSibling[nx] == a.nextSibling[nx];
  }

  /** The previous sibling of a bypassed node stays linked. */
  lemma BypassedPrevious(a: Arena, n: int)
    requires IsNode(a, n) && NodeLinked(a, n) && a.parent[n] != Nil && NodeLinked(a, a.parent[n])
    requires a.nextSibling[n] != Nil && a.prevSibling[n] != Nil
    requires NodeLinked(a, a.prevSibling[n]) && NodeLinked(a, a.nextSibling[n])
    ensures NodeLinked(Bypassed(a, n), a.prevSibling[n])
  {
    var r, nx, pv := Bypassed(a, n), a.nextSibling[n], a.prevSibling[n];
    assert r.prevSibling[nx] == pv && r.nextSibling[pv] == nx && r.parent[pv] == a.parent[pv];
    assert r.prevSibling[pv] == a.prevSibling[pv];
  }

  /** A node other than a bypassed one and its two siblings stays linked. */
  lemma BypassedOther(a: Arena, n: int, i: int)
    requires IsNode(a, n) && NodeLinked(a, n) && a.parent[n] != Nil && NodeLinked(a, a.parent[n])
    requires a.nextSibling[n] != Nil && a.prevSibling[n] != Nil
    requires NodeLinked(a, a.prevSibling[n]) && NodeLinked(a, a.nextSibling[n])
    requires 0 <= i < |a.nodes| && NodeLinked(a, i) && i != n && i != a.nextSibling[n] && i != a.prevSibling[n]
    ensures NodeLinked(Bypassed(a, n), i)
  {
    var r := Bypassed(a, n);
    assert r.parent[i] == a.parent[i] && r.prevSibling[i] == a.prevSibling[i];
    assert r.nextSibling[i] == a.nextSibling[i];
  }

  /** The attribute `addAttr` builds: the key is split at its first ':' when that is not at index 0. */
  function MakeAttr(key: string, val: string): (at: Attr)
    ensures var i := Index(key, ":");
      (i > 0 ==> at.name == Name(key[..i], key[i + 1..])) &&
      (i <= 0 ==> at.name == Name("", key)) &&
      at.value == val
  {
    var i := Index(key, ":");
    if i > 0 then Attr(Name(key[..i], key[i + 1..]), val, "")
    else Attr(Name("", key), val, "")
  }

  /** The `prefix:local` spelling of a name, or just `local` when it has no prefix. */
  function QualifiedName(nm: Name): string {
    if nm.space == "" then nm.local else nm.space + ":" + nm.local
  }

  /** Splitting a key loses nothing: the attribute's name spells the key again, and its prefix holds no ':'. */
  lemma MakeAttrRoundTrip(key: string, val: string)
    ensures QualifiedName(MakeAttr(key, val).name) == key
    ensures ':' !in MakeAttr(key, val).name.space
  {
    var i := Index(key, ":");
    IndexFirst(key, ":");
    if i > 0 {
      assert key == key[..i] + ":" + key[i + 1..];
      forall j | 0 <= j < i
        ensures key[..i][j] != ':'
      {
        assert !MatchAt(key, ":", j);
        assert key[j..j + 1] == [key[j]];
      }
    }
  }

  /** A colon at the start of the key does not split it. */
  lemma AttrKeyLeadingColon(key: string, val: string)
    requires |key| > 0 && key[0] == ':'
    ensures MakeAttr(key, val).name == Name("", key)
  {
    assert MatchAt(key, ":", 0);
  }

  /** The arena after `addAttr(n, key, val)` (node.go:150-165). */
  function AttrAdded(a: Arena, n: int, key: string, val: string): (r: Arena)
    requires IsNode(a, n)
    ensures |r.nodes| == |a.nodes| && |r.nodes[n].attrs| == |a.nodes[n].attrs| + 1
    ensures r.nodes[n].attrs[..|a.nodes[n].attrs|] == a.nodes[n].attrs
    ensures r.nodes[n].attrs[|a.nodes[n].attrs|] == MakeAttr(key, val)
    ensures forall i | 0 <= i < |a.nodes| && i != n :: r.nodes[i] == a.nodes[i]
    ensures r.nodes[n].(attrs := a.nodes[n].attrs) == a.nodes[n]
    ensures r.(nodes := a.nodes) == a
  {
    a.(nodes := a.nodes[n := a.nodes[n].(attrs := a.nodes[n].attrs + [MakeAttr(key, val)])])
  }
}
