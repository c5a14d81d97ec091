/**
 * The read-only walks of node.go: InnerText (node.go:52-70), the xml:space
 * rule (node.go:72-86) and outputXML/OutputXML (node.go:88-148). Each is a
 * function over an arena, and a method that walks a `Tree` the way the Go
 * code does (recursion plus a loop over the child chain, writing into a
 * buffer) is proved to produce exactly that function's value.
 * `xml.EscapeText` is the parameter `esc`.
 */
module XmlOutput {
  import opened Wrappers
  import opened GoStrings
  import opened XmlNode
  import opened XmlTree

  // ---------------------------------------------------------------------------
  // Subtrees

  /** `y` is `x` or lies below `x`, following Parent links (which lead to older nodes). */
  ghost predicate Below(a: Arena, y: int, x: int)
    requires Sized(a)
    decreases if 0 <= y then y + 1 else 0
  {
    y == x || (0 <= y < |a.nodes| && 0 <= a.parent[y] < y && Below(a, a.parent[y], x))
  }

  /** Everything a walk of the subtree of `x` reads is the same in `a` and `r`. */
  ghost predicate SameBelow(a: Arena, r: Arena, x: int)
    requires Sized(a) && Sized(r)
  {
    |r.nodes| == |a.nodes| &&
    forall y | 0 <= y < |a.nodes| && Below(a, y, x) ::
      r.nodes[y] == a.nodes[y] && r.firstChild[y] == a.firstChild[y] &&
      (y != x ==> r.nextSibling[y] == a.nextSibling[y])
  }

  /** Nothing below `x` is older than `x`. */
  lemma {:induction false} BelowIsNewer(a: Arena, y: int, x: int)
    requires Sized(a) && Below(a, y, x)
    ensures y >= x
    decreases if 0 <= y then y + 1 else 0
  {
    if y != x {
      BelowIsNewer(a, a.parent[y], x);
    }
  }

  /** What lies below a child of `x` lies below `x`. */
  lemma {:induction false} BelowChild(a: Arena, y: int, c: int, x: int)
    requires Sized(a) && 0 <= x < c < |a.nodes| && a.parent[c] == x && Below(a, y, c)
    ensures Below(a, y, x)
    decreases if 0 <= y then y + 1 else 0
  {
    if y != c {
      BelowChild(a, a.parent[y], c, x);
    }
  }

  /** The children of `x` are the same in `r`, and each of them sees the same subtree. */
  lemma SameChildren(a: Arena, r: Arena, x: int)
    requires WellLinked(a) && WellLinked(r) && 0 <= x < |a.nodes| && SameBelow(a, r, x)
    ensures Children(r, x) == Children(a, x)
    ensures forall c | c in Children(a, x) :: x < c < |a.nodes| && SameBelow(a, r, c)
  {
    ChildrenFacts(a, x);
    assert NodeLinked(a, x);
    var cs := Children(a, x);
    forall c | c in cs
      ensures x < c < |a.nodes| && Below(a, c, x)
    {
      assert NodeLinked(a, c);
    }
    ChainFrame(a.nextSibling, r.nextSibling, a.firstChild[x]);
    forall c | c in cs
      ensures SameBelow(a, r, c)
    {
      forall y | 0 <= y < |a.nodes| && Below(a, y, c)
        ensures Below(a, y, x) && y != x
      {
        BelowChild(a, y, c, x);
        BelowIsNewer(a, y, c);
      }
    }
  }

  /** addChild(p, n) changes nothing below `n` or below an existing child of `p`. */
  lemma ChildAddedSameBelow(a: Arena, p: int, n: int, c: int)
    requires CanAddChild(a, p, n) && (c == n || c in Children(a, p))
    ensures SameBelow(a, ChildAdded(a, p, n), c)
  {
    var r := ChildAdded(a, p, n);
    var last := a.lastChild[p];
    ChildrenFacts(a, p);
    if c != n {
      assert NodeLinked(a, c);
    }
    forall y | 0 <= y < |a.nodes| && Below(a, y, c)
      ensures r.firstChild[y] == a.firstChild[y] && (y != c ==> r.nextSibling[y] == a.nextSibling[y])
    {
      BelowIsNewer(a, y, c);
      if y == last && y != c {
        BelowIsNewer(a, a.parent[y], c);
      }
    }
  }

  // ---------------------------------------------------------------------------
  // InnerText

  /** The InnerText of node `n` (node.go:52-70). */
  function TextOf(a: Arena, n: int): string
    requires WellLinked(a) && 0 <= n < |a.nodes|
    decreases |a.nodes| - n, 1
  {
    var kind := a.nodes[n].kind;
    if kind == TextNode || kind == CharDataNode then a.nodes[n].data
    else if kind == CommentNode then ""
    else TextOfFirst(a, n, |Children(a, n)|)
  }

  /** The InnerTexts of the first `k` children of `n`, one after another. */
  function TextOfFirst(a: Arena, n: int, k: int): string
    requires WellLinked(a) && 0 <= n < |a.nodes| && 0 <= k <= |Children(a, n)|
    decreases |a.nodes| - n, 0, k
  {
    if k == 0 then "" else TextOfFirst(a, n, k - 1) + TextOf(a, Children(a, n)[k - 1])
  }

  /** Two arenas whose first `k` children of `p` are the same nodes with the same InnerTexts agree on them. */
  lemma {:induction false} TextOfFirstSame(a: Arena, r: Arena, p: int, k: int)
    requires WellLinked(a) && WellLinked(r) && |r.nodes| == |a.nodes| && 0 <= p < |a.nodes|
    requires 0 <= k <= |Children(a, p)| && k <= |Children(r, p)|
    requires forall i | 0 <= i < k ::
      Children(r, p)[i] == Children(a, p)[i] && TextOf(r, Children(a, p)[i]) == TextOf(a, Children(a, p)[i])
    ensures TextOfFirst(r, p, k) == TextOfFirst(a, p, k)
    decreases k
  {
    if k > 0 {
      TextOfFirstSame(a, r, p, k - 1);
      var x1, y1 := TextOfFirst(r, p, k - 1), TextOfFirst(a, p, k - 1);
      var x2, y2 := TextOf(r, Children(r, p)[k - 1]), TextOf(a, Children(a, p)[k - 1]);
      assert x1 == y1 && x2 == y2;
    }
  }

  /** InnerText only looks at the subtree of the node. */
  lemma {:induction false} TextFrame(a: Arena, r: Arena, x: int)
    requires WellLinked(a) && WellLinked(r) && 0 <= x < |a.nodes| && SameBelow(a, r, x)
    ensures TextOf(r, x) == TextOf(a, x)
    decreases |a.nodes| - x
  {
    assert Below(a, x, x);
    SameChildren(a, r, x);
    var cs := Children(a, x);
    forall i | 0 <= i < |cs|
      ensures TextOf(r, cs[i]) == TextOf(a, cs[i])
    {
      assert cs[i] in cs;
      TextFrame(a, r, cs[i]);
    }
    TextOfFirstSame(a, r, x, |cs|);
  }

  /**
   * Appending a child to a node that is not text or a comment appends the
   * child's InnerText to the node's: InnerText follows document order.
   */
  lemma TextOfChildAdded(a: Arena, p: int, n: int)
    requires CanAddChild(a, p, n) && a.nodes[p].kind !in {TextNode, CharDataNode, CommentNode}
    ensures WellLinked(ChildAdded(a, p, n)) && TextOf(ChildAdded(a, p, n), p) == TextOf(a, p) + TextOf(a, n)
  {
    var r := ChildAdded(a, p, n);
    ChildAddedSpec(a, p, n);
    var cs := Children(a, p);
    forall i | 0 <= i < |cs|
      ensures TextOf(r, cs[i]) == TextOf(a, cs[i])
    {
      assert cs[i] in cs;
      ChildAddedSameBelow(a, p, n, cs[i]);
      TextFrame(a, r, cs[i]);
    }
    ChildAddedSameBelow(a, p, n, n);
    TextFrame(a, r, n);
    TextOfFirstSame(a, r, p, |cs|);
  }

  /** Text and CDATA nodes give their data; comments, and everything below them, give nothing. */
  lemma TextOfLeaves(a: Arena, n: int)
    requires WellLinked(a) && 0 <= n < |a.nodes|
    ensures a.nodes[n].kind in {TextNode, CharDataNode} ==> TextOf(a, n) == a.nodes[n].data
    ensures a.nodes[n].kind == CommentNode ==> TextOf(a, n) == ""
    ensures a.nodes[n].kind !in {TextNode, CharDataNode, CommentNode} && a.firstChild[n] == Nil ==> TextOf(a, n) == ""
  {
    if a.nodes[n].kind !in {TextNode, CharDataNode, CommentNode} && a.firstChild[n] == Nil {
      ChildrenFacts(a, n);
    }
  }

  /**
   * `n.InnerText()`: the recursive `output` closure. Go appends every piece
   * to one buffer; here each call returns what it appends.
   */
  method InnerText(t: Tree, n: int) returns (s: string)
    requires WellLinked(t.Snapshot()) && 0 <= n < |t.nodes|
    ensures s == TextOf(t.Snapshot(), n)
    decreases |t.nodes| - n, 1
  {
    var kind := t.nodes[n].kind;
    if kind == TextNode || kind == CharDataNode {
      s := t.nodes[n].data;
    } else if kind == CommentNode {
      s := "";
    } else {
      s := ChildrenText(t, n);
    }
  }

  /** The loop over the child chain inside `output`. */
  method ChildrenText(t: Tree, n: int) returns (s: string)
    requires WellLinked(t.Snapshot()) && 0 <= n < |t.nodes|
    ensures s == TextOfFirst(t.Snapshot(), n, |Children(t.Snapshot(), n)|)
    decreases |t.nodes| - n, 0
  {
    ghost var a := t.Snapshot();
    ghost var cs := Children(a, n);
    ChildrenFacts(a, n);
    s := "";
    var child := t.firstChild[n];
    ghost var k := 0;
    while child != Nil
      invariant 0 <= k <= |cs|
      invariant child == (if k < |cs| then cs[k] else Nil)
      invariant s == TextOfFirst(a, n, k)
      decreases |cs| - k
    {
      ChildStep(a, n, k);
      var piece := InnerText(t, child);
      s := s + piece;
      child := t.nextSibling[child];
      k := k + 1;
    }
  }

  // ---------------------------------------------------------------------------
  // xml:space and sanitizedData

  /** The value of the node's first `xml:space` attribute, or "" (the `SelectAttr("xml:space")` lookup). */
  function XmlSpace(attrs: seq<Attr>): (v: string)
    ensures v != "" ==> exists i :: 0 <= i < |attrs| && attrs[i].name == Name("xml", "space") && attrs[i].value == v
  {
    if attrs == [] then ""
    else if attrs[0].name == Name("xml", "space") then attrs[0].value
    else XmlSpace(attrs[1..])
  }

  /** The lookup gives the first `xml:space` attribute's value, and "" when the node has none. */
  lemma {:induction false} XmlSpaceFirst(attrs: seq<Attr>)
    ensures (forall i | 0 <= i < |attrs| :: attrs[i].name != Name("xml", "space")) ==> XmlSpace(attrs) == ""
    ensures forall i | 0 <= i < |attrs| && attrs[i].name == Name("xml", "space") ::
      (forall j | 0 <= j < i :: attrs[j].name != Name("xml", "space")) ==> XmlSpace(attrs) == attrs[i].value
  {
    if attrs != [] && attrs[0].name != Name("xml", "space") {
      XmlSpaceFirst(attrs[1..]);
      forall i | 0 <= i < |attrs| && attrs[i].name == Name("xml", "space") &&
        (forall j | 0 <= j < i :: attrs[j].name != Name("xml", "space"))
        ensures XmlSpace(attrs) == attrs[i].value
      {
        assert attrs[1..][i - 1] == attrs[i];
        forall j | 0 <= j < i - 1 ensures attrs[1..][j].name != Name("xml", "space") {
          assert attrs[1..][j] == attrs[j + 1];
        }
      }
      forall i | 0 <= i < |attrs| - 1 ensures attrs[1..][i] == attrs[i + 1] { }
    }
  }

  /** `calculatePreserveSpaces` (node.go:79-86): "preserve" turns preservation on, "default" off, anything else inherits. */
  function PreserveSpaces(nd: Node, past: bool): (r: bool)
    ensures XmlSpace(nd.attrs) == "preserve" ==> r
    ensures XmlSpace(nd.attrs) == "default" ==> !r
    ensures XmlSpace(nd.attrs) !in {"preserve", "default"} ==> r == past
  {
    var v := XmlSpace(nd.attrs);
    if v == "preserve" then true else if v == "default" then false else past
  }

  /** The characters `sanitizedData` strips: "\n\t" when preserving, all of TrimSpace's otherwise. */
  function TrimmedBy(preserve: bool): set<char> {
    if preserve then {'\n', '\t'} else AsciiSpace
  }

  /** `sanitizedData` (node.go:72-77). */
  function Sanitized(data: string, preserve: bool): string {
    if preserve then Trim(data, {'\n', '\t'}) else TrimSpace(data)
  }

  /**
   * `r` is the run of `s` starting at `i`, everything before and after it is
   * a cut character, and the run neither starts nor ends with one.
   */
  ghost predicate TrimmedSlice(s: string, cut: set<char>, r: string, i: int) {
    0 <= i <= |s| - |r| && r == s[i..i + |r|] &&
    (forall j | 0 <= j < i :: s[j] in cut) &&
    (forall j | i + |r| <= j < |s| :: s[j] in cut) &&
    (r != [] ==> r[0] !in cut && r[|r| - 1] !in cut)
  }

  /** `Trim(s, cut)` is the run of `s` that starts after its leading cut characters, trimmed on both sides. */
  lemma TrimIsSlice(s: string, cut: set<char>, r: string, i: int)
    requires r == Trim(s, cut) && i == |s| - |TrimLeft(s, cut)|
    ensures TrimmedSlice(s, cut, r, i)
  {
    var l := TrimLeft(s, cut);
    assert r == TrimRight(l, cut);
    TrimLeftDrops(s, cut);
    TrimRightDrops(l, cut);
    SuffixTrimmed(s, l, r, i, cut);
  }

  /** The slice facts of `TrimIsSlice` for a suffix `l` of `s` and a prefix `r` of `l`. */
  lemma SuffixTrimmed(s: string, l: string, r: string, i: int, cut: set<char>)
    requires 0 <= i <= |s| && l == s[i..] && |r| <= |l| && r == l[..|r|]
    requires forall j :: 0 <= j < i ==> s[j] in cut
    requires forall j :: |r| <= j < |l| ==> l[j] in cut
    requires l == [] || l[0] !in cut
    requires r == [] || r[|r| - 1] !in cut
    ensures TrimmedSlice(s, cut, r, i)
  {
    assert r == s[i..i + |r|];
    forall j | i + |r| <= j < |s|
      ensures s[j] in cut
    {
      assert s[j] == l[j - i];
    }
    if r != [] {
      assert r[0] == l[0];
    }
  }

  /** sanitizedData removes only the stripped characters of the xml:space setting, from the two ends. */
  lemma SanitizedIsTrimmed(data: string, preserve: bool)
    ensures var cut := TrimmedBy(preserve);
      TrimmedSlice(data, cut, Sanitized(data, preserve), |data| - |TrimLeft(data, cut)|)
  {
    var cut := TrimmedBy(preserve);
    assert Sanitized(data, preserve) == Trim(data, cut);
    TrimIsSlice(data, cut, Sanitized(data, preserve), |data| - |TrimLeft(data, cut)|);
  }

  // ---------------------------------------------------------------------------
  // outputXML

  /** ` space:local="value"` or ` local="value"` for each attribute (node.go:109-118). */
  function AttrsXml(attrs: seq<Attr>, esc: string -> string): string {
    if attrs == [] then ""
    else " " + QualifiedName(attrs[0].name) + "=" + "\"" + esc(attrs[0].value) + "\"" + AttrsXml(attrs[1..], esc)
  }

  /** How a start tag opens: `<?target` for a declaration, `<prefix:name` or `<name` otherwise. */
  function TagOpening(nd: Node): string {
    if nd.kind == DeclarationNode then "<?" + nd.data else "<" + QualifiedName(Name(nd.prefix, nd.data))
  }

  /** What outputXML writes before the children of a node that is not text or a comment. */
  function StartTag(nd: Node, esc: string -> string): string {
    TagOpening(nd) + AttrsXml(nd.attrs, esc) + (if nd.kind == DeclarationNode then "?>" else ">")
  }

  /** What outputXML writes after the children: a closing tag, except for a declaration. */
  function EndTag(nd: Node): string {
    if nd.kind == DeclarationNode then "" else "</" + QualifiedName(Name(nd.prefix, nd.data)) + ">"
  }

  /** `outputXML(buf, n, preserve)` (node.go:88-134): the text it writes. */
  function XmlOf(a: Arena, n: int, preserve: bool, esc: string -> string): string
    requires WellLinked(a) && 0 <= n < |a.nodes|
    decreases |a.nodes| - n, 1
  {
    var nd := a.nodes[n];
    var pres := PreserveSpaces(nd, preserve);
    if nd.kind == TextNode || nd.kind == CharDataNode then esc(Sanitized(nd.data, pres))
    else if nd.kind == CommentNode then "<!--" + nd.data + "-->"
    else StartTag(nd, esc) + XmlOfFirst(a, n, |Children(a, n)|, pres, esc) + EndTag(nd)
  }

  /** The output of the first `k` children of `n`, one after another. */
  function XmlOfFirst(a: Arena, n: int, k: int, preserve: bool, esc: string -> string): string
    requires WellLinked(a) && 0 <= n < |a.nodes| && 0 <= k <= |Children(a, n)|
    decreases |a.nodes| - n, 0, k
  {
    if k == 0 then "" else XmlOfFirst(a, n, k - 1, preserve, esc) + XmlOf(a, Children(a, n)[k - 1], preserve, esc)
  }

  /** `n.OutputXML(self)` (node.go:136-148). */
  function OutputXML(a: Arena, n: int, self: bool, esc: string -> string): string
    requires WellLinked(a) && 0 <= n < |a.nodes|
  {
    if self then XmlOf(a, n, false, esc) else XmlOfFirst(a, n, |Children(a, n)|, false, esc)
  }

  /** The first `k` children of `p` have the same output in `a` and in `r`. */
  ghost predicate SameFirstXml(a: Arena, r: Arena, p: int, k: int, preserve: bool, esc: string -> string)
    requires WellLinked(a) && WellLinked(r) && 0 <= p < |a.nodes| && 0 <= p < |r.nodes|
    requires 0 <= k <= |Children(a, p)| && k <= |Children(r, p)|
  {
    XmlOfFirst(r, p, k, preserve, esc) == XmlOfFirst(a, p, k, preserve, esc)
  }

  /** Two arenas whose first `k` children of `p` are the same nodes with the same subtrees agree on their output. */
  lemma {:induction false} XmlOfFirstSame(a: Arena, r: Arena, p: int, k: int, preserve: bool, esc: string -> string)
    requires WellLinked(a) && WellLinked(r) && |r.nodes| == |a.nodes| && 0 <= p < |a.nodes|
    requires 0 <= k <= |Children(a, p)| && k <= |Children(r, p)|
    requires forall i | 0 <= i < k :: Children(r, p)[i] == Children(a, p)[i] && SameBelow(a, r, Children(a, p)[i])
    ensures SameFirstXml(a, r, p, k, preserve, esc)
    decreases |a.nodes| - p, 0, k
  {
    if k > 0 {
      XmlOfFirstSame(a, r, p, k - 1, preserve, esc);
      XmlOfFirstStep(a, r, p, k, preserve, esc);
    }
  }

  /** One more child with the same subtree keeps the outputs of the first children equal. */
  lemma {:induction false} XmlOfFirstStep(a: Arena, r: Arena, p: int, k: int, preserve: bool, esc: string -> string)
    requires WellLinked(a) && WellLinked(r) && |r.nodes| == |a.nodes| && 0 <= p < |a.nodes|
    requires 0 < k <= |Children(a, p)| && k <= |Children(r, p)|
    requires SameFirstXml(a, r, p, k - 1, preserve, esc)
    requires Children(r, p)[k - 1] == Children(a, p)[k - 1] && SameBelow(a, r, Children(a, p)[k - 1])
    ensures SameFirstXml(a, r, p, k, preserve, esc)
    decreases |a.nodes| - p, 0, k - 1
  {
    XmlFrame(a, r, Children(a, p)[k - 1], preserve, esc);
  }

  /** outputXML only looks at the subtree of the node. */
  lemma {:induction false} XmlFrame(a: Arena, r: Arena, x: int, preserve: bool, esc: string -> string)
    requires WellLinked(a) && WellLinked(r) && 0 <= x < |a.nodes| && SameBelow(a, r, x)
    ensures XmlOf(r, x, preserve, esc) == XmlOf(a, x, preserve, esc)
    decreases |a.nodes| - x, 1
  {
    assert Below(a, x, x);
    SameChildren(a, r, x);
    var cs := Children(a, x);
    assert forall i | 0 <= i < |cs| :: cs[i] in cs;
    XmlOfFirstSame(a, r, x, |cs|, PreserveSpaces(a.nodes[x], preserve), esc);
  }

  /**
   * The output of an element or declaration opens with its tag: `<?` and
   * the target for a declaration, which has no closing tag, and `<` and the
   * qualified name for an element, whose output ends with the closing tag
   * of that same name.
   */
  lemma XmlOfTags(a: Arena, n: int, preserve: bool, esc: string -> string)
    requires WellLinked(a) && 0 <= n < |a.nodes|
    requires a.nodes[n].kind != TextNode && a.nodes[n].kind != CharDataNode && a.nodes[n].kind != CommentNode
    ensures var nd := a.nodes[n]; var out := XmlOf(a, n, preserve, esc);
      HasPrefix(out, TagOpening(nd)) &&
      (nd.kind == DeclarationNode ==> EndTag(nd) == "") &&
      (nd.kind != DeclarationNode ==> HasSuffix(out, "</" + QualifiedName(Name(nd.prefix, nd.data)) + ">"))
  {
    var nd := a.nodes[n];
    var start := StartTag(nd, esc);
    var head := start + XmlOfFirst(a, n, |Children(a, n)|, PreserveSpaces(nd, preserve), esc);
    ConcatEnds(TagOpening(nd), AttrsXml(nd.attrs, esc) + (if nd.kind == DeclarationNode then "?>" else ">"));
    ConcatEnds(start, XmlOfFirst(a, n, |Children(a, n)|, PreserveSpaces(nd, preserve), esc));
    ConcatEnds(head, EndTag(nd));
    PrefixOfPrefix(head, start, TagOpening(nd));
    PrefixOfPrefix(head + EndTag(nd), head, TagOpening(nd));
  }

  /**
   * Appending a child to an element or declaration inserts the child's output
   * (under the parent's xml:space setting) just before the parent's end tag.
   */
  lemma XmlOfChildAdded(a: Arena, p: int, n: int, preserve: bool, esc: string -> string)
    requires CanAddChild(a, p, n)
    requires a.nodes[p].kind != TextNode && a.nodes[p].kind != CharDataNode && a.nodes[p].kind != CommentNode
    ensures var nd := a.nodes[p]; var pres := PreserveSpaces(nd, preserve);
      WellLinked(ChildAdded(a, p, n)) && XmlOf(ChildAdded(a, p, n), p, preserve, esc) ==
      StartTag(nd, esc) + (XmlOfFirst(a, p, |Children(a, p)|, pres, esc) + XmlOf(a, n, pres, esc)) + EndTag(nd)
  {
    var r := ChildAdded(a, p, n);
    ChildAddedSpec(a, p, n);
    var pres := PreserveSpaces(a.nodes[p], preserve);
    var cs := Children(a, p);
    forall i | 0 <= i < |cs|
      ensures Children(r, p)[i] == cs[i] && SameBelow(a, r, cs[i])
    {
      assert cs[i] in cs;
      ChildAddedSameBelow(a, p, n, cs[i]);
    }
    ChildAddedSameBelow(a, p, n, n);
    XmlFrame(a, r, n, pres, esc);
    XmlOfFirstSame(a, r, p, |cs|, pres, esc);
    assert XmlOfFirst(r, p, |cs| + 1, pres, esc) == XmlOfFirst(a, p, |cs|, pres, esc) + XmlOf(a, n, pres, esc);
  }

  /** Text is escaped after sanitising under the inherited setting; a comment is copied verbatim. */
  lemma XmlOfLeaves(a: Arena, n: int, preserve: bool, esc: string -> string)
    requires WellLinked(a) && 0 <= n < |a.nodes|
    ensures var nd := a.nodes[n];
      (nd.kind in {TextNode, CharDataNode} ==>
         XmlOf(a, n, preserve, esc) == esc(Sanitized(nd.data, PreserveSpaces(nd, preserve)))) &&
      (nd.kind == CommentNode ==> XmlOf(a, n, preserve, esc) == "<!--" + nd.data + "-->")
  {
  }

  // ---------------------------------------------------------------------------
  // The inherited xml:space setting

  /** The node sets `xml:space` to one of the two values `calculatePreserveSpaces` acts on. */
  predicate SetsSpace(nd: Node) {
    XmlSpace(nd.attrs) == "preserve" || XmlSpace(nd.attrs) == "default"
  }

  /**
   * The flag `outputXML` is called with at `y` when the walk started at `x`
   * with `initial`: each node from `x` down to `y`'s parent applies
   * `calculatePreserveSpaces` in turn.
   */
  ghost function PassedFlag(a: Arena, y: int, x: int, initial: bool): bool
    requires Sized(a) && 0 <= x < |a.nodes| && Below(a, y, x)
    decreases if 0 <= y then y + 1 else 0
  {
    if y == x then initial else PreserveSpaces(a.nodes[a.parent[y]], PassedFlag(a, a.parent[y], x, initial))
  }

  /** The flag in effect at `y` itself, the one its text is sanitised with. */
  ghost function FlagAt(a: Arena, y: int, x: int, initial: bool): bool
    requires Sized(a) && 0 <= x < |a.nodes| && Below(a, y, x)
  {
    assert 0 <= y < |a.nodes|;
    PreserveSpaces(a.nodes[y], PassedFlag(a, y, x, initial))
  }

  /**
   * The flag at `y` is the setting of the nearest node from `y` up to `x`
   * that sets `xml:space`: "preserve" turns preservation on, "default" off.
   */
  lemma {:induction false} FlagFromNearest(a: Arena, y: int, x: int, initial: bool, z: int)
    requires Sized(a) && 0 <= x < |a.nodes| && Below(a, y, x)
    requires 0 <= z < |a.nodes| && Below(a, y, z) && Below(a, z, x) && SetsSpace(a.nodes[z])
    requires forall w | 0 <= w < |a.nodes| && Below(a, y, w) && Below(a, w, z) && w != z :: !SetsSpace(a.nodes[w])
    ensures FlagAt(a, y, x, initial) == (XmlSpace(a.nodes[z].attrs) == "preserve")
    decreases if 0 <= y then y + 1 else 0
  {
    if y != z {
      assert !SetsSpace(a.nodes[y]);
      var p := a.parent[y];
      BelowIsNewer(a, z, x);
      BelowIsNewer(a, y, z);
      assert y != x;
      forall w | 0 <= w < |a.nodes| && Below(a, p, w) && Below(a, w, z) && w != z
        ensures !SetsSpace(a.nodes[w])
      {
        BelowIsNewer(a, p, w);
        assert Below(a, y, w);
      }
      FlagFromNearest(a, p, x, initial, z);
    }
  }

  /** When no node from `y` up to `x` sets `xml:space`, the flag at `y` is the one the walk started with. */
  lemma {:induction false} FlagWithoutSetting(a: Arena, y: int, x: int, initial: bool)
    requires Sized(a) && 0 <= x < |a.nodes| && Below(a, y, x)
    requires forall w | 0 <= w < |a.nodes| && Below(a, y, w) && Below(a, w, x) :: !SetsSpace(a.nodes[w])
    ensures FlagAt(a, y, x, initial) == initial
    decreases if 0 <= y then y + 1 else 0
  {
    assert Below(a, x, x);
    if y != x {
      var p := a.parent[y];
      assert Below(a, y, y);
      forall w | 0 <= w < |a.nodes| && Below(a, p, w) && Below(a, w, x)
        ensures !SetsSpace(a.nodes[w])
      {
        BelowIsNewer(a, p, w);
        assert Below(a, y, w);
      }
      FlagWithoutSetting(a, p, x, initial);
    }
  }

  /** `t` occurs in `s`. */
  ghost predicate Occurs(t: string, s: string) {
    exists u: string, v: string :: s == u + t + v
  }

  /** A string occurs in any concatenation it is the middle of. */
  lemma OccursAt(s: string, u: string, t: string, v: string)
    requires s == u + t + v
    ensures Occurs(t, s)
  {
  }

  /** Occurring in something that occurs in `s` is occurring in `s`. */
  lemma OccursTrans(t: string, m: string, s: string)
    requires Occurs(t, m) && Occurs(m, s)
    ensures Occurs(t, s)
  {
    var u, v :| m == u + t + v;
    var u', v' :| s == u' + m + v';
    assert s == (u' + u) + t + (v + v');
  }

  /** The nodes from `x` down to `y`'s parent all have their children visited: none is text or a comment. */
  ghost predicate OpenPath(a: Arena, y: int, x: int)
    requires Sized(a)
  {
    forall w | 0 <= w < |a.nodes| && Below(a, y, w) && Below(a, w, x) && w != y ::
      a.nodes[w].kind != TextNode && a.nodes[w].kind != CharDataNode && a.nodes[w].kind != CommentNode
  }

  /** The output of the first `m` children of `n` is that of the first `k` followed by `v`. */
  ghost predicate FirstXmlThen(a: Arena, n: int, k: int, m: int, preserve: bool, esc: string -> string, v: string)
    requires WellLinked(a) && 0 <= n < |a.nodes| && 0 <= k <= m <= |Children(a, n)|
  {
    XmlOfFirst(a, n, m, preserve, esc) == XmlOfFirst(a, n, k, preserve, esc) + v
  }

  /** The output of the first `k` children is a prefix of that of the first `m`. */
  lemma {:induction false} XmlOfFirstPrefix(a: Arena, n: int, k: int, m: int, preserve: bool, esc: string -> string)
    returns (v: string)
    requires WellLinked(a) && 0 <= n < |a.nodes| && 0 <= k <= m <= |Children(a, n)|
    ensures FirstXmlThen(a, n, k, m, preserve, esc, v)
    decreases m
  {
    if m == k {
      v := "";
    } else {
      var v' := XmlOfFirstPrefix(a, n, k, m - 1, preserve, esc);
      v := FirstXmlStep(a, n, k, m, preserve, esc, v');
    }
  }

  /** One more child extends the tail by its output. */
  lemma FirstXmlStep(a: Arena, n: int, k: int, m: int, preserve: bool, esc: string -> string, v': string)
    returns (v: string)
    requires WellLinked(a) && 0 <= n < |a.nodes| && 0 <= k < m <= |Children(a, n)|
    requires FirstXmlThen(a, n, k, m - 1, preserve, esc, v')
    ensures FirstXmlThen(a, n, k, m, preserve, esc, v)
  {
    var head, last := XmlOfFirst(a, n, k, preserve, esc), XmlOf(a, Children(a, n)[m - 1], preserve, esc);
    assert XmlOfFirst(a, n, m, preserve, esc) == XmlOfFirst(a, n, m - 1, preserve, esc) + last;
    v := v' + last;
    Regroup("", head, v', last, "");
  }

  /** Regrouping a concatenation of five strings. */
  lemma Regroup(s: string, h: string, p: string, v: string, e: string)
    ensures s + (h + p + v) + e == (s + h) + p + (v + e)
    ensures h + p + v == h + (p + v)
  {
  }

  /** The output of a child, under the parent's setting, occurs in the output of its parent. */
  lemma ChildXmlOccurs(a: Arena, n: int, c: int, preserve: bool, esc: string -> string)
    requires WellLinked(a) && 0 <= n < |a.nodes| && c in Children(a, n)
    requires a.nodes[n].kind != TextNode && a.nodes[n].kind != CharDataNode && a.nodes[n].kind != CommentNode
    ensures Occurs(XmlOf(a, c, PreserveSpaces(a.nodes[n], preserve), esc), XmlOf(a, n, preserve, esc))
  {
    var nd := a.nodes[n];
    var pres := PreserveSpaces(nd, preserve);
    var h, v := ChildrenXmlAround(a, n, c, pres, esc);
    var out := XmlOf(a, n, preserve, esc);
    assert out == StartTag(nd, esc) + XmlOfFirst(a, n, |Children(a, n)|, pres, esc) + EndTag(nd);
    Regroup(StartTag(nd, esc), h, XmlOf(a, c, pres, esc), v, EndTag(nd));
    OccursAt(out, StartTag(nd, esc) + h, XmlOf(a, c, pres, esc), v + EndTag(nd));
  }

  /** The children's output is what comes before the child `c`, then `c`'s output, then what follows. */
  lemma ChildrenXmlAround(a: Arena, n: int, c: int, pres: bool, esc: string -> string) returns (h: string, v: string)
    requires WellLinked(a) && 0 <= n < |a.nodes| && c in Children(a, n)
    ensures 0 <= c < |a.nodes| && XmlOfFirst(a, n, |Children(a, n)|, pres, esc) == h + XmlOf(a, c, pres, esc) + v
  {
    var cs := Children(a, n);
    var k :| 0 <= k < |cs| && cs[k] == c;
    v := XmlOfFirstPrefix(a, n, k + 1, |cs|, pres, esc);
    h := XmlOfFirst(a, n, k, pres, esc);
    assert XmlOfFirst(a, n, k + 1, pres, esc) == h + XmlOf(a, c, pres, esc);
  }

  /**
   * Inheritance (node.go:79-86 with the recursion at node.go:124-126): the
   * output of `x` contains the output of every node `y` below it, written
   * with the flag passed down to `y`; a text node there is sanitised with
   * the flag in effect at it.
   */
  lemma {:induction false} BelowXmlOccurs(a: Arena, x: int, y: int, initial: bool, esc: string -> string)
    requires WellLinked(a) && 0 <= x < |a.nodes| && Below(a, y, x) && OpenPath(a, y, x)
    ensures 0 <= y < |a.nodes|
    ensures Occurs(XmlOf(a, y, PassedFlag(a, y, x, initial), esc), XmlOf(a, x, initial, esc))
    ensures a.nodes[y].kind == TextNode || a.nodes[y].kind == CharDataNode ==>
      Occurs(esc(Sanitized(a.nodes[y].data, FlagAt(a, y, x, initial))), XmlOf(a, x, initial, esc))
    decreases if 0 <= y then y + 1 else 0
  {
    var out := XmlOf(a, x, initial, esc);
    if y == x {
      assert out == "" + out + "";
    } else {
      var p := a.parent[y];
      assert Below(a, y, p);
      forall w | 0 <= w < |a.nodes| && Below(a, p, w) && Below(a, w, x) && w != p
        ensures a.nodes[w].kind != TextNode && a.nodes[w].kind != CharDataNode && a.nodes[w].kind != CommentNode
      {
        BelowIsNewer(a, p, w);
        assert Below(a, y, w);
      }
      BelowXmlOccurs(a, x, p, initial, esc);
      ChildIsListed(a, p, y);
      ChildXmlOccurs(a, p, y, PassedFlag(a, p, x, initial), esc);
      OccursTrans(XmlOf(a, y, PassedFlag(a, y, x, initial), esc), XmlOf(a, p, PassedFlag(a, p, x, initial), esc), out);
    }
  }

  /** outputXML (node.go:88-134); each call returns what it appends to the buffer. */
  method WriteXml(t: Tree, n: int, preserve: bool, esc: string -> string) returns (s: string)
    requires WellLinked(t.Snapshot()) && 0 <= n < |t.nodes|
    ensures s == XmlOf(t.Snapshot(), n, preserve, esc)
    decreases |t.nodes| - n, 1
  {
    var nd := t.nodes[n];
    var pres := PreserveSpaces(nd, preserve);
    if nd.kind == TextNode || nd.kind == CharDataNode {
      s := esc(Sanitized(nd.data, pres));
    } else if nd.kind == CommentNode {
      s := "<!--" + nd.data + "-->";
    } else {
      var inner := ChildrenXml(t, n, pres, esc);
      s := StartTag(nd, esc) + inner + EndTag(nd);
    }
  }

  /** The loop over the child chain in outputXML (node.go:124-126). */
  method ChildrenXml(t: Tree, n: int, preserve: bool, esc: string -> string) returns (s: string)
    requires WellLinked(t.Snapshot()) && 0 <= n < |t.nodes|
    ensures s == XmlOfFirst(t.Snapshot(), n, |Children(t.Snapshot(), n)|, preserve, esc)
    decreases |t.nodes| - n, 0
  {
    ghost var a := t.Snapshot();
    ghost var cs := Children(a, n);
    ChildrenFacts(a, n);
    s := "";
    var child := t.firstChild[n];
    ghost var k := 0;
    while child != Nil
      invariant 0 <= k <= |cs|
      invariant child == (if k < |cs| then cs[k] else Nil)
      invariant s == XmlOfFirst(a, n, k, preserve, esc)
      decreases |cs| - k
    {
      ChildStep(a, n, k);
      var piece := WriteXml(t, child, preserve, esc);
      s := s + piece;
      child := t.nextSibling[child];
      k := k + 1;
    }
  }

  /** `n.OutputXML(self)`: the node itself, or each of its children, with preservation off. */
  method OutputXMLOf(t: Tree, n: int, self: bool, esc: string -> string) returns (s: string)
    requires WellLinked(t.Snapshot()) && 0 <= n < |t.nodes|
    ensures s == OutputXML(t.Snapshot(), n, self, esc)
  {
    if self {
      s := WriteXml(t, n, false, esc);
    } else {
      s := ChildrenXml(t, n, false, esc);
    }
  }

}
