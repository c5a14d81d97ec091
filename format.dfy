/**
 * format.go: the pretty-printer. A `Formatter` is the indentation string
 * and the declaration switch; the options are data applied in order to a
 * copy. `FormatOf` is the text `output` writes for a node at an indentation
 * level, and the methods walk a `Tree` the way the Go code does and are
 * proved to return exactly that text. `xml.EscapeText` is the parameter `esc`.
 */
module XmlFormat {
  import opened Wrappers
  import opened GoStrings
  import opened XmlNode
  import opened XmlTree
  import opened XmlOutput
  import opened XmlParseSpec
  import opened XmlParser

  /** `formatter` (format.go:45-48). */
  datatype Formatter = Formatter(ident: string, xmlDeclaration: bool)

  /** The two `foption` closures (format.go:12-25). */
  datatype FormatOption = IndentOption(s: string) | DeclarationOption(b: bool)

  /** The formatter `Format` starts from (format.go:39-42). */
  const DefaultFormatter: Formatter := Formatter("", true)

  /** What one option does to the copy. */
  function Apply(t: Formatter, opt: FormatOption): Formatter {
    match opt
    case IndentOption(s) => t.(ident := s)
    case DeclarationOption(b) => t.(xmlDeclaration := b)
  }

  /** The options applied in order (format.go:50-55). */
  function Merged(t: Formatter, opts: seq<FormatOption>): Formatter
    decreases |opts|
  {
    if opts == [] then t else Apply(Merged(t, opts[..|opts| - 1]), opts[|opts| - 1])
  }

  /** `merge`: the loop over the options. */
  method Merge(t: Formatter, opts: seq<FormatOption>) returns (r: Formatter)
    ensures r == Merged(t, opts)
  {
    r := t;
    for i := 0 to |opts|
      invariant r == Merged(t, opts[..i])
    {
      assert opts[..i + 1][..i] == opts[..i];
      r := Apply(r, opts[i]);
    }
    assert opts[..|opts|] == opts;
  }

  /** Merging a run of options after another is merging the two runs together. */
  lemma {:induction false} MergedAppend(t: Formatter, o1: seq<FormatOption>, o2: seq<FormatOption>)
    ensures Merged(t, o1 + o2) == Merged(Merged(t, o1), o2)
    decreases |o2|
  {
    if o2 == [] {
      assert o1 + o2 == o1;
    } else {
      assert (o1 + o2)[..|o1 + o2| - 1] == o1 + o2[..|o2| - 1];
      MergedAppend(t, o1, o2[..|o2| - 1]);
    }
  }

  /**
   * The later option wins: the indentation is that of the last indent
   * option, or the starting one when there is none; likewise for the
   * declaration switch.
   */
  lemma {:induction false} MergedLastWins(t: Formatter, opts: seq<FormatOption>)
    ensures var r := Merged(t, opts);
      ((forall i | 0 <= i < |opts| :: !opts[i].IndentOption?) ==> r.ident == t.ident) &&
      (forall i | 0 <= i < |opts| && opts[i].IndentOption? && (forall j | i < j < |opts| :: !opts[j].IndentOption?) ::
         r.ident == opts[i].s) &&
      ((forall i | 0 <= i < |opts| :: !opts[i].DeclarationOption?) ==> r.xmlDeclaration == t.xmlDeclaration) &&
      (forall i | 0 <= i < |opts| && opts[i].DeclarationOption? && (forall j | i < j < |opts| :: !opts[j].DeclarationOption?) ::
         r.xmlDeclaration == opts[i].b)
    decreases |opts|
  {
    if opts != [] {
      var init := opts[..|opts| - 1];
      MergedLastWins(t, init);
      assert forall i | 0 <= i < |init| :: init[i] == opts[i];
    }
  }

  /** `increment` (format.go:69-76): the level of the children. */
  function Increment(nd: Node, level: nat): nat {
    if nd.kind == DocumentNode then level else level + 1
  }

  /** The characters `isText` trims. */
  const LineSpace: set<char> := {'\n', '\t', '\r'}

  /** `isText` (format.go:152-163): a text or CDATA node that is not all line breaks and tabs. */
  predicate IsText(a: Arena, n: int)
    requires Sized(a)
  {
    0 <= n < |a.nodes| && (a.nodes[n].kind == CharDataNode || a.nodes[n].kind == TextNode) &&
    Trim(a.nodes[n].data, LineSpace) != ""
  }

  /** `isText` holds exactly for a text or CDATA node holding a character other than `\n`, `\t`, `\r`. */
  lemma IsTextSpec(a: Arena, n: int)
    requires Sized(a)
    ensures IsText(a, n) <==>
      0 <= n < |a.nodes| && (a.nodes[n].kind == CharDataNode || a.nodes[n].kind == TextNode) &&
      exists j | 0 <= j < |a.nodes[n].data| :: a.nodes[n].data[j] !in LineSpace
  {
    if 0 <= n < |a.nodes| {
      var s := a.nodes[n].data;
      var r := Trim(s, LineSpace);
      var i := |s| - |TrimLeft(s, LineSpace)|;
      TrimIsSlice(s, LineSpace, r, i);
      if r != "" {
        assert s[i] == r[0];
      } else {
        assert forall j | 0 <= j < |s| :: s[j] in LineSpace;
      }
    }
  }

  /** The line break and indentation written before a tag at `level`. */
  function Padding(t: Formatter, level: nat): string {
    "\n" + Repeat(t.ident, level)
  }

  /** What `output` writes before the attributes of a node with a name (format.go:101-112). */
  function Opening(t: Formatter, nd: Node, level: nat): string {
    if |nd.data| > 0 then
      (if |t.ident| > 0 && level > 0 then Padding(t, level) else "") + "<" + QualifiedName(Name(nd.prefix, nd.data))
    else ""
  }

  /** What `output` writes after the children of a node with a name (format.go:132-143). */
  function Closing(t: Formatter, a: Arena, n: int, level: nat): string
    requires IsNode(a, n)
  {
    var nd := a.nodes[n];
    if |nd.data| > 0 then
      (if |t.ident| > 0 && !IsText(a, a.lastChild[n]) then Padding(t, level) else "") +
      ("</" + QualifiedName(Name(nd.prefix, nd.data)) + ">")
    else ""
  }

  /** A node whose output is a tagged subtree rather than a leaf. */
  predicate Tagged(nd: Node) {
    nd.kind != TextNode && nd.kind != CharDataNode && nd.kind != CommentNode && nd.kind != DeclarationNode
  }

  /** What `output` writes for a text, CDATA, comment or declaration node (format.go:82-100). */
  function LeafFormat(t: Formatter, nd: Node, preserve: bool, esc: string -> string): string
    requires !Tagged(nd)
  {
    if nd.kind == TextNode then esc(Sanitized(nd.data, preserve))
    else if nd.kind == CharDataNode then "<![CDATA[" + esc(Sanitized(nd.data, preserve)) + "]]>"
    else if nd.kind == CommentNode then "<!--" + nd.data + "-->"
    else if t.xmlDeclaration then "<?" + nd.data + "?>" else ""
  }

  /** `output(buf, n, level, preserve)` (format.go:78-144): the text it writes. */
  function FormatOf(t: Formatter, a: Arena, n: int, level: nat, preserve: bool, esc: string -> string): string
    requires WellLinked(a) && 0 <= n < |a.nodes|
    decreases |a.nodes| - n, 2
  {
    var nd := a.nodes[n];
    if Tagged(nd) then TaggedFormat(t, a, n, level, PreserveSpaces(nd, preserve), esc)
    else LeafFormat(t, nd, PreserveSpaces(nd, preserve), esc)
  }

  /** What `output` writes for any other node: its tags, its attributes and its children (format.go:101-143). */
  function TaggedFormat(t: Formatter, a: Arena, n: int, level: nat, preserve: bool, esc: string -> string): string
    requires WellLinked(a) && 0 <= n < |a.nodes|
    decreases |a.nodes| - n, 1
  {
    var nd := a.nodes[n];
    Opening(t, nd, level) + (AttrsXml(nd.attrs, esc) + ((if |nd.data| > 0 then ">" else "") +
    (FormatFirst(t, a, n, |Children(a, n)|, Increment(nd, level), preserve, esc) + Closing(t, a, n, level))))
  }

  /** The output of the first `k` children of `n` at `level` (the loop of `recurse`, format.go:146-150). */
  function FormatFirst(t: Formatter, a: Arena, n: int, k: int, level: nat, preserve: bool, esc: string -> string): string
    requires WellLinked(a) && 0 <= n < |a.nodes| && 0 <= k <= |Children(a, n)|
    decreases |a.nodes| - n, 0, k
  {
    if k == 0 then "" else FormatFirst(t, a, n, k - 1, level, preserve, esc) + FormatOf(t, a, Children(a, n)[k - 1], level, preserve, esc)
  }

  /**
   * Text is escaped after sanitising, CDATA is escaped and wrapped, a
   * comment is copied verbatim, and a declaration is `<?target?>` or
   * nothing: its attributes and children are never written.
   */
  lemma FormatLeaves(t: Formatter, a: Arena, n: int, level: nat, preserve: bool, esc: string -> string)
    requires WellLinked(a) && 0 <= n < |a.nodes|
    ensures var nd := a.nodes[n]; var out := FormatOf(t, a, n, level, preserve, esc);
      var text := esc(Sanitized(nd.data, PreserveSpaces(nd, preserve)));
      (nd.kind == TextNode ==> out == text) &&
      (nd.kind == CharDataNode ==> out == "<![CDATA[" + text + "]]>") &&
      (nd.kind == CommentNode ==> out == "<!--" + nd.data + "-->") &&
      (nd.kind == DeclarationNode && t.xmlDeclaration ==> out == "<?" + nd.data + "?>") &&
      (nd.kind == DeclarationNode && !t.xmlDeclaration ==> out == "")
  {
  }

  /**
   * A named node's output opens with `<` and its qualified name, after a
   * line break and `level` copies of the indentation exactly when the
   * indentation is non-empty and the level is positive.
   */
  lemma FormatOpensTag(t: Formatter, a: Arena, n: int, level: nat, preserve: bool, esc: string -> string)
    requires WellLinked(a) && 0 <= n < |a.nodes| && Tagged(a.nodes[n]) && |a.nodes[n].data| > 0
    ensures var nd := a.nodes[n]; var out := FormatOf(t, a, n, level, preserve, esc);
      var tag := "<" + QualifiedName(Name(nd.prefix, nd.data));
      (HasPrefix(out, "\n") <==> |t.ident| > 0 && level > 0) &&
      (|t.ident| > 0 && level > 0 ==> HasPrefix(out, Padding(t, level) + tag)) &&
      (!(|t.ident| > 0 && level > 0) ==> HasPrefix(out, tag))
  {
    var nd := a.nodes[n];
    var pres := PreserveSpaces(nd, preserve);
    var rest := AttrsXml(nd.attrs, esc) + (">" +
      (FormatFirst(t, a, n, |Children(a, n)|, Increment(nd, level), pres, esc) + Closing(t, a, n, level)));
    assert FormatOf(t, a, n, level, preserve, esc) == TaggedFormat(t, a, n, level, pres, esc) == Opening(t, nd, level) + rest;
    ConcatEnds(Opening(t, nd, level), rest);
    OpeningStarts(t, nd, level, Opening(t, nd, level) + rest);
  }

  /** The first characters of anything that starts with `Opening`. */
  lemma OpeningStarts(t: Formatter, nd: Node, level: nat, out: string)
    requires |nd.data| > 0 && HasPrefix(out, Opening(t, nd, level))
    ensures var tag := "<" + QualifiedName(Name(nd.prefix, nd.data));
      (HasPrefix(out, "\n") <==> |t.ident| > 0 && level > 0) &&
      (|t.ident| > 0 && level > 0 ==> HasPrefix(out, Padding(t, level) + tag)) &&
      (!(|t.ident| > 0 && level > 0) ==> HasPrefix(out, tag))
  {
    var open := Opening(t, nd, level);
    var tag := "<" + QualifiedName(Name(nd.prefix, nd.data));
    if |t.ident| > 0 && level > 0 {
      assert open == Padding(t, level) + tag;
      assert open[0] == '\n';
    } else {
      assert open == tag;
      assert open[0] == '<';
    }
    PrefixHead(out, open);
  }

  /** A string that starts with a non-empty piece starts with a line break exactly when the piece does. */
  lemma PrefixHead(s: string, p: string)
    requires |p| > 0 && HasPrefix(s, p)
    ensures HasPrefix(s, "\n") <==> p[0] == '\n'
  {
    assert s[0] == s[..|p|][0] == p[0];
    if p[0] == '\n' {
      assert s[..1] == [s[0]] == "\n";
    }
  }

  /**
   * A named node's output ends with its closing tag; with a non-empty
   * indentation and a last child that is not text, a line break and the
   * node's own indentation come right before it, and otherwise the
   * children's output does.
   */
  lemma FormatClosesTag(t: Formatter, a: Arena, n: int, level: nat, preserve: bool, esc: string -> string)
    requires WellLinked(a) && 0 <= n < |a.nodes| && Tagged(a.nodes[n]) && |a.nodes[n].data| > 0
    ensures var nd := a.nodes[n]; var out := FormatOf(t, a, n, level, preserve, esc);
      var end := "</" + QualifiedName(Name(nd.prefix, nd.data)) + ">";
      var kids := FormatFirst(t, a, n, |Children(a, n)|, Increment(nd, level), PreserveSpaces(nd, preserve), esc);
      (|t.ident| > 0 && !IsText(a, a.lastChild[n]) ==> HasSuffix(out, Padding(t, level) + end)) &&
      (!(|t.ident| > 0 && !IsText(a, a.lastChild[n])) ==> HasSuffix(out, kids + end))
  {
    var nd := a.nodes[n];
    var pres := PreserveSpaces(nd, preserve);
    var kids := FormatFirst(t, a, n, |Children(a, n)|, Increment(nd, level), pres, esc);
    var close := Closing(t, a, n, level);
    var r3 := kids + close;
    var r2 := ">" + r3;
    var r1 := AttrsXml(nd.attrs, esc) + r2;
    var out := Opening(t, nd, level) + r1;
    assert FormatOf(t, a, n, level, preserve, esc) == TaggedFormat(t, a, n, level, pres, esc) == out;
    ConcatEnds(Opening(t, nd, level), r1);
    ConcatEnds(AttrsXml(nd.attrs, esc), r2);
    ConcatEnds(">", r3);
    ConcatEnds(kids, close);
    SuffixOfSuffix(out, r1, r2);
    SuffixOfSuffix(out, r2, r3);
    SuffixOfSuffix(out, r3, close);
    var end := "</" + QualifiedName(Name(nd.prefix, nd.data)) + ">";
    if |t.ident| > 0 && !IsText(a, a.lastChild[n]) {
      assert close == Padding(t, level) + end;
    } else {
      assert close == "" + end == end;
    }
  }

  /** A node without a name, such as the document, writes no tags: only its attributes and its children, at its own level. */
  lemma FormatUnnamed(t: Formatter, a: Arena, n: int, level: nat, preserve: bool, esc: string -> string)
    requires WellLinked(a) && 0 <= n < |a.nodes| && Tagged(a.nodes[n]) && |a.nodes[n].data| == 0
    ensures var nd := a.nodes[n];
      FormatOf(t, a, n, level, preserve, esc) ==
      AttrsXml(nd.attrs, esc) + FormatFirst(t, a, n, |Children(a, n)|, Increment(nd, level), PreserveSpaces(nd, preserve), esc)
    ensures a.nodes[n].kind == DocumentNode ==> Increment(a.nodes[n], level) == level
  {
    var nd := a.nodes[n];
    var pres := PreserveSpaces(nd, preserve);
    var attrs := AttrsXml(nd.attrs, esc);
    var kids := FormatFirst(t, a, n, |Children(a, n)|, Increment(nd, level), pres, esc);
    assert Opening(t, nd, level) == "";
    assert Closing(t, a, n, level) == "";
    assert FormatOf(t, a, n, level, preserve, esc) == TaggedFormat(t, a, n, level, pres, esc);
    assert TaggedFormat(t, a, n, level, pres, esc) == "" + (attrs + ("" + (kids + "")));
    EmptyPieces(attrs, kids);
  }

  /** Empty tags around two pieces leave just the pieces. */
  lemma EmptyPieces(x: string, y: string)
    ensures "" + (x + ("" + (y + ""))) == x + y
  {
    assert y + "" == y;
    assert "" + y == y;
    assert "" + (x + y) == x + y;
  }

  /** Without indentation the level makes no difference to the output of a node. */
  lemma {:induction false} FormatLevelFree(t: Formatter, a: Arena, n: int, l1: nat, l2: nat, preserve: bool, esc: string -> string)
    requires WellLinked(a) && 0 <= n < |a.nodes| && t.ident == ""
    ensures FormatOf(t, a, n, l1, preserve, esc) == FormatOf(t, a, n, l2, preserve, esc)
    decreases |a.nodes| - n, 1
  {
    var nd := a.nodes[n];
    if Tagged(nd) {
      FirstLevelFree(t, a, n, |Children(a, n)|, Increment(nd, l1), Increment(nd, l2), PreserveSpaces(nd, preserve), esc);
    }
  }

  /** The children's part of `FormatLevelFree`. */
  lemma {:induction false} FirstLevelFree(t: Formatter, a: Arena, n: int, k: int, l1: nat, l2: nat, preserve: bool, esc: string -> string)
    requires WellLinked(a) && 0 <= n < |a.nodes| && 0 <= k <= |Children(a, n)| && t.ident == ""
    ensures SameFirstFormat(t, a, n, k, l1, l2, preserve, esc)
    decreases |a.nodes| - n, 0, k
  {
    if k > 0 {
      FirstLevelFree(t, a, n, k - 1, l1, l2, preserve, esc);
      FirstLevelStep(t, a, n, k, l1, l2, preserve, esc);
    }
  }

  /** The first `k` children of `n` have the same output at levels `l1` and `l2`. */
  ghost predicate SameFirstFormat(t: Formatter, a: Arena, n: int, k: int, l1: nat, l2: nat, preserve: bool, esc: string -> string)
    requires WellLinked(a) && 0 <= n < |a.nodes| && 0 <= k <= |Children(a, n)|
  {
    FormatFirst(t, a, n, k, l1, preserve, esc) == FormatFirst(t, a, n, k, l2, preserve, esc)
  }

  /** One more child keeps the outputs of the first children at the two levels equal. */
  lemma {:induction false} FirstLevelStep(t: Formatter, a: Arena, n: int, k: int, l1: nat, l2: nat, preserve: bool, esc: string -> string)
    requires WellLinked(a) && 0 <= n < |a.nodes| && 0 < k <= |Children(a, n)| && t.ident == ""
    requires SameFirstFormat(t, a, n, k - 1, l1, l2, preserve, esc)
    ensures SameFirstFormat(t, a, n, k, l1, l2, preserve, esc)
    decreases |a.nodes| - n, 0, k - 1
  {
    FormatLevelFree(t, a, Children(a, n)[k - 1], l1, l2, preserve, esc);
  }

  /** `output` (format.go:78-144); each call returns what it appends to the buffer. */
  method Output(t: Formatter, tree: Tree, n: int, level: nat, preserve: bool, esc: string -> string) returns (s: string)
    requires WellLinked(tree.Snapshot()) && 0 <= n < |tree.nodes|
    ensures s == FormatOf(t, tree.Snapshot(), n, level, preserve, esc)
    decreases |tree.nodes| - n, 1
  {
    var nd := tree.nodes[n];
    var pres := PreserveSpaces(nd, preserve);
    if nd.kind == TextNode {
      return esc(Sanitized(nd.data, pres));
    } else if nd.kind == CharDataNode {
      return "<![CDATA[" + esc(Sanitized(nd.data, pres)) + "]]>";
    } else if nd.kind == CommentNode {
      return "<!--" + nd.data + "-->";
    } else if nd.kind == DeclarationNode {
      return if t.xmlDeclaration then "<?" + nd.data + "?>" else "";
    }
    var gt := if |nd.data| > 0 then ">" else "";
    var inner := Recurse(t, tree, n, Increment(nd, level), pres, esc);
    s := Opening(t, nd, level) + (AttrsXml(nd.attrs, esc) + (gt + (inner + Closing(t, tree.Snapshot(), n, level))));
  }

  /** `recurse` (format.go:146-150): the loop over the child chain. */
  method Recurse(t: Formatter, tree: Tree, n: int, level: nat, preserve: bool, esc: string -> string) returns (s: string)
    requires WellLinked(tree.Snapshot()) && 0 <= n < |tree.nodes|
    ensures s == FormatFirst(t, tree.Snapshot(), n, |Children(tree.Snapshot(), n)|, level, preserve, esc)
    decreases |tree.nodes| - n, 0
  {
    ghost var a := tree.Snapshot();
    ghost var cs := Children(a, n);
    ChildrenFacts(a, n);
    s := "";
    var child := tree.firstChild[n];
    ghost var k := 0;
    while child != Nil
      invariant 0 <= k <= |cs|
      invariant child == (if k < |cs| then cs[k] else Nil)
      invariant s == FormatFirst(t, a, n, k, level, preserve, esc)
      decreases |cs| - k
    {
      ChildStep(a, n, k);
      var piece := Output(t, tree, child, level, preserve, esc);
      s := s + piece;
      child := tree.nextSibling[child];
      k := k + 1;
    }
  }

  /** `Format(n, options...)` (format.go:37-43): the defaults, then the options, then `output` at level 0. */
  method Format(tree: Tree, n: int, opts: seq<FormatOption>, esc: string -> string) returns (s: string)
    requires WellLinked(tree.Snapshot()) && 0 <= n < |tree.nodes|
    ensures s == FormatOf(Merged(DefaultFormatter, opts), tree.Snapshot(), n, 0, false, esc)
  {
    var t := Merge(DefaultFormatter, opts);
    s := Output(t, tree, n, 0, false, esc);
  }

  /** `FormatString` (format.go:27-35) on a token stream: parse in strict mode, then format the document. */
  method FormatString(input: seq<Lexeme>, opts: seq<FormatOption>, esc: string -> string) returns (r: Result<string, ParseError>)
    ensures var d := ParseDocument(input, true, AsWritten);
      (d.Err? ==> r == Err(d.error)) &&
      (d.Ok? ==> r == Ok(FormatOf(Merged(DefaultFormatter, opts), d.value, 0, 0, false, esc)))
  {
    var doc := ParseWithOptions(input, true);
    if doc.Err? {
      return Err(doc.error);
    }
    r := Ok(FormatOf(Merged(DefaultFormatter, opts), doc.value, 0, 0, false, esc));
  }
}
