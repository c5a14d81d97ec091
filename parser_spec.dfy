/**
 * The tree-building parser of parse.go (`parser.parse`, lines 158-377) as a
 * function of the token stream. The `encoding/xml` decoder is outside the
 * model: its output is the sequence of `Lexeme`s, each token together with
 * the raw bytes the cached reader captured while the decoder read it, or a
 * decoder error. The two XPath queries of the stream mode are predicates
 * over the arena.
 *
 * A `PState` holds the fields `parse()` reads and writes: the tree, `level`,
 * `prev`, `streamNode`, `streamNodePrev` and `space2prefix`, plus the tokens
 * still to come. `Run` is one call of `parse()`; its local
 * `streamElementNodeCounter` is the `counter` argument, 0 on entry.
 */
module XmlParseSpec {
  import opened Wrappers
  import opened GoStrings
  import opened XmlNode
  import CachedReaders

  // ---------------------------------------------------------------------------
  // Tokens, errors, state

  /** An attribute as the decoder reports it: its name (namespace URI and local part) and value. */
  datatype TokenAttr = TokenAttr(name: Name, value: string)

  /** The six token kinds `parse()` switches on. */
  datatype Token =
    | StartElement(name: Name, attrs: seq<TokenAttr>)
    | EndElement(name: Name)
    | CharData(text: string)
    | Comment(text: string)
    | ProcInst(target: string, inst: string)
    | Directive(text: string)

  /** One result of `decoder.Token()`: a token with the bytes captured while reading it, or an error. */
  datatype Lexeme = Lexeme(tok: Token, raw: seq<byte>) | Malformed(msg: string)

  /** The errors and failures of a parse; `NilDereference` is a Go panic on a nil `*Node`. */
  datatype ParseError =
    | EOF
    | DecodeError(msg: string)
    | MissingNamespace(space: string)
    | InvalidDocument
    | NilDereference
    | Diverges

  /** What the error reads as (parse.go:83, 209; `io.EOF`; the Go runtime's nil-pointer panic). */
  function Message(e: ParseError): string {
    match e
    case EOF => "EOF"
    case DecodeError(msg) => msg
    case MissingNamespace(space) => "xmlquery: invalid XML document, namespace " + space + " is missing"
    case InvalidDocument => "xmlquery: invalid XML document"
    case NilDereference => "runtime error: invalid memory address or nil pointer dereference"
    case Diverges => "the call does not return"
  }

  /** An `xmlnsPrefix` (parse.go:121-124): the prefix bound to a namespace URI and the level it was bound at. */
  datatype NsPrefix = NsPrefix(name: string, level: int)

  /** The namespace `xml:` stands for, bound before the first token (parse.go:160). */
  const XmlNamespace: string := "http://www.w3.org/XML/1998/namespace"

  /**
   * How a processing instruction moves `level`: `AsWritten` is
   * parse.go:337-339, `Corrected` increments only before the first element.
   */
  datatype PiRule = AsWritten | Corrected

  /** The parser's configuration: strict decoding, the two stream queries, and the PI rule. */
  datatype Config = Config(strict: bool, target: Option<Arena -> bool>, filter: Option<Arena -> bool>, pi: PiRule)

  datatype PState = PState(
    tree: Arena,
    level: int,
    prev: int,
    streamNode: int,
    streamNodePrev: int,
    space2prefix: map<string, NsPrefix>,
    input: seq<Lexeme>)

  /** `r` is nil or a node of `a`. */
  predicate Ref(a: Arena, r: int) {
    r == Nil || 0 <= r < |a.nodes|
  }

  /** A state the parser can be in: a well-linked tree with the document at node 0, and references into it. */
  ghost predicate PValid(st: PState) {
    WellLinked(st.tree) && |st.tree.nodes| >= 1 &&
    Ref(st.tree, st.prev) && Ref(st.tree, st.streamNode) && Ref(st.tree, st.streamNodePrev)
  }

  /** The document node `createParser` allocates (parse.go:130). */
  const DocumentRecord: Node := NewNode(DocumentNode, "", 0)

  /** The state `createParser` and the first `parse()` set up (parse.go:126-141, 160). */
  function Initial(input: seq<Lexeme>): (st: PState)
    ensures PValid(st) && st.tree.nodes == [DocumentRecord] && st.prev == 0 && st.level == 0 && st.input == input
    ensures st.streamNode == Nil && st.streamNodePrev == Nil
    ensures st.space2prefix == map[XmlNamespace := NsPrefix("xml", 0)]
  {
    var t := Appended(Arena([], [], [], [], [], []), DocumentRecord);
    assert NodeLinked(t, 0);
    PState(t, 0, 0, Nil, Nil, map[XmlNamespace := NsPrefix("xml", 0)], input)
  }

  // ---------------------------------------------------------------------------
  // The raw-byte cache

  /** `CacheWithLimit(k)`: at most `k` of the bytes the cached reader kept of this token. */
  function CacheWithLimit(raw: seq<byte>, k: nat): seq<byte> {
    Take(Take(raw, CachedReaders.CacheCap), k)
  }

  /** CharData is CDATA when its upper-cased first nine cached bytes start `<![CDATA[` or `![CDATA[` (parse.go:308-312). */
  predicate IsCData(raw: seq<byte>) {
    var cached := ToUpper(CacheWithLimit(raw, 9));
    HasPrefix(cached, "<![CDATA[") || HasPrefix(cached, "![CDATA[")
  }

  /** Both limits exceed the length of the patterns: the test reads the raw bytes, ignoring ASCII case. */
  lemma IsCDataSpec(raw: seq<byte>)
    ensures IsCData(raw) <==> HasPrefix(ToUpper(raw), "<![CDATA[") || HasPrefix(ToUpper(raw), "![CDATA[")
  {
    var c := CacheWithLimit(raw, 9);
    assert c == raw[..|c|] && |c| == Min(9, |raw|);
    UpperPrefix(raw, |c|);
  }

  /** Upper-casing commutes with taking a prefix. */
  lemma UpperPrefix(s: string, k: nat)
    requires k <= |s|
    ensures ToUpper(s[..k]) == ToUpper(s)[..k]
  {
  }

  // ---------------------------------------------------------------------------
  // Namespace table

  /** The update one attribute of a start tag makes to the table (parse.go:196-204). */
  function BindOne(table: map<string, NsPrefix>, att: TokenAttr, level: int): map<string, NsPrefix> {
    if att.name.local == "xmlns" then
      if att.value !in table || table[att.value].level >= level then table[att.value := NsPrefix("", level)] else table
    else if att.name.space == "xmlns" then table[att.value := NsPrefix(att.name.local, level)]
    else table
  }

  /** The loop at parse.go:195-205 over all attributes, in order. */
  function Bind(table: map<string, NsPrefix>, attrs: seq<TokenAttr>, level: int): map<string, NsPrefix>
    decreases |attrs|
  {
    if attrs == [] then table else BindOne(Bind(table, attrs[..|attrs| - 1], level), attrs[|attrs| - 1], level)
  }

  /**
   * A bare `xmlns` rebinds its URI to the empty prefix only when the URI is
   * unbound or was bound at this level or deeper; `xmlns:p` always rebinds;
   * other attributes leave the table alone.
   */
  lemma BindOneSpec(table: map<string, NsPrefix>, att: TokenAttr, level: int)
    ensures var r := BindOne(table, att, level);
      (forall u | u in table :: u in r) &&
      (forall u | u in r && u != att.value :: u in table && r[u] == table[u]) &&
      (att.name.local == "xmlns" ==>
         (att.value !in table || table[att.value].level >= level ==> att.value in r && r[att.value] == NsPrefix("", level)) &&
         (att.value in table && table[att.value].level < level ==> r == table)) &&
      (att.name.local != "xmlns" && att.name.space == "xmlns" ==>
         att.value in r && r[att.value] == NsPrefix(att.name.local, level)) &&
      (att.name.local != "xmlns" && att.name.space != "xmlns" ==> r == table)
  {
  }

  /** Binding never unbinds: every URI of the table is still bound afterwards. */
  lemma {:induction false} BindKeeps(table: map<string, NsPrefix>, attrs: seq<TokenAttr>, level: int)
    ensures forall u | u in table :: u in Bind(table, attrs, level)
    decreases |attrs|
  {
    if attrs != [] {
      BindKeeps(table, attrs[..|attrs| - 1], level);
      BindOneSpec(Bind(table, attrs[..|attrs| - 1], level), attrs[|attrs| - 1], level);
    }
  }

  /** One attribute of the new element: its namespace URI replaced by the bound prefix, the URI kept (parse.go:215-223). */
  function ResolveAttr(table: map<string, NsPrefix>, att: TokenAttr): (r: Attr)
    ensures r.value == att.value && r.namespaceURI == att.name.space && r.name.local == att.name.local
    ensures r.name.space == if att.name.space in table then table[att.name.space].name else att.name.space
  {
    var space := if att.name.space in table then table[att.name.space].name else att.name.space;
    Attr(Name(space, att.name.local), att.value, att.name.space)
  }

  /** The attribute slice of parse.go:213-224. */
  function ResolveAttrs(table: map<string, NsPrefix>, attrs: seq<TokenAttr>): (r: seq<Attr>)
    ensures |r| == |attrs| && forall i | 0 <= i < |attrs| :: r[i] == ResolveAttr(table, attrs[i])
  {
    seq(|attrs|, i requires 0 <= i < |attrs| => ResolveAttr(table, attrs[i]))
  }

  /** The attribute binds its value as a namespace URI: a bare `xmlns` or an `xmlns:p`. */
  predicate BindsUri(att: TokenAttr) {
    att.name.local == "xmlns" || att.name.space == "xmlns"
  }

  /** After `xmlns:p="U"` and no later binding of `U` on the tag, `U` stands for `p` at this level. */
  lemma {:induction false} PrefixBound(table: map<string, NsPrefix>, attrs: seq<TokenAttr>, level: int, i: int)
    requires 0 <= i < |attrs| && attrs[i].name.space == "xmlns" && attrs[i].name.local != "xmlns"
    requires forall j | i < j < |attrs| :: !(BindsUri(attrs[j]) && attrs[j].value == attrs[i].value)
    ensures var t := Bind(table, attrs, level);
      attrs[i].value in t && t[attrs[i].value] == NsPrefix(attrs[i].name.local, level)
    decreases |attrs|
  {
    var init, last := attrs[..|attrs| - 1], attrs[|attrs| - 1];
    BindOneSpec(Bind(table, init, level), last, level);
    if i < |attrs| - 1 {
      PrefixBound(table, init, level, i);
    }
  }

  /**
   * Namespace resolution on one start tag (parse.go:195-224): once the tag
   * binds `xmlns:p="U"` and binds `U` no more after it, each of the tag's
   * attributes in namespace `U` is written with space `p`, and keeps `U` as
   * its namespace URI.
   */
  lemma DeclaredPrefixResolves(table: map<string, NsPrefix>, attrs: seq<TokenAttr>, level: int, i: int)
    requires 0 <= i < |attrs| && attrs[i].name.space == "xmlns" && attrs[i].name.local != "xmlns"
    requires forall j | i < j < |attrs| :: !(BindsUri(attrs[j]) && attrs[j].value == attrs[i].value)
    ensures var r := ResolveAttrs(Bind(table, attrs, level), attrs);
      forall k | 0 <= k < |attrs| && attrs[k].name.space == attrs[i].value ::
        r[k].name == Name(attrs[i].name.local, attrs[k].name.local) && r[k].namespaceURI == attrs[i].value &&
        r[k].value == attrs[k].value
  {
    PrefixBound(table, attrs, level, i);
  }

  /** parse.go:246-253: the element keeps the bound prefix when the raw bytes spell `prefix:local` or `<prefix:local`. */
  predicate PrefixSpelled(table: map<string, NsPrefix>, name: Name, raw: seq<byte>) {
    name.space != "" && name.space in table &&
    var v := table[name.space].name;
    var cached := CacheWithLimit(raw, |v| + |name.local| + 2);
    HasPrefix(cached, v + ":" + name.local) || HasPrefix(cached, "<" + v + ":" + name.local)
  }

  // ---------------------------------------------------------------------------
  // Attaching a new node

  /** The node `k` Parent links above `x`, or nil when the walk runs off the top (parse.go:240-242). */
  function Up(a: Arena, x: int, k: nat): (y: int)
    requires WellLinked(a) && 0 <= x < |a.nodes|
    ensures y == Nil || 0 <= y <= x
    decreases k
  {
    assert NodeLinked(a, x);
    if k == 0 then x else if a.parent[x] == Nil then Nil else Up(a, a.parent[x], k - 1)
  }

  /** Where a new node is linked, and where `prev` points afterwards. */
  datatype Placed = Placed(tree: Arena, prev: int)

  /** The newest, detached node can be added as a child of any older node. */
  lemma NewestCanAddChild(a: Arena, p: int, n: int)
    requires WellLinked(a) && 0 <= n == |a.nodes| - 1 && Detached(a, n) && 0 <= p < n
    ensures CanAddChild(a, p, n)
  {
    assert NodeLinked(a, p);
  }

  /** The newest, detached node can be added after the chain of any older node. */
  lemma {:induction false} NewestCanAddSibling(a: Arena, s: int, n: int)
    requires WellLinked(a) && 0 <= n == |a.nodes| - 1 && Detached(a, n) && 0 <= s < n
    ensures CanAddSibling(a, s, n)
    decreases n - s
  {
    assert NodeLinked(a, s);
    if s < a.nextSibling[s] < |a.nextSibling| {
      NewestCanAddSibling(a, a.nextSibling[s], n);
    }
    LastSiblingFacts(a, s);
  }

  /**
   * The attach rule of parse.go:235-244 for a new node `n` of level `level`:
   * a sibling of `prev` at the same level, a child of `prev` one level
   * deeper, and otherwise, after walking `prev` up, a sibling of its parent.
   * None when Go would dereference a nil node.
   */
  function Attach(a: Arena, prev: int, level: int, n: int): (r: Option<Placed>)
    requires WellLinked(a) && 0 <= n == |a.nodes| - 1 && Detached(a, n) && (prev == Nil || 0 <= prev < n)
    ensures r.Some? ==> WellLinked(r.value.tree) && r.value.tree.nodes == a.nodes && 0 <= r.value.prev < n
  {
    if prev == Nil then None
    else
      var c := a.nodes[prev].level;
      if level == c then
        NewestCanAddSibling(a, prev, n);
        SiblingAddedSpec(a, prev, n);
        Some(Placed(SiblingAdded(a, prev, n), prev))
      else if level > c then
        NewestCanAddChild(a, prev, n);
        ChildAddedSpec(a, prev, n);
        Some(Placed(ChildAdded(a, prev, n), prev))
      else
        var y := Up(a, prev, if c - level > 1 then c - level - 1 else 0);
        if y == Nil then None
        else
          assert NodeLinked(a, y);
          var s := a.parent[y];
          if s == Nil then None
          else
            NewestCanAddSibling(a, s, n);
            SiblingAddedSpec(a, s, n);
            Some(Placed(SiblingAdded(a, s, n), y))
  }

  /** The parent `Attach` gives the new node, in each of the three cases. */
  lemma AttachParent(a: Arena, prev: int, level: int, n: int)
    requires WellLinked(a) && 0 <= n == |a.nodes| - 1 && Detached(a, n) && (prev == Nil || 0 <= prev < n)
    ensures var r := Attach(a, prev, level, n);
      (prev == Nil ==> r.None?) &&
      (r.Some? && prev != Nil ==>
        var c := a.nodes[prev].level;
        r.value.tree.parent == a.parent[n := r.value.tree.parent[n]] &&
        (level == c ==> r.value.prev == prev && r.value.tree.parent[n] == a.parent[prev]) &&
        (level > c ==> r.value.prev == prev && r.value.tree.parent[n] == prev) &&
        (level < c ==>
           r.value.prev == Up(a, prev, if c - level > 1 then c - level - 1 else 0) &&
           0 <= a.parent[r.value.prev] < r.value.prev && r.value.tree.parent[n] == a.parent[a.parent[r.value.prev]]))
  {
    var r := Attach(a, prev, level, n);
    if r.Some? {
      var c := a.nodes[prev].level;
      if level == c {
        LastSiblingFacts(a, prev);
      } else if level < c {
        var y := r.value.prev;
        assert NodeLinked(a, y);
        LastSiblingFacts(a, a.parent[y]);
      }
    }
  }

  /** `Attach` at the level of `prev`: `addSibling(prev, n)`. */
  lemma AttachSame(a: Arena, prev: int, level: int, n: int)
    requires WellLinked(a) && 0 <= n == |a.nodes| - 1 && Detached(a, n) && 0 <= prev < n
    requires level == a.nodes[prev].level
    ensures CanAddSibling(a, prev, n) && Attach(a, prev, level, n) == Some(Placed(SiblingAdded(a, prev, n), prev))
  {
    NewestCanAddSibling(a, prev, n);
  }

  /** `Attach` deeper than `prev`: `addChild(prev, n)`. */
  lemma AttachDeeper(a: Arena, prev: int, level: int, n: int)
    requires WellLinked(a) && 0 <= n == |a.nodes| - 1 && Detached(a, n) && 0 <= prev < n
    requires level > a.nodes[prev].level
    ensures CanAddChild(a, prev, n) && Attach(a, prev, level, n) == Some(Placed(ChildAdded(a, prev, n), prev))
  {
    NewestCanAddChild(a, prev, n);
  }

  /** `Attach` above `prev`: after the walk to `y`, `addSibling(y.Parent, n)`, or nil where Go dereferences nil. */
  lemma AttachHigher(a: Arena, prev: int, level: int, n: int)
    requires WellLinked(a) && 0 <= n == |a.nodes| - 1 && Detached(a, n) && 0 <= prev < n
    requires level < a.nodes[prev].level
    ensures var y := Up(a, prev, a.nodes[prev].level - level - 1); var r := Attach(a, prev, level, n);
      (y == Nil ==> r.None?) &&
      (y != Nil && a.parent[y] == Nil ==> r.None?) &&
      (y != Nil && a.parent[y] != Nil ==>
         0 <= a.parent[y] < n && CanAddSibling(a, a.parent[y], n) && r == Some(Placed(SiblingAdded(a, a.parent[y], n), y)))
  {
    var c := a.nodes[prev].level;
    assert (if c - level > 1 then c - level - 1 else 0) == c - level - 1;
    var y := Up(a, prev, c - level - 1);
    if y != Nil {
      assert NodeLinked(a, y);
      var s := a.parent[y];
      if s != Nil {
        NewestCanAddSibling(a, s, n);
        assert Attach(a, prev, level, n) == Some(Placed(SiblingAdded(a, s, n), y));
      }
    }
  }

  /** A new node allocated and attached at `level`: the placement, or None on a nil dereference. */
  function AllocAttach(a: Arena, prev: int, level: int, nd: Node): (r: Option<Placed>)
    requires WellLinked(a) && Ref(a, prev)
    ensures r.Some? ==> WellLinked(r.value.tree) && r.value.tree.nodes == a.nodes + [nd] && 0 <= r.value.prev < |a.nodes|
  {
    AppendedSpec(a, nd);
    Attach(Appended(a, nd), prev, level, |a.nodes|)
  }

  // ---------------------------------------------------------------------------
  // One token

  /** What one token does: go on with the loop, return the stream node, or fail. */
  datatype StepResult = Next(st: PState, counter: int) | Return(st: PState, node: int) | Fail(st: PState, err: ParseError)

  /** The declaration parse.go:178-193 synthesises before the first element. */
  const SynthesisedDeclaration: Node :=
    Node(DeclarationNode, "xml", "", "", [Attr(Name("", "version"), "1.0", "")], 1, 0, None)

  /** parse.go:178-193: at level 0, add the declaration under `prev` and move into it. */
  function Declared(st: PState): (r: Option<PState>)
    requires PValid(st)
    ensures r.Some? ==> PValid(r.value) && r.value.input == st.input && r.value.streamNode == st.streamNode
    ensures st.level != 0 ==> r == Some(st)
    ensures st.level == 0 ==> (r.None? <==> st.prev == Nil)
    ensures st.level == 0 && r.Some? ==>
      var n := |st.tree.nodes|; var t := r.value.tree;
      t.nodes == st.tree.nodes + [SynthesisedDeclaration] && t.parent[n] == st.prev &&
      Children(t, st.prev) == Children(st.tree, st.prev) + [n] &&
      r.value == st.(tree := t, level := 1, prev := n)
  {
    if st.level != 0 then Some(st)
    else if st.prev == Nil then None
    else
      var a := Appended(st.tree, SynthesisedDeclaration);
      var n := |st.tree.nodes|;
      AppendedSpec(st.tree, SynthesisedDeclaration);
      NewestCanAddChild(a, st.prev, n);
      ChildAddedSpec(a, st.prev, n);
      assert Children(a, st.prev) == Children(st.tree, st.prev);
      Some(st.(tree := ChildAdded(a, st.prev, n), level := 1, prev := n))
  }

  /** The element node of parse.go:226-233 (line numbers are not tracked: LineNumber stays 0). */
  function ElementRecord(table: map<string, NsPrefix>, name: Name, attrs: seq<TokenAttr>, level: int): Node {
    Node(ElementNode, name.local, "", name.space, ResolveAttrs(table, attrs), level, 0, None)
  }

  /** The stream bookkeeping of parse.go:258-268 after the element `n` was attached and `prev` walked to `y`. */
  function StreamStart(cfg: Config, st: PState, counter: int, n: int, y: int): (r: (int, int, int))
    ensures cfg.target.None? ==> r == (st.streamNode, st.streamNodePrev, counter)
  {
    if cfg.target.None? then (st.streamNode, st.streamNodePrev, counter)
    else if st.streamNode != Nil then (st.streamNode, st.streamNodePrev, counter + 1)
    else if cfg.target.value(st.tree) then (n, y, 1)
    else (st.streamNode, st.streamNodePrev, counter)
  }

  /** Changing node records, and not links, keeps a tree well linked. */
  lemma RelabelledLinked(a: Arena, nodes: seq<Node>)
    requires WellLinked(a) && |nodes| == |a.nodes|
    ensures WellLinked(a.(nodes := nodes))
  {
    forall i | 0 <= i < |nodes|
      ensures NodeLinked(a.(nodes := nodes), i)
    {
      assert NodeLinked(a, i);
    }
  }

  /** parse.go:246-253: the new element `n` takes the bound prefix when the raw bytes spell it. */
  function Prefixed(a: Arena, n: int, table: map<string, NsPrefix>, name: Name, raw: seq<byte>): (r: Arena)
    requires WellLinked(a) && 0 <= n < |a.nodes|
    ensures WellLinked(r) && |r.nodes| == |a.nodes| && r.(nodes := a.nodes) == a
    ensures forall i | 0 <= i < |a.nodes| :: r.nodes[i].(prefix := a.nodes[i].prefix) == a.nodes[i]
    ensures PrefixSpelled(table, name, raw) ==> r.nodes[n].prefix == table[name.space].name
    ensures forall i | 0 <= i < |a.nodes| && i != n :: r.nodes[i] == a.nodes[i]
    ensures !PrefixSpelled(table, name, raw) ==> r == a
  {
    if PrefixSpelled(table, name, raw) then
      var nodes := a.nodes[n := a.nodes[n].(prefix := table[name.space].name)];
      RelabelledLinked(a, nodes);
      a.(nodes := nodes)
    else a
  }

  /**
   * The element's namespace URI is not bound once the tag's own attributes
   * are, at the level the element opens at (parse.go:207-211); the implicit
   * declaration raises level 0 to 1 first.
   */
  predicate Unbound(st: PState, name: Name, attrs: seq<TokenAttr>) {
    name.space != "" && (st.level != 0 || st.prev != Nil) &&
    name.space !in Bind(st.space2prefix, attrs, if st.level == 0 then 1 else st.level)
  }

  /** The `xml.StartElement` case (parse.go:177-270). */
  function StartStep(cfg: Config, st: PState, counter: int, name: Name, attrs: seq<TokenAttr>, raw: seq<byte>): (r: StepResult)
    requires PValid(st)
    ensures PValid(r.st) && r.st.input == st.input && !r.Return? && (r.Fail? ==> r.err != EOF)
    ensures cfg.target.None? ==> r.st.streamNode == st.streamNode
    ensures r.Fail? && r.err.MissingNamespace? <==> cfg.strict && Unbound(st, name, attrs)
    ensures r.Fail? && r.err.MissingNamespace? ==> r.err.space == name.space
  {
    var d := Declared(st);
    if d.None? then Fail(st, NilDereference)
    else
      var s1 := d.value;
      var s2 := s1.(space2prefix := Bind(s1.space2prefix, attrs, s1.level));
      if name.space != "" && name.space !in s2.space2prefix && cfg.strict then Fail(s2, MissingNamespace(name.space))
      else PlaceElement(cfg, s2, counter, name, attrs, raw)
  }

  /** parse.go:213-269: build the element, attach it, settle its prefix and the stream state, and move into it. */
  function PlaceElement(cfg: Config, st: PState, counter: int, name: Name, attrs: seq<TokenAttr>, raw: seq<byte>): (r: StepResult)
    requires PValid(st)
    ensures PValid(r.st) && r.st.input == st.input && !r.Return? && (r.Fail? ==> r.err == NilDereference)
    ensures cfg.target.None? ==> r.st.streamNode == st.streamNode
  {
    var nd := ElementRecord(st.space2prefix, name, attrs, st.level);
    var n := |st.tree.nodes|;
    var placed := AllocAttach(st.tree, st.prev, st.level, nd);
    if placed.None? then
      AppendedSpec(st.tree, nd);
      Fail(st.(tree := Appended(st.tree, nd)), NilDereference)
    else
      var a := Prefixed(placed.value.tree, n, st.space2prefix, name, raw);
      var stream := StreamStart(cfg, st.(tree := a), counter, n, placed.value.prev);
      Next(st.(tree := a, prev := n, level := st.level + 1, streamNode := stream.0, streamNodePrev := stream.1), stream.2)
  }

  /**
   * The element a successful `PlaceElement` opens: its local name, its
   * namespace URI and its resolved attributes come from the tag, and its
   * prefix is the one the table binds its URI to when the raw tag spells
   * `prefix:local`, and "" otherwise.
   */
  lemma PlacedElement(cfg: Config, st: PState, counter: int, name: Name, attrs: seq<TokenAttr>, raw: seq<byte>)
    requires PValid(st)
    ensures var r := PlaceElement(cfg, st, counter, name, attrs, raw);
      r.Next? ==>
        r.st.prev == |st.tree.nodes| && 0 <= r.st.prev < |r.st.tree.nodes| &&
        var nd := r.st.tree.nodes[r.st.prev];
        nd.kind == ElementNode && nd.data == name.local && nd.namespaceURI == name.space &&
        nd.attrs == ResolveAttrs(st.space2prefix, attrs) && nd.level == st.level &&
        nd.prefix == (if PrefixSpelled(st.space2prefix, name, raw) then st.space2prefix[name.space].name else "")
  {
    var nd := ElementRecord(st.space2prefix, name, attrs, st.level);
    var placed := AllocAttach(st.tree, st.prev, st.level, nd);
    if placed.Some? {
      assert placed.value.tree.nodes[|st.tree.nodes|] == nd;
    }
  }

  /**
   * Element prefix recovery on one start tag (parse.go:246-253): once the
   * tag's own bindings are in the table, an element whose URI is bound to
   * `p` and whose raw tag spells `<p:local` or `p:local` is written with
   * prefix `p`; any other element has no prefix. Its namespace URI is the
   * tag's.
   */
  lemma StartElementPrefix(cfg: Config, st: PState, counter: int, name: Name, attrs: seq<TokenAttr>, raw: seq<byte>)
    requires PValid(st)
    ensures var r := StartStep(cfg, st, counter, name, attrs, raw);
      var table := Bind(st.space2prefix, attrs, if st.level == 0 then 1 else st.level);
      r.Next? ==>
        0 <= r.st.prev < |r.st.tree.nodes| &&
        var nd := r.st.tree.nodes[r.st.prev];
        nd.kind == ElementNode && nd.data == name.local && nd.namespaceURI == name.space &&
        nd.prefix == (if PrefixSpelled(table, name, raw) then table[name.space].name else "")
  {
    var d := Declared(st);
    if d.Some? {
      var s2 := d.value.(space2prefix := Bind(d.value.space2prefix, attrs, d.value.level));
      PlacedElement(cfg, s2, counter, name, attrs, raw);
    }
  }

  /** Raw bytes that begin with `<p:local` spell the prefix `p` bound to the element's URI. */
  lemma OpenTagSpellsPrefix(table: map<string, NsPrefix>, name: Name, raw: seq<byte>)
    requires name.space != "" && name.space in table
    requires |table[name.space].name| + |name.local| + 2 <= CachedReaders.CacheCap
    requires HasPrefix(raw, "<" + table[name.space].name + ":" + name.local)
    ensures PrefixSpelled(table, name, raw)
  {
    var v := table[name.space].name;
    var t := "<" + v + ":" + name.local;
    var cached := CacheWithLimit(raw, |v| + |name.local| + 2);
    assert cached == raw[..|t|];
    assert cached[..|t|] == t;
  }

  /** `<dc:creator>` under `xmlns:dc="https://purl.org/dc/elements/1.1/"` has prefix `dc` (parse_test.go:191-210). */
  lemma DcCreatorPrefix(cfg: Config, st: PState, counter: int, raw: seq<byte>)
    requires PValid(st) && st.level != 0
    requires st.space2prefix == map["https://purl.org/dc/elements/1.1/" := NsPrefix("dc", 1)]
    requires raw == "<dc:creator>"
    ensures var r := StartStep(cfg, st, counter, Name("https://purl.org/dc/elements/1.1/", "creator"), [], raw);
      r.Next? ==>
        0 <= r.st.prev < |r.st.tree.nodes| &&
        r.st.tree.nodes[r.st.prev].prefix == "dc" &&
        r.st.tree.nodes[r.st.prev].namespaceURI == "https://purl.org/dc/elements/1.1/"
  {
    var name := Name("https://purl.org/dc/elements/1.1/", "creator");
    StartElementPrefix(cfg, st, counter, name, [], raw);
    OpenTagSpellsPrefix(st.space2prefix, name, raw);
  }

  /** Removing any node keeps the tree well linked: a root is left alone, any other node is unlinked. */
  lemma RemovedLinked(a: Arena, n: int)
    requires WellLinked(a) && 0 <= n < |a.nodes|
    ensures WellLinked(Removed(a, n))
  {
    assert NodeLinked(a, n);
    if a.parent[n] != Nil {
      RemovedSpec(a, n);
    }
  }

  /** The `xml.EndElement` case (parse.go:271-305). */
  function EndStep(cfg: Config, st: PState, counter: int): (r: StepResult)
    requires PValid(st)
    ensures PValid(r.st) && r.st.input == st.input
    ensures st.streamNode == Nil ==> r.Next? && r.st.streamNode == Nil
    ensures !r.Fail?
  {
    var s1 := st.(level := st.level - 1);
    if s1.streamNode == Nil then Next(s1, counter)
    else if counter - 1 != 0 then Next(s1, counter - 1)
    else if cfg.filter.None? || cfg.filter.value(s1.tree) then Return(s1, s1.streamNode)
    else
      RemovedLinked(s1.tree, s1.streamNode);
      Next(s1.(tree := Removed(s1.tree, s1.streamNode), prev := s1.streamNodePrev, streamNode := Nil, streamNodePrev := Nil), 0)
  }

  // ---------------------------------------------------------------------------
  // The stream candidate

  /**
   * parse.go:258-268 under a target query: the query is asked about the tree
   * with the new element attached. With no candidate yet, a match makes the
   * element the candidate, saving the cursor the attach walk ended at, with
   * a count of 1; inside a candidate the count goes up by one and the
   * candidate and its saved cursor stay.
   */
  lemma PlaceElementStream(cfg: Config, st: PState, counter: int, name: Name, attrs: seq<TokenAttr>, raw: seq<byte>)
    requires PValid(st) && cfg.target.Some?
    ensures var r := PlaceElement(cfg, st, counter, name, attrs, raw); var n := |st.tree.nodes|;
      var placed := AllocAttach(st.tree, st.prev, st.level, ElementRecord(st.space2prefix, name, attrs, st.level));
      r.Next? ==>
        placed.Some? && r.st.prev == n && r.st.level == st.level + 1 &&
        (st.streamNode != Nil ==>
           r.st.streamNode == st.streamNode && r.st.streamNodePrev == st.streamNodePrev && r.counter == counter + 1) &&
        (st.streamNode == Nil && cfg.target.value(r.st.tree) ==>
           r.st.streamNode == n && r.st.streamNodePrev == placed.value.prev && r.counter == 1) &&
        (st.streamNode == Nil && !cfg.target.value(r.st.tree) ==> r.st.streamNode == Nil && r.counter == counter)
  {
  }

  /**
   * parse.go:276-304, an end tag inside a candidate: the count goes down;
   * short of 0 only the level changes. At 0 the candidate is returned
   * exactly when there is no filter query or it holds; otherwise the
   * candidate is removed from the tree, the cursor goes back to where it was
   * saved, and there is no candidate any more.
   */
  lemma EndStepStream(cfg: Config, st: PState, counter: int)
    requires PValid(st) && st.streamNode != Nil
    ensures var r := EndStep(cfg, st, counter); var s1 := st.(level := st.level - 1);
      (counter != 1 ==> r == Next(s1, counter - 1)) &&
      (counter == 1 ==> (r.Return? <==> cfg.filter.None? || cfg.filter.value(st.tree))) &&
      (r.Return? ==> r == Return(s1, st.streamNode)) &&
      (counter == 1 && !r.Return? ==>
         r == Next(s1.(tree := Removed(st.tree, st.streamNode), prev := st.streamNodePrev,
                       streamNode := Nil, streamNodePrev := Nil), 0))
  {
  }

  /** Between two tokens of a stream parse there is a count exactly when there is a candidate. */
  predicate StreamCounted(st: PState, counter: int) {
    (st.streamNode == Nil ==> counter == 0) && (st.streamNode != Nil ==> counter >= 1)
  }

  /** How a token moves the count of open elements. */
  function CountDelta(tok: Token): int {
    if tok.StartElement? then 1 else if tok.EndElement? then -1 else 0
  }

  /**
   * One token of a stream parse keeps the count: while a candidate stays it
   * counts the candidate's elements still open, a new candidate is only the
   * element a start tag opens, and a candidate is only returned by the end
   * tag that closes it.
   */
  lemma StepCounts(cfg: Config, st: PState, counter: int, tok: Token, raw: seq<byte>)
    requires PValid(st) && cfg.target.Some? && StreamCounted(st, counter)
    ensures var r := Step(cfg, st, counter, tok, raw);
      (r.Next? ==> StreamCounted(r.st, r.counter)) &&
      (r.Return? ==> tok.EndElement? && counter == 1 && r.node == st.streamNode) &&
      (r.Next? && st.streamNode != Nil && r.st.streamNode != Nil ==>
         r.st.streamNode == st.streamNode && r.counter == counter + CountDelta(tok)) &&
      (r.Next? && st.streamNode == Nil && r.st.streamNode != Nil ==> tok.StartElement? && r.st.streamNode == r.st.prev)
  {
    match tok {
      case StartElement(name, attrs) =>
        StartCounts(cfg, st, counter, name, attrs, raw);
      case EndElement(_) =>
        if st.streamNode != Nil {
          EndStepStream(cfg, st, counter);
        }
      case _ =>
    }
  }

  /** `StepCounts` for a start tag. */
  lemma StartCounts(cfg: Config, st: PState, counter: int, name: Name, attrs: seq<TokenAttr>, raw: seq<byte>)
    requires PValid(st) && cfg.target.Some? && StreamCounted(st, counter)
    ensures var r := StartStep(cfg, st, counter, name, attrs, raw);
      (r.Next? ==> StreamCounted(r.st, r.counter)) &&
      (r.Next? && st.streamNode != Nil ==> r.st.streamNode == st.streamNode && r.counter == counter + 1) &&
      (r.Next? && st.streamNode == Nil && r.st.streamNode != Nil ==> r.st.streamNode == r.st.prev)
  {
    var d := Declared(st);
    if d.Some? {
      var s2 := d.value.(space2prefix := Bind(d.value.space2prefix, attrs, d.value.level));
      PlaceElementStream(cfg, s2, counter, name, attrs, raw);
    }
  }

  /** A node that does not move `prev` on its own: text, CDATA, comment, directive (parse.go:306-335, 363-374). */
  function LeafStep(st: PState, counter: int, nd: Node): (r: StepResult)
    requires PValid(st)
    ensures PValid(r.st) && r.st.input == st.input && !r.Return? && r.st.streamNode == st.streamNode
    ensures r.Fail? ==> r.err == NilDereference
    ensures var placed := AllocAttach(st.tree, st.prev, st.level, nd);
      (r.Fail? <==> placed.None?) &&
      (r.Next? ==> r.st == st.(tree := placed.value.tree, prev := placed.value.prev) && r.counter == counter)
  {
    var placed := AllocAttach(st.tree, st.prev, st.level, nd);
    if placed.None? then
      AppendedSpec(st.tree, nd);
      Fail(st.(tree := Appended(st.tree, nd)), NilDereference)
    else Next(st.(tree := placed.value.tree, prev := placed.value.prev), counter)
  }

  /** The attribute one ` `-separated piece of a PI's body gives (parse.go:343-346). */
  function PairAttr(pair: string): seq<Attr> {
    var p := TrimSpace(pair);
    var i := Index(p, "=");
    if i > 0 then [MakeAttr(p[..i], Trim(p[i + 1..], {'"', '\''}))] else []
  }

  /**
   * A piece gives an attribute exactly when, once trimmed, it has an `=` past
   * its first byte; the key is what precedes the first `=` and the value what
   * follows it with quotes trimmed.
   */
  lemma PairAttrSpec(pair: string)
    ensures var p := TrimSpace(pair); var i := Index(p, "="); var r := PairAttr(pair);
      (i > 0 ==> |r| == 1 && QualifiedName(r[0].name) == p[..i] && r[0].value == Trim(p[i + 1..], {'"', '\''})) &&
      (i <= 0 ==> r == [])
  {
    var p := TrimSpace(pair);
    var i := Index(p, "=");
    if i > 0 {
      MakeAttrRoundTrip(p[..i], Trim(p[i + 1..], {'"', '\''}));
    }
  }

  /** The concatenation of what `f` gives for each element, in order. */
  function FlatMap<A, B>(f: A -> seq<B>, s: seq<A>): seq<B>
    decreases |s|
  {
    if s == [] then [] else FlatMap(f, s[..|s| - 1]) + f(s[|s| - 1])
  }

  /** Mapping two runs one after the other concatenates their results. */
  lemma {:induction false} FlatMapAppend<A, B>(f: A -> seq<B>, s1: seq<A>, s2: seq<A>)
    ensures FlatMap(f, s1 + s2) == FlatMap(f, s1) + FlatMap(f, s2)
    decreases |s2|
  {
    if s2 == [] {
      assert s1 + s2 == s1;
    } else {
      var init, last := s2[..|s2| - 1], s2[|s2| - 1];
      assert (s1 + s2)[..|s1 + s2| - 1] == s1 + init && (s1 + s2)[|s1 + s2| - 1] == last;
      FlatMapAppend(f, s1, init);
    }
  }

  /** When `f` gives at most one element for each input, so does the whole map. */
  lemma {:induction false} FlatMapBound<A, B>(f: A -> seq<B>, s: seq<A>)
    requires forall x :: |f(x)| <= 1
    ensures |FlatMap(f, s)| <= |s|
    decreases |s|
  {
    if s != [] {
      FlatMapBound(f, s[..|s| - 1]);
    }
  }

  /** The attributes a PI's pieces give, in order. */
  function PiAttrs(pairs: seq<string>): seq<Attr> {
    FlatMap(PairAttr, pairs)
  }

  /** The pieces are read independently and in order: the attributes of two runs of pieces concatenate. */
  lemma PiAttrsAppend(p1: seq<string>, p2: seq<string>)
    ensures PiAttrs(p1 + p2) == PiAttrs(p1) + PiAttrs(p2)
  {
    FlatMapAppend(PairAttr, p1, p2);
  }

  /** Each piece adds at most one attribute. */
  lemma PiAttrsBound(pairs: seq<string>)
    ensures |PiAttrs(pairs)| <= |pairs|
  {
    FlatMapBound(PairAttr, pairs);
  }

  /** Whether a PI raises `level` before it is attached. */
  predicate PiRaises(rule: PiRule, st: PState)
    requires Ref(st.tree, st.prev) && st.prev != Nil
  {
    match rule
    case AsWritten => !(st.tree.nodes[st.prev].kind == DeclarationNode || st.tree.nodes[st.prev].kind == ProcessingInstruction)
    case Corrected => st.level == 0
  }

  /** The node of parse.go:340-351: a declaration for target "xml", a processing instruction otherwise. */
  function PiRecord(target: string, inst: string, level: int): Node {
    var attrs := PiAttrs(Split(inst, ' '));
    if target != "xml" then
      Node(ProcessingInstruction, target, "", "", attrs, level, 0, Some(ProcInstData(target, TrimSpace(inst))))
    else Node(DeclarationNode, target, "", "", attrs, level, 0, None)
  }

  /** The `xml.ProcInst` case (parse.go:336-362). */
  function PiStep(cfg: Config, st: PState, counter: int, target: string, inst: string): (r: StepResult)
    requires PValid(st)
    ensures PValid(r.st) && r.st.input == st.input && !r.Return? && r.st.streamNode == st.streamNode
    ensures r.Fail? ==> r.err == NilDereference
    ensures r.Next? ==> r.counter == counter
  {
    if st.prev == Nil then Fail(st, NilDereference)
    else
      var s1 := PiCursorState(cfg.pi, st);
      CursorStep(s1, counter, PiRecord(target, inst, s1.level))
  }

  /** The state in which the instruction is placed: the level raised or not, as the rule says (parse.go:337-339). */
  function PiCursorState(rule: PiRule, st: PState): (s1: PState)
    requires PValid(st) && st.prev != Nil
    ensures PValid(s1) && s1 == st.(level := s1.level)
    ensures s1.level == st.level + 1 <==> PiRaises(rule, st)
    ensures s1.level == st.level <==> !PiRaises(rule, st)
  {
    st.(level := if PiRaises(rule, st) then st.level + 1 else st.level)
  }

  /** A processing instruction past a non-nil cursor is the new record placed as the cursor, at the possibly raised level. */
  lemma PiStepCursor(cfg: Config, st: PState, counter: int, target: string, inst: string, s1: PState)
    requires PValid(st) && st.prev != Nil
    requires s1 == PiCursorState(cfg.pi, st)
    ensures PiStep(cfg, st, counter, target, inst) == CursorStep(s1, counter, PiRecord(target, inst, s1.level))
  {
  }

  /** A new node attached at the current level that becomes the cursor itself (parse.go:348-350). */
  function CursorStep(st: PState, counter: int, nd: Node): (r: StepResult)
    requires PValid(st) && st.prev != Nil
    ensures PValid(r.st) && r.st.input == st.input && !r.Return? && r.st.streamNode == st.streamNode
    ensures r.Fail? ==> r.err == NilDereference
    ensures r.Next? ==> r.st.prev == |st.tree.nodes| && r.st.level == st.level && r.counter == counter
  {
    var placed := AllocAttach(st.tree, st.prev, st.level, nd);
    if placed.None? then
      AppendedSpec(st.tree, nd);
      Fail(st.(tree := Appended(st.tree, nd)), NilDereference)
    else Next(st.(tree := placed.value.tree, prev := |st.tree.nodes|), counter)
  }

  /** The token switch of parse.go:176-375. */
  function Step(cfg: Config, st: PState, counter: int, tok: Token, raw: seq<byte>): (r: StepResult)
    requires PValid(st)
    ensures PValid(r.st) && r.st.input == st.input && (r.Fail? ==> r.err != EOF)
    ensures cfg.target.None? && st.streamNode == Nil ==> !r.Return? && r.st.streamNode == Nil
  {
    match tok
    case StartElement(name, attrs) => StartStep(cfg, st, counter, name, attrs, raw)
    case EndElement(_) => EndStep(cfg, st, counter)
    case CharData(text) => LeafStep(st, counter, NewNode(if IsCData(raw) then CharDataNode else TextNode, text, st.level))
    case Comment(text) => LeafStep(st, counter, NewNode(CommentNode, text, st.level))
    case ProcInst(target, inst) => PiStep(cfg, st, counter, target, inst)
    case Directive(text) => LeafStep(st, counter, NewNode(NotationNode, text, st.level))
  }

  /** How a call of `parse()` ends: with the stream node, or with an error. */
  datatype Outcome = Found(node: int) | Failed(err: ParseError)

  datatype Ran = Ran(st: PState, out: Outcome)

  /** One call of `parse()` (parse.go:158-377), from the token loop on; `counter` is the loop's counter. */
  function Run(cfg: Config, st: PState, counter: int): (r: Ran)
    requires PValid(st)
    ensures PValid(r.st) && |r.st.input| <= |st.input|
    ensures r.out.Found? ==> |r.st.input| < |st.input|
    decreases |st.input|
  {
    if st.input == [] then Ran(st, Failed(EOF))
    else
      var s1 := st.(input := st.input[1..]);
      var lx := st.input[0];
      if lx.Malformed? then Ran(s1, Failed(DecodeError(lx.msg)))
      else
        var r := Step(cfg, s1, counter, lx.tok, lx.raw);
        match r
        case Next(s2, c) => Run(cfg, s2, c)
        case Return(s2, node) => Ran(s2, Found(node))
        case Fail(s2, e) => Ran(s2, Failed(e))
  }

  /** `parse()`: the token loop with its counter at 0. */
  function ParseCall(cfg: Config, st: PState): (r: Ran)
    requires PValid(st)
    ensures PValid(r.st)
  {
    Run(cfg, st, 0)
  }

  /** Without a target query, `parse()` can only end with an error. */
  lemma {:induction false} NoTargetNoFound(cfg: Config, st: PState, counter: int)
    requires PValid(st) && cfg.target.None? && st.streamNode == Nil
    ensures Run(cfg, st, counter).out.Failed?
    decreases |st.input|
  {
    if st.input != [] && st.input[0].Lexeme? {
      var lx := st.input[0];
      var r := Step(cfg, st.(input := st.input[1..]), counter, lx.tok, lx.raw);
      if r.Next? {
        NoTargetNoFound(cfg, r.st, r.counter);
      }
    }
  }

  // ---------------------------------------------------------------------------
  // Where the two processing-instruction rules agree

  /** The token is no processing instruction past a cursor, or the two rules raise the level alike for it. */
  predicate RulesAgreeOn(st: PState, tok: Token)
    requires PValid(st)
  {
    tok.ProcInst? && st.prev != Nil ==> PiRaises(AsWritten, st) == PiRaises(Corrected, st)
  }

  /** On such a token one step does the same under either rule. */
  lemma StepRulesAgree(cfg: Config, st: PState, counter: int, tok: Token, raw: seq<byte>)
    requires PValid(st) && RulesAgreeOn(st, tok)
    ensures Step(cfg.(pi := AsWritten), st, counter, tok, raw) == Step(cfg.(pi := Corrected), st, counter, tok, raw)
  {
    match tok {
      case StartElement(name, attrs) =>
        StartIgnoresRule(cfg, st, counter, name, attrs, raw);
      case EndElement(_) =>
        EndIgnoresRule(cfg, st, counter);
      case ProcInst(_, _) =>
        if st.prev != Nil {
          assert PiCursorState(AsWritten, st) == PiCursorState(Corrected, st);
        }
      case _ =>
    }
  }

  /** A start tag does not look at the instruction rule. */
  lemma StartIgnoresRule(cfg: Config, st: PState, counter: int, name: Name, attrs: seq<TokenAttr>, raw: seq<byte>)
    requires PValid(st)
    ensures StartStep(cfg.(pi := AsWritten), st, counter, name, attrs, raw) == StartStep(cfg.(pi := Corrected), st, counter, name, attrs, raw)
  {
    var d := Declared(st);
    if d.Some? {
      var s2 := d.value.(space2prefix := Bind(d.value.space2prefix, attrs, d.value.level));
      PlaceIgnoresRule(cfg, s2, counter, name, attrs, raw);
    }
  }

  /** Placing the element looks only at the target query. */
  lemma PlaceIgnoresRule(cfg: Config, st: PState, counter: int, name: Name, attrs: seq<TokenAttr>, raw: seq<byte>)
    requires PValid(st)
    ensures PlaceElement(cfg.(pi := AsWritten), st, counter, name, attrs, raw) == PlaceElement(cfg.(pi := Corrected), st, counter, name, attrs, raw)
  {
    var nd := ElementRecord(st.space2prefix, name, attrs, st.level);
    var placed := AllocAttach(st.tree, st.prev, st.level, nd);
    if placed.Some? {
      var a := Prefixed(placed.value.tree, |st.tree.nodes|, st.space2prefix, name, raw);
      var t := st.(tree := a);
      assert StreamStart(cfg.(pi := AsWritten), t, counter, |st.tree.nodes|, placed.value.prev) ==
        StreamStart(cfg.(pi := Corrected), t, counter, |st.tree.nodes|, placed.value.prev);
    }
  }

  /** Nor does an end tag. */
  lemma EndIgnoresRule(cfg: Config, st: PState, counter: int)
    requires PValid(st)
    ensures EndStep(cfg.(pi := AsWritten), st, counter) == EndStep(cfg.(pi := Corrected), st, counter)
  {
  }

  /** Every token the loop reaches under the corrected rule is one on which the rules agree. */
  ghost predicate RulesAgreeOnRun(cfg: Config, st: PState, counter: int)
    requires PValid(st)
    decreases |st.input|
  {
    st.input == [] || st.input[0].Malformed? ||
    var s1 := st.(input := st.input[1..]);
    var lx := st.input[0];
    RulesAgreeOn(s1, lx.tok) &&
    var r := Step(cfg.(pi := Corrected), s1, counter, lx.tok, lx.raw);
    (r.Next? ==> RulesAgreeOnRun(cfg, r.st, r.counter))
  }

  /** Then `parse()` runs the same under either rule. */
  lemma {:induction false} RunRulesAgree(cfg: Config, st: PState, counter: int)
    requires PValid(st) && RulesAgreeOnRun(cfg, st, counter)
    ensures Run(cfg.(pi := AsWritten), st, counter) == Run(cfg.(pi := Corrected), st, counter)
    decreases |st.input|
  {
    if st.input != [] && st.input[0].Lexeme? {
      var s1 := st.(input := st.input[1..]);
      var lx := st.input[0];
      StepRulesAgree(cfg, s1, counter, lx.tok, lx.raw);
      var r := Step(cfg.(pi := Corrected), s1, counter, lx.tok, lx.raw);
      if r.Next? {
        RunRulesAgree(cfg, r.st, r.counter);
        assert cfg.(pi := AsWritten).(pi := AsWritten) == cfg.(pi := AsWritten);
      }
    }
  }

  // ---------------------------------------------------------------------------
  // StreamParser.Read

  /** Unlinking `n` touches no NextSibling link of a node newer than its successor. */
  lemma UnlinkedAbove(a: Arena, n: int, sn: int)
    requires WellLinked(a) && 0 <= n < sn < |a.nodes| && NodeLinked(a, n) && a.nextSibling[n] == sn && a.parent[n] != Nil
    ensures var r := Unlinked(a, n);
      r.prevSibling[sn] == a.prevSibling[n] && forall y | y in Chain(a.nextSibling, sn) :: r.nextSibling[y] == a.nextSibling[y]
  {
    assert NodeLinked(a, n);
  }

  /** One pass of the loop at parse.go:483-485: `sn`'s previous sibling `pv` is removed. */
  lemma RemovedPrevious(a: Arena, sn: int)
    requires WellLinked(a) && 0 <= sn < |a.nodes| && 0 <= a.prevSibling[sn] < |a.nodes|
    requires a.parent[a.prevSibling[sn]] != Nil
    ensures var pv := a.prevSibling[sn]; var r := Removed(a, pv);
      WellLinked(r) && r.nodes == a.nodes && r.parent[sn] == a.parent[sn] &&
      Older(r.prevSibling[sn], pv) && Chain(r.nextSibling, sn) == Chain(a.nextSibling, sn)
  {
    var pv := a.prevSibling[sn];
    assert NodeLinked(a, sn);
    assert NodeLinked(a, pv);
    RemovedLinked(a, pv);
    RemovedIsUnlinked(a, pv);
    UnlinkedAbove(a, pv, sn);
    ChainFrame(a.nextSibling, Unlinked(a, pv).nextSibling, sn);
  }

  /**
   * The loop at parse.go:483-485, which removes the previous siblings of the
   * stream node `sn`, nearest first. A parentless `sn` with a previous sibling
   * never gets out of it, because removing a parentless node does nothing:
   * that is None.
   */
  function PrunedBefore(a: Arena, sn: int): (r: Option<Arena>)
    requires WellLinked(a) && 0 <= sn < |a.nodes|
    ensures r.None? <==> a.parent[sn] == Nil && a.prevSibling[sn] != Nil
    ensures r.Some? ==>
      WellLinked(r.value) && r.value.nodes == a.nodes && r.value.prevSibling[sn] == Nil &&
      r.value.parent[sn] == a.parent[sn] && Chain(r.value.nextSibling, sn) == Chain(a.nextSibling, sn)
    decreases a.prevSibling[sn] + 1
  {
    assert NodeLinked(a, sn);
    var pv := a.prevSibling[sn];
    if pv == Nil then Some(a)
    else
      assert NodeLinked(a, pv);
      if a.parent[pv] == Nil then None
      else
        RemovedPrevious(a, sn);
        PrunedBefore(Removed(a, pv), sn)
  }

  /**
   * parse.go:480-492, what `Read` does before it calls `parse()`: drop the
   * previous stream node and its previous siblings, and resume from its
   * parent. None when the loop does not terminate.
   */
  function ReadPrep(st: PState): (r: Option<PState>)
    requires PValid(st)
    ensures r.Some? ==> PValid(r.value) && r.value.streamNode == Nil
    ensures r.Some? ==> r.value.input == st.input && r.value.level == st.level && r.value.space2prefix == st.space2prefix
    ensures st.streamNode == Nil ==> r == Some(st)
  {
    var sn := st.streamNode;
    if sn == Nil then Some(st)
    else
      var pr := PrunedBefore(st.tree, sn);
      if pr.None? then None
      else
        var a := pr.value;
        assert NodeLinked(a, sn);
        RemovedLinked(a, sn);
        assert Ref(Removed(a, sn), a.parent[sn]);
        Some(st.(tree := Removed(a, sn), prev := a.parent[sn], streamNode := Nil, streamNodePrev := Nil))
  }

  /**
   * After the clean-up the previous stream node's parent keeps exactly the
   * children that came after that node, and `prev` is that parent.
   */
  lemma ReadPrepSpec(st: PState)
    requires PValid(st) && st.streamNode != Nil && st.tree.parent[st.streamNode] != Nil
    ensures var r := ReadPrep(st); var sn := st.streamNode; var p := st.tree.parent[sn];
      r.Some? && r.value.prev == p && 0 <= p < sn &&
      Children(r.value.tree, p) == Chain(st.tree.nextSibling, sn)[1..] &&
      r.value.tree.parent[sn] == Nil && r.value.tree.prevSibling[sn] == Nil && r.value.tree.nextSibling[sn] == Nil
  {
    var sn := st.streamNode;
    var p := st.tree.parent[sn];
    assert NodeLinked(st.tree, sn);
    var a := PrunedBefore(st.tree, sn).value;
    assert NodeLinked(a, sn);
    RemovedSpec(a, sn);
    var tail := Chain(a.nextSibling, sn);
    assert Children(a, p) == tail;
    assert tail == [sn] + tail[1..];
    NotInLaterChain(a.nextSibling, a.nextSibling[sn], sn);
    assert tail[1..] == Chain(a.nextSibling, a.nextSibling[sn]);
    WithoutAbsent(tail[1..], sn);
  }

  // ---------------------------------------------------------------------------
  // ParseWithOptions

  /** A document is valid when the document node, or a node on its sibling chain, has an element child (parse.go:69-81). */
  ghost predicate HasRootElement(a: Arena)
    requires WellLinked(a)
  {
    exists d | d in Chain(a.nextSibling, 0) :: ElementChild(a, d)
  }

  /** Node `d` has an element among its children. */
  ghost predicate ElementChild(a: Arena, d: int)
    requires WellLinked(a) && 0 <= d < |a.nodes|
  {
    exists c | c in Children(a, d) :: a.nodes[c].kind == ElementNode
  }

  /** The configuration of a document parse: no stream queries; `ParseWithOptions` runs with `pi == AsWritten`. */
  function DocumentConfig(strict: bool, pi: PiRule): Config {
    Config(strict, None, None, pi)
  }

  /**
   * `ParseWithOptions` (parse.go:40-102) on a token stream, with the PI rule
   * `pi` (the program's own is `AsWritten`): the tree when the tokens run out
   * and the document has an element, `InvalidDocument` when they run out
   * without one, any other error unchanged.
   */
  ghost function ParseDocument(input: seq<Lexeme>, strict: bool, pi: PiRule): (r: Result<Arena, ParseError>)
    ensures r.Ok? ==> WellLinked(r.value) && |r.value.nodes| >= 1 && HasRootElement(r.value)
    ensures r.Err? ==> r.error != EOF
  {
    var cfg := DocumentConfig(strict, pi);
    var st := Initial(input);
    NoTargetNoFound(cfg, st, 0);
    var ran := Run(cfg, st, 0);
    if ran.out.err == EOF then
      if HasRootElement(ran.st.tree) then Ok(ran.st.tree) else Err(InvalidDocument)
    else Err(ran.out.err)
  }

  /** `ParseDocument` in terms of its one call of `parse()`, which ends in an error. */
  lemma DocumentOfRun(input: seq<Lexeme>, strict: bool, pi: PiRule)
    ensures var ran := Run(DocumentConfig(strict, pi), Initial(input), 0);
      ran.out.Failed? &&
      ParseDocument(input, strict, pi) ==
        if ran.out.err != EOF then Err(ran.out.err)
        else if HasRootElement(ran.st.tree) then Ok(ran.st.tree) else Err(InvalidDocument)
  {
    NoTargetNoFound(DocumentConfig(strict, pi), Initial(input), 0);
  }

  /** A document whose instructions the two rules place alike parses the same under either rule. */
  lemma DocumentRulesAgree(input: seq<Lexeme>, strict: bool)
    requires RulesAgreeOnRun(DocumentConfig(strict, Corrected), Initial(input), 0)
    ensures ParseDocument(input, strict, AsWritten) == ParseDocument(input, strict, Corrected)
  {
    RunRulesAgree(DocumentConfig(strict, Corrected), Initial(input), 0);
    assert DocumentConfig(strict, Corrected).(pi := AsWritten) == DocumentConfig(strict, AsWritten);
    assert DocumentConfig(strict, Corrected).(pi := Corrected) == DocumentConfig(strict, Corrected);
    DocumentOfRun(input, strict, AsWritten);
    DocumentOfRun(input, strict, Corrected);
  }

  /** No tokens at all: the document has no element and is rejected. */
  lemma EmptyInputIsInvalid(strict: bool, pi: PiRule)
    ensures ParseDocument([], strict, pi) == Err(InvalidDocument)
  {
    var a := Initial([]).tree;
    assert Chain(a.nextSibling, 0) == [0];
    assert Children(a, 0) == [];
  }

  /** A call of `parse()` that has a decoder error ahead of it never reaches the end of the input. */
  lemma {:induction false} MalformedNotEOF(cfg: Config, st: PState, counter: int, k: nat)
    requires PValid(st) && k < |st.input| && st.input[k].Malformed?
    ensures Run(cfg, st, counter).out != Failed(EOF)
    decreases k
  {
    if k > 0 && st.input[0].Lexeme? {
      var r := Step(cfg, st.(input := st.input[1..]), counter, st.input[0].tok, st.input[0].raw);
      if r.Next? {
        MalformedNotEOF(cfg, r.st, r.counter, k - 1);
      }
    }
  }

  /** A document that fails to tokenise anywhere is never accepted. */
  lemma DecodeErrorRejects(input: seq<Lexeme>, strict: bool, pi: PiRule, k: nat)
    requires k < |input| && input[k].Malformed?
    ensures ParseDocument(input, strict, pi).Err?
  {
    var cfg, st := DocumentConfig(strict, pi), Initial(input);
    MalformedNotEOF(cfg, st, 0, k);
    NoTargetNoFound(cfg, st, 0);
    assert Run(cfg, st, 0).out.err != EOF;
  }
}
