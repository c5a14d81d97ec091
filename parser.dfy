/**
 * parse.go's parser object: the fields `parse()` updates token by token, the
 * tree it grows in place, `StreamParser.Read` and `ParseWithOptions`. Every
 * method is tied to the value-level parser of XmlParseSpec: its new state is
 * that definition applied to its old state, so what XmlParseSpec and
 * XmlParseNesting prove of the definitions holds of the methods.
 */
module XmlParser {
  import opened Wrappers
  import opened GoStrings
  import opened XmlNode
  import opened XmlTree
  import opened XmlParseSpec

  /** What one token tells the loop of `parse()`: go on with this counter, return the node, or return the error. */
  datatype Signal = Continue(counter: int) | Deliver(node: int) | Stop(err: ParseError)

  /** The signal a step's result carries. */
  function SignalOf(r: StepResult): Signal {
    match r
    case Next(_, c) => Continue(c)
    case Return(_, node) => Deliver(node)
    case Fail(_, e) => Stop(e)
  }

  /** `parser` (parse.go:105-119) with its decoder replaced by the token stream still to come. */
  class Parser {
    const cfg: Config
    const tree: Tree
    var level: int
    var prev: int
    var streamNode: int
    var streamNodePrev: int
    var space2prefix: map<string, NsPrefix>
    var input: seq<Lexeme>

    /** The parser's fields as a value. */
    function State(): PState
      reads this, tree
    {
      PState(tree.Snapshot(), level, prev, streamNode, streamNodePrev, space2prefix, input)
    }

    /** `createParser` (parse.go:126-141) and the namespace table `parse()` sets up once (parse.go:159-161). */
    constructor (input: seq<Lexeme>, cfg: Config)
      ensures State() == Initial(input) && this.cfg == cfg && fresh(tree)
    {
      this.cfg := cfg;
      tree := new Tree(DocumentRecord);
      level, prev, streamNode, streamNodePrev := 0, 0, Nil, Nil;
      space2prefix := map[XmlNamespace := NsPrefix("xml", 0)];
      this.input := input;
    }

    /**
     * The attach code of parse.go:235-244 (repeated for every kind of node)
     * for the newest node `n`; false where Go dereferences a nil node.
     */
    method Place(n: int) returns (ok: bool)
      requires WellLinked(tree.Snapshot()) && 0 <= n == |tree.nodes| - 1 && Detached(tree.Snapshot(), n)
      requires prev == Nil || 0 <= prev < n
      modifies this`prev, tree
      ensures var r := Attach(old(tree.Snapshot()), old(prev), level, n);
        ok == r.Some? &&
        (ok ==> tree.Snapshot() == r.value.tree && prev == r.value.prev) &&
        (!ok ==> tree.Snapshot() == old(tree.Snapshot()) && prev == old(prev))
    {
      ghost var a := tree.Snapshot();
      if prev == Nil {
        return false;
      }
      var c := tree.nodes[prev].level;
      if level == c {
        AttachSame(a, prev, level, n);
        tree.AddSibling(prev, n);
        return true;
      } else if level > c {
        AttachDeeper(a, prev, level, n);
        tree.AddChild(prev, n);
        return true;
      }
      ok := PlaceHigher(n);
    }

    /** The branch of `Place` for a node shallower than the previous one (parse.go:239-244). */
    method PlaceHigher(n: int) returns (ok: bool)
      requires WellLinked(tree.Snapshot()) && 0 <= n == |tree.nodes| - 1 && Detached(tree.Snapshot(), n)
      requires 0 <= prev < n && level < tree.nodes[prev].level
      modifies this`prev, tree
      ensures var r := Attach(old(tree.Snapshot()), old(prev), level, n);
        ok == r.Some? &&
        (ok ==> tree.Snapshot() == r.value.tree && prev == r.value.prev) &&
        (!ok ==> tree.Snapshot() == old(tree.Snapshot()) && prev == old(prev))
    {
      ghost var a := tree.Snapshot();
      ghost var r := Attach(a, prev, level, n);
      var c := tree.nodes[prev].level;
      AttachHigher(a, prev, level, n);
      var y := WalkUp(prev, c - level);
      if y == Nil {
        assert r.None?;
        return false;
      }
      assert NodeLinked(a, y);
      var s := tree.parent[y];
      if s == Nil {
        assert r.None?;
        return false;
      }
      assert r == Some(Placed(SiblingAdded(a, s, n), y));
      tree.AddSibling(s, n);
      prev := y;
      ok := true;
    }

    /** The walk of parse.go:240-242: `i` runs from `steps` down to 2, moving one Parent link up each time. */
    method WalkUp(x: int, steps: int) returns (y: int)
      requires WellLinked(tree.Snapshot()) && 0 <= x < |tree.nodes| && steps >= 1
      ensures y == Up(tree.Snapshot(), x, steps - 1)
    {
      ghost var a := tree.Snapshot();
      y := x;
      var i := steps;
      while i > 1
        invariant 1 <= i <= steps && 0 <= y <= x
        invariant Up(a, y, i - 1) == Up(a, x, steps - 1)
        decreases i
      {
        assert NodeLinked(a, y);
        if tree.parent[y] == Nil {
          return Nil;
        }
        y := tree.parent[y];
        i := i - 1;
      }
    }

    /** Allocates `nd` and attaches it (the code shared by text, comments and directives, parse.go:306-335, 363-374). */
    method LeafToken(counter: int, nd: Node) returns (sig: Signal)
      requires PValid(State())
      modifies this`prev, tree
      ensures var r := LeafStep(old(State()), counter, nd); State() == r.st && sig == SignalOf(r)
    {
      ghost var a := tree.Snapshot();
      var n := tree.NewNode(nd);
      AppendedSpec(a, nd);
      var ok := Place(n);
      sig := if ok then Continue(counter) else Stop(NilDereference);
    }

    /** The namespace loop of parse.go:195-205. */
    method BindNamespaces(attrs: seq<TokenAttr>)
      modifies this`space2prefix
      ensures space2prefix == Bind(old(space2prefix), attrs, level)
    {
      for i := 0 to |attrs|
        invariant space2prefix == Bind(old(space2prefix), attrs[..i], level)
      {
        assert attrs[..i + 1][..i] == attrs[..i];
        var att := attrs[i];
        if att.name.local == "xmlns" {
          if att.value !in space2prefix || space2prefix[att.value].level >= level {
            space2prefix := space2prefix[att.value := NsPrefix("", level)];
          }
        } else if att.name.space == "xmlns" {
          space2prefix := space2prefix[att.value := NsPrefix(att.name.local, level)];
        }
      }
      assert attrs[..|attrs|] == attrs;
    }

    /** The attribute loop of parse.go:213-224. */
    method ResolveAttributes(attrs: seq<TokenAttr>) returns (out: seq<Attr>)
      ensures out == ResolveAttrs(space2prefix, attrs)
    {
      out := [];
      for i := 0 to |attrs|
        invariant |out| == i && forall j | 0 <= j < i :: out[j] == ResolveAttr(space2prefix, attrs[j])
      {
        var name := attrs[i].name;
        if name.space in space2prefix {
          name := name.(space := space2prefix[name.space].name);
        }
        out := out + [Attr(name, attrs[i].value, attrs[i].name.space)];
      }
    }

    /** The `xml.StartElement` case (parse.go:177-270). */
    method StartToken(counter: int, name: Name, attrs: seq<TokenAttr>, raw: seq<byte>) returns (sig: Signal)
      requires PValid(State())
      modifies this, tree
      ensures var r := StartStep(cfg, old(State()), counter, name, attrs, raw); State() == r.st && sig == SignalOf(r)
    {
      ghost var st := State();
      if level == 0 {
        if prev == Nil {
          return Stop(NilDereference);
        }
        ghost var a := tree.Snapshot();
        var d := tree.NewNode(SynthesisedDeclaration);
        AppendedSpec(a, SynthesisedDeclaration);
        NewestCanAddChild(tree.Snapshot(), prev, d);
        tree.AddChild(prev, d);
        level, prev := 1, d;
      }
      assert State() == Declared(st).value;
      BindNamespaces(attrs);
      if name.space != "" && name.space !in space2prefix && cfg.strict {
        return Stop(MissingNamespace(name.space));
      }
      sig := PlaceElementToken(counter, name, attrs, raw);
    }

    /** parse.go:213-269: build the element, attach it, settle its prefix and the stream state, and move into it. */
    method PlaceElementToken(counter: int, name: Name, attrs: seq<TokenAttr>, raw: seq<byte>) returns (sig: Signal)
      requires PValid(State())
      modifies this, tree
      ensures var r := PlaceElement(cfg, old(State()), counter, name, attrs, raw); State() == r.st && sig == SignalOf(r)
    {
      ghost var st := State();
      var resolved := ResolveAttributes(attrs);
      var nd := Node(ElementNode, name.local, "", name.space, resolved, level, 0, None);
      assert nd == ElementRecord(space2prefix, name, attrs, level);
      var n := tree.NewNode(nd);
      AppendedSpec(st.tree, nd);
      var ok := Place(n);
      ghost var placed := AllocAttach(st.tree, st.prev, st.level, nd);
      if !ok {
        assert placed.None?;
        return Stop(NilDereference);
      }
      assert placed == Some(Placed(tree.Snapshot(), prev));
      sig := OpenElement(n, counter, name, raw);
    }

    /** parse.go:246-270 for the element `n` just attached: its prefix, the stream check, then the cursor moves into it. */
    method OpenElement(n: int, counter: int, name: Name, raw: seq<byte>) returns (sig: Signal)
      requires WellLinked(tree.Snapshot()) && 0 <= n < |tree.nodes|
      modifies this, tree
      ensures var a := Prefixed(old(tree.Snapshot()), n, space2prefix, name, raw);
        var stream := StreamStart(cfg, old(State()).(tree := a), counter, n, old(prev));
        State() == old(State()).(tree := a, prev := n, level := old(level) + 1,
                                 streamNode := stream.0, streamNodePrev := stream.1) &&
        sig == Continue(stream.2)
    {
      SettlePrefix(n, name, raw);
      var c := StreamCheck(n, counter);
      prev := n;
      level := level + 1;
      sig := Continue(c);
    }

    /** parse.go:246-253: the element takes the bound prefix when the raw bytes spell it. */
    method SettlePrefix(n: int, name: Name, raw: seq<byte>)
      requires WellLinked(tree.Snapshot()) && 0 <= n < |tree.nodes|
      modifies tree
      ensures tree.Snapshot() == Prefixed(old(tree.Snapshot()), n, space2prefix, name, raw)
    {
      if name.space != "" && name.space in space2prefix {
        var v := space2prefix[name.space].name;
        var cached := CacheWithLimit(raw, |v| + |name.local| + 2);
        if HasPrefix(cached, v + ":" + name.local) || HasPrefix(cached, "<" + v + ":" + name.local) {
          tree.SetNode(n, tree.nodes[n].(prefix := v));
        }
      }
    }

    /** parse.go:258-268: remember the new element `n` when it is the first to match the target query. */
    method StreamCheck(n: int, counter: int) returns (c: int)
      modifies this`streamNode, this`streamNodePrev
      ensures (streamNode, streamNodePrev, c) == StreamStart(cfg, old(State()), counter, n, prev)
    {
      c := counter;
      if cfg.target.Some? {
        if streamNode == Nil {
          if cfg.target.value(tree.Snapshot()) {
            streamNode, streamNodePrev, c := n, prev, 1;
          }
        } else {
          c := c + 1;
        }
      }
    }

    /** The `xml.EndElement` case (parse.go:271-305). */
    method EndToken(counter: int) returns (sig: Signal)
      requires PValid(State())
      modifies this, tree
      ensures var r := EndStep(cfg, old(State()), counter); State() == r.st && sig == SignalOf(r)
    {
      level := level - 1;
      if streamNode == Nil {
        return Continue(counter);
      }
      if counter - 1 != 0 {
        return Continue(counter - 1);
      }
      if cfg.filter.None? || cfg.filter.value(tree.Snapshot()) {
        return Deliver(streamNode);
      }
      tree.RemoveFromTree(streamNode);
      prev, streamNode, streamNodePrev := streamNodePrev, Nil, Nil;
      sig := Continue(0);
    }

    /** parse.go:340-351: the new, unattached node of a processing instruction, at the current level. */
    method NewPiNode(target: string, inst: string) returns (n: int)
      requires Sized(tree.Snapshot())
      modifies tree
      ensures n == old(|tree.nodes|) && tree.Snapshot() == Appended(old(tree.Snapshot()), PiRecord(target, inst, level))
    {
      ghost var a := tree.Snapshot();
      var base := NewNode(DeclarationNode, target, level);
      n := tree.NewNode(base);
      var pairs := Split(inst, ' ');
      AddPairs(n, pairs);
      ghost var withAttrs := base.(attrs := PiAttrs(pairs));
      AppendedReplaced(a, base, withAttrs);
      assert tree.Snapshot() == Appended(a, withAttrs);
      if target != "xml" {
        ghost var pi := withAttrs.(kind := ProcessingInstruction, procInst := Some(ProcInstData(target, TrimSpace(inst))));
        tree.SetNode(n, tree.nodes[n].(kind := ProcessingInstruction, procInst := Some(ProcInstData(target, TrimSpace(inst)))));
        AppendedReplaced(a, withAttrs, pi);
        assert pi == PiRecord(target, inst, level);
      } else {
        assert withAttrs == PiRecord(target, inst, level);
      }
    }

    /** The loop of parse.go:342-347: each piece with an `=` past its first byte becomes an attribute of `n`. */
    method AddPairs(n: int, pairs: seq<string>)
      requires IsNode(tree.Snapshot(), n) && tree.nodes[n].attrs == []
      modifies tree
      ensures tree.Snapshot() == old(tree.Snapshot()).(nodes := old(tree.nodes)[n := old(tree.nodes[n]).(attrs := PiAttrs(pairs))])
    {
      ghost var a := tree.Snapshot();
      ghost var nd := tree.nodes[n];
      for j := 0 to |pairs|
        invariant tree.Snapshot() == a.(nodes := tree.nodes) && |tree.nodes| == |a.nodes|
        invariant tree.nodes == a.nodes[n := nd.(attrs := PiAttrs(pairs[..j]))]
      {
        assert pairs[..j + 1][..j] == pairs[..j];
        AddPair(n, pairs[j]);
      }
      assert pairs[..|pairs|] == pairs;
    }

    /** One round of that loop (parse.go:343-346): the piece's attribute, if it gives one, is added to `n`. */
    method AddPair(n: int, piece: string)
      requires IsNode(tree.Snapshot(), n)
      modifies tree
      ensures tree.Snapshot() == old(tree.Snapshot()).(nodes := tree.nodes)
      ensures tree.nodes == old(tree.nodes)[n := old(tree.nodes[n]).(attrs := old(tree.nodes[n].attrs) + PairAttr(piece))]
    {
      var pair := TrimSpace(piece);
      var i := Index(pair, "=");
      if i > 0 {
        var key, val := pair[..i], Trim(pair[i + 1..], {'"', '\''});
        assert PairAttr(piece) == [MakeAttr(key, val)];
        tree.AddAttr(n, key, val);
      } else {
        assert PairAttr(piece) == [];
        assert old(tree.nodes[n].attrs) + [] == old(tree.nodes[n].attrs);
        assert old(tree.nodes)[n := old(tree.nodes[n])] == old(tree.nodes);
      }
    }

    /** The `xml.ProcInst` case (parse.go:336-362). */
    method PiToken(counter: int, target: string, inst: string) returns (sig: Signal)
      requires PValid(State())
      modifies this, tree
      ensures var r := PiStep(cfg, old(State()), counter, target, inst); State() == r.st && sig == SignalOf(r)
    {
      if prev == Nil {
        return Stop(NilDereference);
      }
      ghost var s0 := State();
      if PiRaises(cfg.pi, State()) {
        level := level + 1;
      }
      ghost var s1 := State();
      assert s1 == PiCursorState(cfg.pi, s0);
      PiStepCursor(cfg, s0, counter, target, inst, s1);
      var n := NewPiNode(target, inst);
      sig := PlaceCursor(counter, n, s1, PiRecord(target, inst, s1.level));
    }

    /** parse.go:348-350: the new node `n` is attached at the current level and becomes the cursor. */
    method PlaceCursor(counter: int, n: int, ghost st: PState, ghost nd: Node) returns (sig: Signal)
      requires PValid(st) && st.prev != Nil && n == |st.tree.nodes|
      requires State() == st.(tree := Appended(st.tree, nd))
      modifies this`prev, tree
      ensures var r := CursorStep(st, counter, nd); State() == r.st && sig == SignalOf(r)
    {
      AppendedSpec(st.tree, nd);
      var ok := Place(n);
      if !ok {
        return Stop(NilDereference);
      }
      prev := n;
      sig := Continue(counter);
    }

    /** The token switch of parse.go:176-375. */
    method Token(counter: int, tok: Token, raw: seq<byte>) returns (sig: Signal)
      requires PValid(State())
      modifies this, tree
      ensures var r := Step(cfg, old(State()), counter, tok, raw); State() == r.st && sig == SignalOf(r)
    {
      match tok
      case StartElement(name, attrs) =>
        sig := StartToken(counter, name, attrs, raw);
      case EndElement(_) =>
        sig := EndToken(counter);
      case CharData(text) =>
        var kind := if IsCData(raw) then CharDataNode else TextNode;
        sig := LeafToken(counter, NewNode(kind, text, level));
      case Comment(text) =>
        sig := LeafToken(counter, NewNode(CommentNode, text, level));
      case ProcInst(target, inst) =>
        sig := PiToken(counter, target, inst);
      case Directive(text) =>
        sig := LeafToken(counter, NewNode(NotationNode, text, level));
    }

    /** `parse()` (parse.go:158-377): read tokens until one returns a node or an error. */
    method Parse() returns (out: Outcome)
      requires PValid(State())
      modifies this, tree
      ensures var r := ParseCall(cfg, old(State())); State() == r.st && out == r.out
    {
      var counter := 0;
      while true
        invariant PValid(State()) && Run(cfg, State(), counter) == Run(cfg, old(State()), 0)
        decreases |input|
      {
        if input == [] {
          return Failed(EOF);
        }
        var lx := input[0];
        input := input[1..];
        if lx.Malformed? {
          return Failed(DecodeError(lx.msg));
        }
        var sig := Token(counter, lx.tok, lx.raw);
        match sig
        case Continue(c) =>
          counter := c;
        case Deliver(node) =>
          return Found(node);
        case Stop(e) =>
          return Failed(e);
      }
    }

    /** The loop at parse.go:483-485: remove the previous siblings of `sn`, nearest first. */
    method PruneBefore(sn: int)
      requires WellLinked(tree.Snapshot()) && 0 <= sn < |tree.nodes| && PrunedBefore(tree.Snapshot(), sn).Some?
      modifies tree
      ensures tree.Snapshot() == PrunedBefore(old(tree.Snapshot()), sn).value
    {
      while tree.prevSibling[sn] != Nil
        invariant WellLinked(tree.Snapshot()) && 0 <= sn < |tree.nodes|
        invariant PrunedBefore(tree.Snapshot(), sn) == PrunedBefore(old(tree.Snapshot()), sn)
        decreases tree.prevSibling[sn] + 1
      {
        ghost var a := tree.Snapshot();
        assert NodeLinked(a, sn);
        assert NodeLinked(a, a.prevSibling[sn]);
        RemovedPrevious(a, sn);
        tree.RemoveFromTree(tree.prevSibling[sn]);
      }
    }

    /**
     * `StreamParser.Read` (parse.go:480-494): drop the previous stream node
     * with the siblings before it, resume from its parent, and parse on. The
     * loop at parse.go:483-485 never ends for a parentless stream node with a
     * previous sibling, and that state is excluded.
     */
    method Read() returns (out: Outcome)
      requires PValid(State()) && ReadPrep(State()).Some?
      modifies this, tree
      ensures var r := ParseCall(cfg, ReadPrep(old(State())).value); State() == r.st && out == r.out
    {
      ghost var st := State();
      if streamNode != Nil {
        var sn := streamNode;
        PruneBefore(sn);
        prev := tree.parent[sn];
        ghost var a := tree.Snapshot();
        assert NodeLinked(a, sn);
        RemovedLinked(a, sn);
        tree.RemoveFromTree(sn);
        streamNode, streamNodePrev := Nil, Nil;
      }
      assert State() == ReadPrep(st).value;
      out := Parse();
    }
  }

  /** The inner loop of parse.go:70-77: true exactly when a child of `doc` is an element. */
  method HasElementChild(t: Tree, doc: int) returns (found: bool)
    requires WellLinked(t.Snapshot()) && 0 <= doc < |t.nodes|
    ensures found == ElementChild(t.Snapshot(), doc)
  {
    ghost var a := t.Snapshot();
    ghost var cs := Children(a, doc);
    ChildrenFacts(a, doc);
    var node := t.firstChild[doc];
    ghost var m := 0;
    while node != Nil
      invariant 0 <= m <= |cs| && node == (if m < |cs| then cs[m] else Nil)
      invariant forall i | 0 <= i < m :: a.nodes[cs[i]].kind != ElementNode
      decreases |cs| - m
    {
      ChildStep(a, doc, m);
      if t.nodes[node].kind == ElementNode {
        assert cs[m] in cs;
        return true;
      }
      node := t.nextSibling[node];
      m := m + 1;
    }
    found := false;
  }

  /**
   * The walk of parse.go:69-79 over the document node's sibling chain and
   * each member's children: true exactly when one of those children is an
   * element.
   */
  method DocumentHasElement(t: Tree) returns (valid: bool)
    requires WellLinked(t.Snapshot()) && |t.nodes| >= 1
    ensures valid == HasRootElement(t.Snapshot())
  {
    ghost var a := t.Snapshot();
    ghost var docs := Chain(a.nextSibling, 0);
    valid := false;
    var doc := 0;
    ghost var k := 0;
    while doc != Nil
      invariant 0 <= k <= |docs| && doc == (if k < |docs| then docs[k] else Nil)
      invariant valid <==> exists j | 0 <= j < k :: ElementChild(a, docs[j])
      decreases |docs| - k
    {
      var found := HasElementChild(t, doc);
      valid := valid || found;
      ChainFacts(a, 0);
      if k + 1 < |docs| {
        ChainStep(a.nextSibling, 0, k);
      }
      doc := t.nextSibling[doc];
      k := k + 1;
    }
    if valid {
      ghost var j :| 0 <= j < k && ElementChild(a, docs[j]);
      assert docs[j] in docs;
    }
  }

  /** `ParseWithOptions` (parse.go:40-102) on a token stream, without line numbers. */
  method ParseWithOptions(input: seq<Lexeme>, strict: bool) returns (res: Result<Arena, ParseError>)
    ensures res == ParseDocument(input, strict, AsWritten)
  {
    var p := new Parser(input, DocumentConfig(strict, AsWritten));
    NoTargetNoFound(p.cfg, p.State(), 0);
    // Without a target query the first call already ends in an error, so Go's `for err == nil` loop runs once.
    var out := p.Parse();
    if out.err != EOF {
      return Err(out.err);
    }
    var valid := DocumentHasElement(p.tree);
    res := if valid then Ok(p.tree.Snapshot()) else Err(InvalidDocument);
  }
}
