/**
 * What the `level`/`prev` bookkeeping of `parse()` achieves on a well-nested
 * token stream: every node is attached under the innermost element still
 * open (or under the document), and every node's level is one more than
 * its parent's. This holds with `PiRule.Corrected`; with the rule as written
 * at parse.go:337-339 a processing instruction after a closed element is
 * attached under that element instead, as `AsWrittenPiAfterElement` shows.
 */
module XmlParseNesting {
  import opened Wrappers
  import opened GoStrings
  import opened XmlNode
  import opened XmlParseSpec

  // ---------------------------------------------------------------------------
  // Levels and the walk up

  /** Node `x` sits one level below its parent, or at level 0 when it has none. */
  ghost predicate LevelOk(a: Arena, x: int)
    requires WellLinked(a) && 0 <= x < |a.nodes|
  {
    (a.parent[x] == Nil ==> a.nodes[x].level == 0) &&
    (0 <= a.parent[x] < |a.nodes| ==> a.nodes[x].level == a.nodes[a.parent[x]].level + 1)
  }

  /** Every node's level is its depth below a parentless node. */
  ghost predicate LevelsOk(a: Arena)
    requires WellLinked(a)
  {
    forall x | 0 <= x < |a.nodes| :: LevelOk(a, x)
  }

  /** `b` extends `a`: the old nodes keep their parents and levels. */
  ghost predicate Grown(a: Arena, b: Arena)
    requires Sized(a) && Sized(b)
  {
    |a.nodes| <= |b.nodes| &&
    forall i | 0 <= i < |a.nodes| :: b.parent[i] == a.parent[i] && b.nodes[i].level == a.nodes[i].level
  }

  /** Walking up within an arena only uses the parents of the nodes it passes. */
  lemma {:induction false} UpFrame(a: Arena, b: Arena, x: int, k: nat)
    requires WellLinked(a) && WellLinked(b) && 0 <= x < |a.nodes| && Grown(a, b)
    ensures Up(b, x, k) == Up(a, x, k)
    decreases k
  {
    assert NodeLinked(a, x);
    if k > 0 && a.parent[x] != Nil {
      UpFrame(a, b, a.parent[x], k - 1);
    }
  }

  /** Walking `j + k` steps is walking `j` steps and then `k`. */
  lemma {:induction false} UpAdd(a: Arena, x: int, j: nat, k: nat)
    requires WellLinked(a) && 0 <= x < |a.nodes| && Up(a, x, j) != Nil
    ensures Up(a, x, j + k) == Up(a, Up(a, x, j), k)
    decreases j
  {
    assert NodeLinked(a, x);
    if j > 0 {
      UpAdd(a, a.parent[x], j - 1, k);
    }
  }

  /** With consistent levels, a walk of at most `level` steps stays in the tree and lands `k` levels higher. */
  lemma {:induction false} UpLevel(a: Arena, x: int, k: nat)
    requires WellLinked(a) && LevelsOk(a) && 0 <= x < |a.nodes| && k <= a.nodes[x].level
    ensures Up(a, x, k) != Nil && a.nodes[Up(a, x, k)].level == a.nodes[x].level - k
    decreases k
  {
    assert NodeLinked(a, x);
    assert LevelOk(a, x);
    if k > 0 {
      UpLevel(a, a.parent[x], k - 1);
    }
  }

  // ---------------------------------------------------------------------------
  // The attach rule lands under the right node

  /** `t` is the node a new node of level `level` belongs under when the cursor is `prev`. */
  ghost predicate Aims(a: Arena, prev: int, level: int, t: int)
    requires WellLinked(a)
  {
    0 <= prev < |a.nodes| && a.nodes[prev].level >= level - 1 &&
    Up(a, prev, a.nodes[prev].level - (level - 1)) == t
  }

  /**
   * When the cursor is `c - level + 1` levels below `t`, the three cases of
   * parse.go:235-244 all attach the new node under `t`, and leave a cursor
   * that still aims at `t`.
   */
  lemma AttachUnderTop(a: Arena, prev: int, level: int, nd: Node, t: int)
    requires WellLinked(a) && LevelsOk(a) && nd.level == level >= 1 && Aims(a, prev, level, t)
    ensures var r := AllocAttach(a, prev, level, nd); var n := |a.nodes|;
      r.Some? && r.value.tree.parent[n] == t && Grown(a, r.value.tree) && LevelsOk(r.value.tree) &&
      Aims(r.value.tree, r.value.prev, level, t)
  {
    var n := |a.nodes|;
    AppendedSpec(a, nd);
    var b := Appended(a, nd);
    AttachParent(b, prev, level, n);
    AttachLands(a, prev, level, nd, t);
    var r := AllocAttach(a, prev, level, nd).value;
    assert Grown(a, r.tree);
    UpFrame(a, r.tree, r.prev, a.nodes[r.prev].level - (level - 1));
    UpLevel(a, prev, a.nodes[prev].level - (level - 1));
    assert LevelOk(r.tree, n);
    LevelsGrown(a, r.tree);
  }

  /** The placement itself, read in the old arena: the new parent is `t` and the new cursor still aims at it. */
  lemma AttachLands(a: Arena, prev: int, level: int, nd: Node, t: int)
    requires WellLinked(a) && LevelsOk(a) && nd.level == level >= 1 && Aims(a, prev, level, t)
    ensures var r := AllocAttach(a, prev, level, nd); var n := |a.nodes|;
      r.Some? && r.value.tree.parent[n] == t && r.value.prev < n && Aims(a, r.value.prev, level, t)
  {
    var n := |a.nodes|;
    var c := a.nodes[prev].level;
    AppendedSpec(a, nd);
    var b := Appended(a, nd);
    assert Grown(a, b);
    AttachParent(b, prev, level, n);
    if c == level {
      assert NodeLinked(a, prev);
    } else if c > level {
      AttachLandsHigher(a, prev, level, nd, t);
    }
  }

  /** The walk-up case, where the cursor is more than one level below the new node's parent. */
  lemma AttachLandsHigher(a: Arena, prev: int, level: int, nd: Node, t: int)
    requires WellLinked(a) && LevelsOk(a) && nd.level == level >= 1 && Aims(a, prev, level, t)
    requires a.nodes[prev].level > level
    ensures var r := AllocAttach(a, prev, level, nd); var n := |a.nodes|;
      r.Some? && r.value.tree.parent[n] == t && r.value.prev < n && Aims(a, r.value.prev, level, t)
  {
    var n := |a.nodes|;
    var c := a.nodes[prev].level;
    AppendedSpec(a, nd);
    var b := Appended(a, nd);
    assert Grown(a, b);
    UpFrame(a, b, prev, c - level - 1);
    UpLevel(a, prev, c - level - 1);
    var y := Up(a, prev, c - level - 1);
    UpAdd(a, prev, c - level - 1, 2);
    UpLevel(a, y, 2);
    assert NodeLinked(a, y);
    assert NodeLinked(b, y);
    assert Up(b, prev, c - level - 1) == y;
    assert a.parent[a.parent[y]] == t;
    AttachParent(b, prev, level, n);
  }

  /** Growing a tree keeps levels consistent when the new nodes are. */
  lemma LevelsGrown(a: Arena, b: Arena)
    requires WellLinked(a) && WellLinked(b) && LevelsOk(a) && Grown(a, b)
    requires forall x | |a.nodes| <= x < |b.nodes| :: LevelOk(b, x)
    ensures LevelsOk(b)
  {
    forall x | 0 <= x < |b.nodes|
      ensures LevelOk(b, x)
    {
      if x < |a.nodes| {
        assert LevelOk(a, x);
        assert NodeLinked(a, x);
      }
    }
  }

  // ---------------------------------------------------------------------------
  // The invariant

  /** The innermost open element, or the document when none is open. */
  function Top(open: seq<int>): int {
    if open == [] then 0 else open[|open| - 1]
  }

  /** The open elements hang from the document and from each other, outermost first. */
  ghost predicate OpenChain(a: Arena, open: seq<int>) {
    Sized(a) && forall i | 0 <= i < |open| :: OpenLink(a, open, i)
  }

  /** The `i`th open element is a node whose parent is the one opened before it, or the document. */
  ghost predicate OpenLink(a: Arena, open: seq<int>, i: int)
    requires Sized(a) && 0 <= i < |open|
  {
    0 < open[i] < |a.nodes| && a.parent[open[i]] == (if i == 0 then 0 else open[i - 1])
  }

  /**
   * The parser state on a well-nested stream after `open` elements were
   * started and not yet ended: either nothing has been seen but leaf tokens
   * (level 0, cursor on the document), or the level counts the open
   * elements plus one and the cursor aims at the innermost of them.
   */
  ghost predicate Inv(st: PState, open: seq<int>) {
    PValid(st) && LevelsOk(st.tree) && st.streamNode == Nil && OpenChain(st.tree, open) &&
    ((st.level == 0 && st.prev == 0 && open == []) ||
     (st.level == |open| + 1 && Aims(st.tree, st.prev, st.level, Top(open))))
  }

  /** The state before the first token is in the first phase. */
  lemma InitialInv(input: seq<Lexeme>)
    ensures Inv(Initial(input), [])
  {
    var st := Initial(input);
    assert LevelOk(st.tree, 0);
  }

  /** An open-element chain survives growing the tree. */
  lemma OpenChainGrown(a: Arena, b: Arena, open: seq<int>)
    requires Sized(a) && Sized(b) && OpenChain(a, open) && Grown(a, b)
    ensures OpenChain(b, open)
  {
    forall i | 0 <= i < |open|
      ensures OpenLink(b, open, i)
    {
      assert OpenLink(a, open, i);
    }
  }

  /** Inside an element the top is an older node one level up from the current level. */
  lemma TopLevel(st: PState, open: seq<int>)
    requires Inv(st, open) && st.level != 0
    ensures 0 <= Top(open) < |st.tree.nodes| && st.tree.nodes[Top(open)].level == st.level - 1
  {
    var a := st.tree;
    UpLevel(a, st.prev, a.nodes[st.prev].level - (st.level - 1));
  }

  // ---------------------------------------------------------------------------
  // One token at a time

  /** A leaf node (text, CDATA, comment, directive) goes under the top, or beside the document before any element. */
  lemma LeafKeeps(st: PState, counter: int, nd: Node, open: seq<int>)
    requires Inv(st, open) && nd.level == st.level
    ensures var r := LeafStep(st, counter, nd); var n := |st.tree.nodes|;
      r.Next? && Inv(r.st, open) && r.st.tree.parent[n] == (if st.level == 0 then Nil else Top(open))
  {
    var r := LeafStep(st, counter, nd);
    var n := |st.tree.nodes|;
    if st.level == 0 {
      var a := st.tree;
      AppendedSpec(a, nd);
      var b := Appended(a, nd);
      assert NodeLinked(a, 0) && LevelOk(a, 0);
      AttachParent(b, 0, 0, n);
      assert r.Next? && r.st.tree.parent[n] == Nil && r.st.prev == 0;
      assert Grown(a, r.st.tree);
      assert LevelOk(r.st.tree, n);
      LevelsGrown(a, r.st.tree);
      OpenChainGrown(a, r.st.tree, open);
    } else {
      TopLevel(st, open);
      AttachUnderTop(st.tree, st.prev, st.level, nd, Top(open));
      OpenChainGrown(st.tree, r.st.tree, open);
    }
  }

  /** The declaration synthesised before the first element goes under the document and starts the second phase. */
  lemma DeclaredKeeps(st: PState, open: seq<int>)
    requires Inv(st, open)
    ensures var d := Declared(st);
      d.Some? && Inv(d.value, open) && d.value.level == |open| + 1 && d.value.space2prefix == st.space2prefix &&
      (st.level == 0 ==> d.value.tree.parent[|st.tree.nodes|] == 0)
  {
    if st.level == 0 {
      var a := st.tree;
      var n := |a.nodes|;
      var d := Declared(st).value;
      AppendedSpec(a, SynthesisedDeclaration);
      var b := Appended(a, SynthesisedDeclaration);
      NewestCanAddChild(b, 0, n);
      ChildAddedSpec(b, 0, n);
      assert NodeLinked(a, 0) && LevelOk(a, 0);
      assert d.tree.parent == b.parent[n := 0];
      assert Grown(a, d.tree);
      assert LevelOk(d.tree, n);
      LevelsGrown(a, d.tree);
      assert Up(d.tree, n, 1) == 0 by {
        assert NodeLinked(d.tree, n);
      }
    }
  }

  /** `Prefixed` changes no parent and no level. */
  lemma PrefixedGrown(a: Arena, n: int, table: map<string, NsPrefix>, name: Name, raw: seq<byte>)
    requires WellLinked(a) && 0 <= n < |a.nodes|
    ensures var r := Prefixed(a, n, table, name, raw); Grown(a, r) && Grown(r, a)
  {
  }

  /** A started element goes under the top and becomes the new top. */
  lemma PlaceKeeps(cfg: Config, st: PState, counter: int, name: Name, attrs: seq<TokenAttr>, raw: seq<byte>, open: seq<int>)
    requires cfg.target.None? && Inv(st, open) && st.level == |open| + 1
    ensures var r := PlaceElement(cfg, st, counter, name, attrs, raw); var n := |st.tree.nodes|;
      r.Next? && Inv(r.st, open + [n]) && r.st.tree.parent[n] == Top(open)
  {
    var nd := ElementRecord(st.space2prefix, name, attrs, st.level);
    var n := |st.tree.nodes|;
    TopLevel(st, open);
    AttachUnderTop(st.tree, st.prev, st.level, nd, Top(open));
    var placed := AllocAttach(st.tree, st.prev, st.level, nd).value;
    var a := Prefixed(placed.tree, n, st.space2prefix, name, raw);
    PrefixedGrown(placed.tree, n, st.space2prefix, name, raw);
    var r := PlaceElement(cfg, st, counter, name, attrs, raw);
    assert r.st.tree == a;
    LevelsGrown(placed.tree, a);
    OpenChainGrown(st.tree, placed.tree, open);
    OpenChainGrown(placed.tree, a, open);
    assert a.parent[n] == Top(open) && a.nodes[n].level == st.level;
    assert Up(a, n, 0) == n;
    var o := open + [n];
    assert OpenChain(a, o) by {
      forall i | 0 <= i < |o|
        ensures OpenLink(a, o, i)
      {
        if i < |open| {
          assert o[i] == open[i] && (i > 0 ==> o[i - 1] == open[i - 1]);
          assert OpenLink(a, open, i);
        }
      }
    }
    assert Aims(a, n, st.level + 1, Top(o));
  }

  /** The `xml.StartElement` case under the invariant: no nil dereference, and the new element is pushed. */
  lemma StartKeeps(cfg: Config, st: PState, counter: int, name: Name, attrs: seq<TokenAttr>, raw: seq<byte>, open: seq<int>)
    returns (n: int)
    requires cfg.target.None? && Inv(st, open)
    ensures var r := StartStep(cfg, st, counter, name, attrs, raw);
      !(r.Fail? && r.err == NilDereference) && (r.Fail? ==> r.err.MissingNamespace?) &&
      (r.Next? ==>
         0 <= n < |r.st.tree.nodes| && Inv(r.st, open + [n]) && r.st.tree.parent[n] == Top(open) &&
         r.st.tree.nodes[n].kind == ElementNode && r.st.tree.nodes[n].data == name.local &&
         r.st.prev == n && r.st.level == r.st.tree.nodes[n].level + 1)
  {
    DeclaredKeeps(st, open);
    var s1 := Declared(st).value;
    var s2 := s1.(space2prefix := Bind(s1.space2prefix, attrs, s1.level));
    n := |s2.tree.nodes|;
    if !(name.space != "" && name.space !in s2.space2prefix && cfg.strict) {
      PlaceKeeps(cfg, s2, counter, name, attrs, raw, open);
      var r := PlaceElement(cfg, s2, counter, name, attrs, raw);
      assert r.st.tree.nodes[n].kind == ElementNode && r.st.tree.nodes[n].data == name.local by {
        var nd := ElementRecord(s2.space2prefix, name, attrs, s2.level);
        assert AllocAttach(s2.tree, s2.prev, s2.level, nd).value.tree.nodes[n] == nd;
      }
    }
  }

  /** The `xml.EndElement` case closes the top element. */
  lemma EndKeeps(cfg: Config, st: PState, counter: int, open: seq<int>)
    requires Inv(st, open) && open != []
    ensures var r := EndStep(cfg, st, counter); r.Next? && Inv(r.st, open[..|open| - 1])
  {
    var a := st.tree;
    var k := |open| - 1;
    var c := a.nodes[st.prev].level;
    var o := open[..k];
    assert st.level == |open| + 1;
    assert open[k] == Top(open);
    assert OpenLink(a, open, k);
    UpAdd(a, st.prev, c - |open|, 1);
    assert NodeLinked(a, Top(open));
    assert Up(a, Top(open), 1) == Top(o);
    assert c - |open| + 1 == c - |o|;
    assert OpenChain(a, o) by {
      forall i | 0 <= i < |o|
        ensures OpenLink(a, o, i)
      {
        assert o[i] == open[i] && (i > 0 ==> o[i - 1] == open[i - 1]);
        assert OpenLink(a, open, i);
      }
    }
  }

  /** The `xml.ProcInst` case with the corrected rule: the node goes under the top and becomes the cursor. */
  lemma PiKeeps(cfg: Config, st: PState, counter: int, target: string, inst: string, open: seq<int>)
    requires cfg.pi == Corrected && Inv(st, open)
    ensures var r := PiStep(cfg, st, counter, target, inst); var n := |st.tree.nodes|;
      r.Next? && Inv(r.st, open) && r.st.tree.parent[n] == Top(open)
  {
    var s1 := st.(level := if PiRaises(cfg.pi, st) then st.level + 1 else st.level);
    var nd := PiRecord(target, inst, s1.level);
    if st.level == 0 {
      assert NodeLinked(st.tree, 0) && LevelOk(st.tree, 0);
      assert Aims(s1.tree, 0, 1, 0);
    } else {
      TopLevel(st, open);
    }
    CursorUnderTop(s1, counter, nd, open);
    assert PiStep(cfg, st, counter, target, inst) == CursorStep(s1, counter, nd);
  }

  /** A node that becomes the cursor, placed when the cursor aims at the top open element, goes under it. */
  lemma CursorUnderTop(st: PState, counter: int, nd: Node, open: seq<int>)
    requires PValid(st) && LevelsOk(st.tree) && st.streamNode == Nil && OpenChain(st.tree, open)
    requires st.level == |open| + 1 && nd.level == st.level && Aims(st.tree, st.prev, st.level, Top(open))
    ensures var r := CursorStep(st, counter, nd); var n := |st.tree.nodes|;
      r.Next? && Inv(r.st, open) && r.st.tree.parent[n] == Top(open)
  {
    var n := |st.tree.nodes|;
    AttachUnderTop(st.tree, st.prev, st.level, nd, Top(open));
    var b := AllocAttach(st.tree, st.prev, st.level, nd).value.tree;
    assert CursorStep(st, counter, nd) == Next(st.(tree := b, prev := n), counter);
    OpenChainGrown(st.tree, b, open);
    assert NodeLinked(b, n);
    assert b.nodes[n] == nd;
  }

  // ---------------------------------------------------------------------------
  // Whole streams

  /** Every end tag closes an element started after `depth` of them were open: what the decoder enforces. */
  ghost predicate Balanced(depth: nat, input: seq<Lexeme>)
    decreases |input|
  {
    input == [] || input[0].Malformed? ||
    (input[0].tok.StartElement? && Balanced(depth + 1, input[1..])) ||
    (input[0].tok.EndElement? && depth > 0 && Balanced(depth - 1, input[1..])) ||
    (!input[0].tok.StartElement? && !input[0].tok.EndElement? && Balanced(depth, input[1..]))
  }

  /** How many elements are open after a token. */
  function DepthAfter(depth: nat, tok: Token): int {
    if tok.StartElement? then depth + 1 else if tok.EndElement? then depth - 1 else depth
  }

  /** One token of a well-nested stream keeps the invariant and never dereferences a nil node. */
  lemma StepKeeps(cfg: Config, st: PState, counter: int, tok: Token, raw: seq<byte>, open: seq<int>)
    returns (open': seq<int>)
    requires cfg.target.None? && cfg.pi == Corrected && Inv(st, open) && (tok.EndElement? ==> open != [])
    ensures var r := Step(cfg, st, counter, tok, raw);
      !r.Return? && LevelsOk(r.st.tree) && (r.Fail? ==> r.err.MissingNamespace?) &&
      (r.Next? ==> Inv(r.st, open') && |open'| == DepthAfter(|open|, tok))
  {
    match tok {
      case StartElement(name, attrs) =>
        var n := StartKeeps(cfg, st, counter, name, attrs, raw, open);
        DeclaredKeeps(st, open);
        open' := open + [n];
      case EndElement(_) =>
        EndKeeps(cfg, st, counter, open);
        open' := open[..|open| - 1];
      case CharData(text) =>
        LeafKeeps(st, counter, NewNode(if IsCData(raw) then CharDataNode else TextNode, text, st.level), open);
        open' := open;
      case Comment(text) =>
        LeafKeeps(st, counter, NewNode(CommentNode, text, st.level), open);
        open' := open;
      case ProcInst(target, inst) =>
        PiKeeps(cfg, st, counter, target, inst, open);
        open' := open;
      case Directive(text) =>
        LeafKeeps(st, counter, NewNode(NotationNode, text, st.level), open);
        open' := open;
    }
  }

  /**
   * On a well-nested stream, with the corrected PI rule and no stream
   * queries, `parse()` never dereferences a nil node, and the tree it leaves
   * has every node one level below its parent.
   */
  lemma {:induction false} NestedRunKeepsLevels(cfg: Config, st: PState, counter: int, open: seq<int>)
    requires cfg.target.None? && cfg.pi == Corrected && Inv(st, open) && Balanced(|open|, st.input)
    ensures var r := Run(cfg, st, counter);
      r.out != Failed(NilDereference) && LevelsOk(r.st.tree)
    decreases |st.input|
  {
    if st.input != [] && st.input[0].Lexeme? {
      var s1 := st.(input := st.input[1..]);
      var lx := st.input[0];
      assert Inv(s1, open);
      var r := Step(cfg, s1, counter, lx.tok, lx.raw);
      var open' := StepKeeps(cfg, s1, counter, lx.tok, lx.raw, open);
      if r.Next? {
        assert Balanced(|open'|, r.st.input);
        NestedRunKeepsLevels(cfg, r.st, r.counter, open');
      }
    }
  }

  /**
   * A document parse with the corrected PI rule on a well-nested stream: a
   * document it accepts has consistent levels throughout. The rule as
   * written breaks this (`AsWrittenPiAfterElement`).
   */
  lemma NestedDocumentLevels(input: seq<Lexeme>, strict: bool)
    requires Balanced(0, input)
    ensures var r := ParseDocument(input, strict, Corrected);
      r.Err? ==> r.error != NilDereference
    ensures var r := ParseDocument(input, strict, Corrected);
      r.Ok? ==> LevelsOk(r.value)
  {
    InitialInv(input);
    NestedRunKeepsLevels(DocumentConfig(strict, Corrected), Initial(input), 0, []);
    DocumentOfRun(input, strict, Corrected);
  }

  /**
   * The same for the program's own rule, on documents whose processing
   * instructions both rules place alike: each comes at level 0 with a
   * cursor that is no declaration or instruction, or at a deeper level
   * with a cursor that is one, as the instructions of a prolog do.
   */
  lemma AsWrittenDocumentLevels(input: seq<Lexeme>, strict: bool)
    requires Balanced(0, input) && RulesAgreeOnRun(DocumentConfig(strict, Corrected), Initial(input), 0)
    ensures var r := ParseDocument(input, strict, AsWritten);
      r.Err? ==> r.error != NilDereference
    ensures var r := ParseDocument(input, strict, AsWritten);
      r.Ok? ==> LevelsOk(r.value)
  {
    NestedDocumentLevels(input, strict);
    DocumentRulesAgree(input, strict);
  }

  // ---------------------------------------------------------------------------
  // The rule as written

  /**
   * parse.go:337-339 raises the level whenever the cursor is an element, so
   * a processing instruction that follows a closed element at its own level
   * becomes that element's child.
   */
  lemma AsWrittenPiUnderElement(cfg: Config, st: PState, counter: int, target: string, inst: string)
    requires cfg.pi == AsWritten && PValid(st) && st.prev != Nil
    requires st.tree.nodes[st.prev].kind == ElementNode && st.tree.nodes[st.prev].level == st.level
    ensures var r := PiStep(cfg, st, counter, target, inst); var n := |st.tree.nodes|;
      r.Next? && r.st.tree.parent[n] == st.prev && r.st.tree.nodes[n].level == st.level + 1
  {
    var n := |st.tree.nodes|;
    var s1 := PiCursorState(cfg.pi, st);
    assert s1.level == st.level + 1;
    PiStepCursor(cfg, st, counter, target, inst, s1);
    var nd := PiRecord(target, inst, s1.level);
    AppendedSpec(st.tree, nd);
    var b := Appended(st.tree, nd);
    assert b.nodes[st.prev] == st.tree.nodes[st.prev];
    AttachDeeper(b, st.prev, s1.level, n);
    assert ChildAdded(b, st.prev, n).parent[n] == st.prev;
  }

  /** With the corrected rule the same instruction becomes the element's next sibling. */
  lemma CorrectedPiBesideElement(cfg: Config, st: PState, counter: int, target: string, inst: string)
    requires cfg.pi == Corrected && PValid(st) && st.prev != Nil && st.level != 0
    requires st.tree.nodes[st.prev].kind == ElementNode && st.tree.nodes[st.prev].level == st.level
    ensures var r := PiStep(cfg, st, counter, target, inst); var n := |st.tree.nodes|;
      r.Next? && r.st.tree.parent[n] == st.tree.parent[st.prev] && r.st.tree.nodes[n].level == st.level
  {
    var n := |st.tree.nodes|;
    var nd := PiRecord(target, inst, st.level);
    AppendedSpec(st.tree, nd);
    AttachParent(Appended(st.tree, nd), st.prev, st.level, n);
  }

  /** An element started and then ended at once: the cursor is left on it, at its own level. */
  lemma StartEnd(cfg: Config, st: PState, counter: int, open: seq<int>, name: Name, attrs: seq<TokenAttr>, raw: seq<byte>)
    returns (n: int)
    requires cfg.target.None? && Inv(st, open) && name.space == ""
    ensures var r1 := StartStep(cfg, st, counter, name, attrs, raw);
      r1.Next? &&
      var r2 := EndStep(cfg, r1.st, r1.counter);
      r2.Next? && Inv(r2.st, open) && r2.st.prev == n && 0 <= n < |r2.st.tree.nodes| &&
      r2.st.tree.parent[n] == Top(open) && r2.st.tree.nodes[n].kind == ElementNode &&
      r2.st.tree.nodes[n].level == r2.st.level && r2.st.level != 0
  {
    n := StartKeeps(cfg, st, counter, name, attrs, raw, open);
    var r1 := StartStep(cfg, st, counter, name, attrs, raw);
    EndKeeps(cfg, r1.st, r1.counter, open + [n]);
    assert (open + [n])[..|open|] == open;
  }

  /**
   * `<a></a><?p?>` and any other element followed directly by a processing
   * instruction: with the rule as written the instruction becomes a child
   * of the element just closed.
   */
  lemma AsWrittenPiAfterElement(cfg: Config, st: PState, counter: int, open: seq<int>, name: Name, attrs: seq<TokenAttr>,
                                raw: seq<byte>, target: string, inst: string)
    returns (n: int)
    requires cfg.target.None? && cfg.pi == AsWritten && Inv(st, open) && name.space == ""
    ensures var r1 := StartStep(cfg, st, counter, name, attrs, raw);
      r1.Next? &&
      var r2 := EndStep(cfg, r1.st, r1.counter);
      r2.Next? &&
      var r3 := PiStep(cfg, r2.st, r2.counter, target, inst);
      r3.Next? && 0 <= n < |r2.st.tree.nodes| < |r3.st.tree.nodes| &&
      r2.st.tree.nodes[n].kind == ElementNode && r3.st.tree.parent[|r2.st.tree.nodes|] == n
  {
    n := StartEnd(cfg, st, counter, open, name, attrs, raw);
    var r1 := StartStep(cfg, st, counter, name, attrs, raw);
    var r2 := EndStep(cfg, r1.st, r1.counter);
    AsWrittenPiUnderElement(cfg, r2.st, r2.counter, target, inst);
  }

  /** With the corrected rule the same instruction is the element's sibling, under the element the two share. */
  lemma CorrectedPiAfterElement(cfg: Config, st: PState, counter: int, open: seq<int>, name: Name, attrs: seq<TokenAttr>,
                                raw: seq<byte>, target: string, inst: string)
    returns (n: int)
    requires cfg.target.None? && cfg.pi == Corrected && Inv(st, open) && name.space == ""
    ensures var r1 := StartStep(cfg, st, counter, name, attrs, raw);
      r1.Next? &&
      var r2 := EndStep(cfg, r1.st, r1.counter);
      r2.Next? &&
      var r3 := PiStep(cfg, r2.st, r2.counter, target, inst);
      r3.Next? && 0 <= n < |r2.st.tree.nodes| < |r3.st.tree.nodes| &&
      r2.st.tree.parent[n] == Top(open) && r3.st.tree.parent[|r2.st.tree.nodes|] == Top(open)
  {
    n := StartEnd(cfg, st, counter, open, name, attrs, raw);
    var r1 := StartStep(cfg, st, counter, name, attrs, raw);
    var r2 := EndStep(cfg, r1.st, r1.counter);
    PiKeeps(cfg, r2.st, r2.counter, target, inst, open);
  }
}
