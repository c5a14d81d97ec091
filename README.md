# xmlquery: a verified model of the tree builder

This project models the core of xmlquery, a Go library that builds an
in-memory DOM from an XML token stream and serialises it again. It covers:

- the node tree and its link primitives (`AddChild`, `AddSibling`,
  `RemoveFromTree`, `AddAttr`), kept as an arena of nodes with index links;
- the read-only walks `InnerText` and `OutputXML`, with the `xml:space`
  rule they share;
- the token-driven `parser` (`parse()`, `ParseWithOptions`,
  `StreamParser.Read`): the level/cursor attach rule, the namespace table,
  CDATA detection from cached raw bytes, the stream candidate state machine
  and the "at least one element" validity check;
- the byte capture buffer `CachedReader`;
- the pretty-printer of format.go (`Format`, `FormatString`, `merge`,
  `increment`, `output`, `recurse`, `isText`);
- the line-number annotator of line_parser.go: precomputed line starts,
  position→line lookup, n-th occurrence searches, the element-candidate
  search with its dedupe and in-place sort, and the preorder annotation walk.

Modules, one per source concern:

| file | module | models |
|---|---|---|
| wrappers.dfy | Wrappers | `Option`, `Result` |
| gostrings.dfy | GoStrings | the few `strings`/`bytes` functions the core calls |
| node.dfy | XmlNode | node records and the arena; pure specifications of the link primitives |
| tree.dfy | XmlTree | class `Tree`: the arena updated in place |
| output.dfy | XmlOutput | `InnerText`, `sanitizedData`, `calculatePreserveSpaces`, `outputXML` |
| cached_reader.dfy | CachedReaders | `CachedReader` over an in-memory byte source |
| parser_spec.dfy | XmlParseSpec | the parser state and one function per token case |
| parser.dfy | XmlParser | class `Parser`: `parse()`, `Read`, `ParseWithOptions` as imperative code |
| nesting.dfy | XmlParseNesting | what the attach rule builds on well-nested input; the processing-instruction finding |
| format.dfy | XmlFormat | `formatter` and its output |
| line_parser.dfy | LineNumbers | `lineCountingParser` and `ParseWithLineNumbers` |

Each imperative operation is a method and states its result or new state as
a function of its inputs or old state. The properties the library promises
are proved as lemmas about those functions.

Design points:

- Node `i` of a tree is `nodes[i]`. Its links are integers, with `Nil == -1`.
- `WellLinked` is the invariant that `verifyNodePointers` in node_test.go
  checks. It covers:
  - parent/child and sibling symmetry;
  - first/last-child consistency;
  - arena order equals creation order, so every chain walk terminates.
- Tokens are a datatype `Lexeme`: a `Token` with its raw bytes, or a
  decoder error. The tokenizer is outside the model, and so is XPath.
- The stream target and filter queries are function-valued parameters over
  the tree (`cfg.target`, `cfg.filter`).
- `xml.EscapeText` is a parameter `esc: string -> string`.
- The level rule for processing instructions is a configuration field `pi`. `AsWritten` is parse.go:337-339, and the document entry points (`ParseWithOptions`, `FormatString`, `ParseWithLineNumbers`) run it; the stream parser takes the rule with its configuration. `Corrected` is the rule of the finding below; the nesting lemmas are proved for it.
- Strings and byte slices are both `seq<char>`, one character per byte.

## Model

| member | source | states |
|---|---|---|
| XmlNode.Chain | node.go:179-182 | the sibling chain from `x` is empty exactly for a nil start; it starts at `x`, stays within the arena and ends at a node with no next sibling |
| XmlNode.Children | node.go:167-177 | every child of a node in a well-linked tree is a later node of the arena |
| XmlNode.ChildrenFacts | node_test.go:83-118 | the child list is empty exactly when FirstChild is nil; every listed child has the node as Parent; the list starts at FirstChild and ends at LastChild |
| XmlNode.ChildStep | node_test.go:83-118 | consecutive children are linked by NextSibling, and the last child's NextSibling is nil |
| XmlNode.AppendedSpec | node.go:167-189 | appending a new node keeps the tree well linked; the new node is detached and childless, and no other child list changes |
| XmlNode.ChildAdded | node.go:167-177 | `addChild` changes links only: the node records stay the same |
| XmlNode.ChildAddedSpec | node.go:167-177 | after `addChild(p, n)`: Parent(n) = p and LastChild(p) = n; if p had no children, FirstChild(p) = n and n has no PrevSibling; otherwise the old last child's NextSibling is n and n's PrevSibling is that child; p's child list gains n at the end; every other child list is unchanged; the tree stays well linked |
| XmlNode.ChildAddedLinked | node.go:167-177 | `addChild` preserves well-linkedness |
| XmlNode.LastSibling | node.go:180-182 | the walk to the end of the sibling chain returns its last element |
| XmlNode.LastSiblingFacts | node.go:180-182 | the chain's end has no next sibling and the same Parent, and is the parent's LastChild when there is a parent |
| XmlNode.SiblingAdded | node.go:179-189 | `addSibling` changes links only |
| XmlNode.SiblingAddedSpec | node.go:179-189 | after `addSibling(s, n)`: n takes s's Parent and follows the true end of s's chain, which grows by n; the parent's LastChild becomes n only when there is a parent; with no parent no child list changes; the tree stays well linked |
| XmlNode.SiblingAddedIsChildAdded | node.go:184-188 | under a parent, `addSibling(s, n)` is `addChild(Parent(s), n)` |
| XmlNode.RootSiblingAddedLinked | node.go:179-189 | adding a sibling to a parentless node keeps the tree well linked |
| XmlNode.Removed | node.go:192-217 | `remove` changes links only |
| XmlNode.RemovedRootIsNoop | node.go:193-195 | `remove` of a node without Parent leaves the tree unchanged |
| XmlNode.RemovedSpec | node.go:192-217 | after `remove(n)` the tree is well linked and n has no Parent or siblings; n keeps its own FirstChild and LastChild, so its subtree leaves with it; the parent's child list loses exactly n; every other child list is unchanged |
| XmlNode.RemovedIsUnlinked | node.go:197-216 | for a node with a Parent, `remove` is the four-case unlink |
| XmlNode.UnlinkedLinked | node.go:197-216 | the unlink keeps the tree well linked |
| XmlNode.UnlinkedOnly | node.go:198-200 | removing the only child keeps every node's links consistent |
| XmlNode.UnlinkedFirstNode | node.go:201-203 | removing the first of several children keeps every node's links consistent |
| XmlNode.UnlinkedLastNode | node.go:206-208 | removing the last of several children keeps every node's links consistent |
| XmlNode.UnlinkedMiddleNode | node.go:209-211 | removing a middle child keeps every node's links consistent |
| XmlNode.UnlinkedFromParent | node.go:197-213 | the parent's child list loses exactly n |
| XmlNode.UnlinkedOtherLists | node.go:197-213 | no other node's child list changes |
| XmlNode.MakeAttr | node.go:150-165 | the key is split at its first `:` only when that index is > 0; otherwise the whole key is the local name; the value is kept |
| XmlNode.MakeAttrRoundTrip | node.go:150-165 | joining the split name back with `:` gives the key again, and the prefix contains no `:` |
| XmlNode.AttrKeyLeadingColon | node.go:152 | a key starting with `:` is not split |
| XmlNode.AttrAdded | node.go:150-165 | `addAttr` appends exactly one attribute after the old ones, in order and without deduplication; nothing else in the tree changes |
| XmlTree.Tree.constructor | node.go:39-50 | a tree holding just the root node |
| XmlTree.Tree.NewNode | node.go:39-50 | allocates a detached node at the end of the arena |
| XmlTree.Tree.AddChild | node.go:167-177 | the new state is `ChildAdded` of the old one |
| XmlTree.Tree.AddSibling | node.go:179-189 | the new state is `SiblingAdded` of the old; the loop walks to the end of the chain |
| XmlTree.Tree.RemoveFromTree | node.go:192-217 | the new state is `Removed` of the old one |
| XmlTree.Tree.AddAttr | node.go:150-165 | the new state is `AttrAdded` of the old one |
| XmlTree.Tree.SetNode | parse.go:246-253 | replaces one node record and keeps every link |
| XmlOutput.SameChildren | node.go:53-70 | two trees that agree below a node give it the same child list |
| XmlOutput.TextOfChildAdded | node.go:53-70 | adding a child appends the child's inner text to the parent's |
| XmlOutput.TextOfLeaves | node.go:55-68 | a text or CDATA node's inner text is its data; a comment contributes nothing; a childless element has empty text |
| XmlOutput.InnerText | node.go:53-70 | the recursive walk returns `TextOf`: the Text and CharData of all descendants in document order, skipping comment subtrees |
| XmlOutput.ChildrenText | node.go:58-60 | the loop over the child chain returns the children's texts concatenated |
| XmlOutput.XmlSpace | node.go:80 | a nonempty `xml:space` value is the value of some `xml:space` attribute |
| XmlOutput.XmlSpaceFirst | node.go:80 | the lookup gives the value of the first `xml:space` attribute, and "" when there is none |
| XmlOutput.FlagFromNearest | node.go:79-86 | the flag a node is written with is set by the nearest node from it up to the start of the walk whose `xml:space` is `preserve` (on) or `default` (off) |
| XmlOutput.FlagWithoutSetting | node.go:79-86 | when no node on that path sets `xml:space`, the flag is the one the walk started with |
| XmlOutput.ChildXmlOccurs | node.go:120-133 | a child's XML, written with the flag its parent passes down, occurs in the parent's XML |
| XmlOutput.BelowXmlOccurs | node.go:79-133 | the XML of a node contains the XML of every node below it (through elements) written with the inherited flag; a text or CDATA node there appears sanitised with the flag in effect at it |
| XmlOutput.TrimIsSlice | node.go:72-77 | a trim is a slice of the input whose removed ends consist only of cut characters and whose remaining ends are not cut characters |
| XmlOutput.SanitizedIsTrimmed | node.go:72-77 | `sanitizedData` trims only `\n\t` when preserving and all ASCII space otherwise, removing only leading and trailing cut characters |
| XmlOutput.XmlOfTags | node.go:88-134 | an element's XML starts with its opening tag and ends with `</prefix:name>`; a declaration has no closing tag |
| XmlOutput.XmlOfChildAdded | node.go:120-133 | adding a child inserts the child's XML before the parent's closing tag |
| XmlOutput.XmlOfLeaves | node.go:89-101 | text and CDATA are sanitised and escaped; a comment is emitted as `<!--data-->` |
| XmlOutput.WriteXml | node.go:88-134 | the recursive writer returns `XmlOf` |
| XmlOutput.ChildrenXml | node.go:124-126 | the loop over the child chain returns the children's XML concatenated |
| XmlOutput.OutputXMLOf | node.go:136-148 | `OutputXML(self)` returns `OutputXML`: the node's own XML when self is set, else its children's |
| CachedReaders.CaptureIsTake | cached_reader.go:38-41 | capturing bytes one by one into a bounded buffer keeps the first CacheCap bytes of everything consumed |
| CachedReaders.CaptureBounds | cached_reader.go:58-65 | the capture never exceeds the capacity, keeps what was cached before, and holds the consumed bytes in order |
| CachedReaders.CachedReader.constructor | cached_reader.go:15-23 | a new reader has an empty cache and capture off |
| CachedReaders.CachedReader.StartCaching | cached_reader.go:25-28 | cacheLen becomes 0 and capture is on; nothing is captured yet |
| CachedReaders.CachedReader.StopCaching | cached_reader.go:49-51 | capture is off and the cache keeps its contents |
| CachedReaders.CachedReader.Cache | cached_reader.go:45-47 | the cache is the bytes consumed since the last `StartCaching`, in order, truncated to the capacity |
| CachedReaders.CachedReader.ReadByte | cached_reader.go:30-43 | returns exactly the underlying byte and error; the byte is captured only when capture is on and there was no error; otherwise cache and cacheLen are unchanged |
| CachedReaders.CachedReader.Read | cached_reader.go:53-68 | returns exactly the underlying count and error; the bytes read are captured only when capture is on and there was no error; otherwise cache and cacheLen are unchanged |
| CachedReaders.CachedReader.CopyIn | cached_reader.go:58-65 | the bounded copy loop stays within the capacity and appends the bytes that fit |
| XmlParseSpec.Initial | parse.go:126-161 | the initial parser state holds only the document node, which is the cursor, at level 0; the XML namespace is bound to `xml` at level 0; there is no stream candidate |
| XmlParseSpec.IsCDataSpec | parse.go:306-323 | character data is CDATA exactly when the upper-cased raw bytes start with `<![CDATA[` or `![CDATA[` (the check reads at most 9 cached bytes) |
| XmlParseSpec.BindOneSpec | parse.go:195-211 | a bare `xmlns` (re)binds its URI to "" only if the URI is absent or was bound at a level ≥ the current one; `xmlns:p` always rebinds its URI to p; other attributes leave the table alone; no other URI changes |
| XmlParseSpec.PrefixBound | parse.go:195-211 | after `xmlns:p="U"` with no later binding of `U` on the same tag, the table maps `U` to `p` at the current level |
| XmlParseSpec.DeclaredPrefixResolves | parse.go:195-224 | then every attribute of that tag in namespace `U` is written with space `p`, records `U` as its namespace URI and keeps its value |
| XmlParseSpec.Up | parse.go:240-242 | walking up Parent links from x ends at nil or at an earlier node |
| XmlParseSpec.Attach | parse.go:235-244 | a successful attach keeps the tree well linked and leaves the cursor on an earlier node |
| XmlParseSpec.AttachParent | parse.go:235-244 | the attach rule: at the cursor's level the node becomes prev's sibling; deeper, prev's child; higher, prev moves up C−L−1 parents and the node becomes a sibling of prev.Parent; a nil cursor fails |
| XmlParseSpec.AttachSame | parse.go:235-236 | same level: the node is added as a sibling of prev |
| XmlParseSpec.AttachDeeper | parse.go:237-238 | higher level: the node is added as a child of prev |
| XmlParseSpec.AttachHigher | parse.go:239-244 | lower level: after the walk up, the node is added as a sibling of prev.Parent; a nil Parent on the way is a nil dereference |
| XmlParseSpec.AllocAttach | parse.go:225-244 | allocating and attaching a node keeps the tree well linked and adds exactly that node |
| XmlParseSpec.Declared | parse.go:178-193 | at level 0 the version-1.0 `xml` declaration becomes the last child of the cursor, which moves to it, and the level becomes 1; nothing else changes; it fails only with a nil cursor at level 0; at any other level the state is unchanged |
| XmlParseSpec.StreamStart | parse.go:258-268 | without a target query the stream state is left as it was (the cases with a target are `PlaceElementStream`) |
| XmlParseSpec.Prefixed | parse.go:246-253 | the new element takes the prefix its URI is bound to exactly when the cached raw tag starts with `prefix:local` or `<prefix:local`; otherwise the tree is unchanged; no other node and no other field changes |
| XmlParseSpec.PlacedElement | parse.go:213-253 | the element a successful placement opens has the tag's local name, namespace URI, resolved attributes and level, and the bound prefix exactly when the raw tag spells it, else "" |
| XmlParseSpec.StartElementPrefix | parse.go:177-253 | after a StartElement the new element has the tag's namespace URI, and the prefix its URI is bound to once the tag's own bindings are in the table, exactly when the raw tag spells it, else "" |
| XmlParseSpec.OpenTagSpellsPrefix | parse.go:246-250 | raw bytes that begin with `<p:local`, for `p` bound to the element's URI, spell the prefix |
| XmlParseSpec.DcCreatorPrefix | parse_test.go:191-210 | `<dc:creator>` with `dc` bound to its URI gets prefix `dc` and that namespace URI |
| XmlParseSpec.StartStep | parse.go:177-270 | a StartElement keeps the state valid, never returns a node, and fails only with a real error; the missing-namespace error comes exactly in strict mode for a prefixed name whose space the tag's bindings leave unbound, and names that space; in non-strict mode it never comes |
| XmlParseSpec.PlaceElement | parse.go:213-269 | placing the element fails only with a nil dereference |
| XmlParseSpec.RemovedLinked | parse.go:276-304 | removing a rejected candidate keeps the tree well linked |
| XmlParseSpec.EndStep | parse.go:271-305 | an EndElement never fails; with no candidate it just continues (the cases with a candidate are `EndStepStream`) |
| XmlParseSpec.LeafStep | parse.go:306-335 | text, comments and directives are placed by `AllocAttach`: the cursor moves to where the attach walk ended (in `<a><b><c></c></b></a>t` from `c` to `b`); level, count and stream state stay; it fails exactly when the attach does |
| XmlParseSpec.PlaceElementStream | parse.go:258-268 | with a target query the placed element is the new cursor one level deeper; with a candidate the count goes up by one and the candidate and its saved cursor stay; with none, a match of the query makes the element the candidate with the cursor the attach ended at and a count of 1, and no match leaves no candidate |
| XmlParseSpec.EndStepStream | parse.go:276-304 | an EndElement inside a candidate lowers the count, and short of 0 changes only the level; at 0 the candidate is returned exactly when there is no filter or it holds; otherwise it is removed from the tree, the cursor goes back to the saved one and the candidate is cleared |
| XmlParseSpec.StepCounts | parse.go:258-304 | each token keeps the count positive exactly while there is a candidate; the count moves by +1 per start tag and −1 per end tag under a candidate; a new candidate is only an element a start tag opens; a node is returned only by the end tag that brings the count to 0, and it is the candidate |
| XmlParseSpec.PairAttrSpec | parse.go:342-347 | a `k=v` piece with index(=) > 0 becomes one attribute, with the surrounding quotes trimmed; any other piece gives nothing |
| XmlParseSpec.PiAttrsAppend | parse.go:342-347 | the attributes of the pieces come in the pieces' order |
| XmlParseSpec.PiStep | parse.go:336-362 | a processing instruction keeps the state valid and the count, and fails only with a nil dereference |
| XmlParseSpec.Step | parse.go:176-375 | every token keeps the state valid; without a target query no node is ever returned |
| XmlParseSpec.Run | parse.go:158-377 | the token loop keeps the state valid, and returns a node only after consuming a token |
| XmlParseSpec.ParseCall | parse.go:158-377 | `parse()` keeps the state valid |
| XmlParseSpec.NoTargetNoFound | parse.go:86-88 | without a stream target the loop in `ParseWithOptions` ends only with an error |
| XmlParseSpec.RemovedPrevious | parse.go:483-485 | removing the previous sibling of the stream node keeps the tree well linked and the stream node's chain intact |
| XmlParseSpec.PrunedBefore | parse.go:483-485 | the prune loop removes every previous sibling; it never ends exactly when the node has no Parent but has a previous sibling |
| XmlParseSpec.ReadPrep | parse.go:477-494 | the preparation of `Read` clears the candidate and keeps input, level and namespace table |
| XmlParseSpec.ReadPrepSpec | parse.go:477-494 | after `Read`'s preparation the cursor is the old candidate's Parent; that parent's children are what followed the candidate; the candidate is detached |
| XmlParseSpec.ParseDocument | parse.go:40-102 | with either processing-instruction rule (the program's is `AsWritten`), a successful parse gives a well-linked tree with an element child of doc or of its sibling chain; EOF is never the error |
| XmlParseSpec.EmptyInputIsInvalid | parse.go:89-102 | an empty token stream is an invalid document, under either rule |
| XmlParseSpec.MalformedNotEOF | parse.go:86-88 | a decoder error in the input stops the loop with an error other than EOF |
| XmlParseSpec.DecodeErrorRejects | parse.go:86-102 | a decoder error anywhere makes the whole parse fail, under either rule |
| XmlParseSpec.DocumentOfRun | parse.go:62-88 | the document parse is the token loop run to its error: a non-EOF error is returned, and EOF gives the tree when it has an element, else an invalid document |
| XmlParser.Parser.constructor | parse.go:126-141 | the new parser is in the initial state |
| XmlParser.Parser.Place | parse.go:235-244 | the in-place attach does what `Attach` says, or nothing when it fails |
| XmlParser.Parser.PlaceHigher | parse.go:239-244 | for a node shallower than the cursor, the in-place walk up and attach does what `Attach` says, or nothing when it fails |
| XmlParser.Parser.WalkUp | parse.go:240-242 | the loop walks `steps - 1` Parent links up |
| XmlParser.Parser.LeafToken | parse.go:306-335 | the new state is `LeafStep` of the old one |
| XmlParser.Parser.BindNamespaces | parse.go:195-211 | the table loop yields `Bind` |
| XmlParser.Parser.ResolveAttributes | parse.go:213-224 | the attribute loop yields `ResolveAttrs` |
| XmlParser.Parser.StartToken | parse.go:177-270 | the new state is `StartStep` of the old one |
| XmlParser.Parser.PlaceElementToken | parse.go:213-269 | the new state is `PlaceElement` of the old one |
| XmlParser.Parser.SettlePrefix | parse.go:246-253 | the tree becomes `Prefixed`: the element gains the bound prefix exactly when the raw tag spells it |
| XmlParser.Parser.OpenElement | parse.go:246-270 | after the element is placed, the tree becomes `Prefixed`, the stream fields become `StreamStart`, and the element is the new cursor one level deeper |
| XmlParser.Parser.StreamCheck | parse.go:258-268 | the stream fields become `StreamStart`, whose cases with a target `PlaceElementStream` states |
| XmlParser.Parser.EndToken | parse.go:271-305 | the new state is `EndStep` of the old one, whose cases with a candidate `EndStepStream` states |
| XmlParser.Parser.NewPiNode | parse.go:340-351 | allocates the declaration or processing-instruction record |
| XmlParser.Parser.AddPairs | parse.go:342-347 | the node receives `PiAttrs` of the pieces |
| XmlParser.Parser.PiToken | parse.go:336-362 | the new state is `PiStep` of the old one |
| XmlParser.Parser.Token | parse.go:176-375 | the new state is `Step` of the old one |
| XmlParser.Parser.Parse | parse.go:158-377 | the new state and outcome are `ParseCall` of the old state |
| XmlParser.Parser.PruneBefore | parse.go:483-485 | the tree becomes `PrunedBefore` |
| XmlParser.Parser.Read | parse.go:477-494 | the outcome is `parse()` after `Read`'s preparation |
| XmlParser.HasElementChild | parse.go:92-97 | the inner loop finds an element child of doc exactly when one exists |
| XmlParser.DocumentHasElement | parse.go:89-99 | the double loop is true exactly when doc or a node of its sibling chain has an element child |
| XmlParser.ParseWithOptions | parse.go:40-102 | the result is `ParseDocument` with the rule as written |
| XmlParseNesting.AttachUnderTop | parse.go:235-244 | on a well-nested tree the attach rule puts the node under the innermost open element, and the levels stay consistent |
| XmlParseNesting.LevelsGrown | parse.go:225-232 | nodes added at their depth keep every node's level equal to its depth |
| XmlParseNesting.InitialInv | parse.go:126-141 | the initial state satisfies the nesting invariant |
| XmlParseNesting.LeafKeeps | parse.go:306-335 | a leaf becomes a child of the innermost open element, or of doc at level 0 |
| XmlParseNesting.DeclaredKeeps | parse.go:178-193 | the first StartElement at level 0 puts the declaration "xml" under doc and sets level 1 |
| XmlParseNesting.StartKeeps | parse.go:177-270 | a StartElement becomes a child of the innermost open element and opens it; without a target query only a missing namespace can fail |
| XmlParseNesting.EndKeeps | parse.go:271-272 | an EndElement closes the innermost open element |
| XmlParseNesting.PiKeeps | parse.go:336-362 | with the corrected rule a processing instruction is a child of the innermost open element |
| XmlParseNesting.StepKeeps | parse.go:176-375 | with the corrected processing-instruction rule, each token keeps the nesting invariant and changes the depth by +1, −1 or 0 (as written the invariant breaks: `AsWrittenPiAfterElement`) |
| XmlParseNesting.NestedRunKeepsLevels | parse.go:64-67 | with the corrected rule and no stream queries, the `parse()` loop on a well-nested stream never dereferences a nil node and leaves every node one level below its parent |
| XmlParseNesting.NestedDocumentLevels | parse.go:40-102 | with the corrected rule, on balanced input every node's level is its depth and no nil dereference happens |
| XmlParseSpec.StepRulesAgree | parse.go:336-339 | on a token that is no instruction, or an instruction both rules raise the level for alike, one step is the same under either rule |
| XmlParseSpec.RunRulesAgree | parse.go:158-377 | when that holds for every token the loop reaches, `parse()` runs the same under either rule |
| XmlParseSpec.DocumentRulesAgree | parse.go:40-102 | then the document parse gives the same result under either rule |
| XmlParseNesting.AsWrittenDocumentLevels | parse.go:40-102 | with the rule as written, on balanced input whose instructions both rules place alike (as a prolog's are), every node's level is its depth and no nil dereference happens |
| XmlParseNesting.AsWrittenPiUnderElement | parse.go:337-339 | as written, a processing instruction whose cursor is an element goes under that element, one level deeper |
| XmlParseNesting.CorrectedPiBesideElement | parse.go:337-339 | with the corrected rule it becomes the element's sibling at the same level |
| XmlParseNesting.StartEnd | parse.go:177-305 | `<a></a>` leaves the cursor on the closed element, a child of the innermost open element |
| XmlParseNesting.AsWrittenPiAfterElement | parse.go:337-339 | as written, in `<a></a><?p?>` the processing instruction becomes a child of `a` |
| XmlParseNesting.CorrectedPiAfterElement | parse.go:337-339 | with the corrected rule it becomes a sibling of `a` |
| XmlFormat.Merge | format.go:50-55 | the option loop yields `Merged`: options applied in order to a copy |
| XmlFormat.MergedAppend | format.go:50-55 | merging two option lists is merging one after the other |
| XmlFormat.MergedLastWins | format.go:12-25 | the last indent option and the last declaration option win; without one the default stays |
| XmlFormat.IsTextSpec | format.go:152-163 | `isText` holds exactly for a text or CDATA node with a character other than `\n`, `\t`, `\r` |
| XmlFormat.FormatLeaves | format.go:82-100 | a Text node is sanitised with the inherited `xml:space` flag and then escaped; a CharData node is sanitised the same way, escaped and wrapped in `<![CDATA[`…`]]>`; a Comment is emitted verbatim between `<!--` and `-->`; a declaration gives exactly `<?data?>` when XMLDeclaration is set and nothing otherwise |
| XmlFormat.FormatOpensTag | format.go:101-112 | an opening tag is preceded by `"\n"+repeat(ident, level)` exactly when ident is nonempty and level > 0 |
| XmlFormat.OpeningStarts | format.go:101-105 | what `output` writes first for a named node begins with `\n` exactly in the indented case |
| XmlFormat.FormatClosesTag | format.go:132-143 | a closing tag is preceded by newline and indent exactly when ident is nonempty and the last child is not text; otherwise it follows the children directly |
| XmlFormat.FormatUnnamed | format.go:101-132 | a node with empty Data emits no tags, only its attributes and children; the document node does not raise the level |
| XmlFormat.FormatLevelFree | format.go:69-76 | with an empty ident the level has no effect on the output |
| XmlFormat.Output | format.go:78-144 | the recursive writer returns `FormatOf` |
| XmlFormat.Recurse | format.go:146-150 | the loop over the child chain returns the children's output concatenated |
| XmlFormat.Format | format.go:38-43 | the output is the defaults (ident "", declaration on) merged with the options, then output at level 0 |
| XmlFormat.FormatString | format.go:28-35 | a parse error (rule as written) is returned as is; otherwise the document is formatted |
| LineNumbers.LineStartsSpec | line_parser.go:27-35 | the line starts are 0, then i+1 for each line feed at i, and they strictly increase |
| LineNumbers.CrossingIsLine | line_parser.go:59-73 | the line of a position is the number of line starts at or before it |
| LineNumbers.LineBounds | line_parser.go:59-73 | every line is between 1 and the number of lines |
| LineNumbers.LineMonotone | line_parser.go:59-73 | a later position never has an earlier line |
| LineNumbers.OccurrencesMatch | line_parser.go:204-223 | each occurrence the search finds is a match, after the previous one ends |
| LineNumbers.OccurrencesCover | line_parser.go:204-223 | every match at or after the start overlaps one of the returned occurrences |
| LineNumbers.DeclarationLineSpec | line_parser.go:226-233 | the declaration line is the line of the first `<?xml`, or 1 if there is none |
| LineNumbers.BackToOpenSpec | line_parser.go:159-167 | a found start is a `<` at or before i with no `<` or `>` between it and i; nothing is found only when every `<` at or before i is followed by a `>` before i |
| LineNumbers.ElementPositionsAreTags | line_parser.go:122-170 | every candidate position of an element is a `<` |
| LineNumbers.InsertSorted | line_parser.go:177-194 | inserting adds exactly the element: the result holds the old elements and it, and nothing else |
| LineNumbers.InsertSortedIncreasing | line_parser.go:177-194 | inserting into a strictly increasing sequence keeps it strictly increasing, so no position is kept twice |
| LineNumbers.SortedSet | line_parser.go:177-194 | the deduplicated, sorted candidates are strictly increasing with the same members |
| LineNumbers.IncreasingUnique | line_parser.go:177-194 | two strictly increasing sequences with the same members are equal, so the dedupe-then-sort result does not depend on map order |
| LineNumbers.ElementLineSpec | line_parser.go:121-201 | the n-th element line is the line of the candidate with n−1 candidates before it, or 1 if there are fewer than n |
| LineNumbers.SortedOfDistinct | line_parser.go:188-194 | a sorted sequence of distinct positions is strictly increasing |
| LineNumbers.Bump | line_parser.go:94-108 | a counter goes up by one for its key and no other key changes |
| LineNumbers.Preorder | line_parser.go:113-117 | the preorder walk from n lists only n and nodes created after it |
| LineNumbers.VisitsAppend | line_parser.go:113-117 | visiting two sequences is visiting one after the other |
| LineNumbers.PreorderVisits | line_parser.go:87-118 | annotating a subtree visits the node, then its children's subtrees in order |
| LineNumbers.VisitRelines | line_parser.go:92-112 | one visit changes at most that node, and only from line 0 to a line within the input |
| LineNumbers.VisitsRelines | line_parser.go:87-118 | a walk changes only nodes it visits, and only their line number |
| LineNumbers.AnnotateRelines | line_parser.go:87-118 | annotation touches only nodes with line 0, and gives them a valid line; nodes outside the subtree are unchanged |
| LineNumbers.SingleLineAnnotation | line_parser_test.go:84-107 | on single-line input every annotated node gets line 1 |
| LineNumbers.Annotated | line_parser.go:76-84 | the annotated document has the same links and size, is well linked, and each node either is unchanged or had line 0 and only gained a line number |
| LineNumbers.Counters.constructor | line_parser.go:78-80 | the three counter maps start empty |
| LineNumbers.TreeOf | line_parser.go:38-41 | the tree returned by `ParseWithOptions`, as an object |
| LineNumbers.ParseWithLineNumbers | line_parser.go:12-50 | a parse error (rule as written) is returned as is; otherwise the result is the parsed document annotated with line numbers |
| LineNumbers.ExchangeSort | line_parser.go:188-194 | the in-place double loop sorts the array and permutes its contents |
| LineNumbers.LineCountingParser.constructor | line_parser.go:25-35 | the line starts are precomputed by one pass over the data |
| LineNumbers.LineCountingParser.GetLineForPosition | line_parser.go:59-73 | the lookup is 1 for a negative position, else the number of line starts at or before it |
| LineNumbers.LineCountingParser.NextOccurrence | line_parser.go:136-143 | one `bytes.Index` call of a search loop: -1 exactly when no occurrence is left from `pos`; otherwise the next occurrence at or after `pos`, which fits in the data, with the later occurrences found from just past it |
| LineNumbers.LineCountingParser.FindNth | line_parser.go:204-223 | the shared loop gives the line of the n-th non-overlapping occurrence, or 1 |
| LineNumbers.LineCountingParser.FindNthCommentLine | line_parser.go:204-223 | the line of the n-th `<!--content-->`, or 1 |
| LineNumbers.LineCountingParser.FindNthTextLine | line_parser.go:236-254 | the line of the n-th occurrence of the text, or 1 |
| LineNumbers.LineCountingParser.FindDeclarationLine | line_parser.go:226-233 | the line of the first `<?xml`, or 1 |
| LineNumbers.LineCountingParser.CollectMatches | line_parser.go:132-144 | every match of one pattern is appended, in order |
| LineNumbers.LineCountingParser.ScanBack | line_parser.go:159-167 | the backward scan returns `BackToOpen` |
| LineNumbers.LineCountingParser.ElementStart | line_parser.go:157-168 | the element start of a `:name` match is `OpenTag` |
| LineNumbers.LineCountingParser.CollectOpenTags | line_parser.go:146-170 | the `:name` loop appends the element starts of the matches |
| LineNumbers.LineCountingParser.TagRound | line_parser.go:150-169 | one round of the `:name` loop: the starts it found, followed by those from the next search position on, are those from the current position on; it signals when no match is left |
| LineNumbers.LineCountingParser.ElementCandidates | line_parser.go:122-170 | all candidate positions: `<name:`, `<name>` and `<name ` matches, then `:name` element starts |
| LineNumbers.LineCountingParser.UniquePositions | line_parser.go:177-185 | the dedupe gives distinct positions with the same members |
| LineNumbers.LineCountingParser.FindNthElementLine | line_parser.go:121-201 | the line of the n-th candidate in ascending order, or 1 |
| LineNumbers.LineCountingParser.VisitNode | line_parser.go:92-112 | the switch on one node does what `VisitAt` says, links unchanged |
| LineNumbers.LineCountingParser.AnnotateNodeWithCounters | line_parser.go:87-118 | the recursive walk does `Visits` over the node's preorder; nothing for nil |
| LineNumbers.LineCountingParser.AnnotateLineNumbers | line_parser.go:76-84 | the document is annotated from fresh counters |

## Left out

- The `encoding/xml` tokenizer and `charset.NewReaderLabel`: the token stream and each token's raw bytes are the input.
- The XPath compiler and evaluator (`getQuery`, `QuerySelector`) and cache.go's LRU: the stream target and filter queries are function parameters over the tree.
- `xml.EscapeText`: it is a parameter `esc`.
- HTTP loading (`LoadURL`, `LoadURLWithLineNumbers`): network I/O.
- `io.ReadAll` errors in `ParseWithLineNumbersAndOptions`: the input is already in memory.
- `ParserOptions` other than the decoder's `strict` flag. `ParserOptions.apply` and the option constructors are defined in a file this model does not cover, so `WithLineNumbers` is one of the options left out.
- The `lineNumberAnnotator` of parse.go:496-767, reached only through `WithLineNumbers`. Its `getLineForPosition` (parse.go:504-517) has the same code as line_parser.go:59-73, which `GetLineForPosition` models.
- `updateLineNumber` (parse.go:144-156): it calls `CacheWithLimit(-1)`, which cached_reader.go does not define. Nodes are built with line number 0.
- LineNumbers.ParseWithLineNumbers: annotates every node of the parsed tree. In the program `updateLineNumber` gives the nodes built after the first counted newline a nonzero line number, and the annotator (line_parser.go:93) skips those nodes without bumping their counters.
- The older parser in node.go:219-431: parse.go replaces it.
- Moving nodes that already exist: the link primitives (`CanAddChild`, `CanAddSibling`) are specified only for a detached node newer than the nodes it is linked after, which keeps arena order equal to creation order. Go's exported `AddChild` and `AddSibling` have no such limit, so moving an existing or removed subtree under a newer node is not modelled. Every call in parse.go passes a node it has just allocated.
- `collectNodes` (line_parser.go:257-267): nothing calls it.
- `sync.Once` (parse.go:159-161): the namespace table is set up by the constructor.
- `formatter.Output` and `formatter.String` (format.go:57-66): thin wrappers around `output`.
- `CacheWithLimit(n)` is assumed to return the first min(n, cacheLen) cached bytes. cached_reader.go does not define it.
- `SelectAttr` (defined in a file this model does not cover) is modelled as the value of the first `xml:space` attribute, or "" if there is none.
- `bytes.ToUpper` is modelled as ASCII upper-casing, which is enough for the CDATA prefix test.
- `strings.TrimSpace` is modelled with ASCII space only.
- Go's map iteration order in `findNthElementLine`: the model enumerates the deduplicated positions in first-appearance order. `IncreasingUnique` shows the sorted result does not depend on that order.
- LineNumbers.LineCountingParser.FindNthTextLine: requires a nonempty text. Its only caller passes trimmed, non-blank text. With an empty text the Go loop returns line 1 for n ≥ 1 and never ends for n ≤ 0.
- LineNumbers.LineCountingParser.FindNthElementLine: requires n ≥ 1. The counters start at 1; with n ≤ 0 and a candidate present the Go code indexes out of range.
- The `data` argument of the find methods is always `p.data`, so the model reads the field.
- `StreamParser.Read` requires that the previous candidate's sibling prune ends. Go loops for ever on a parentless candidate with a previous sibling; `PrunedBefore` is None exactly there.
- The concrete expected output of format_test.go is not a lemma. Its indentation and closing-tag rules are `FormatOpensTag` and `FormatClosesTag`.
- The underlying `bufio.Reader` of `CachedReader` is an in-memory byte source that yields its bytes and then one final error.
- XmlParseNesting.NestedDocumentLevels: proved for the corrected processing-instruction rule only. With parse.go:337-339 as written it is false: in `<a><?p?></a><b/>` the instruction gets level 3 at depth 2. `AsWrittenDocumentLevels` carries it to the rule as written only where the two rules place every instruction alike.
- A nil node dereference in the parser (`p.prev.Parent` when nil) is the error `NilDereference`, not a Go panic.

## Findings

| source | as written | input that shows it | evidently intended | confidence | as-written member | corrected member |
|---|---|---|---|---|---|---|
| parse.go:337-339 | a processing instruction raises `level` whenever the cursor is not a declaration or processing instruction, and nothing lowers it again | `<a></a><?p?>`: the instruction becomes a child of `a` | raise the level only at level 0, as the implicit declaration does; the instruction is then a sibling of `a` | medium, not executed | XmlParseNesting.AsWrittenPiAfterElement | XmlParseNesting.CorrectedPiAfterElement |
