/**
  The blank-line-before-declaration rule (ktlint `BlankLineBeforeDeclarationRule`).

  The hook examines classes, class initializers, functions, object
  declarations, properties and property accessors. A declaration that is not
  exempt and whose previous leaf does not start a blank line is reported once,
  at its start offset; when the engine allows the fix, the whitespace before
  the declaration becomes a line break followed by the declaration's indent.

  The indent of the declaration (ktlint `indent20`, which starts with a line
  break) is a parameter: the helper that computes it is not part of this
  model.
 */
module BlankLineBeforeDeclaration {
  import opened Syntax
  import opened Autocorrect

  const BlankLineMessage: string := "Expected a blank line for this declaration"

  /** The node types the hook examines; each of them is a declaration. */
  predicate IsExaminedKind(t: ElementType) {
    t == Class || t == ClassInitializer || t == Fun || t == ObjectDeclaration || t == Property || t == PropertyAccessor
  }

  /** ktlint `propertyRelated`. */
  predicate PropertyRelated(t: ElementType) {
    t == Property || t == PropertyAccessor
  }

  /** ktlint `isBlankLine` of a previous leaf: there is none, or its text starts with two line breaks. */
  predicate IsBlankLine(leaf: Option<Node>) {
    leaf.None? || (|Text(leaf.value)| >= 2 && Text(leaf.value)[..2] == "\n\n")
  }

  // ---------------------------------------------------------------------------
  // Where the node sits

  /** The parent of the node at `path`; the root has none. */
  function ParentNode(root: Node, path: seq<nat>): (r: Option<Node>)
    requires ValidPath(root, path)
    ensures r.Some? <==> path != []
    ensures r.Some? ==> r.value.Composite? && Last(path) < |r.value.children| && r.value.children[Last(path)] == At(root, path)
  {
    if path == [] then None
    else
      SplitPath(root, path);
      Some(At(root, ParentPath(path)))
  }

  /** The parent of the parent, and the parent's index in it. */
  function GrandparentNode(root: Node, path: seq<nat>): (r: Option<(Node, nat)>)
    requires ValidPath(root, path)
    ensures r.Some? <==> |path| >= 2
    ensures r.Some? ==>
      && r.value.0.Composite? && r.value.1 < |r.value.0.children|
      && r.value.0.children[r.value.1] == ParentNode(root, path).value
  {
    if |path| < 2 then None
    else
      SplitPath(root, path);
      SplitPath(root, ParentPath(path));
      Some((At(root, ParentPath(ParentPath(path))), Last(ParentPath(path))))
  }

  function ParentKind(root: Node, path: seq<nat>): Option<ElementType>
    requires ValidPath(root, path)
  {
    KindOf(ParentNode(root, path))
  }

  /** The kind of `prevCodeSibling20`. */
  function PrevCodeSiblingKind(root: Node, path: seq<nat>): Option<ElementType>
    requires ValidPath(root, path)
  {
    match ParentNode(root, path)
    case None => None
    case Some(parent) =>
      match PrevCodeSibling(parent.children, Last(path))
      case None => None
      case Some(j) => Some(parent.children[j].kind)
  }

  // ---------------------------------------------------------------------------
  // Exemptions

  /**
    ktlint `isFirstCodeSiblingInClassBody` (for `t == ClassBody`) and
    `isFirstCodeSiblingInBlock` (for `t == Block`): the parent has type `t`
    and the node is the first code sibling after the parent's first `{`.
   */
  predicate IsFirstCodeAfterBrace(root: Node, path: seq<nat>, t: ElementType)
    requires ValidPath(root, path)
  {
    match ParentNode(root, path)
    case None => false
    case Some(parent) =>
      && parent.kind == t
      && match FirstChildOfType(parent.children, LBrace)
         case None => false
         case Some(b) => NextCodeSibling(parent.children, b) == Some(Last(path))
  }

  /** The parent is the first block of a function literal. */
  predicate InFunctionLiteralBody(root: Node, path: seq<nat>)
    requires ValidPath(root, path)
  {
    match GrandparentNode(root, path)
    case None => false
    case Some((literal, bi)) =>
      && ParentNode(root, path).value.kind == Block
      && literal.kind == FunctionLiteral
      && FirstChildOfType(literal.children, Block) == Some(bi)
  }

  /**
    `isFirstCodeSiblingInBodyOfFunctionLiteral` as written: the search
    `firstOrNull { isCode }` tests the declaration itself (the receiver)
    rather than each child, so it yields the first child of the block
    whatever that child is.
   */
  predicate IsFirstChildInBodyOfFunctionLiteral(root: Node, path: seq<nat>)
    requires ValidPath(root, path)
  {
    InFunctionLiteralBody(root, path) && IsCode(At(root, path)) && Last(path) == 0
  }

  /**
    `isFirstCodeSiblingInBodyOfFunctionLiteral` as intended: the node is the
    first code child of the function literal's block.
   */
  predicate IsFirstCodeSiblingInBodyOfFunctionLiteral(root: Node, path: seq<nat>)
    requires ValidPath(root, path)
  {
    && InFunctionLiteralBody(root, path)
    && IsCode(At(root, path))
    && PrevCodeSibling(ParentNode(root, path).value.children, Last(path)).None?
  }

  /** ktlint `isConsecutiveProperty`: a property-related node after a property-related sibling or inside one. */
  predicate IsConsecutiveProperty(root: Node, path: seq<nat>)
    requires ValidPath(root, path)
  {
    && PropertyRelated(At(root, path).kind)
    && PrevCodeSiblingKind(root, path).Some?
    && (PropertyRelated(PrevCodeSiblingKind(root, path).value) || PropertyRelated(ParentKind(root, path).value))
  }

  /** ktlint `isLocalProperty`: a property-related node directly in a block. */
  predicate IsLocalProperty(root: Node, path: seq<nat>)
    requires ValidPath(root, path)
  {
    PropertyRelated(At(root, path).kind) && ParentKind(root, path) == Some(Block)
  }

  /** The exemptions that depend on the declaration's type. */
  predicate IsExemptByKind(root: Node, path: seq<nat>)
    requires ValidPath(root, path)
  {
    var kind := At(root, path).kind;
    || IsConsecutiveProperty(root, path)
    || IsLocalProperty(root, path)
    || (kind == Property && ParentKind(root, path) == Some(When))
    || (kind == Fun && PrevCodeSiblingKind(root, path) in {Some(Eq), Some(ReturnKeyword)})
    || (kind == Fun && ParentKind(root, path) == Some(ValueArgument))
    || (kind == ObjectDeclaration && ParentKind(root, path) == Some(ObjectLiteral))
  }

  /** The exemptions of `visitDeclaration`, with the function-literal check as written. */
  predicate IsExemptAsWritten(root: Node, path: seq<nat>)
    requires ValidPath(root, path)
  {
    || IsFirstCodeAfterBrace(root, path, ClassBody)
    || IsFirstCodeAfterBrace(root, path, Block)
    || IsFirstChildInBodyOfFunctionLiteral(root, path)
    || IsExemptByKind(root, path)
  }

  /** The exemptions of `visitDeclaration`, with the function-literal check as intended. */
  predicate IsExempt(root: Node, path: seq<nat>)
    requires ValidPath(root, path)
  {
    || IsFirstCodeAfterBrace(root, path, ClassBody)
    || IsFirstCodeAfterBrace(root, path, Block)
    || IsFirstCodeSiblingInBodyOfFunctionLiteral(root, path)
    || IsExemptByKind(root, path)
  }

  /**
    Which reading of `isFirstCodeSiblingInBodyOfFunctionLiteral` the hook
    uses: the source as written (ktlint's behaviour) or the evident intent.
   */
  datatype Reading = AsWritten | Intended

  predicate Exempt(reading: Reading, root: Node, path: seq<nat>)
    requires ValidPath(root, path)
  {
    match reading
    case AsWritten => IsExemptAsWritten(root, path)
    case Intended => IsExempt(root, path)
  }

  // ---------------------------------------------------------------------------
  // The fix and the hook

  /**
    ktlint `upsertWhitespaceBeforeMe` on a composite node: the whitespace
    sibling right before it gets the text, or a whitespace sibling with the
    text is inserted before it. Also returns the node's new path.
   */
  function UpsertWhiteSpaceBefore(root: Node, path: seq<nat>, text: string): (r: (Node, seq<nat>))
    requires ValidPath(root, path) && path != []
  {
    SplitPath(root, path);
    var pp := ParentPath(path);
    var parent := At(root, pp);
    var k := Last(path);
    var cs := parent.children;
    if k > 0 && IsWhiteSpace(cs[k - 1]) then
      (Replace(root, pp, Composite(parent.kind, cs[k - 1 := WhiteSpaceLeaf(text)])), path)
    else
      (Replace(root, pp, Composite(parent.kind, InsertAt(cs, k, WhiteSpaceLeaf(text)))), pp + [k + 1])
  }

  /** `visitDeclaration`: exemptions, then the report and the fix. */
  function VisitDeclaration(reading: Reading, root: Node, path: seq<nat>, indent: string, policy: Policy): Outcome<Node>
    requires ValidPath(root, path)
  {
    if Exempt(reading, root, path) || IsBlankLine(PrevLeaf(root, path)) then Outcome(root, [])
    else
      var (d, log) := Emit(policy, [], StartOffset(root, path), BlankLineMessage);
      if d == AllowAutocorrect then Outcome(UpsertWhiteSpaceBefore(root, path, "\n" + indent).0, log)
      else Outcome(root, log)
  }

  /**
    `beforeVisitChildNodes` on the node at `path` of the file `root`. The
    rule as ktlint runs it is `BeforeVisitChildNodes(AsWritten, ...)`; with
    `Intended` it is the rule with the function-literal check corrected.
   */
  function BeforeVisitChildNodes(reading: Reading, root: Node, path: seq<nat>, indent: string, policy: Policy): Outcome<Node>
    requires ValidPath(root, path)
  {
    if IsExaminedKind(At(root, path).kind) then VisitDeclaration(reading, root, path, indent, policy)
    else Outcome(root, [])
  }

  // ---------------------------------------------------------------------------
  // Properties

  /** Only the six declaration types are examined: on any other node nothing is reported or changed. */
  lemma {:induction false} OnlyDeclarationsExamined(reading: Reading, root: Node, path: seq<nat>, indent: string, policy: Policy)
    requires ValidPath(root, path) && !IsExaminedKind(At(root, path).kind)
    ensures BeforeVisitChildNodes(reading, root, path, indent, policy) == Outcome(root, [])
  {
  }

  /** The start of the file, or a previous leaf that starts a blank line, is never reported. */
  lemma {:induction false} BlankLineNeverReported(reading: Reading, root: Node, path: seq<nat>, indent: string, policy: Policy)
    requires ValidPath(root, path)
    ensures path == [] ==> PrevLeaf(root, path).None?
    ensures IsBlankLine(PrevLeaf(root, path)) ==> BeforeVisitChildNodes(reading, root, path, indent, policy) == Outcome(root, [])
  {
  }

  /**
    A declaration is reported exactly when it is examined, not exempt and
    not after a blank line; then it is reported once, at its start offset.
    The three conditions are the hook's own guards: the node type test of
    BlankLineBeforeDeclarationRule.kt:46-61, the early returns of :67-148,
    and the blank-line test before the `emit` of :149-154.
   */
  lemma {:induction false} ReportedIffViolation(reading: Reading, root: Node, path: seq<nat>, indent: string, policy: Policy)
    requires ValidPath(root, path)
    ensures var r := BeforeVisitChildNodes(reading, root, path, indent, policy);
      && |r.log| <= 1
      && (r.log != [] <==> IsExaminedKind(At(root, path).kind) && !Exempt(reading, root, path) && !IsBlankLine(PrevLeaf(root, path)))
      && (r.log != [] ==> r.log[0].emission == Emission(StartOffset(root, path), BlankLineMessage, true))
  {
  }

  /** Without an allowed autocorrect the file is left exactly as it was. */
  lemma {:induction false} RejectedUnchanged(reading: Reading, root: Node, path: seq<nat>, indent: string, policy: Policy)
    requires ValidPath(root, path)
    ensures var r := BeforeVisitChildNodes(reading, root, path, indent, policy);
      NoneAllowed(r.log) ==> r.root == root
  {
    var r := BeforeVisitChildNodes(reading, root, path, indent, policy);
    if r.log != [] {
      assert r.log[0] in r.log;
    }
  }

  /**
    The whitespace lands right before the node: the node is at the returned
    path, unchanged, and its previous leaf is the whitespace with the text.
   */
  lemma {:induction false} UpsertPlacesWhiteSpace(root: Node, path: seq<nat>, text: string)
    requires ValidPath(root, path) && path != []
    ensures var (root', path') := UpsertWhiteSpaceBefore(root, path, text);
      && ValidPath(root', path')
      && At(root', path') == At(root, path)
      && PrevLeaf(root', path') == Some(WhiteSpaceLeaf(text))
  {
    SplitPath(root, path);
    var cs := At(root, ParentPath(path)).children;
    var k := Last(path);
    if k > 0 && IsWhiteSpace(cs[k - 1]) {
      ReTextPlacesWhiteSpace(root, path, text);
    } else {
      InsertPlacesWhiteSpace(root, path, text);
    }
  }

  /** The upsert when a whitespace sibling precedes the node: that sibling is re-texted. */
  lemma {:induction false} ReTextPlacesWhiteSpace(root: Node, path: seq<nat>, text: string)
    requires ValidPath(root, path) && path != []
    requires ValidPath(root, ParentPath(path)) && At(root, ParentPath(path)).Composite?
    requires 0 < Last(path) < |At(root, ParentPath(path)).children|
    requires IsWhiteSpace(At(root, ParentPath(path)).children[Last(path) - 1])
    ensures var (root', path') := UpsertWhiteSpaceBefore(root, path, text);
      && ValidPath(root', path')
      && At(root', path') == At(root, path)
      && PrevLeaf(root', path') == Some(WhiteSpaceLeaf(text))
  {
    SplitPath(root, path);
    var pp := ParentPath(path);
    var parent := At(root, pp);
    var k := Last(path);
    var w := WhiteSpaceLeaf(text);
    var cs' := parent.children[k - 1 := w];
    assert pp + [k] == path;
    assert UpsertWhiteSpaceBefore(root, path, text) == (Replace(root, pp, Composite(parent.kind, cs')), path);
    PlaceChildAfterLeaf(root, pp, cs', k, w);
  }

  /** The upsert when no whitespace sibling precedes the node: one is inserted. */
  lemma {:induction false} InsertPlacesWhiteSpace(root: Node, path: seq<nat>, text: string)
    requires ValidPath(root, path) && path != []
    requires ValidPath(root, ParentPath(path)) && At(root, ParentPath(path)).Composite?
    requires Last(path) < |At(root, ParentPath(path)).children|
    requires !(Last(path) > 0 && IsWhiteSpace(At(root, ParentPath(path)).children[Last(path) - 1]))
    ensures var (root', path') := UpsertWhiteSpaceBefore(root, path, text);
      && ValidPath(root', path')
      && At(root', path') == At(root, path)
      && PrevLeaf(root', path') == Some(WhiteSpaceLeaf(text))
  {
    SplitPath(root, path);
    var pp := ParentPath(path);
    var parent := At(root, pp);
    var k := Last(path);
    var w := WhiteSpaceLeaf(text);
    var cs' := InsertAt(parent.children, k, w);
    assert UpsertWhiteSpaceBefore(root, path, text) == (Replace(root, pp, Composite(parent.kind, cs')), pp + [k + 1]);
    PlaceChildAfterLeaf(root, pp, cs', k + 1, w);
  }

  /** After the children of the node at `pp` become `cs`, child `k` of it has the leaf `cs[k - 1]` before it. */
  lemma {:induction false} PlaceChildAfterLeaf(root: Node, pp: seq<nat>, cs: seq<Node>, k: nat, w: Node)
    requires ValidPath(root, pp) && 0 < k < |cs| && cs[k - 1] == w && w.Leaf?
    ensures var root' := Replace(root, pp, Composite(At(root, pp).kind, cs));
      && ValidPath(root', pp + [k])
      && At(root', pp + [k]) == cs[k]
      && PrevLeaf(root', pp + [k]) == Some(w)
  {
    var m := Composite(At(root, pp).kind, cs);
    ReplaceFrame(root, pp, m);
    ExtendPath(Replace(root, pp, m), pp, k);
    LastLeafIs(cs[..k], w);
  }

  /** Siblings that end with a leaf have that leaf last. */
  lemma {:induction false} LastLeafIs(cs: seq<Node>, w: Node)
    requires cs != [] && cs[|cs| - 1] == w && w.Leaf?
    ensures LeavesOf(cs) != [] && LeavesOf(cs)[|LeavesOf(cs)| - 1] == w
  {
    assert cs == cs[..|cs| - 1] + [w];
    LeavesOfAppend(cs[..|cs| - 1], [w]);
    LeavesOfSingle(w);
  }

  /** The upsert only edits whitespace: the significant leaves of the file are unchanged. */
  lemma {:induction false} UpsertKeepsSignificant(root: Node, path: seq<nat>, text: string)
    requires ValidPath(root, path) && path != []
    ensures Significant(Leaves(UpsertWhiteSpaceBefore(root, path, text).0)) == Significant(Leaves(root))
  {
    SplitPath(root, path);
    var pp := ParentPath(path);
    var parent := At(root, pp);
    var k := Last(path);
    var cs := parent.children;
    var w := WhiteSpaceLeaf(text);
    if k > 0 && IsWhiteSpace(cs[k - 1]) {
      ReTextWhiteSpaceKeepsSignificant(cs, k - 1, text);
      ReplaceKeepsSignificant(root, pp, Composite(parent.kind, cs[k - 1 := w]));
    } else {
      InsertWhiteSpaceKeepsSignificant(cs, k, w);
      ReplaceKeepsSignificant(root, pp, Composite(parent.kind, InsertAt(cs, k, w)));
    }
  }

  /** The hook only edits whitespace: the significant leaves of the file are unchanged. */
  lemma {:induction false} FixKeepsSignificant(reading: Reading, root: Node, path: seq<nat>, indent: string, policy: Policy)
    requires ValidPath(root, path)
    ensures Significant(Leaves(BeforeVisitChildNodes(reading, root, path, indent, policy).root)) == Significant(Leaves(root))
  {
    if IsExaminedKind(At(root, path).kind) && !Exempt(reading, root, path) && !IsBlankLine(PrevLeaf(root, path)) {
      assert path != [];
      UpsertKeepsSignificant(root, path, "\n" + indent);
    }
  }

  /**
    The fix is final when the indent starts with a line break: after an
    allowed fix, the declaration (at its new path) is preceded by a blank
    line and is not reported again, whatever the engine decides next.
   */
  lemma {:induction false} FixedDeclarationNotReportedAgain(reading: Reading, root: Node, path: seq<nat>, indent: string, policy: Policy, policy': Policy)
    requires ValidPath(root, path) && |indent| > 0 && indent[0] == '\n'
    ensures var r := BeforeVisitChildNodes(reading, root, path, indent, policy);
      r.log != [] && r.log[0].decision == AllowAutocorrect ==>
        && path != []
        && var (root', path') := UpsertWhiteSpaceBefore(root, path, "\n" + indent);
        && r.root == root'
        && ValidPath(root', path') && At(root', path') == At(root, path)
        && BeforeVisitChildNodes(reading, root', path', indent, policy').log == []
  {
    var r := BeforeVisitChildNodes(reading, root, path, indent, policy);
    if r.log != [] && r.log[0].decision == AllowAutocorrect {
      AllowedFixUpserts(reading, root, path, indent, policy);
      UpsertedDeclarationNotReported(reading, root, path, indent, policy');
    }
  }

  /** An allowed fix inserts the blank line before the declaration, which is never the root. */
  lemma {:induction false} AllowedFixUpserts(reading: Reading, root: Node, path: seq<nat>, indent: string, policy: Policy)
    requires ValidPath(root, path)
    ensures var r := BeforeVisitChildNodes(reading, root, path, indent, policy);
      r.log != [] && r.log[0].decision == AllowAutocorrect ==>
        path != [] && r.root == UpsertWhiteSpaceBefore(root, path, "\n" + indent).0
  {
    BlankLineNeverReported(reading, root, path, indent, policy);
  }

  /** After the blank line is inserted, the declaration has a blank line before it and is not reported. */
  lemma {:induction false} UpsertedDeclarationNotReported(reading: Reading, root: Node, path: seq<nat>, indent: string, policy: Policy)
    requires ValidPath(root, path) && path != [] && |indent| > 0 && indent[0] == '\n'
    ensures var (root', path') := UpsertWhiteSpaceBefore(root, path, "\n" + indent);
      && ValidPath(root', path') && At(root', path') == At(root, path)
      && BeforeVisitChildNodes(reading, root', path', indent, policy).log == []
  {
    UpsertPlacesWhiteSpace(root, path, "\n" + indent);
    var (root', path') := UpsertWhiteSpaceBefore(root, path, "\n" + indent);
    assert Text(WhiteSpaceLeaf("\n" + indent))[..2] == "\n\n";
    BlankLineNeverReported(reading, root', path', indent, policy);
  }

  // ---------------------------------------------------------------------------
  // The function-literal exemption

  /** The check as written exempts fewer declarations than the intended one. */
  lemma {:induction false} FirstChildIsFirstCodeSibling(root: Node, path: seq<nat>)
    requires ValidPath(root, path)
    ensures IsFirstChildInBodyOfFunctionLiteral(root, path) ==> IsFirstCodeSiblingInBodyOfFunctionLiteral(root, path)
    ensures IsExemptAsWritten(root, path) ==> IsExempt(root, path)
  {
  }

  /**
    The intended check: a code node directly in the first block of a
    function literal, with no code child of that block before it.
   */
  lemma {:induction false} FirstCodeSiblingInBodyOfFunctionLiteral(root: Node, path: seq<nat>)
    requires ValidPath(root, path) && InFunctionLiteralBody(root, path)
    ensures var cs := ParentNode(root, path).value.children;
      (IsFirstCodeSiblingInBodyOfFunctionLiteral(root, path) <==>
        (IsCode(At(root, path)) && forall q :: 0 <= q < Last(path) ==> !IsCode(cs[q])))
  {
  }

  // ---------------------------------------------------------------------------
  // `{ /* c */ <newline> fun f }`: a block comment heads the body of a function literal

  function ExampleFun(): Node {
    Composite(Fun, [Leaf(Other("fun"), "fun")])
  }

  function ExampleBody(): Node {
    Composite(Block, [Leaf(BlockComment, "/* c */"), WhiteSpaceLeaf("\n"), ExampleFun()])
  }

  function ExampleLiteral(): Node {
    Composite(FunctionLiteral, [Leaf(LBrace, "{"), ExampleBody(), Leaf(RBrace, "}")])
  }

  /** Where the function sits: third child of the block, which is the literal's second child. */
  lemma {:induction false} ExamplePlace()
    ensures ValidPath(ExampleLiteral(), [1, 2]) && At(ExampleLiteral(), [1, 2]) == ExampleFun()
    ensures ParentNode(ExampleLiteral(), [1, 2]) == Some(ExampleBody())
    ensures GrandparentNode(ExampleLiteral(), [1, 2]) == Some((ExampleLiteral(), 1))
  {
    var path: seq<nat> := [1, 2];
    assert path[1..] == [2] && [2][1..] == [];
    assert ParentPath(path) == [1] && Last(path) == 2;
    assert ParentPath([1]) == [] && Last([1]) == 1;
    assert [1][1..] == [];
  }

  /** The function is the first code sibling of the literal's body but not its first child. */
  lemma {:induction false} ExampleInLiteralBody()
    ensures ValidPath(ExampleLiteral(), [1, 2])
    ensures InFunctionLiteralBody(ExampleLiteral(), [1, 2])
    ensures IsFirstCodeSiblingInBodyOfFunctionLiteral(ExampleLiteral(), [1, 2])
    ensures !IsFirstChildInBodyOfFunctionLiteral(ExampleLiteral(), [1, 2])
    ensures PrevCodeSiblingKind(ExampleLiteral(), [1, 2]) == None
  {
    ExamplePlace();
    ExampleChildren();
  }

  /** The block is the literal's first block, it has no brace, and only a comment and a line break precede the function. */
  lemma {:induction false} ExampleChildren()
    ensures FirstChildOfType(ExampleLiteral().children, Block) == Some(1)
    ensures FirstChildOfType(ExampleBody().children, LBrace) == None
    ensures PrevCodeSibling(ExampleBody().children, 2) == None && IsCode(ExampleFun())
  {
    ExampleBlockFirst();
    ExampleNoBrace();
    ExampleNoCodeBeforeFun();
  }

  lemma {:induction false} ExampleBlockFirst()
    ensures FirstChildOfType(ExampleLiteral().children, Block) == Some(1)
  {
    var cs := ExampleLiteral().children;
    assert cs[1..][0].kind == Block;
    assert FirstChildOfType(cs[1..], Block) == Some(0);
  }

  lemma {:induction false} ExampleNoBrace()
    ensures FirstChildOfType(ExampleBody().children, LBrace) == None
  {
    var cs := ExampleBody().children;
    assert cs[0].kind != LBrace && cs[1].kind != LBrace && cs[2].kind != LBrace;
  }

  lemma {:induction false} ExampleNoCodeBeforeFun()
    ensures PrevCodeSibling(ExampleBody().children, 2) == None && IsCode(ExampleFun())
  {
    var cs := ExampleBody().children;
    assert !IsCode(cs[0]) && !IsCode(cs[1]);
  }

  /** The function is not the first code after a brace: the block has no brace of its own. */
  lemma {:induction false} ExampleNotAfterBrace()
    ensures ValidPath(ExampleLiteral(), [1, 2])
    ensures !IsFirstCodeAfterBrace(ExampleLiteral(), [1, 2], ClassBody)
    ensures !IsFirstCodeAfterBrace(ExampleLiteral(), [1, 2], Block)
  {
    ExamplePlace();
    ExampleChildren();
  }

  /** No exemption by kind applies to the function. */
  lemma {:induction false} ExampleNotExemptByKind()
    ensures ValidPath(ExampleLiteral(), [1, 2])
    ensures !IsExemptByKind(ExampleLiteral(), [1, 2])
  {
    ExamplePlace();
    ExampleInLiteralBody();
    NotExemptByKind(ExampleLiteral(), [1, 2]);
  }

  /** When only the function-literal exemption could apply, the two readings of it decide. */
  lemma {:induction false} OnlyFunctionLiteralExemption(root: Node, path: seq<nat>)
    requires ValidPath(root, path)
    requires !IsFirstCodeAfterBrace(root, path, ClassBody) && !IsFirstCodeAfterBrace(root, path, Block)
    requires !IsExemptByKind(root, path)
    ensures IsExemptAsWritten(root, path) <==> IsFirstChildInBodyOfFunctionLiteral(root, path)
    ensures IsExempt(root, path) <==> IsFirstCodeSiblingInBodyOfFunctionLiteral(root, path)
  {
  }

  /** As written, no exemption applies to the function. */
  lemma {:induction false} ExampleNotExemptAsWritten()
    ensures ValidPath(ExampleLiteral(), [1, 2])
    ensures !IsExemptAsWritten(ExampleLiteral(), [1, 2])
  {
    ExampleInLiteralBody();
    ExampleNotAfterBrace();
    ExampleNotExemptByKind();
    OnlyFunctionLiteralExemption(ExampleLiteral(), [1, 2]);
  }

  /** An exempt declaration is left alone: nothing is reported or changed. */
  lemma {:induction false} OnlyExemptionDecides(reading: Reading, root: Node, path: seq<nat>, indent: string, policy: Policy)
    requires ValidPath(root, path) && Exempt(reading, root, path)
    ensures BeforeVisitChildNodes(reading, root, path, indent, policy) == Outcome(root, [])
  {
  }

  /** A function directly in a block, with no code sibling before it, has no exemption by kind. */
  lemma {:induction false} NotExemptByKind(root: Node, path: seq<nat>)
    requires ValidPath(root, path) && At(root, path).kind == Fun
    requires ParentKind(root, path) == Some(Block) && PrevCodeSiblingKind(root, path) == None
    ensures !IsExemptByKind(root, path)
  {
  }

  /** The leaf before the function is the single line break. */
  lemma {:induction false} ExamplePrevLeaf()
    ensures ValidPath(ExampleLiteral(), [1, 2])
    ensures PrevLeaf(ExampleLiteral(), [1, 2]) == Some(WhiteSpaceLeaf("\n"))
  {
    ExamplePlace();
    var root := ExampleLiteral();
    var path: seq<nat> := [1, 2];
    var cs := ExampleBody().children;
    assert cs[..2] == [Leaf(BlockComment, "/* c */"), WhiteSpaceLeaf("\n")];
    LastLeafIs(cs[..2], WhiteSpaceLeaf("\n"));
    assert LeavesBefore(ExampleBody(), [2]) == LeavesOf(cs[..2]) + LeavesBefore(cs[2], []);
    assert path[0] == 1 && path[1..] == [2];
    assert LeavesBefore(root, path) == LeavesOf(root.children[..1]) + LeavesBefore(ExampleBody(), [2]);
  }

  /**
    In `{ /* c */ <newline> fun f }` the function is the first code sibling
    in the body of a function literal but not its first child. As written
    it is not exempt and, its previous leaf being a single line break, it
    would be reported.
   */
  lemma {:induction false} CommentBeforeFirstDeclarationInFunctionLiteral()
    ensures ValidPath(ExampleLiteral(), [1, 2]) && IsExaminedKind(At(ExampleLiteral(), [1, 2]).kind)
    ensures !IsExemptAsWritten(ExampleLiteral(), [1, 2])
    ensures !IsBlankLine(PrevLeaf(ExampleLiteral(), [1, 2]))
  {
    ExamplePlace();
    ExampleNotExemptAsWritten();
    ExamplePrevLeaf();
    assert |Text(WhiteSpaceLeaf("\n"))| == 1;
  }

  /** As intended the same function is exempt, and the hook neither reports nor changes anything. */
  lemma {:induction false} FirstDeclarationAfterCommentExempt(indent: string, policy: Policy)
    ensures ValidPath(ExampleLiteral(), [1, 2])
    ensures IsExempt(ExampleLiteral(), [1, 2])
    ensures BeforeVisitChildNodes(Intended, ExampleLiteral(), [1, 2], indent, policy) == Outcome(ExampleLiteral(), [])
  {
    ExampleInLiteralBody();
    OnlyExemptionDecides(Intended, ExampleLiteral(), [1, 2], indent, policy);
  }

  /**
    The hook as ktlint runs it reports the function of
    `{ /* c */ <newline> fun f }`, once, at the function's start; the
    corrected hook reports nothing there.
   */
  lemma {:induction false} ExampleReportedOnlyAsWritten(indent: string, policy: Policy)
    ensures ValidPath(ExampleLiteral(), [1, 2])
    ensures var r := BeforeVisitChildNodes(AsWritten, ExampleLiteral(), [1, 2], indent, policy);
      |r.log| == 1 && r.log[0].emission == Emission(StartOffset(ExampleLiteral(), [1, 2]), BlankLineMessage, true)
    ensures BeforeVisitChildNodes(Intended, ExampleLiteral(), [1, 2], indent, policy).log == []
  {
    CommentBeforeFirstDeclarationInFunctionLiteral();
    ReportedIffViolation(AsWritten, ExampleLiteral(), [1, 2], indent, policy);
    FirstDeclarationAfterCommentExempt(indent, policy);
  }

  /** The corrected hook reports a subset of what the hook as written reports. */
  lemma {:induction false} IntendedReportsFewer(root: Node, path: seq<nat>, indent: string, policy: Policy)
    requires ValidPath(root, path)
    ensures BeforeVisitChildNodes(Intended, root, path, indent, policy).log != [] ==>
      BeforeVisitChildNodes(AsWritten, root, path, indent, policy).log != []
  {
    FirstChildIsFirstCodeSibling(root, path);
    ReportedIffViolation(Intended, root, path, indent, policy);
    ReportedIffViolation(AsWritten, root, path, indent, policy);
  }
}
