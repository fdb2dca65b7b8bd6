/**
  The chain-wrapping rule (ktlint `ChainWrappingRule`).

  `.`, `?.` and `?:` must not end a line: they belong at the start of the
  next one. `*`, `/`, `%`, `&&`, `||`, `+` and `-` must not begin a line: they
  belong at the end of the previous one. The rule looks at one leaf at a time,
  so the file is modelled as its sequence of leaves ("tokens"), each carrying
  the element types of its ancestors (parent first) for the checks that look
  upwards (part of a comment, prefix expression, operation reference).
 */
module ChainWrapping {
  import opened Syntax
  import opened Autocorrect

  /** A leaf of the file: its type, its text and the types of its ancestors, innermost first. */
  datatype Token = Token(kind: ElementType, text: string, ancestors: seq<ElementType>)

  /** What a token contributes to the program: everything but its place in the tree. */
  datatype Lexeme = Lexeme(kind: ElementType, text: string)

  /** The effect of one call of the rule's hook: the edited leaves and the violations it emitted. */
  datatype Step = Step(tokens: seq<Token>, log: seq<Report>)

  /** The tokens of a tree, ancestors of the root given. */
  function TokensOf(n: Node, ancestors: seq<ElementType>): seq<Token>
    decreases n
  {
    match n
    case Leaf(k, t) => [Token(k, t, ancestors)]
    case Composite(k, cs) => TokensOfChildren(cs, [k] + ancestors)
  }

  function TokensOfChildren(ns: seq<Node>, ancestors: seq<ElementType>): seq<Token>
    decreases ns
  {
    if ns == [] then [] else TokensOf(ns[0], ancestors) + TokensOfChildren(ns[1..], ancestors)
  }

  /** The type and text of each token, in order. */
  function Lexemes(ts: seq<Token>): seq<Lexeme> {
    if ts == [] then [] else [Lex(ts[0])] + Lexemes(ts[1..])
  }

  /** The type and text of each leaf of a tree, in order. */
  function LeafLexemes(ls: seq<Node>): seq<Lexeme> {
    if ls == [] then [] else [Lexeme(ls[0].kind, Text(ls[0]))] + LeafLexemes(ls[1..])
  }

  /**
    The token view is the leaf view of the tree: the tokens of a tree are its
    leaves, in order, with their types and texts, and together they spell the
    tree's text, so token offsets are offsets in the file.
   */
  lemma {:induction false} TokensAreLeaves(n: Node, ancestors: seq<ElementType>)
    ensures Lexemes(TokensOf(n, ancestors)) == LeafLexemes(Leaves(n))
    ensures TextOfTokens(TokensOf(n, ancestors)) == Text(n)
    decreases n, 1
  {
    match n
    case Leaf(k, t) =>
      assert [Token(k, t, ancestors)][1..] == [];
      assert [n][1..] == [];
    case Composite(k, cs) => TokensOfChildrenAreLeaves(cs, [k] + ancestors);
  }

  lemma {:induction false} TokensOfChildrenAreLeaves(ns: seq<Node>, ancestors: seq<ElementType>)
    ensures Lexemes(TokensOfChildren(ns, ancestors)) == LeafLexemes(LeavesOf(ns))
    ensures TextOfTokens(TokensOfChildren(ns, ancestors)) == TextOf(ns)
    decreases ns, 0
  {
    if ns != [] {
      var head, tail := TokensOf(ns[0], ancestors), TokensOfChildren(ns[1..], ancestors);
      TokensAreLeaves(ns[0], ancestors);
      TokensOfChildrenAreLeaves(ns[1..], ancestors);
      LexemesAppend(head, tail);
      LeafLexemesAppend(Leaves(ns[0]), LeavesOf(ns[1..]));
      TextOfTokensAppend(head, tail);
    }
  }

  lemma {:induction false} LexemesAppend(a: seq<Token>, b: seq<Token>)
    ensures Lexemes(a + b) == Lexemes(a) + Lexemes(b)
    decreases a
  {
    if a == [] {
      assert a + b == b;
    } else {
      assert (a + b)[1..] == a[1..] + b;
      LexemesAppend(a[1..], b);
    }
  }

  lemma {:induction false} LeafLexemesAppend(a: seq<Node>, b: seq<Node>)
    ensures LeafLexemes(a + b) == LeafLexemes(a) + LeafLexemes(b)
    decreases a
  {
    if a == [] {
      assert a + b == b;
    } else {
      assert (a + b)[1..] == a[1..] + b;
      LeafLexemesAppend(a[1..], b);
    }
  }

  lemma {:induction false} TextOfTokensAppend(a: seq<Token>, b: seq<Token>)
    ensures TextOfTokens(a + b) == TextOfTokens(a) + TextOfTokens(b)
    decreases a
  {
    if a == [] {
      assert a + b == b;
    } else {
      assert (a + b)[1..] == a[1..] + b;
      TextOfTokensAppend(a[1..], b);
    }
  }

  // ---------------------------------------------------------------------------
  // Token sets and token predicates

  /** Tokens that must not end a line. */
  predicate IsNextLineToken(t: ElementType) {
    t == Dot || t == SafeAccess || t == Elvis
  }

  /** Tokens that must not begin a line. */
  predicate IsSameLineToken(t: ElementType) {
    t == Mul || t == Div || t == Perc || t == AndAnd || t == OrOr
  }

  /** Binary operators that are also prefix operators. */
  predicate IsPrefixToken(t: ElementType) {
    t == Plus || t == Minus
  }

  predicate IsWhiteSpaceToken(t: Token) {
    t.kind == WhiteSpace
  }

  predicate IsNewlineToken(t: Token) {
    IsWhiteSpaceToken(t) && '\n' in t.text
  }

  predicate IsSameLineWhiteSpaceToken(t: Token) {
    IsWhiteSpaceToken(t) && '\n' !in t.text
  }

  /** The token lies inside a comment (a KDoc, say). */
  predicate InsideComment(t: Token) {
    EolComment in t.ancestors || BlockComment in t.ancestors || KDoc in t.ancestors
  }

  /** ktlint `isPartOfComment20`: the token is a comment or lies inside one. */
  predicate IsPartOfComment(t: Token) {
    IsCommentType(t.kind) || InsideComment(t)
  }

  /** ktlint `isCode` on a leaf, which also looks at the leaf's ancestors. */
  predicate IsCodeToken(t: Token) {
    IsCode(Leaf(t.kind, t.text)) && !InsideComment(t)
  }

  function Grandparent(t: Token): Option<ElementType> {
    if |t.ancestors| >= 2 then Some(t.ancestors[1]) else None
  }

  function Lex(t: Token): Lexeme {
    Lexeme(t.kind, t.text)
  }

  // ---------------------------------------------------------------------------
  // Navigation

  function TextOfTokens(ts: seq<Token>): string {
    if ts == [] then "" else ts[0].text + TextOfTokens(ts[1..])
  }

  /** ktlint `startOffset` of the token at `i`, in UTF-16 code units: the lengths of the tokens before it, summed. */
  function Offset(ts: seq<Token>, i: nat): nat
    requires i <= |ts|
    decreases i
  {
    if i == 0 then 0 else Offset(ts, i - 1) + Utf16Length(ts[i - 1].text)
  }

  /** The offset of token `i` is the UTF-16 length of the file's text before it. */
  lemma {:induction false} OffsetIsTextLength(ts: seq<Token>, i: nat)
    requires i <= |ts|
    ensures Offset(ts, i) == Utf16Length(TextOfTokens(ts[..i]))
    decreases i
  {
    if i == 0 {
      assert ts[..i] == [];
    } else {
      OffsetIsTextLength(ts, i - 1);
      assert ts[..i] == ts[..i - 1] + [ts[i - 1]];
      TextOfTokensAppend(ts[..i - 1], [ts[i - 1]]);
      assert [ts[i - 1]][1..] == [];
      assert TextOfTokens([ts[i - 1]]) == ts[i - 1].text;
      assert TextOfTokens(ts[..i]) == TextOfTokens(ts[..i - 1]) + ts[i - 1].text;
      Utf16LengthAppend(TextOfTokens(ts[..i - 1]), ts[i - 1].text);
    }
  }

  /** No token strictly between `lo` and `hi` is code. */
  predicate NoCodeBetween(ts: seq<Token>, lo: int, hi: int) {
    forall q :: lo < q < hi && 0 <= q < |ts| ==> !IsCodeToken(ts[q])
  }

  /** ktlint `nextCodeLeaf`: the index of the first code token after `i`. */
  function NextCodeLeaf(ts: seq<Token>, i: nat): (r: Option<nat>)
    ensures r.Some? ==> i < r.value < |ts| && IsCodeToken(ts[r.value]) && NoCodeBetween(ts, i, r.value)
    ensures r.None? ==> NoCodeBetween(ts, i, |ts|)
    decreases |ts| - i
  {
    if i + 1 >= |ts| then None
    else if IsCodeToken(ts[i + 1]) then Some(i + 1)
    else NextCodeLeaf(ts, i + 1)
  }

  /** ktlint `prevCodeLeaf`: the index of the last code token before `i`. */
  function PrevCodeLeaf(ts: seq<Token>, i: nat): (r: Option<nat>)
    requires i <= |ts|
    ensures r.Some? ==> r.value < i && IsCodeToken(ts[r.value])
    ensures r.Some? ==> forall q :: r.value < q < i ==> !IsCodeToken(ts[q])
    ensures r.None? ==> forall q :: 0 <= q < i ==> !IsCodeToken(ts[q])
  {
    if i == 0 then None
    else if IsCodeToken(ts[i - 1]) then Some(i - 1)
    else PrevCodeLeaf(ts, i - 1)
  }

  // ---------------------------------------------------------------------------
  // Exemptions

  /**
    `node.nextCodeLeaf?.prevLeaf` is whitespace with a newline: the token at
    `i` is the last code on its line.
   */
  predicate EndsLine(ts: seq<Token>, i: nat)
    requires i < |ts|
  {
    match NextCodeLeaf(ts, i)
    case None => false
    case Some(j) => IsNewlineToken(ts[j - 1])
  }

  /** An elvis directly followed by same-line whitespace or by a comment. */
  predicate IsElvisOperatorAndComment(ts: seq<Token>, i: nat)
    requires i < |ts|
  {
    && ts[i].kind == Elvis
    && i + 1 < |ts|
    && (IsSameLineWhiteSpaceToken(ts[i + 1]) || IsPartOfComment(ts[i + 1]))
  }

  /** A `*` right after `(`, `,`, `{`, `else` or an operation is a spread operator. */
  predicate IsPartOfSpread(ts: seq<Token>, i: nat)
    requires i < |ts|
  {
    && ts[i].kind == Mul
    && match PrevCodeLeaf(ts, i)
       case None => false
       case Some(p) =>
         var k := ts[p].kind;
         k == LPar || k == Comma || k == LBrace || k == ElseKeyword || IsOperation(k)
  }

  /** A `+` or `-` whose grandparent is a prefix expression (as in `-42`). */
  predicate IsInPrefixPosition(t: Token) {
    Grandparent(t) == Some(PrefixExpression)
  }

  /** The leaf before the token at `i` is whitespace with a newline. */
  predicate BeginsLine(ts: seq<Token>, i: nat)
    requires i < |ts|
  {
    i > 0 && IsNewlineToken(ts[i - 1])
  }

  function LineEndMessage(t: Token): string {
    "Line must not end with \"" + t.text + "\""
  }

  function LineStartMessage(t: Token): string {
    "Line must not begin with \"" + t.text + "\""
  }

  // ---------------------------------------------------------------------------
  // Whitespace edits

  /**
    ktlint `upsertWhitespaceBeforeMe` on a leaf: the whitespace before the
    token gets the text, or a whitespace token is inserted; also returns the
    token's new index.
   */
  function UpsertWhiteSpaceBefore(ts: seq<Token>, i: nat, text: string): (r: (seq<Token>, nat))
    requires i < |ts|
    ensures r.1 < |r.0| && r.0[r.1] == ts[i]
    ensures r.1 > 0 && IsWhiteSpaceToken(r.0[r.1 - 1]) && r.0[r.1 - 1].text == text
    ensures r.1 == i || r.1 == i + 1
    ensures r.0[..r.1 - 1] == ts[..r.1 - 1] && r.0[r.1 + 1..] == ts[i + 1..]
  {
    if i > 0 && IsWhiteSpaceToken(ts[i - 1]) then
      (ts[i - 1 := ts[i - 1].(text := text)], i)
    else
      (ts[..i] + [Token(WhiteSpace, text, ts[i].ancestors)] + ts[i..], i + 1)
  }

  /** ktlint `upsertWhitespaceAfterMe` on a leaf that is not whitespace. */
  function UpsertWhiteSpaceAfter(ts: seq<Token>, i: nat, text: string): (r: seq<Token>)
    requires i < |ts|
    ensures i + 1 < |r| && r[i] == ts[i]
    ensures IsWhiteSpaceToken(r[i + 1]) && r[i + 1].text == text
    ensures r[..i + 1] == ts[..i + 1]
    ensures r[i + 2..] == if i + 1 < |ts| && IsWhiteSpaceToken(ts[i + 1]) then ts[i + 2..] else ts[i + 1..]
  {
    if i + 1 < |ts| && IsWhiteSpaceToken(ts[i + 1]) then
      ts[i + 1 := ts[i + 1].(text := text)]
    else
      ts[..i + 1] + [Token(WhiteSpace, text, ts[i].ancestors)] + ts[i + 1..]
  }

  // ---------------------------------------------------------------------------
  // Fixes

  /**
    The fix for `.` and `?.` ending a line: the token is removed and inserted
    again right after `nextLeaf`, the newline before the next code token (the
    token joins that leaf's parent). `j` is the index of the next code token.
   */
  function MoveAfterNewline(ts: seq<Token>, i: nat, j: nat): seq<Token>
    requires i < j < |ts|
  {
    ts[..i] + ts[i + 1..j] + [ts[i].(ancestors := ts[j - 1].ancestors)] + ts[j..]
  }

  /**
    The fix for `?:` ending a line: the whitespace before it becomes the
    indent and the whitespace after it a single space; `r.1` is the new index
    of the operator.
   */
  function WrapElvis(ts: seq<Token>, i: nat, indent: string): (r: (seq<Token>, nat))
    requires i < |ts|
    ensures 0 < r.1 && r.1 + 1 < |r.0| && r.0[r.1] == ts[i]
    ensures IsWhiteSpaceToken(r.0[r.1 - 1]) && r.0[r.1 - 1].text == indent
    ensures IsWhiteSpaceToken(r.0[r.1 + 1]) && r.0[r.1 + 1].text == " "
    ensures r.1 <= i + 1 && r.0[..r.1 - 1] == ts[..r.1 - 1]
  {
    var (us, e) := UpsertWhiteSpaceBefore(ts, i, indent);
    (UpsertWhiteSpaceAfter(us, e, " "), e)
  }

  /**
    The operator `i` as it is moved after the code token `p`, and the single
    space put before it. Inside an operation reference the whole reference
    moves and keeps the operator's ancestors; otherwise the operator joins
    the parent of `p`.
   */
  function MovedOperator(ts: seq<Token>, i: nat, p: nat): (r: (Token, Token))
    requires p < i < |ts|
    ensures IsCodeToken(ts[i]) && IsCodeToken(ts[p]) ==> IsCodeToken(r.1) && Lex(r.1) == Lex(ts[i])
    ensures !IsCodeToken(r.0)
  {
    var op := ts[i];
    var inReference := |op.ancestors| > 0 && op.ancestors[0] == OperationReference;
    var moved := if inReference then op else op.(ancestors := ts[p].ancestors);
    (Token(WhiteSpace, " ", if inReference then op.ancestors[1..] else ts[p].ancestors), moved)
  }

  /**
    The fix for an operator beginning a line. The operator is moved right
    after the previous code token `p`, with a single space before it. If the
    leaf after the operator is a newline, the newline before the operator is
    deleted; if it is same-line whitespace, that whitespace is deleted.
   */
  function MoveBeforeNewline(ts: seq<Token>, i: nat, p: nat): (r: seq<Token>)
    requires p + 1 < i < |ts|
    ensures p + 2 < |r| && r[..p + 1] == ts[..p + 1]
    ensures r[p + 1] == MovedOperator(ts, i, p).0 && r[p + 2] == MovedOperator(ts, i, p).1
  {
    var (space, moved) := MovedOperator(ts, i, p);
    var head := ts[..p + 1] + [space, moved];
    if i + 1 < |ts| && IsNewlineToken(ts[i + 1]) then
      head + ts[p + 1..i - 1] + ts[i + 1..]
    else if i + 1 < |ts| && IsSameLineWhiteSpaceToken(ts[i + 1]) then
      head + ts[p + 1..i] + ts[i + 2..]
    else
      head + ts[p + 1..i] + ts[i + 1..]
  }

  // ---------------------------------------------------------------------------
  // The hook

  /** `beforeVisitChildNodes` on the token at `i`; `indent` is `indentConfig.childIndentOf(node)`. */
  function BeforeVisitChildNodes(ts: seq<Token>, i: nat, indent: string, policy: Policy): RuleResult<Step>
    requires i < |ts|
  {
    var t := ts[i];
    if IsNextLineToken(t.kind) then
      if IsPartOfComment(t) || !EndsLine(ts, i) || IsElvisOperatorAndComment(ts, i) then
        Completed(Step(ts, []))
      else
        var (d, log) := Emit(policy, [], Offset(ts, i), LineEndMessage(t));
        if d == NoAutocorrect then Completed(Step(ts, log))
        else if t.kind == Elvis then Completed(Step(WrapElvis(ts, i, indent).0, log))
        else Completed(Step(MoveAfterNewline(ts, i, NextCodeLeaf(ts, i).value), log))
    else if IsSameLineToken(t.kind) || IsPrefixToken(t.kind) then
      if IsPartOfComment(t) || IsPartOfSpread(ts, i) || (IsPrefixToken(t.kind) && IsInPrefixPosition(t)) then
        Completed(Step(ts, []))
      else if !BeginsLine(ts, i) then
        Completed(Step(ts, []))
      else
        var (d, log) := Emit(policy, [], Offset(ts, i), LineStartMessage(t));
        if d == NoAutocorrect then Completed(Step(ts, log))
        else match PrevCodeLeaf(ts, i - 1)
          // `prevLeaf.prevCodeLeaf as LeafPsiElement` fails without a code leaf before
          case None => Aborted("NullPointerException: no code leaf before the operator")
          case Some(p) => Completed(Step(MoveBeforeNewline(ts, i, p), log))
    else
      Completed(Step(ts, []))
  }

  // ---------------------------------------------------------------------------
  // Properties

  /** The program the tokens spell: the code tokens, without whitespace, comments or tree position. */
  function Program(ts: seq<Token>): seq<Lexeme> {
    if ts == [] then [] else CodeOf(ts[0]) + Program(ts[1..])
  }

  /** What one token contributes to the program. */
  function CodeOf(t: Token): seq<Lexeme> {
    if IsCodeToken(t) then [Lex(t)] else []
  }

  /**
    The leaf before the next code leaf after `i` is not inside a comment.
    The line-end fix puts the operator at that leaf's position in the tree,
    so it stays code only if that position is outside comments. In parser
    output this holds: a comment that contains leaves of its own (a KDoc)
    ends with its closing token, never with the whitespace before code.
   */
  predicate BreakOutsideComment(ts: seq<Token>, i: nat)
    requires i < |ts|
  {
    match NextCodeLeaf(ts, i)
    case None => true
    case Some(j) => !InsideComment(ts[j - 1])
  }

  lemma {:induction false} ProgramAppend(a: seq<Token>, b: seq<Token>)
    ensures Program(a + b) == Program(a) + Program(b)
    decreases a
  {
    if a == [] {
      assert a + b == b;
    } else {
      assert (a + b)[0] == a[0];
      assert (a + b)[1..] == a[1..] + b;
      ProgramAppend(a[1..], b);
    }
  }

  /** The program of four consecutive pieces is the programs of the pieces in order. */
  lemma {:induction false} ProgramOfFour(a: seq<Token>, p: seq<Token>, b: seq<Token>, c: seq<Token>)
    ensures Program(a + p + b + c) == Program(a) + Program(p) + Program(b) + Program(c)
  {
    ProgramAppend(a + p + b, c);
    ProgramAppend(a + p, b);
    ProgramAppend(a, p);
  }

  lemma {:induction false} ProgramOfNonCode(a: seq<Token>)
    requires forall k :: 0 <= k < |a| ==> !IsCodeToken(a[k])
    ensures Program(a) == []
    decreases a
  {
    if a != [] {
      ProgramOfNonCode(a[1..]);
    }
  }

  lemma {:induction false} ProgramSingle(t: Token)
    ensures Program([t]) == if IsCodeToken(t) then [Lex(t)] else []
  {
    assert [t][1..] == [];
  }

  lemma {:induction false} ProgramPair(x: Token, y: Token)
    ensures Program([x, y]) == CodeOf(x) + CodeOf(y)
  {
    assert [x, y][1..] == [y];
    ProgramSingle(y);
  }

  /** Exchanging a non-code token for another non-code token does not change the program. */
  lemma {:induction false} ProgramReplaceNonCode(ts: seq<Token>, k: nat, t: Token)
    requires k < |ts| && !IsCodeToken(ts[k]) && !IsCodeToken(t)
    ensures Program(ts[k := t]) == Program(ts)
  {
    assert ts == ts[..k] + [ts[k]] + ts[k + 1..];
    assert ts[k := t] == ts[..k] + [t] + ts[k + 1..];
    ProgramAppend(ts[..k] + [ts[k]], ts[k + 1..]);
    ProgramAppend(ts[..k], [ts[k]]);
    ProgramAppend(ts[..k] + [t], ts[k + 1..]);
    ProgramAppend(ts[..k], [t]);
    ProgramSingle(ts[k]);
    ProgramSingle(t);
  }

  /** Inserting a non-code token does not change the program. */
  lemma {:induction false} ProgramInsertNonCode(ts: seq<Token>, k: nat, t: Token)
    requires k <= |ts| && !IsCodeToken(t)
    ensures Program(ts[..k] + [t] + ts[k..]) == Program(ts)
  {
    assert ts == ts[..k] + ts[k..];
    ProgramAppend(ts[..k] + [t], ts[k..]);
    ProgramAppend(ts[..k], [t]);
    ProgramAppend(ts[..k], ts[k..]);
    ProgramSingle(t);
  }

  lemma {:induction false} UpsertBeforeKeepsProgram(ts: seq<Token>, i: nat, text: string)
    requires i < |ts|
    ensures Program(UpsertWhiteSpaceBefore(ts, i, text).0) == Program(ts)
  {
    if i > 0 && IsWhiteSpaceToken(ts[i - 1]) {
      ProgramReplaceNonCode(ts, i - 1, ts[i - 1].(text := text));
    } else {
      ProgramInsertNonCode(ts, i, Token(WhiteSpace, text, ts[i].ancestors));
    }
  }

  lemma {:induction false} UpsertAfterKeepsProgram(ts: seq<Token>, i: nat, text: string)
    requires i < |ts|
    ensures Program(UpsertWhiteSpaceAfter(ts, i, text)) == Program(ts)
  {
    if i + 1 < |ts| && IsWhiteSpaceToken(ts[i + 1]) {
      ProgramReplaceNonCode(ts, i + 1, ts[i + 1].(text := text));
    } else {
      ProgramInsertNonCode(ts, i + 1, Token(WhiteSpace, text, ts[i].ancestors));
    }
  }

  /** Moving a code token across non-code tokens does not change the program. */
  lemma {:induction false} ProgramMove(a: seq<Token>, x: Token, b: seq<Token>, y: Token, c: seq<Token>)
    requires forall k :: 0 <= k < |b| ==> !IsCodeToken(b[k])
    requires IsCodeToken(x) && IsCodeToken(y) && Lex(x) == Lex(y)
    ensures Program(a + [x] + b + c) == Program(a + b + [y] + c)
  {
    ProgramOfNonCode(b);
    ProgramSingle(x);
    ProgramSingle(y);
    ProgramOfFour(a, [x], b, c);
    ProgramOfFour(a, b, [y], c);
  }

  lemma {:induction false} SplitAround(ts: seq<Token>, i: nat, j: nat)
    requires i < j <= |ts|
    ensures ts == ts[..i] + [ts[i]] + ts[i + 1..j] + ts[j..]
  {
  }

  lemma {:induction false} MoveAfterNewlineKeepsProgram(ts: seq<Token>, i: nat, j: nat)
    requires i < j < |ts| && NextCodeLeaf(ts, i) == Some(j) && IsWhiteSpaceToken(ts[j - 1])
    requires IsCodeToken(ts[i]) && !InsideComment(ts[j - 1])
    ensures Program(MoveAfterNewline(ts, i, j)) == Program(ts)
  {
    var moved := ts[i].(ancestors := ts[j - 1].ancestors);
    SplitAround(ts, i, j);
    assert NoCodeBetween(ts, i, j);
    NonCodeSlice(ts, i + 1, j);
    ProgramMove(ts[..i], ts[i], ts[i + 1..j], moved, ts[j..]);
    assert MoveAfterNewline(ts, i, j) == ts[..i] + ts[i + 1..j] + [moved] + ts[j..];
  }

  lemma {:induction false} SplitBeforeNewline(ts: seq<Token>, p: nat, i: nat)
    requires p + 1 < i < |ts|
    ensures ts == ts[..p + 1] + ts[p + 1..i - 1] + [ts[i - 1], ts[i]] + ts[i + 1..]
    ensures i + 1 < |ts| ==> ts == ts[..p + 1] + ts[p + 1..i] + [ts[i], ts[i + 1]] + ts[i + 2..]
    ensures ts == ts[..p + 1] + ts[p + 1..i] + [ts[i]] + ts[i + 1..]
  {
  }

  /** The tokens strictly between `lo` and `hi` are not code. */
  lemma {:induction false} NonCodeSlice(ts: seq<Token>, lo: nat, hi: nat)
    requires lo <= hi <= |ts|
    requires forall q :: lo <= q < hi ==> !IsCodeToken(ts[q])
    ensures forall k :: 0 <= k < |ts[lo..hi]| ==> !IsCodeToken(ts[lo..hi][k])
  {
  }

  lemma {:induction false} MoveBeforeNewlineKeepsProgram(ts: seq<Token>, i: nat, p: nat)
    requires p + 1 < i < |ts| && PrevCodeLeaf(ts, i - 1) == Some(p)
    requires IsCodeToken(ts[i]) && IsWhiteSpaceToken(ts[i - 1])
    ensures Program(MoveBeforeNewline(ts, i, p)) == Program(ts)
  {
    if i + 1 < |ts| && IsNewlineToken(ts[i + 1]) {
      MoveDroppingNewlineKeepsProgram(ts, i, p);
    } else if i + 1 < |ts| && IsSameLineWhiteSpaceToken(ts[i + 1]) {
      MoveDroppingSpaceKeepsProgram(ts, i, p);
    } else {
      MoveKeepingAllKeepsProgram(ts, i, p);
    }
  }

  lemma {:induction false} MoveDroppingNewlineKeepsProgram(ts: seq<Token>, i: nat, p: nat)
    requires p + 1 < i < |ts| && PrevCodeLeaf(ts, i - 1) == Some(p)
    requires IsCodeToken(ts[i]) && IsWhiteSpaceToken(ts[i - 1])
    requires i + 1 < |ts| && IsNewlineToken(ts[i + 1])
    ensures Program(MoveBeforeNewline(ts, i, p)) == Program(ts)
  {
    var (space, moved) := MovedOperator(ts, i, p);
    var a, b, c := ts[..p + 1], ts[p + 1..i - 1], ts[i + 1..];
    assert MoveBeforeNewline(ts, i, p) == a + [space, moved] + b + c;
    SplitBeforeNewline(ts, p, i);
    NonCodeSlice(ts, p + 1, i - 1);
    ProgramPair(ts[i - 1], ts[i]);
    ProgramOfNonCode(b);
    ProgramMoveBack(a, space, moved, b, [ts[i - 1], ts[i]], c);
  }

  lemma {:induction false} MoveDroppingSpaceKeepsProgram(ts: seq<Token>, i: nat, p: nat)
    requires p + 1 < i < |ts| && PrevCodeLeaf(ts, i - 1) == Some(p)
    requires IsCodeToken(ts[i]) && IsWhiteSpaceToken(ts[i - 1])
    requires i + 1 < |ts| && !IsNewlineToken(ts[i + 1]) && IsSameLineWhiteSpaceToken(ts[i + 1])
    ensures Program(MoveBeforeNewline(ts, i, p)) == Program(ts)
  {
    var (space, moved) := MovedOperator(ts, i, p);
    var a, b, c := ts[..p + 1], ts[p + 1..i], ts[i + 2..];
    assert MoveBeforeNewline(ts, i, p) == a + [space, moved] + b + c;
    SplitBeforeNewline(ts, p, i);
    NonCodeSlice(ts, p + 1, i);
    ProgramPair(ts[i], ts[i + 1]);
    ProgramOfNonCode(b);
    ProgramMoveBack(a, space, moved, b, [ts[i], ts[i + 1]], c);
  }

  lemma {:induction false} MoveKeepingAllKeepsProgram(ts: seq<Token>, i: nat, p: nat)
    requires p + 1 < i < |ts| && PrevCodeLeaf(ts, i - 1) == Some(p)
    requires IsCodeToken(ts[i]) && IsWhiteSpaceToken(ts[i - 1])
    requires !(i + 1 < |ts| && (IsNewlineToken(ts[i + 1]) || IsSameLineWhiteSpaceToken(ts[i + 1])))
    ensures Program(MoveBeforeNewline(ts, i, p)) == Program(ts)
  {
    var (space, moved) := MovedOperator(ts, i, p);
    var a, b, c := ts[..p + 1], ts[p + 1..i], ts[i + 1..];
    assert MoveBeforeNewline(ts, i, p) == a + [space, moved] + b + c;
    SplitBeforeNewline(ts, p, i);
    NonCodeSlice(ts, p + 1, i);
    ProgramSingle(ts[i]);
    ProgramOfNonCode(b);
    ProgramMoveBack(a, space, moved, b, [ts[i]], c);
  }

  /**
    Moving a code token `m` back across tokens `b` without code, with a token
    `s` without code in front of it, where `q` holds the same code as `m`.
   */
  lemma {:induction false} ProgramMoveBack(a: seq<Token>, s: Token, m: Token, b: seq<Token>, q: seq<Token>, c: seq<Token>)
    requires Program(b) == [] && CodeOf(s) == [] && Program(q) == CodeOf(m)
    ensures Program(a + [s, m] + b + c) == Program(a + b + q + c)
  {
    ProgramBeforeMoveBack(a, s, m, b, c);
    ProgramAfterMoveBack(a, b, q, c);
  }

  lemma {:induction false} ProgramBeforeMoveBack(a: seq<Token>, s: Token, m: Token, b: seq<Token>, c: seq<Token>)
    requires Program(b) == [] && CodeOf(s) == []
    ensures Program(a + [s, m] + b + c) == Program(a) + CodeOf(m) + Program(c)
  {
    ProgramOfFour(a, [s, m], b, c);
    ProgramPair(s, m);
    assert Program([s, m]) == CodeOf(m);
    assert Program(a) + CodeOf(m) + Program(b) == Program(a) + CodeOf(m);
  }

  lemma {:induction false} ProgramAfterMoveBack(a: seq<Token>, b: seq<Token>, q: seq<Token>, c: seq<Token>)
    requires Program(b) == []
    ensures Program(a + b + q + c) == Program(a) + Program(q) + Program(c)
  {
    ProgramOfFour(a, b, q, c);
    assert Program(a) + Program(b) == Program(a);
  }

  lemma {:induction false} WrapElvisKeepsProgram(ts: seq<Token>, i: nat, indent: string)
    requires i < |ts|
    ensures Program(WrapElvis(ts, i, indent).0) == Program(ts)
  {
    var (us, e) := UpsertWhiteSpaceBefore(ts, i, indent);
    UpsertBeforeKeepsProgram(ts, i, indent);
    UpsertAfterKeepsProgram(us, e, " ");
  }

  /** The tokens `us` a completed line-end hook leaves hold the program of `ts`. */
  lemma {:induction false} LineEndFixKeepsProgram(ts: seq<Token>, i: nat, us: seq<Token>, log: seq<Report>, indent: string, policy: Policy)
    requires i < |ts| && IsNextLineToken(ts[i].kind) && BreakOutsideComment(ts, i)
    requires BeforeVisitChildNodes(ts, i, indent, policy) == Completed(Step(us, log))
    ensures Program(us) == Program(ts)
  {
    if NoneAllowed(log) {
      RejectedFixLeavesTokens(ts, i, indent, policy);
    } else {
      AllowedLineEndFixMoves(ts, i, us, log, indent, policy);
      if ts[i].kind == Elvis {
        WrapElvisKeepsProgram(ts, i, indent);
      } else {
        AllowedLineEndFixIsViolation(ts, i, us, log, indent, policy);
        LineEndViolationShape(ts, i);
        MoveAfterNewlineKeepsProgram(ts, i, NextCodeLeaf(ts, i).value);
      }
    }
  }

  /** The tokens `us` a completed line-start hook leaves hold the program of `ts`. */
  lemma {:induction false} LineStartFixKeepsProgram(ts: seq<Token>, i: nat, us: seq<Token>, log: seq<Report>, indent: string, policy: Policy)
    requires i < |ts| && (IsSameLineToken(ts[i].kind) || IsPrefixToken(ts[i].kind))
    requires BeforeVisitChildNodes(ts, i, indent, policy) == Completed(Step(us, log))
    ensures Program(us) == Program(ts)
  {
    if NoneAllowed(log) {
      RejectedFixLeavesTokens(ts, i, indent, policy);
    } else {
      AllowedLineStartFixMoves(ts, i, us, log, indent, policy);
      AllowedLineStartFixIsViolation(ts, i, us, log, indent, policy);
      LineStartViolationShape(ts, i);
      MoveBeforeNewlineKeepsProgram(ts, i, PrevCodeLeaf(ts, i - 1).value);
    }
  }

  /**
    The rule only moves line breaks: whatever tokens `us` one completed call
    of the hook leaves, they spell the same program as `ts`.
   */
  lemma {:induction false} FixKeepsProgram(ts: seq<Token>, i: nat, us: seq<Token>, log: seq<Report>, indent: string, policy: Policy)
    requires i < |ts| && (IsNextLineToken(ts[i].kind) ==> BreakOutsideComment(ts, i))
    requires BeforeVisitChildNodes(ts, i, indent, policy) == Completed(Step(us, log))
    ensures Program(us) == Program(ts)
  {
    if IsNextLineToken(ts[i].kind) {
      LineEndFixKeepsProgram(ts, i, us, log, indent, policy);
    } else if IsSameLineToken(ts[i].kind) || IsPrefixToken(ts[i].kind) {
      LineStartFixKeepsProgram(ts, i, us, log, indent, policy);
    }
  }

  // ---------------------------------------------------------------------------
  // What one call reports

  /**
    A line-end violation: a `.`, `?.` or `?:` outside comments is the last code on its line, and is not an elvis followed by a comment or a space.
    It joins the guards the hook passes before its line-end `emit` (ChainWrappingRule.kt:78-84):
    the token type, not part of a comment, a line break before the next code leaf, and not `isElvisOperatorAndComment`.
   */
  predicate LineEndViolation(ts: seq<Token>, i: nat)
    requires i < |ts|
  {
    IsNextLineToken(ts[i].kind) && !IsPartOfComment(ts[i]) && EndsLine(ts, i) && !IsElvisOperatorAndComment(ts, i)
  }

  /**
    A line-start violation: a binary operator outside comments, not a spread and not a prefix, begins a line.
    It joins the guards the hook passes before its line-start `emit` (ChainWrappingRule.kt:101-122):
    the token type, not part of a comment, not part of a spread, not a prefix operator in prefix position,
    and a previous leaf that is whitespace with a line break.
   */
  predicate LineStartViolation(ts: seq<Token>, i: nat)
    requires i < |ts|
  {
    && (IsSameLineToken(ts[i].kind) || IsPrefixToken(ts[i].kind))
    && !IsPartOfComment(ts[i])
    && !IsPartOfSpread(ts, i)
    && !(IsPrefixToken(ts[i].kind) && IsInPrefixPosition(ts[i]))
    && BeginsLine(ts, i)
  }

  /** A line-end violation is a code token whose next code leaf `j` follows a whitespace token. */
  lemma {:induction false} LineEndViolationShape(ts: seq<Token>, i: nat)
    requires i < |ts| && LineEndViolation(ts, i)
    ensures IsCodeToken(ts[i]) && NextCodeLeaf(ts, i).Some?
    ensures var j := NextCodeLeaf(ts, i).value; i < j < |ts| && IsWhiteSpaceToken(ts[j - 1])
  {
  }

  /** A line-start violation is a code token right after a whitespace token. */
  lemma {:induction false} LineStartViolationShape(ts: seq<Token>, i: nat)
    requires i < |ts| && LineStartViolation(ts, i)
    ensures i > 0 && IsCodeToken(ts[i]) && IsWhiteSpaceToken(ts[i - 1])
  {
  }

  function LineEndEmission(ts: seq<Token>, i: nat): Emission
    requires i < |ts|
  {
    Emission(Offset(ts, i), LineEndMessage(ts[i]), true)
  }

  function LineStartEmission(ts: seq<Token>, i: nat): Emission
    requires i < |ts|
  {
    Emission(Offset(ts, i), LineStartMessage(ts[i]), true)
  }

  /** The outcome of the hook on a `.`, `?.` or `?:`, case by case. */
  lemma {:induction false} LineEndOutcome(ts: seq<Token>, i: nat, indent: string, policy: Policy)
    requires i < |ts| && IsNextLineToken(ts[i].kind)
    ensures var r := BeforeVisitChildNodes(ts, i, indent, policy);
      var e := LineEndEmission(ts, i);
      && (!LineEndViolation(ts, i) ==> r == Completed(Step(ts, [])))
      && (LineEndViolation(ts, i) && policy(e) == NoAutocorrect ==> r == Completed(Step(ts, [Report(e, NoAutocorrect)])))
      && (LineEndViolation(ts, i) && policy(e) == AllowAutocorrect && ts[i].kind == Elvis ==>
            r == Completed(Step(WrapElvis(ts, i, indent).0, [Report(e, AllowAutocorrect)])))
      && (LineEndViolation(ts, i) && policy(e) == AllowAutocorrect && ts[i].kind != Elvis ==>
            r == Completed(Step(MoveAfterNewline(ts, i, NextCodeLeaf(ts, i).value), [Report(e, AllowAutocorrect)])))
  {
    var e := LineEndEmission(ts, i);
    if LineEndViolation(ts, i) {
      var (d, log) := Emit(policy, [], Offset(ts, i), LineEndMessage(ts[i]));
      assert d == policy(e) && log == [Report(e, d)];
    }
  }

  /** The outcome of the hook on a `*`, `/`, `%`, `&&`, `||`, `+` or `-`, case by case. */
  lemma {:induction false} LineStartOutcome(ts: seq<Token>, i: nat, indent: string, policy: Policy)
    requires i < |ts| && (IsSameLineToken(ts[i].kind) || IsPrefixToken(ts[i].kind))
    ensures var r := BeforeVisitChildNodes(ts, i, indent, policy);
      var e := LineStartEmission(ts, i);
      && (!LineStartViolation(ts, i) ==> r == Completed(Step(ts, [])))
      && (LineStartViolation(ts, i) && policy(e) == NoAutocorrect ==> r == Completed(Step(ts, [Report(e, NoAutocorrect)])))
      && (LineStartViolation(ts, i) && policy(e) == AllowAutocorrect && PrevCodeLeaf(ts, i - 1).None? ==> r.Aborted?)
      && (LineStartViolation(ts, i) && policy(e) == AllowAutocorrect && PrevCodeLeaf(ts, i - 1).Some? ==>
            r == Completed(Step(MoveBeforeNewline(ts, i, PrevCodeLeaf(ts, i - 1).value), [Report(e, AllowAutocorrect)])))
  {
    var e := LineStartEmission(ts, i);
    if LineStartViolation(ts, i) {
      var (d, log) := Emit(policy, [], Offset(ts, i), LineStartMessage(ts[i]));
      assert d == policy(e) && log == [Report(e, d)];
    }
  }

  /** Every other token is left alone. */
  lemma {:induction false} OtherTokensIgnored(ts: seq<Token>, i: nat, indent: string, policy: Policy)
    requires i < |ts| && !IsNextLineToken(ts[i].kind) && !IsSameLineToken(ts[i].kind) && !IsPrefixToken(ts[i].kind)
    ensures BeforeVisitChildNodes(ts, i, indent, policy) == Completed(Step(ts, []))
  {
  }

  /**
    On a `.`, `?.` or `?:` the hook reports exactly the line-end violations:
    one report, at the token's offset and with the rule's message, and it
    never fails.
   */
  lemma {:induction false} LineEndReportedIffViolation(ts: seq<Token>, i: nat, indent: string, policy: Policy)
    requires i < |ts| && IsNextLineToken(ts[i].kind)
    ensures var r := BeforeVisitChildNodes(ts, i, indent, policy);
      && r.Completed?
      && (r.value.log != [] <==> LineEndViolation(ts, i))
      && (LineEndViolation(ts, i) ==> r.value.log == [Report(LineEndEmission(ts, i), policy(LineEndEmission(ts, i)))])
  {
    LineEndOutcome(ts, i, indent, policy);
  }

  /**
    On a `*`, `/`, `%`, `&&`, `||`, `+` or `-` the hook reports exactly the
    line-start violations. It fails only when the fix is allowed and no code
    precedes the operator.
   */
  lemma {:induction false} LineStartReportedIffViolation(ts: seq<Token>, i: nat, indent: string, policy: Policy)
    requires i < |ts| && (IsSameLineToken(ts[i].kind) || IsPrefixToken(ts[i].kind))
    ensures var r := BeforeVisitChildNodes(ts, i, indent, policy);
      && (r.Aborted? <==>
            LineStartViolation(ts, i) && policy(LineStartEmission(ts, i)) == AllowAutocorrect && PrevCodeLeaf(ts, i - 1).None?)
      && (r.Completed? ==> (r.value.log != [] <==> LineStartViolation(ts, i)))
      && (r.Completed? && LineStartViolation(ts, i) ==>
            r.value.log == [Report(LineStartEmission(ts, i), policy(LineStartEmission(ts, i)))])
  {
    LineStartOutcome(ts, i, indent, policy);
  }

  /** Comments, and tokens inside them, are never reported or changed. */
  lemma {:induction false} CommentsNeverReported(ts: seq<Token>, i: nat, indent: string, policy: Policy)
    requires i < |ts| && IsPartOfComment(ts[i])
    ensures BeforeVisitChildNodes(ts, i, indent, policy) == Completed(Step(ts, []))
  {
    if IsNextLineToken(ts[i].kind) {
      LineEndOutcome(ts, i, indent, policy);
    } else if IsSameLineToken(ts[i].kind) || IsPrefixToken(ts[i].kind) {
      LineStartOutcome(ts, i, indent, policy);
    }
  }

  /** When the engine does not allow the fix, the tokens are left exactly as they were. */
  lemma {:induction false} RejectedFixLeavesTokens(ts: seq<Token>, i: nat, indent: string, policy: Policy)
    requires i < |ts|
    ensures var r := BeforeVisitChildNodes(ts, i, indent, policy);
      r.Completed? && NoneAllowed(r.value.log) ==> r.value.tokens == ts
  {
    var r := BeforeVisitChildNodes(ts, i, indent, policy);
    if IsNextLineToken(ts[i].kind) {
      LineEndOutcome(ts, i, indent, policy);
      if LineEndViolation(ts, i) && policy(LineEndEmission(ts, i)) == AllowAutocorrect {
        assert r.value.log[0].decision == AllowAutocorrect;
      }
    } else if IsSameLineToken(ts[i].kind) || IsPrefixToken(ts[i].kind) {
      LineStartOutcome(ts, i, indent, policy);
      if LineStartViolation(ts, i) && policy(LineStartEmission(ts, i)) == AllowAutocorrect && r.Completed? {
        assert r.value.log[0].decision == AllowAutocorrect;
      }
    }
  }

  // ---------------------------------------------------------------------------
  // A fixed token is not reported again

  lemma {:induction false} MoveAfterNewlineResolves(ts: seq<Token>, i: nat, j: nat, indent: string, policy: Policy)
    requires i < j < |ts| && NextCodeLeaf(ts, i) == Some(j) && IsNextLineToken(ts[i].kind)
    ensures var us := MoveAfterNewline(ts, i, j);
      |us| == |ts| && Lex(us[j - 1]) == Lex(ts[i])
      && BeforeVisitChildNodes(us, j - 1, indent, policy) == Completed(Step(us, []))
  {
    var us := MoveAfterNewline(ts, i, j);
    assert us[j - 1] == ts[i].(ancestors := ts[j - 1].ancestors);
    assert us[j] == ts[j];
    assert NextCodeLeaf(us, j - 1) == Some(j);
    assert !LineEndViolation(us, j - 1);
    LineEndOutcome(us, j - 1, indent, policy);
  }

  lemma {:induction false} WrapElvisResolves(ts: seq<Token>, i: nat, indent: string, policy: Policy)
    requires i < |ts| && ts[i].kind == Elvis
    ensures var (us, e) := WrapElvis(ts, i, indent);
      e < |us| && us[e] == ts[i]
      && BeforeVisitChildNodes(us, e, indent, policy) == Completed(Step(us, []))
  {
    var (vs, e) := UpsertWhiteSpaceBefore(ts, i, indent);
    var us := UpsertWhiteSpaceAfter(vs, e, " ");
    assert IsSameLineWhiteSpaceToken(us[e + 1]);
    assert IsElvisOperatorAndComment(us, e);
    LineEndOutcome(us, e, indent, policy);
  }

  /** The operator moved after the previous code token keeps its type and text and no longer begins a line. */
  lemma {:induction false} MovedOperatorBeginsNoLine(ts: seq<Token>, i: nat, p: nat)
    requires p + 1 < i < |ts|
    ensures var us := MoveBeforeNewline(ts, i, p);
      && p + 2 < |us| && Lex(us[p + 2]) == Lex(ts[i]) && us[p + 2].kind == ts[i].kind
      && !BeginsLine(us, p + 2)
  {
    var us := MoveBeforeNewline(ts, i, p);
    assert IsSameLineWhiteSpaceToken(us[p + 1]);
  }

  lemma {:induction false} MoveBeforeNewlineResolves(ts: seq<Token>, i: nat, p: nat, indent: string, policy: Policy)
    requires p + 1 < i < |ts| && (IsSameLineToken(ts[i].kind) || IsPrefixToken(ts[i].kind))
    ensures var us := MoveBeforeNewline(ts, i, p);
      p + 2 < |us| && Lex(us[p + 2]) == Lex(ts[i])
      && BeforeVisitChildNodes(us, p + 2, indent, policy) == Completed(Step(us, []))
  {
    var us := MoveBeforeNewline(ts, i, p);
    MovedOperatorBeginsNoLine(ts, i, p);
    LineStartOutcome(us, p + 2, indent, policy);
    assert !LineStartViolation(us, p + 2);
  }

  /**
    Where the operator at `i` is after its fix: after the indent for `?:`,
    right after the line break it was moved past for `.` and `?.`, and right
    after the single space behind the previous code leaf for a line-start
    operator.
   */
  function FixedIndex(ts: seq<Token>, i: nat, indent: string): nat
    requires i < |ts|
  {
    if IsNextLineToken(ts[i].kind) then
      if ts[i].kind == Elvis then WrapElvis(ts, i, indent).1
      else match NextCodeLeaf(ts, i)
        case Some(j) => j - 1
        case None => i
    else if i > 0 then
      match PrevCodeLeaf(ts, i - 1)
      case Some(p) => p + 2
      case None => i
    else i
  }

  /** The token at `m` has the lexeme of `t`, and visiting it reports and changes nothing. */
  predicate SettledAt(us: seq<Token>, m: nat, t: Token, indent: string, policy: Policy) {
    m < |us| && Lex(us[m]) == Lex(t) && BeforeVisitChildNodes(us, m, indent, policy) == Completed(Step(us, []))
  }

  /**
    Idempotence of one fix: when the hook allowed a fix and left tokens `us`,
    the fixed operator sits at `FixedIndex` in `us`, and visiting it there
    reports nothing, whatever the engine's policy.
   */
  lemma {:induction false} FixedTokenNotReportedAgain(ts: seq<Token>, i: nat, us: seq<Token>, log: seq<Report>, indent: string, policy: Policy, policy': Policy)
    requires i < |ts|
    requires BeforeVisitChildNodes(ts, i, indent, policy) == Completed(Step(us, log)) && !NoneAllowed(log)
    ensures SettledAt(us, FixedIndex(ts, i, indent), ts[i], indent, policy')
  {
    if IsNextLineToken(ts[i].kind) {
      LineEndFixNotReportedAgain(ts, i, us, log, indent, policy, policy');
    } else {
      assert IsSameLineToken(ts[i].kind) || IsPrefixToken(ts[i].kind);
      LineStartFixNotReportedAgain(ts, i, us, log, indent, policy, policy');
    }
  }

  /** After the fix of a `?:` it follows the indent; after that of `.` or `?.` it follows the line break. */
  lemma {:induction false} LineEndFixNotReportedAgain(ts: seq<Token>, i: nat, us: seq<Token>, log: seq<Report>, indent: string, policy: Policy, policy': Policy)
    requires i < |ts| && IsNextLineToken(ts[i].kind)
    requires BeforeVisitChildNodes(ts, i, indent, policy) == Completed(Step(us, log)) && !NoneAllowed(log)
    ensures ts[i].kind == Elvis ==> SettledAt(us, WrapElvis(ts, i, indent).1, ts[i], indent, policy')
    ensures ts[i].kind != Elvis ==> NextCodeLeaf(ts, i).Some? && SettledAt(us, NextCodeLeaf(ts, i).value - 1, ts[i], indent, policy')
  {
    if ts[i].kind == Elvis {
      ElvisFixNotReportedAgain(ts, i, us, log, indent, policy, policy');
    } else {
      DotFixNotReportedAgain(ts, i, us, log, indent, policy, policy');
    }
  }

  /** After the fix of a `?:` it follows the indent. */
  lemma {:induction false} ElvisFixNotReportedAgain(ts: seq<Token>, i: nat, us: seq<Token>, log: seq<Report>, indent: string, policy: Policy, policy': Policy)
    requires i < |ts| && ts[i].kind == Elvis
    requires BeforeVisitChildNodes(ts, i, indent, policy) == Completed(Step(us, log)) && !NoneAllowed(log)
    ensures SettledAt(us, WrapElvis(ts, i, indent).1, ts[i], indent, policy')
  {
    AllowedLineEndFixMoves(ts, i, us, log, indent, policy);
    WrappedElvisSettled(ts, i, us, indent, policy');
  }

  /** After the fix of `.` or `?.` it follows the line break before the next code leaf. */
  lemma {:induction false} DotFixNotReportedAgain(ts: seq<Token>, i: nat, us: seq<Token>, log: seq<Report>, indent: string, policy: Policy, policy': Policy)
    requires i < |ts| && IsNextLineToken(ts[i].kind) && ts[i].kind != Elvis
    requires BeforeVisitChildNodes(ts, i, indent, policy) == Completed(Step(us, log)) && !NoneAllowed(log)
    ensures NextCodeLeaf(ts, i).Some? && SettledAt(us, NextCodeLeaf(ts, i).value - 1, ts[i], indent, policy')
  {
    AllowedDotFixMoves(ts, i, us, log, indent, policy);
    MovedAfterNewlineSettled(ts, i, us, indent, policy');
  }

  /** After the fix of a line-start operator it follows the space after the previous code leaf `p`, at `p + 2`. */
  lemma {:induction false} LineStartFixNotReportedAgain(ts: seq<Token>, i: nat, us: seq<Token>, log: seq<Report>, indent: string, policy: Policy, policy': Policy)
    requires i < |ts| && (IsSameLineToken(ts[i].kind) || IsPrefixToken(ts[i].kind))
    requires BeforeVisitChildNodes(ts, i, indent, policy) == Completed(Step(us, log)) && !NoneAllowed(log)
    ensures i > 0 && PrevCodeLeaf(ts, i - 1).Some? && SettledAt(us, PrevCodeLeaf(ts, i - 1).value + 2, ts[i], indent, policy')
  {
    AllowedLineStartFixMoves(ts, i, us, log, indent, policy);
    MovedBeforeNewlineSettled(ts, i, PrevCodeLeaf(ts, i - 1).value, us, indent, policy');
  }

  /** Tokens equal to those of a line-start move are settled at `p + 2`. */
  lemma {:induction false} MovedBeforeNewlineSettled(ts: seq<Token>, i: nat, p: nat, us: seq<Token>, indent: string, policy: Policy)
    requires p + 1 < i < |ts| && (IsSameLineToken(ts[i].kind) || IsPrefixToken(ts[i].kind))
    requires us == MoveBeforeNewline(ts, i, p)
    ensures SettledAt(us, p + 2, ts[i], indent, policy)
  {
    MoveBeforeNewlineResolves(ts, i, p, indent, policy);
  }

  /** Tokens equal to those of a line-end move are settled right before the next code leaf. */
  lemma {:induction false} MovedAfterNewlineSettled(ts: seq<Token>, i: nat, us: seq<Token>, indent: string, policy: Policy)
    requires i < |ts| && IsNextLineToken(ts[i].kind) && NextCodeLeaf(ts, i).Some? && i < NextCodeLeaf(ts, i).value
    requires us == MoveAfterNewline(ts, i, NextCodeLeaf(ts, i).value)
    ensures SettledAt(us, NextCodeLeaf(ts, i).value - 1, ts[i], indent, policy)
  {
    MoveAfterNewlineResolves(ts, i, NextCodeLeaf(ts, i).value, indent, policy);
  }

  /** Tokens equal to those of a wrapped `?:` are settled at its new index. */
  lemma {:induction false} WrappedElvisSettled(ts: seq<Token>, i: nat, us: seq<Token>, indent: string, policy: Policy)
    requires i < |ts| && ts[i].kind == Elvis
    requires us == WrapElvis(ts, i, indent).0
    ensures SettledAt(us, WrapElvis(ts, i, indent).1, ts[i], indent, policy)
  {
    WrapElvisResolves(ts, i, indent, policy);
  }

  /** A line-end hook that allowed a fix, leaving tokens `us`, wrapped the `?:`, or moved the `.` or `?.` after the line break before the next code leaf. */
  lemma {:induction false} AllowedLineEndFixMoves(ts: seq<Token>, i: nat, us: seq<Token>, log: seq<Report>, indent: string, policy: Policy)
    requires i < |ts| && IsNextLineToken(ts[i].kind)
    requires BeforeVisitChildNodes(ts, i, indent, policy) == Completed(Step(us, log)) && !NoneAllowed(log)
    ensures ts[i].kind == Elvis ==> us == WrapElvis(ts, i, indent).0
    ensures ts[i].kind != Elvis ==>
      NextCodeLeaf(ts, i).Some? && i < NextCodeLeaf(ts, i).value && us == MoveAfterNewline(ts, i, NextCodeLeaf(ts, i).value)
  {
    AllowedLineEndFixIsViolation(ts, i, us, log, indent, policy);
  }

  /** A line-end hook that allowed moving `.` or `?.`, leaving tokens `us`, moved it after the line break before the next code leaf. */
  lemma {:induction false} AllowedDotFixMoves(ts: seq<Token>, i: nat, us: seq<Token>, log: seq<Report>, indent: string, policy: Policy)
    requires i < |ts| && IsNextLineToken(ts[i].kind) && ts[i].kind != Elvis
    requires BeforeVisitChildNodes(ts, i, indent, policy) == Completed(Step(us, log)) && !NoneAllowed(log)
    ensures NextCodeLeaf(ts, i).Some? && i < NextCodeLeaf(ts, i).value && us == MoveAfterNewline(ts, i, NextCodeLeaf(ts, i).value)
  {
    AllowedLineEndFixIsViolation(ts, i, us, log, indent, policy);
  }

  /** A line-end hook allows a fix only for a violation. */
  lemma {:induction false} AllowedLineEndFixIsViolation(ts: seq<Token>, i: nat, us: seq<Token>, log: seq<Report>, indent: string, policy: Policy)
    requires i < |ts| && IsNextLineToken(ts[i].kind)
    requires BeforeVisitChildNodes(ts, i, indent, policy) == Completed(Step(us, log)) && !NoneAllowed(log)
    ensures LineEndViolation(ts, i) && policy(LineEndEmission(ts, i)) == AllowAutocorrect
  {
    LineEndOutcome(ts, i, indent, policy);
  }

  /** A line-start hook that allowed a fix, leaving tokens `us`, moved the operator after the previous code leaf. */
  lemma {:induction false} AllowedLineStartFixMoves(ts: seq<Token>, i: nat, us: seq<Token>, log: seq<Report>, indent: string, policy: Policy)
    requires i < |ts| && (IsSameLineToken(ts[i].kind) || IsPrefixToken(ts[i].kind))
    requires BeforeVisitChildNodes(ts, i, indent, policy) == Completed(Step(us, log)) && !NoneAllowed(log)
    ensures i > 0 && PrevCodeLeaf(ts, i - 1).Some? && PrevCodeLeaf(ts, i - 1).value + 1 < i
    ensures us == MoveBeforeNewline(ts, i, PrevCodeLeaf(ts, i - 1).value)
  {
    AllowedLineStartFixIsViolation(ts, i, us, log, indent, policy);
  }

  /** A line-start hook allows a fix only for a violation. */
  lemma {:induction false} AllowedLineStartFixIsViolation(ts: seq<Token>, i: nat, us: seq<Token>, log: seq<Report>, indent: string, policy: Policy)
    requires i < |ts| && (IsSameLineToken(ts[i].kind) || IsPrefixToken(ts[i].kind))
    requires BeforeVisitChildNodes(ts, i, indent, policy) == Completed(Step(us, log)) && !NoneAllowed(log)
    ensures LineStartViolation(ts, i) && policy(LineStartEmission(ts, i)) == AllowAutocorrect
  {
    LineStartOutcome(ts, i, indent, policy);
  }
}
