/**
  The parameter-list spacing rule (ktlint `ParameterListSpacingRule`).

  The rule normalises the whitespace among the children of a value parameter
  list and of each value parameter: it removes stray whitespace, collapses
  whitespace to a single space, and inserts a missing space after `,` and
  `:`. The list is walked child by child; edits of a child are visible to
  the children visited after it (offsets, siblings), exactly as in the
  mutable tree the rule works on.

  Whitespace is a leaf. The rule only ever removes, inserts or re-texts
  whitespace leaves, so the significant leaves of the file never change.
 */
module ParameterListSpacing {
  import opened Syntax
  import opened Autocorrect

  const UnexpectedWhiteSpace: string := "Unexpected whitespace"
  const ExpectedSingleSpace: string := "Expected a single space"

  /** The message for a `,` or `:` that is not followed by whitespace. */
  function MissingWhiteSpaceMessage(n: Node): string {
    "Whitespace after '" + Text(n) + "' is missing"
  }

  /**
    Where a node sits in the file: the text before it, the text after it,
    and the first leaf after it.
   */
  datatype Context = Context(before: string, after: string, nextLeaf: Option<Node>)

  /** The children of a node after some of the rule's edits, and the reports so far. */
  datatype Edit = Edit(children: seq<Node>, log: seq<Report>)

  // ---------------------------------------------------------------------------
  // Helpers on children

  /** ktlint `containsNoComments`: no child is a comment. */
  predicate ContainsNoComments(cs: seq<Node>) {
    forall i :: 0 <= i < |cs| ==> !IsComment(cs[i])
  }

  function CountParameters(cs: seq<Node>): nat {
    if cs == [] then 0
    else (if cs[0].kind == ValueParameter then 1 else 0) + CountParameters(cs[1..])
  }

  /** The file offset of child `k` in UTF-16 code units, given the text before the parent. */
  function ChildOffset(before: string, cs: seq<Node>, k: nat): nat
    requires k <= |cs|
  {
    Utf16Length(before) + Utf16Length(TextOf(cs[..k]))
  }

  /** An emoji before the list moves the offset of its first child by two code units, not one. */
  lemma {:induction false} EmojiBeforeListCountsTwice(cs: seq<Node>)
    ensures ChildOffset("\U{1F600}", cs, 0) == 2
  {
    assert cs[..0] == [];
    AstralCharCountsTwice();
  }

  /** ktlint `nextLeaf` of child `k`: the first leaf of the later siblings, else the first leaf after the parent. */
  function NextLeafOfChild(ctx: Context, cs: seq<Node>, k: nat): Option<Node>
    requires k < |cs|
  {
    var rest := LeavesOf(cs[k + 1..]);
    if rest != [] then Some(rest[0]) else ctx.nextLeaf
  }

  // ---------------------------------------------------------------------------
  // Whitespace in the parameter list

  /** What the rule does with a whitespace child of the list. */
  datatype Verdict = Remove | Collapse | Keep | Fail

  /**
    The decision for the whitespace child `k`, `seen` parameters into a list
    of `count` parameters. `Fail` is the `require` that whitespace to be
    collapsed follows a comma.
   */
  function WhiteSpaceVerdict(cs: seq<Node>, k: nat, count: nat, seen: nat): Verdict
    requires k < |cs| && IsWhiteSpace(cs[k])
  {
    var noComments := ContainsNoComments(cs);
    var el := cs[k];
    if count == 0 && noComments then Remove
    // whitespace before the first parameter; with comments it is left for the comment spacing rule
    else if seen == 0 && !IsIndent(el) then (if noComments then Remove else Keep)
    // whitespace after the last parameter; idem
    else if seen == count && !IsIndent(el) then (if noComments then Remove else Keep)
    else if NextCodeSibling(cs, k).Some? && cs[NextCodeSibling(cs, k).value].kind == Comma then Remove
    else if !IsIndent(el) && el.text != " " then
      (if PrevCodeSibling(cs, k).Some? && cs[PrevCodeSibling(cs, k).value].kind == Comma then Collapse else Fail)
    else Keep
  }

  /**
    The walk at the whitespace child `k` with verdict `v` (not `Fail`): the
    children, the index the walk goes on at and the log afterwards.
   */
  function WhiteSpaceStep(before: string, cs: seq<Node>, k: nat, v: Verdict, policy: Policy, log: seq<Report>): (r: (seq<Node>, nat, seq<Report>))
    requires k < |cs| && v != Fail
    ensures r.1 <= |r.0| && |r.0| - r.1 == |cs| - k - 1
    ensures k <= r.1 && r.0[..k] == cs[..k]
    ensures log <= r.2
  {
    var offset := ChildOffset(before, cs, k);
    match v
    case Remove =>
      var (d, log') := Emit(policy, log, offset, UnexpectedWhiteSpace);
      if d == AllowAutocorrect then (RemoveAt(cs, k), k, log') else (cs, k + 1, log')
    case Collapse =>
      var (d, log') := Emit(policy, log, offset, ExpectedSingleSpace);
      (if d == AllowAutocorrect then cs[k := WhiteSpaceLeaf(" ")] else cs, k + 1, log')
    case Keep => (cs, k + 1, log)
  }

  /**
    The walk at the comma `k`: a comma whose next leaf is neither whitespace
    nor `)` is reported and, when allowed, followed by an inserted space,
    which the walk then skips.
   */
  function CommaStep(ctx: Context, cs: seq<Node>, k: nat, policy: Policy, log: seq<Report>): (r: (seq<Node>, nat, seq<Report>))
    requires k < |cs|
    ensures r.1 <= |r.0| && |r.0| - r.1 == |cs| - k - 1
    ensures k + 1 <= r.1 && r.0[..k + 1] == cs[..k + 1]
    ensures log <= r.2
  {
    var next := NextLeafOfChild(ctx, cs, k);
    if next.Some? && !IsWhiteSpace(next.value) && next.value.kind != RPar then
      var (d, log') := Emit(policy, log, ChildOffset(ctx.before, cs, k), MissingWhiteSpaceMessage(cs[k]));
      if d == AllowAutocorrect then (InsertAt(cs, k + 1, WhiteSpaceLeaf(" ")), k + 2, log') else (cs, k + 1, log')
    else (cs, k + 1, log)
  }

  /**
    `visitValueParameterList` from child `k` on: `count` is the number of
    parameters, `seen` the number visited so far.
   */
  function VisitListFrom(
    ctx: Context, cs: seq<Node>, k: nat, count: nat, seen: nat,
    maxLineLength: int, policy: Policy, log: seq<Report>
  ): (r: RuleResult<Edit>)
    requires k <= |cs|
    ensures r.Completed? ==> log <= r.value.log
    decreases |cs| - k
  {
    if k == |cs| then Completed(Edit(cs, log))
    else
      var el := cs[k];
      if IsWhiteSpace(el) then
        var v := WhiteSpaceVerdict(cs, k, count, seen);
        if v == Fail then Aborted("IllegalArgumentException: whitespace to collapse does not follow a comma")
        else
          var (cs', k', log') := WhiteSpaceStep(ctx.before, cs, k, v, policy, log);
          VisitListFrom(ctx, cs', k', count, seen, maxLineLength, policy, log')
      else if el.kind == Comma then
        var (cs', k', log') := CommaStep(ctx, cs, k, policy, log);
        VisitListFrom(ctx, cs', k', count, seen, maxLineLength, policy, log')
      else if el.kind == ValueParameter then
        var before := ctx.before + TextOf(cs[..k]);
        var after := TextOf(cs[k + 1..]) + ctx.after;
        var (p, log') := VisitValueParameter(el, before, after, maxLineLength, policy, log);
        VisitListFrom(ctx, cs[k := p], k + 1, count, seen + 1, maxLineLength, policy, log')
      else
        VisitListFrom(ctx, cs, k + 1, count, seen, maxLineLength, policy, log)
  }

  /** `visitValueParameterList` on the children of a list. */
  function VisitValueParameterList(ctx: Context, cs: seq<Node>, maxLineLength: int, policy: Policy): RuleResult<Edit> {
    VisitListFrom(ctx, cs, 0, CountParameters(cs), 0, maxLineLength, policy, [])
  }

  // ---------------------------------------------------------------------------
  // Whitespace in a parameter

  /**
    ktlint `getPrecedingModifier` of the whitespace child `q`: the previous
    code sibling, or the last child of it when it is a modifier list.
   */
  function PrecedingModifierKind(cs: seq<Node>, q: nat): Option<ElementType>
    requires q <= |cs|
  {
    match PrevCodeSibling(cs, q)
    case None => None
    case Some(j) =>
      if cs[j].kind == ModifierList then
        (if Children(cs[j]) == [] then None else Some(Children(cs[j])[|Children(cs[j])| - 1].kind))
      else Some(cs[j].kind)
  }

  /**
    `visitWhiteSpaceAfterModifier`: the whitespace is collapsed unless it is
    a line break after an annotation, or already a single space.
   */
  predicate ModifierWhiteSpaceToCollapse(w: Node, preceding: Option<ElementType>) {
    && !(IsIndent(w) && preceding == Some(AnnotationEntry))
    && Text(w) != " "
  }

  /** Collapse the whitespace child `q` to a single space, when allowed. */
  function CollapseChild(cs: seq<Node>, q: nat, offset: nat, policy: Policy, log: seq<Report>): (r: Edit)
    requires q < |cs|
    ensures log <= r.log && |r.log| == |log| + 1
    ensures r.log[|log|].emission == Emission(offset, ExpectedSingleSpace, true)
    ensures r.log[|log|].decision == policy(r.log[|log|].emission)
    ensures r.log[|log|].decision == NoAutocorrect ==> r.children == cs
    ensures r.log[|log|].decision == AllowAutocorrect ==> r.children == cs[q := WhiteSpaceLeaf(" ")]
  {
    var (d, log') := Emit(policy, log, offset, ExpectedSingleSpace);
    if d == AllowAutocorrect then Edit(cs[q := WhiteSpaceLeaf(" ")], log') else Edit(cs, log')
  }

  /** Reports a missing space before child `q` and, when allowed, inserts one there. */
  function InsertSpaceChild(cs: seq<Node>, q: nat, offset: nat, message: string, policy: Policy, log: seq<Report>): (r: Edit)
    requires q <= |cs|
    ensures log <= r.log && |r.log| == |log| + 1
    ensures r.log[|log|].emission == Emission(offset, message, true)
    ensures r.log[|log|].decision == policy(r.log[|log|].emission)
    ensures r.log[|log|].decision == NoAutocorrect ==> r.children == cs
    ensures r.log[|log|].decision == AllowAutocorrect ==> r.children == InsertAt(cs, q, WhiteSpaceLeaf(" "))
  {
    var (d, log') := Emit(policy, log, offset, message);
    if d == AllowAutocorrect then Edit(InsertAt(cs, q, WhiteSpaceLeaf(" ")), log') else Edit(cs, log')
  }

  /** `visitWhiteSpaceAfterModifier` on the whitespace child `q`. */
  function VisitWhiteSpaceAfterModifier(before: string, cs: seq<Node>, q: nat, policy: Policy, log: seq<Report>): (r: Edit)
    requires q < |cs| && IsWhiteSpace(cs[q])
    ensures log <= r.log && |r.children| == |cs|
  {
    if ModifierWhiteSpaceToCollapse(cs[q], PrecedingModifierKind(cs, q)) then
      CollapseChild(cs, q, ChildOffset(before, cs, q), policy, log)
    else Edit(cs, log)
  }

  /** `removeWhiteSpaceBetweenModifiersInList` from child `q` of the modifier list on. */
  function VisitModifiersFrom(before: string, ms: seq<Node>, q: nat, policy: Policy, log: seq<Report>): (r: Edit)
    requires q <= |ms|
    ensures log <= r.log && |r.children| == |ms|
    decreases |ms| - q
  {
    if q == |ms| then Edit(ms, log)
    else if IsWhiteSpace(ms[q]) then
      var e := VisitWhiteSpaceAfterModifier(before, ms, q, policy, log);
      VisitModifiersFrom(before, e.children, q + 1, policy, e.log)
    else VisitModifiersFrom(before, ms, q + 1, policy, log)
  }

  /** `removeWhiteSpaceBetweenModifierListAndParameterIdentifier` for the modifier list at child `mi`. */
  function VisitWhiteSpaceAfterModifierList(before: string, ps: seq<Node>, mi: nat, policy: Policy, log: seq<Report>): (r: Edit)
    requires mi < |ps|
    ensures log <= r.log && |r.children| == |ps|
  {
    if mi + 1 < |ps| && IsWhiteSpace(ps[mi + 1]) then VisitWhiteSpaceAfterModifier(before, ps, mi + 1, policy, log)
    else Edit(ps, log)
  }

  /**
    `visitModifierList`: the whitespace inside the modifier list, then the
    whitespace right after it.
   */
  function VisitModifierList(before: string, ps: seq<Node>, policy: Policy, log: seq<Report>): (r: Edit)
    ensures log <= r.log && |r.children| == |ps|
  {
    match FirstChildOfType(ps, ModifierList)
    case None => Edit(ps, log)
    case Some(mi) => VisitModifierListAt(before, ps, mi, policy, log)
  }

  /** The modifier list at child `mi` with its contents visited, followed by the whitespace after it. */
  function VisitModifierListAt(before: string, ps: seq<Node>, mi: nat, policy: Policy, log: seq<Report>): (r: Edit)
    requires mi < |ps|
    ensures log <= r.log && |r.children| == |ps|
  {
    var m := ps[mi];
    var inner := VisitModifiersFrom(before + TextOf(ps[..mi]), Children(m), 0, policy, log);
    var ps1 := if m.Composite? then ps[mi := Composite(m.kind, inner.children)] else ps;
    VisitWhiteSpaceAfterModifierList(before, ps1, mi, policy, inner.log)
  }

  /** `removeWhiteSpaceBetweenParameterIdentifierAndColon`. */
  function RemoveWhiteSpaceBeforeColon(before: string, ps: seq<Node>, policy: Policy, log: seq<Report>): (r: Edit)
    ensures log <= r.log
  {
    match FirstChildOfType(ps, Colon)
    case None => Edit(ps, log)
    case Some(c) => RemoveWhiteSpaceBeforeColonAt(before, ps, c, policy, log)
  }

  /** Removes the whitespace right before the colon `c`, if there is any. */
  function RemoveWhiteSpaceBeforeColonAt(before: string, ps: seq<Node>, c: nat, policy: Policy, log: seq<Report>): (r: Edit)
    requires c < |ps|
    ensures log <= r.log
  {
    if c > 0 && IsWhiteSpace(ps[c - 1]) then
      var (d, log') := Emit(policy, log, ChildOffset(before, ps, c - 1), UnexpectedWhiteSpace);
      if d == AllowAutocorrect then Edit(RemoveAt(ps, c - 1), log') else Edit(ps, log')
    else Edit(ps, log)
  }

  /** ktlint `isTypeReferenceWithModifierList`: the parameter's type has a modifier list. */
  predicate IsTypeReferenceWithModifierList(ps: seq<Node>) {
    match FirstChildOfType(ps, TypeReference)
    case None => false
    case Some(t) => FirstChildOfType(Children(ps[t]), ModifierList).Some?
  }

  /** The text after the last line break (all of it when there is none). */
  function AfterLastNewline(s: string): string
    decreases |s|
  {
    if s == [] then []
    else if s[|s| - 1] == '\n' then []
    else AfterLastNewline(s[..|s| - 1]) + [s[|s| - 1]]
  }

  /** The text before the first line break (all of it when there is none). */
  function BeforeFirstNewline(s: string): string
    decreases |s|
  {
    if s == [] then []
    else if s[0] == '\n' then []
    else [s[0]] + BeforeFirstNewline(s[1..])
  }

  /** `AfterLastNewline` is the longest suffix without a line break. */
  lemma {:induction false} AfterLastNewlineIsLastLine(s: string)
    ensures var r := AfterLastNewline(s);
      && '\n' !in r && |r| <= |s| && r == s[|s| - |r|..]
      && ('\n' in s ==> |r| < |s| && s[|s| - |r| - 1] == '\n')
    decreases |s|
  {
    if s != [] && s[|s| - 1] != '\n' {
      var s' := s[..|s| - 1];
      AfterLastNewlineIsLastLine(s');
      var r' := AfterLastNewline(s');
      assert s == s' + [s[|s| - 1]];
      if '\n' in s {
        assert '\n' in s';
      }
    }
  }

  /** `BeforeFirstNewline` is the longest prefix without a line break. */
  lemma {:induction false} BeforeFirstNewlineIsFirstLine(s: string)
    ensures var r := BeforeFirstNewline(s);
      && '\n' !in r && |r| <= |s| && r == s[..|r|]
      && ('\n' in s ==> |r| < |s| && s[|r|] == '\n')
    decreases |s|
  {
    if s != [] && s[0] != '\n' {
      BeforeFirstNewlineIsFirstLine(s[1..]);
      assert s == [s[0]] + s[1..];
      if '\n' in s {
        assert '\n' in s[1..];
      }
    }
  }

  /**
    The length the line would have if the type after the line break `w` were
    joined to the colon's line: the colon's line, one space, and the type's
    line without its indent. `before` and `after` are the file's text around `w`.
   */
  function JoinedLineLength(before: string, w: Node, after: string): int {
    var prevLineLength := Utf16Length(AfterLastNewline(before)) + Utf16Length(BeforeFirstNewline(Text(w)));
    var indentLength := Utf16Length(AfterLastNewline(Text(w)));
    var typeLineLength := indentLength + Utf16Length(BeforeFirstNewline(after));
    prevLineLength + 1 - indentLength + typeLineLength
  }

  /** ktlint `hasTypeReferenceWhichDoesNotFitOnSameLineAsColon` for the whitespace child `j`. */
  predicate TypeDoesNotFitOnColonLine(before: string, ps: seq<Node>, j: nat, after: string, maxLineLength: int)
    requires j < |ps|
  {
    && IsIndent(ps[j])
    && NextCodeSibling(ps, j).Some?
    && ps[NextCodeSibling(ps, j).value].kind == TypeReference
    && JoinedLineLength(before + TextOf(ps[..j]), ps[j], TextOf(ps[j + 1..]) + after) > maxLineLength
  }

  /** `fixWhiteSpaceAfterColonInParameter`. */
  function FixWhiteSpaceAfterColon(
    before: string, ps: seq<Node>, after: string, maxLineLength: int, policy: Policy, log: seq<Report>
  ): (r: Edit)
    ensures log <= r.log
  {
    match FirstChildOfType(ps, Colon)
    case None => Edit(ps, log)
    case Some(c) => FixWhiteSpaceAfterColonAt(before, ps, c, after, maxLineLength, policy, log)
  }

  /** Settles the whitespace after the colon `c`: adds a missing space, or collapses it to one. */
  function FixWhiteSpaceAfterColonAt(
    before: string, ps: seq<Node>, c: nat, after: string, maxLineLength: int, policy: Policy, log: seq<Report>
  ): (r: Edit)
    requires c < |ps|
    ensures log <= r.log
  {
    if c + 1 < |ps| && IsWhiteSpace(ps[c + 1]) then
      if WhiteSpaceAfterColonToCollapse(before, ps, c, after, maxLineLength) then
        CollapseChild(ps, c + 1, ChildOffset(before, ps, c + 1), policy, log)
      else Edit(ps, log)
    else
      InsertSpaceChild(ps, c + 1, ChildOffset(before, ps, c), MissingWhiteSpaceMessage(ps[c]), policy, log)
  }

  /** `visitValueParameter`: modifier list, whitespace before the colon, whitespace after it. */
  function VisitParameterChildren(
    before: string, ps: seq<Node>, after: string, maxLineLength: int, policy: Policy, log: seq<Report>
  ): (r: Edit)
    ensures log <= r.log
  {
    var e1 := VisitModifierList(before, ps, policy, log);
    var e2 := RemoveWhiteSpaceBeforeColon(before, e1.children, policy, e1.log);
    FixWhiteSpaceAfterColon(before, e2.children, after, maxLineLength, policy, e2.log)
  }

  function VisitValueParameter(
    p: Node, before: string, after: string, maxLineLength: int, policy: Policy, log: seq<Report>
  ): (r: (Node, seq<Report>))
    ensures log <= r.1
    ensures r.0.kind == p.kind
  {
    if p.Leaf? then (p, log)
    else
      var e := VisitParameterChildren(before, p.children, after, maxLineLength, policy, log);
      (Composite(p.kind, e.children), e.log)
  }

  // ---------------------------------------------------------------------------
  // The hook

  /** `beforeVisitChildNodes` on the node at `path` of the file `root`. */
  function BeforeVisitChildNodes(root: Node, path: seq<nat>, maxLineLength: int, policy: Policy): RuleResult<Outcome<Node>>
    requires ValidPath(root, path)
  {
    var n := At(root, path);
    if n.kind != ValueParameterList || n.Leaf? then Completed(Outcome(root, []))
    else
      var after := LeavesAfter(root, path);
      var ctx := Context(TextOf(LeavesBefore(root, path)), TextOf(after), if after == [] then None else Some(after[0]));
      match VisitValueParameterList(ctx, n.children, maxLineLength, policy)
      case Aborted(e) => Aborted(e)
      case Completed(edit) => Completed(Outcome(Replace(root, path, Composite(n.kind, edit.children)), edit.log))
  }

  // ---------------------------------------------------------------------------
  // Nothing changes without an allowed autocorrect

  lemma {:induction false} WhiteSpaceAfterModifierRejectedUnchanged(before: string, cs: seq<Node>, q: nat, policy: Policy, log: seq<Report>)
    requires q < |cs| && IsWhiteSpace(cs[q])
    ensures var r := VisitWhiteSpaceAfterModifier(before, cs, q, policy, log);
      NoneAllowed(r.log[|log|..]) ==> r.children == cs
  {
    var r := VisitWhiteSpaceAfterModifier(before, cs, q, policy, log);
    if |r.log| > |log| {
      assert r.log[|log|..] == [r.log[|log|]];
    }
  }

  lemma {:induction false} ModifiersRejectedUnchanged(before: string, ms: seq<Node>, q: nat, policy: Policy, log: seq<Report>)
    requires q <= |ms|
    ensures var r := VisitModifiersFrom(before, ms, q, policy, log);
      NoneAllowed(r.log[|log|..]) ==> r.children == ms
    decreases |ms| - q
  {
    if q < |ms| {
      if IsWhiteSpace(ms[q]) {
        var e := VisitWhiteSpaceAfterModifier(before, ms, q, policy, log);
        WhiteSpaceAfterModifierRejectedUnchanged(before, ms, q, policy, log);
        ModifiersRejectedUnchanged(before, e.children, q + 1, policy, e.log);
        var r := VisitModifiersFrom(before, e.children, q + 1, policy, e.log);
        NoneAllowedSplit(log, e.log, r.log);
      } else {
        ModifiersRejectedUnchanged(before, ms, q + 1, policy, log);
      }
    }
  }

  lemma {:induction false} ModifierListRejectedUnchanged(before: string, ps: seq<Node>, policy: Policy, log: seq<Report>)
    ensures var r := VisitModifierList(before, ps, policy, log);
      NoneAllowed(r.log[|log|..]) ==> r.children == ps
  {
    match FirstChildOfType(ps, ModifierList)
    case None =>
    case Some(mi) =>
      assert VisitModifierList(before, ps, policy, log) == VisitModifierListAt(before, ps, mi, policy, log);
      ModifierListAtRejectedUnchanged(before, ps, mi, policy, log);
  }

  lemma {:induction false} ModifierListAtRejectedUnchanged(before: string, ps: seq<Node>, mi: nat, policy: Policy, log: seq<Report>)
    requires mi < |ps|
    ensures var r := VisitModifierListAt(before, ps, mi, policy, log);
      NoneAllowed(r.log[|log|..]) ==> r.children == ps
  {
    var r := VisitModifierListAt(before, ps, mi, policy, log);
    var m := ps[mi];
    var inner := VisitModifiersFrom(before + TextOf(ps[..mi]), Children(m), 0, policy, log);
    ModifiersRejectedUnchanged(before + TextOf(ps[..mi]), Children(m), 0, policy, log);
    var ps1 := if m.Composite? then ps[mi := Composite(m.kind, inner.children)] else ps;
    assert r == VisitWhiteSpaceAfterModifierList(before, ps1, mi, policy, inner.log);
    NoneAllowedSplit(log, inner.log, r.log);
    if mi + 1 < |ps1| && IsWhiteSpace(ps1[mi + 1]) {
      WhiteSpaceAfterModifierRejectedUnchanged(before, ps1, mi + 1, policy, inner.log);
    }
  }

  lemma {:induction false} BeforeColonRejectedUnchanged(before: string, ps: seq<Node>, policy: Policy, log: seq<Report>)
    ensures var r := RemoveWhiteSpaceBeforeColon(before, ps, policy, log);
      NoneAllowed(r.log[|log|..]) ==> r.children == ps
  {
    var r := RemoveWhiteSpaceBeforeColon(before, ps, policy, log);
    if |r.log| > |log| {
      assert r.log[|log|..] == [r.log[|log|]];
    }
  }

  lemma {:induction false} AfterColonRejectedUnchanged(before: string, ps: seq<Node>, after: string, maxLineLength: int, policy: Policy, log: seq<Report>)
    ensures var r := FixWhiteSpaceAfterColon(before, ps, after, maxLineLength, policy, log);
      NoneAllowed(r.log[|log|..]) ==> r.children == ps
  {
    var r := FixWhiteSpaceAfterColon(before, ps, after, maxLineLength, policy, log);
    if |r.log| > |log| {
      assert r.log[|log|..] == [r.log[|log|]];
    }
  }

  /** Without an allowed autocorrect the children of a parameter are left as they were. */
  lemma {:induction false} ParameterChildrenRejectedUnchanged(
    before: string, ps: seq<Node>, after: string, maxLineLength: int, policy: Policy, log: seq<Report>
  )
    ensures var r := VisitParameterChildren(before, ps, after, maxLineLength, policy, log);
      NoneAllowed(r.log[|log|..]) ==> r.children == ps
  {
    var e1 := VisitModifierList(before, ps, policy, log);
    var e2 := RemoveWhiteSpaceBeforeColon(before, e1.children, policy, e1.log);
    var e3 := FixWhiteSpaceAfterColon(before, e2.children, after, maxLineLength, policy, e2.log);
    assert VisitParameterChildren(before, ps, after, maxLineLength, policy, log) == e3;
    if NoneAllowed(e3.log[|log|..]) {
      assert log <= e1.log <= e2.log <= e3.log;
      NoneAllowedSplit(log, e1.log, e3.log);
      NoneAllowedSplit(e1.log, e2.log, e3.log);
      ModifierListRejectedUnchanged(before, ps, policy, log);
      BeforeColonRejectedUnchanged(before, e1.children, policy, e1.log);
      AfterColonRejectedUnchanged(before, e2.children, after, maxLineLength, policy, e2.log);
    }
  }

  /** Without an allowed autocorrect a parameter is left as it was. */
  lemma {:induction false} ParameterRejectedUnchanged(p: Node, before: string, after: string, maxLineLength: int, policy: Policy, log: seq<Report>)
    ensures var r := VisitValueParameter(p, before, after, maxLineLength, policy, log);
      NoneAllowed(r.1[|log|..]) ==> r.0 == p
  {
    if p.Composite? {
      ParameterChildrenRejectedUnchanged(before, p.children, after, maxLineLength, policy, log);
    }
  }

  /** Without an allowed autocorrect the children of the list are left as they were. */
  lemma {:induction false} ListRejectedUnchanged(
    ctx: Context, cs: seq<Node>, k: nat, count: nat, seen: nat,
    maxLineLength: int, policy: Policy, log: seq<Report>
  )
    requires k <= |cs|
    ensures var r := VisitListFrom(ctx, cs, k, count, seen, maxLineLength, policy, log);
      r.Completed? && NoneAllowed(r.value.log[|log|..]) ==> r.value.children == cs
    decreases |cs| - k, 1
  {
    if k < |cs| {
      if IsWhiteSpace(cs[k]) {
        WhiteSpaceStepRejectedUnchanged(ctx, cs, k, count, seen, maxLineLength, policy, log);
      } else if cs[k].kind == Comma {
        CommaStepRejectedUnchanged(ctx, cs, k, count, seen, maxLineLength, policy, log);
      } else if cs[k].kind == ValueParameter {
        ParameterStepRejectedUnchanged(ctx, cs, k, count, seen, maxLineLength, policy, log);
      } else {
        ListRejectedUnchanged(ctx, cs, k + 1, count, seen, maxLineLength, policy, log);
      }
    }
  }

  /**
    A whitespace step makes one report for `Remove` and `Collapse` and none
    for `Keep`. An allowed `Remove` deletes the whitespace, and the walk goes
    on at the child that took its place; an allowed `Collapse` turns it into
    a single space. It changes nothing else, and nothing at all when its
    report was not allowed a fix.
   */
  lemma {:induction false} WhiteSpaceStepEditsWhiteSpace(before: string, cs: seq<Node>, k: nat, v: Verdict, policy: Policy, log: seq<Report>)
    requires k < |cs| && IsWhiteSpace(cs[k]) && v != Fail
    ensures var (cs', k', log') := WhiteSpaceStep(before, cs, k, v, policy, log);
      && (v == Keep ==> cs' == cs && k' == k + 1 && log' == log)
      && (v != Keep ==> |log'| == |log| + 1)
      && (v == Remove && log'[|log|].decision == AllowAutocorrect ==> cs' == RemoveAt(cs, k) && k' == k)
      && (v == Collapse && log'[|log|].decision == AllowAutocorrect ==> cs' == cs[k := WhiteSpaceLeaf(" ")] && k' == k + 1)
      && Significant(LeavesOf(cs')) == Significant(LeavesOf(cs))
      && (NoneAllowed(log'[|log|..]) ==> cs' == cs)
  {
    var offset := ChildOffset(before, cs, k);
    match v
    case Remove =>
      var (d, log') := Emit(policy, log, offset, UnexpectedWhiteSpace);
      assert log'[|log|..] == [log'[|log|]];
      if d == AllowAutocorrect {
        assert WhiteSpaceStep(before, cs, k, v, policy, log) == (RemoveAt(cs, k), k, log');
        RemoveWhiteSpaceKeepsSignificant(cs, k);
      } else {
        assert WhiteSpaceStep(before, cs, k, v, policy, log) == (cs, k + 1, log');
      }
    case Collapse =>
      var (d, log') := Emit(policy, log, offset, ExpectedSingleSpace);
      assert log'[|log|..] == [log'[|log|]];
      if d == AllowAutocorrect {
        assert WhiteSpaceStep(before, cs, k, v, policy, log) == (cs[k := WhiteSpaceLeaf(" ")], k + 1, log');
        ReTextWhiteSpaceKeepsSignificant(cs, k, " ");
      } else {
        assert WhiteSpaceStep(before, cs, k, v, policy, log) == (cs, k + 1, log');
      }
    case Keep =>
  }

  /**
    A comma step makes at most one report; when that report is allowed a
    fix, a single space is inserted right after the comma and the walk skips
    it. It changes nothing else, and nothing at all when its report was not
    allowed a fix.
   */
  lemma {:induction false} CommaStepEditsWhiteSpace(ctx: Context, cs: seq<Node>, k: nat, policy: Policy, log: seq<Report>)
    requires k < |cs|
    ensures var (cs', k', log') := CommaStep(ctx, cs, k, policy, log);
      && |log| <= |log'| <= |log| + 1
      && (|log'| > |log| && log'[|log|].decision == AllowAutocorrect ==>
            cs' == InsertAt(cs, k + 1, WhiteSpaceLeaf(" ")) && k' == k + 2)
      && Significant(LeavesOf(cs')) == Significant(LeavesOf(cs))
      && (NoneAllowed(log'[|log|..]) ==> cs' == cs)
  {
    var (cs', k', log') := CommaStep(ctx, cs, k, policy, log);
    InsertWhiteSpaceKeepsSignificant(cs, k + 1, WhiteSpaceLeaf(" "));
    if |log'| > |log| {
      assert log'[|log|..] == [log'[|log|]];
    }
  }

  lemma {:induction false} WhiteSpaceStepRejectedUnchanged(
    ctx: Context, cs: seq<Node>, k: nat, count: nat, seen: nat,
    maxLineLength: int, policy: Policy, log: seq<Report>
  )
    requires k < |cs| && IsWhiteSpace(cs[k])
    ensures var r := VisitListFrom(ctx, cs, k, count, seen, maxLineLength, policy, log);
      r.Completed? && NoneAllowed(r.value.log[|log|..]) ==> r.value.children == cs
    decreases |cs| - k, 0
  {
    var v := WhiteSpaceVerdict(cs, k, count, seen);
    if v != Fail {
      var r := VisitListFrom(ctx, cs, k, count, seen, maxLineLength, policy, log);
      var (cs', k', log') := WhiteSpaceStep(ctx.before, cs, k, v, policy, log);
      assert r == VisitListFrom(ctx, cs', k', count, seen, maxLineLength, policy, log');
      WhiteSpaceStepEditsWhiteSpace(ctx.before, cs, k, v, policy, log);
      ListRejectedUnchanged(ctx, cs', k', count, seen, maxLineLength, policy, log');
      if r.Completed? {
        NoneAllowedSplit(log, log', r.value.log);
      }
    }
  }

  lemma {:induction false} CommaStepRejectedUnchanged(
    ctx: Context, cs: seq<Node>, k: nat, count: nat, seen: nat,
    maxLineLength: int, policy: Policy, log: seq<Report>
  )
    requires k < |cs| && !IsWhiteSpace(cs[k]) && cs[k].kind == Comma
    ensures var r := VisitListFrom(ctx, cs, k, count, seen, maxLineLength, policy, log);
      r.Completed? && NoneAllowed(r.value.log[|log|..]) ==> r.value.children == cs
    decreases |cs| - k, 0
  {
    var r := VisitListFrom(ctx, cs, k, count, seen, maxLineLength, policy, log);
    var (cs', k', log') := CommaStep(ctx, cs, k, policy, log);
    assert r == VisitListFrom(ctx, cs', k', count, seen, maxLineLength, policy, log');
    CommaStepEditsWhiteSpace(ctx, cs, k, policy, log);
    ListRejectedUnchanged(ctx, cs', k', count, seen, maxLineLength, policy, log');
    if r.Completed? {
      NoneAllowedSplit(log, log', r.value.log);
    }
  }

  lemma {:induction false} ParameterStepRejectedUnchanged(
    ctx: Context, cs: seq<Node>, k: nat, count: nat, seen: nat,
    maxLineLength: int, policy: Policy, log: seq<Report>
  )
    requires k < |cs| && !IsWhiteSpace(cs[k]) && cs[k].kind == ValueParameter
    ensures var r := VisitListFrom(ctx, cs, k, count, seen, maxLineLength, policy, log);
      r.Completed? && NoneAllowed(r.value.log[|log|..]) ==> r.value.children == cs
    decreases |cs| - k, 0
  {
    var r := VisitListFrom(ctx, cs, k, count, seen, maxLineLength, policy, log);
    var before := ctx.before + TextOf(cs[..k]);
    var after := TextOf(cs[k + 1..]) + ctx.after;
    var (p, log') := VisitValueParameter(cs[k], before, after, maxLineLength, policy, log);
    assert r == VisitListFrom(ctx, cs[k := p], k + 1, count, seen + 1, maxLineLength, policy, log');
    ParameterRejectedUnchanged(cs[k], before, after, maxLineLength, policy, log);
    ListRejectedUnchanged(ctx, cs[k := p], k + 1, count, seen + 1, maxLineLength, policy, log');
    if r.Completed? {
      NoneAllowedSplit(log, log', r.value.log);
    }
  }

  // ---------------------------------------------------------------------------
  // Only whitespace changes

  lemma {:induction false} WhiteSpaceAfterModifierKeepsSignificant(before: string, cs: seq<Node>, q: nat, policy: Policy, log: seq<Report>)
    requires q < |cs| && IsWhiteSpace(cs[q])
    ensures Significant(LeavesOf(VisitWhiteSpaceAfterModifier(before, cs, q, policy, log).children)) == Significant(LeavesOf(cs))
  {
    ReTextWhiteSpaceKeepsSignificant(cs, q, " ");
  }

  lemma {:induction false} ModifiersKeepSignificant(before: string, ms: seq<Node>, q: nat, policy: Policy, log: seq<Report>)
    requires q <= |ms|
    ensures Significant(LeavesOf(VisitModifiersFrom(before, ms, q, policy, log).children)) == Significant(LeavesOf(ms))
    decreases |ms| - q
  {
    if q < |ms| {
      if IsWhiteSpace(ms[q]) {
        var e := VisitWhiteSpaceAfterModifier(before, ms, q, policy, log);
        WhiteSpaceAfterModifierKeepsSignificant(before, ms, q, policy, log);
        ModifiersKeepSignificant(before, e.children, q + 1, policy, e.log);
      } else {
        ModifiersKeepSignificant(before, ms, q + 1, policy, log);
      }
    }
  }

  lemma {:induction false} ModifierListKeepsSignificant(before: string, ps: seq<Node>, policy: Policy, log: seq<Report>)
    ensures Significant(LeavesOf(VisitModifierList(before, ps, policy, log).children)) == Significant(LeavesOf(ps))
  {
    match FirstChildOfType(ps, ModifierList)
    case None =>
    case Some(mi) =>
      assert VisitModifierList(before, ps, policy, log) == VisitModifierListAt(before, ps, mi, policy, log);
      ModifierListAtKeepsSignificant(before, ps, mi, policy, log);
  }

  lemma {:induction false} ModifierListAtKeepsSignificant(before: string, ps: seq<Node>, mi: nat, policy: Policy, log: seq<Report>)
    requires mi < |ps|
    ensures Significant(LeavesOf(VisitModifierListAt(before, ps, mi, policy, log).children)) == Significant(LeavesOf(ps))
  {
    var m := ps[mi];
    var inner := VisitModifiersFrom(before + TextOf(ps[..mi]), Children(m), 0, policy, log);
    ModifiersKeepSignificant(before + TextOf(ps[..mi]), Children(m), 0, policy, log);
    var ps1 := if m.Composite? then ps[mi := Composite(m.kind, inner.children)] else ps;
    if m.Composite? {
      ReplaceChildKeepsSignificant(ps, mi, Composite(m.kind, inner.children));
    }
    assert VisitModifierListAt(before, ps, mi, policy, log) == VisitWhiteSpaceAfterModifierList(before, ps1, mi, policy, inner.log);
    if mi + 1 < |ps1| && IsWhiteSpace(ps1[mi + 1]) {
      WhiteSpaceAfterModifierKeepsSignificant(before, ps1, mi + 1, policy, inner.log);
    }
  }

  lemma {:induction false} BeforeColonKeepsSignificant(before: string, ps: seq<Node>, policy: Policy, log: seq<Report>)
    ensures Significant(LeavesOf(RemoveWhiteSpaceBeforeColon(before, ps, policy, log).children)) == Significant(LeavesOf(ps))
  {
    match FirstChildOfType(ps, Colon)
    case None =>
    case Some(c) =>
      if c > 0 && IsWhiteSpace(ps[c - 1]) {
        RemoveWhiteSpaceKeepsSignificant(ps, c - 1);
      }
  }

  lemma {:induction false} AfterColonKeepsSignificant(before: string, ps: seq<Node>, after: string, maxLineLength: int, policy: Policy, log: seq<Report>)
    ensures Significant(LeavesOf(FixWhiteSpaceAfterColon(before, ps, after, maxLineLength, policy, log).children))
         == Significant(LeavesOf(ps))
  {
    match FirstChildOfType(ps, Colon)
    case None =>
    case Some(c) =>
      assert FixWhiteSpaceAfterColon(before, ps, after, maxLineLength, policy, log)
          == FixWhiteSpaceAfterColonAt(before, ps, c, after, maxLineLength, policy, log);
      AfterColonAtKeepsSignificant(before, ps, c, after, maxLineLength, policy, log);
  }

  lemma {:induction false} AfterColonAtKeepsSignificant(before: string, ps: seq<Node>, c: nat, after: string, maxLineLength: int, policy: Policy, log: seq<Report>)
    requires c < |ps|
    ensures Significant(LeavesOf(FixWhiteSpaceAfterColonAt(before, ps, c, after, maxLineLength, policy, log).children))
         == Significant(LeavesOf(ps))
  {
    if c + 1 < |ps| && IsWhiteSpace(ps[c + 1]) {
      ReTextWhiteSpaceKeepsSignificant(ps, c + 1, " ");
    } else {
      InsertWhiteSpaceKeepsSignificant(ps, c + 1, WhiteSpaceLeaf(" "));
    }
  }

  /** A parameter keeps its significant leaves: only whitespace is edited. */
  lemma {:induction false} ParameterKeepsSignificant(p: Node, before: string, after: string, maxLineLength: int, policy: Policy, log: seq<Report>)
    ensures Significant(Leaves(VisitValueParameter(p, before, after, maxLineLength, policy, log).0)) == Significant(Leaves(p))
  {
    if p.Composite? {
      var ps := p.children;
      var e1 := VisitModifierList(before, ps, policy, log);
      var e2 := RemoveWhiteSpaceBeforeColon(before, e1.children, policy, e1.log);
      ModifierListKeepsSignificant(before, ps, policy, log);
      BeforeColonKeepsSignificant(before, e1.children, policy, e1.log);
      AfterColonKeepsSignificant(before, e2.children, after, maxLineLength, policy, e2.log);
    }
  }

  lemma {:induction false} ListKeepsSignificant(
    ctx: Context, cs: seq<Node>, k: nat, count: nat, seen: nat,
    maxLineLength: int, policy: Policy, log: seq<Report>
  )
    requires k <= |cs|
    ensures var r := VisitListFrom(ctx, cs, k, count, seen, maxLineLength, policy, log);
      r.Completed? ==> Significant(LeavesOf(r.value.children)) == Significant(LeavesOf(cs))
    decreases |cs| - k, 1
  {
    if k < |cs| {
      if IsWhiteSpace(cs[k]) {
        WhiteSpaceStepKeepsSignificant(ctx, cs, k, count, seen, maxLineLength, policy, log);
      } else if cs[k].kind == Comma {
        CommaStepKeepsSignificant(ctx, cs, k, count, seen, maxLineLength, policy, log);
      } else if cs[k].kind == ValueParameter {
        ParameterStepKeepsSignificant(ctx, cs, k, count, seen, maxLineLength, policy, log);
      } else {
        ListKeepsSignificant(ctx, cs, k + 1, count, seen, maxLineLength, policy, log);
      }
    }
  }

  lemma {:induction false} WhiteSpaceStepKeepsSignificant(
    ctx: Context, cs: seq<Node>, k: nat, count: nat, seen: nat,
    maxLineLength: int, policy: Policy, log: seq<Report>
  )
    requires k < |cs| && IsWhiteSpace(cs[k])
    ensures var r := VisitListFrom(ctx, cs, k, count, seen, maxLineLength, policy, log);
      r.Completed? ==> Significant(LeavesOf(r.value.children)) == Significant(LeavesOf(cs))
    decreases |cs| - k, 0
  {
    var v := WhiteSpaceVerdict(cs, k, count, seen);
    if v != Fail {
      var r := VisitListFrom(ctx, cs, k, count, seen, maxLineLength, policy, log);
      var (cs', k', log') := WhiteSpaceStep(ctx.before, cs, k, v, policy, log);
      assert r == VisitListFrom(ctx, cs', k', count, seen, maxLineLength, policy, log');
      WhiteSpaceStepEditsWhiteSpace(ctx.before, cs, k, v, policy, log);
      ListKeepsSignificant(ctx, cs', k', count, seen, maxLineLength, policy, log');
    }
  }

  lemma {:induction false} CommaStepKeepsSignificant(
    ctx: Context, cs: seq<Node>, k: nat, count: nat, seen: nat,
    maxLineLength: int, policy: Policy, log: seq<Report>
  )
    requires k < |cs| && !IsWhiteSpace(cs[k]) && cs[k].kind == Comma
    ensures var r := VisitListFrom(ctx, cs, k, count, seen, maxLineLength, policy, log);
      r.Completed? ==> Significant(LeavesOf(r.value.children)) == Significant(LeavesOf(cs))
    decreases |cs| - k, 0
  {
    var r := VisitListFrom(ctx, cs, k, count, seen, maxLineLength, policy, log);
    var (cs', k', log') := CommaStep(ctx, cs, k, policy, log);
    assert r == VisitListFrom(ctx, cs', k', count, seen, maxLineLength, policy, log');
    CommaStepEditsWhiteSpace(ctx, cs, k, policy, log);
    ListKeepsSignificant(ctx, cs', k', count, seen, maxLineLength, policy, log');
  }

  lemma {:induction false} ParameterStepKeepsSignificant(
    ctx: Context, cs: seq<Node>, k: nat, count: nat, seen: nat,
    maxLineLength: int, policy: Policy, log: seq<Report>
  )
    requires k < |cs| && !IsWhiteSpace(cs[k]) && cs[k].kind == ValueParameter
    ensures var r := VisitListFrom(ctx, cs, k, count, seen, maxLineLength, policy, log);
      r.Completed? ==> Significant(LeavesOf(r.value.children)) == Significant(LeavesOf(cs))
    decreases |cs| - k, 0
  {
    var r := VisitListFrom(ctx, cs, k, count, seen, maxLineLength, policy, log);
    var before := ctx.before + TextOf(cs[..k]);
    var after := TextOf(cs[k + 1..]) + ctx.after;
    var (p, log') := VisitValueParameter(cs[k], before, after, maxLineLength, policy, log);
    assert r == VisitListFrom(ctx, cs[k := p], k + 1, count, seen + 1, maxLineLength, policy, log');
    ParameterKeepsSignificant(cs[k], before, after, maxLineLength, policy, log);
    ReplaceChildKeepsSignificant(cs, k, p);
    ListKeepsSignificant(ctx, cs[k := p], k + 1, count, seen + 1, maxLineLength, policy, log');
  }

  // ---------------------------------------------------------------------------
  // The hook as a whole

  /**
    The rule only edits whitespace: the significant leaves of the whole file
    are the same after the hook, whatever the engine allows.
   */
  lemma {:induction false} HookKeepsSignificant(root: Node, path: seq<nat>, maxLineLength: int, policy: Policy)
    requires ValidPath(root, path)
    ensures var r := BeforeVisitChildNodes(root, path, maxLineLength, policy);
      r.Completed? ==> Significant(Leaves(r.value.root)) == Significant(Leaves(root))
  {
    var n := At(root, path);
    if n.kind == ValueParameterList && n.Composite? {
      var after := LeavesAfter(root, path);
      var ctx := Context(TextOf(LeavesBefore(root, path)), TextOf(after), if after == [] then None else Some(after[0]));
      var r := VisitValueParameterList(ctx, n.children, maxLineLength, policy);
      ListKeepsSignificant(ctx, n.children, 0, CountParameters(n.children), 0, maxLineLength, policy, []);
      if r.Completed? {
        ReplaceKeepsSignificant(root, path, Composite(n.kind, r.value.children));
      }
    }
  }

  /** Without an allowed autocorrect the file is left exactly as it was. */
  lemma {:induction false} HookRejectedUnchanged(root: Node, path: seq<nat>, maxLineLength: int, policy: Policy)
    requires ValidPath(root, path)
    ensures var r := BeforeVisitChildNodes(root, path, maxLineLength, policy);
      r.Completed? && NoneAllowed(r.value.log) ==> r.value.root == root
  {
    var n := At(root, path);
    if n.kind == ValueParameterList && n.Composite? {
      var after := LeavesAfter(root, path);
      var ctx := Context(TextOf(LeavesBefore(root, path)), TextOf(after), if after == [] then None else Some(after[0]));
      var r := VisitValueParameterList(ctx, n.children, maxLineLength, policy);
      ListRejectedUnchanged(ctx, n.children, 0, CountParameters(n.children), 0, maxLineLength, policy, []);
      if r.Completed? && NoneAllowed(r.value.log) {
        assert r.value.log[0..] == r.value.log;
        ReplaceUnchanged(root, path);
      }
    }
  }

  /** Only value parameter lists are inspected: on any other node the hook reports and changes nothing. */
  lemma {:induction false} OnlyParameterListsInspected(root: Node, path: seq<nat>, maxLineLength: int, policy: Policy)
    requires ValidPath(root, path) && At(root, path).kind != ValueParameterList
    ensures BeforeVisitChildNodes(root, path, maxLineLength, policy) == Completed(Outcome(root, []))
  {
  }

  /**
    The offsets the rule reports are file offsets: child `k` of the list, in
    the file as edited so far, starts at `ChildOffset`.
   */
  lemma {:induction false} ChildOffsetIsStartOffset(root: Node, path: seq<nat>, cs: seq<Node>, k: nat)
    requires ValidPath(root, path) && k < |cs|
    ensures var edited := Replace(root, path, Composite(ValueParameterList, cs));
      ValidPath(edited, path + [k])
      && ChildOffset(TextOf(LeavesBefore(root, path)), cs, k) == StartOffset(edited, path + [k])
  {
    var m := Composite(ValueParameterList, cs);
    ReplaceFrame(root, path, m);
    StartOffsetOfChild(Replace(root, path, m), path, k);
  }

  // ---------------------------------------------------------------------------
  // What happens to whitespace in the list

  /**
    Whitespace at either end of the parameters (before the first or after
    the last one, without a line break) is removed when the list has no
    comments and left alone when it has.
   */
  lemma {:induction false} EdgeWhiteSpaceVerdict(cs: seq<Node>, k: nat, count: nat, seen: nat)
    requires k < |cs| && IsSameLineWhiteSpace(cs[k]) && (seen == 0 || seen == count)
    ensures WhiteSpaceVerdict(cs, k, count, seen) == if ContainsNoComments(cs) then Remove else Keep
  {
  }

  /**
    A line break in the list is never collapsed and never fails: it is
    removed only from a list without parameters and comments, or when a comma
    follows it; otherwise it stays.
   */
  lemma {:induction false} IndentVerdict(cs: seq<Node>, k: nat, count: nat, seen: nat)
    requires k < |cs| && IsIndent(cs[k])
    ensures var next := NextCodeSibling(cs, k);
      WhiteSpaceVerdict(cs, k, count, seen)
        == if (count == 0 && ContainsNoComments(cs)) || (next.Some? && cs[next.value].kind == Comma) then Remove else Keep
  {
  }

  /**
    Whitespace between two parameters: before a comma it is removed; after
    a comma it is collapsed to one space unless it already is one; anywhere
    else the `require` of the source fails, unless it is a single space.
   */
  lemma {:induction false} InnerWhiteSpaceVerdict(cs: seq<Node>, k: nat, count: nat, seen: nat)
    requires k < |cs| && IsSameLineWhiteSpace(cs[k]) && 0 < seen < count
    ensures var next, prev := NextCodeSibling(cs, k), PrevCodeSibling(cs, k);
      var v := WhiteSpaceVerdict(cs, k, count, seen);
      && (next.Some? && cs[next.value].kind == Comma ==> v == Remove)
      && (!(next.Some? && cs[next.value].kind == Comma) ==>
            if cs[k].text == " " then v == Keep
            else if prev.Some? && cs[prev.value].kind == Comma then v == Collapse
            else v == Fail)
  {
  }

  /** Collapsing is final: the single space left behind is kept when visited again. */
  lemma {:induction false} CollapseIsFinal(cs: seq<Node>, k: nat, count: nat, seen: nat)
    requires k < |cs| && IsWhiteSpace(cs[k]) && WhiteSpaceVerdict(cs, k, count, seen) == Collapse
    ensures WhiteSpaceVerdict(cs[k := WhiteSpaceLeaf(" ")], k, count, seen) == Keep
  {
    var cs' := cs[k := WhiteSpaceLeaf(" ")];
    assert forall q :: 0 <= q < |cs| ==> (IsCode(cs[q]) <==> IsCode(cs'[q]));
    SameNextCodeSibling(cs, cs', k);
    SamePrevCodeSibling(cs, cs', k);
    assert ContainsNoComments(cs') == ContainsNoComments(cs) by {
      assert forall i :: 0 <= i < |cs| ==> (IsComment(cs[i]) <==> IsComment(cs'[i]));
    }
  }

  /**
    The fix for a comma is final: after an allowed fix the comma is still
    child `k`, the leaf after it is the inserted single space, and the comma
    step on the result reports nothing, whatever the engine decides.
   */
  lemma {:induction false} CommaFixIsFinal(ctx: Context, cs: seq<Node>, k: nat, policy: Policy, policy': Policy, log: seq<Report>)
    requires k < |cs|
    ensures var (cs', k', log') := CommaStep(ctx, cs, k, policy, log);
      |log'| > |log| && log'[|log|].decision == AllowAutocorrect ==>
        && cs'[k] == cs[k]
        && NextLeafOfChild(ctx, cs', k) == Some(WhiteSpaceLeaf(" "))
        && CommaStep(ctx, cs', k, policy', log') == (cs', k + 1, log')
  {
    CommaStepEditsWhiteSpace(ctx, cs, k, policy, log);
    SpaceAfterComma(ctx, cs, k);
  }

  /** After a space is inserted after child `k`, that space is the leaf after it. */
  lemma {:induction false} SpaceAfterComma(ctx: Context, cs: seq<Node>, k: nat)
    requires k < |cs|
    ensures var cs' := InsertAt(cs, k + 1, WhiteSpaceLeaf(" "));
      cs'[k] == cs[k] && NextLeafOfChild(ctx, cs', k) == Some(WhiteSpaceLeaf(" "))
  {
    var w := WhiteSpaceLeaf(" ");
    var cs' := InsertAt(cs, k + 1, w);
    assert cs'[k + 1..] == [w] + cs[k + 1..];
    assert LeavesOf(cs'[k + 1..]) == [w] + LeavesOf(cs[k + 1..]) by {
      assert ([w] + cs[k + 1..])[1..] == cs[k + 1..];
    }
  }

  /**
    One step of the list walk at a whitespace child or a comma: the report it
    makes (at the child's offset, with the message for its verdict) is the
    next entry of the log, whatever the rest of the walk does, and a
    collapse that does not follow a comma aborts the walk.
   */
  lemma {:induction false} WhiteSpaceStepReport(
    ctx: Context, cs: seq<Node>, k: nat, count: nat, seen: nat,
    maxLineLength: int, policy: Policy, log: seq<Report>
  )
    requires k < |cs| && IsWhiteSpace(cs[k])
    ensures var r := VisitListFrom(ctx, cs, k, count, seen, maxLineLength, policy, log);
      var v := WhiteSpaceVerdict(cs, k, count, seen);
      var offset := ChildOffset(ctx.before, cs, k);
      && (v == Fail ==> r.Aborted?)
      && (v == Remove && r.Completed? ==>
            |r.value.log| > |log| && r.value.log[|log|].emission == Emission(offset, UnexpectedWhiteSpace, true))
      && (v == Collapse && r.Completed? ==>
            |r.value.log| > |log| && r.value.log[|log|].emission == Emission(offset, ExpectedSingleSpace, true))
      && (v == Keep ==> r == VisitListFrom(ctx, cs, k + 1, count, seen, maxLineLength, policy, log))
  {
    var v := WhiteSpaceVerdict(cs, k, count, seen);
    if v != Fail {
      var (cs', k', log') := WhiteSpaceStep(ctx.before, cs, k, v, policy, log);
      assert VisitListFrom(ctx, cs, k, count, seen, maxLineLength, policy, log)
          == VisitListFrom(ctx, cs', k', count, seen, maxLineLength, policy, log');
      if v != Keep {
        assert |log'| > |log| && log'[|log|].emission.offset == ChildOffset(ctx.before, cs, k);
      }
    }
  }

  lemma {:induction false} CommaStepReport(
    ctx: Context, cs: seq<Node>, k: nat, count: nat, seen: nat,
    maxLineLength: int, policy: Policy, log: seq<Report>
  )
    requires k < |cs| && cs[k].kind == Comma && !IsWhiteSpace(cs[k])
    ensures var r := VisitListFrom(ctx, cs, k, count, seen, maxLineLength, policy, log);
      var next := NextLeafOfChild(ctx, cs, k);
      var missing := next.Some? && !IsWhiteSpace(next.value) && next.value.kind != RPar;
      && (missing && r.Completed? ==>
            |r.value.log| > |log|
            && r.value.log[|log|].emission == Emission(ChildOffset(ctx.before, cs, k), MissingWhiteSpaceMessage(cs[k]), true))
      && (!missing ==> r == VisitListFrom(ctx, cs, k + 1, count, seen, maxLineLength, policy, log))
  {
  }

  // ---------------------------------------------------------------------------
  // What the fixes achieve when the engine allows every fix

  /** The whitespace child `q` of a modifier list needs no change. */
  predicate ModifierWhiteSpaceSettled(ms: seq<Node>, q: nat)
    requires q < |ms|
  {
    IsWhiteSpace(ms[q]) ==> !ModifierWhiteSpaceToCollapse(ms[q], PrecedingModifierKind(ms, q))
  }

  predicate ModifiersSettledBelow(ms: seq<Node>, q: nat)
    requires q <= |ms|
  {
    forall i :: 0 <= i < q ==> ModifierWhiteSpaceSettled(ms, i)
  }

  /**
    With every fix allowed, visiting the whitespace child `q` settles it,
    changes no other child, and keeps every earlier child settled as it was.
   */
  lemma {:induction false} WhiteSpaceAfterModifierSettles(before: string, ms: seq<Node>, q: nat, log: seq<Report>)
    requires q < |ms| && IsWhiteSpace(ms[q])
    ensures var r := VisitWhiteSpaceAfterModifier(before, ms, q, AllowAll(), log);
      && ModifierWhiteSpaceSettled(r.children, q)
      && (forall i :: 0 <= i < |ms| && i != q ==> r.children[i] == ms[i])
      && (ModifiersSettledBelow(ms, q) ==> ModifiersSettledBelow(r.children, q + 1))
  {
    var r := VisitWhiteSpaceAfterModifier(before, ms, q, AllowAll(), log);
    if ModifierWhiteSpaceToCollapse(ms[q], PrecedingModifierKind(ms, q)) {
      assert r.log[|log|].decision == AllowAutocorrect;
      var ms' := ms[q := WhiteSpaceLeaf(" ")];
      assert r.children == ms';
      if ModifiersSettledBelow(ms, q) {
        forall i | 0 <= i <= q ensures ModifierWhiteSpaceSettled(ms', i) {
          if i < q {
            assert ms[..i] == ms'[..i];
            PrevCodeSiblingOfPrefix(ms, ms', i);
            assert ModifierWhiteSpaceSettled(ms, i);
          }
        }
      }
    }
  }

  /**
    With every fix allowed, the modifier list ends up with each whitespace
    child a single space, or a line break after an annotation.
   */
  lemma {:induction false} ModifiersSettled(before: string, ms: seq<Node>, q: nat, log: seq<Report>)
    requires q <= |ms| && ModifiersSettledBelow(ms, q)
    ensures var r := VisitModifiersFrom(before, ms, q, AllowAll(), log);
      ModifiersSettledBelow(r.children, |r.children|)
    decreases |ms| - q
  {
    if q < |ms| {
      if IsWhiteSpace(ms[q]) {
        var e := VisitWhiteSpaceAfterModifier(before, ms, q, AllowAll(), log);
        WhiteSpaceAfterModifierSettles(before, ms, q, log);
        ModifiersSettled(before, e.children, q + 1, e.log);
      } else {
        assert ModifierWhiteSpaceSettled(ms, q);
        ModifiersSettled(before, ms, q + 1, log);
      }
    }
  }

  /**
    The modifier list at child `mi` is still one, every whitespace inside it
    is settled, and so is the whitespace right after it.
   */
  predicate ModifierListSettledAt(ps: seq<Node>, mi: nat)
    requires mi < |ps|
  {
    && ps[mi].kind == ModifierList
    && ModifiersSettledBelow(Children(ps[mi]), |Children(ps[mi])|)
    && (mi + 1 < |ps| ==> ModifierWhiteSpaceSettled(ps, mi + 1))
  }

  /**
    With every fix allowed, `visitModifierList` settles the whitespace inside
    the parameter's modifier list and the whitespace right after it.
   */
  lemma {:induction false} ModifierListSettled(before: string, ps: seq<Node>, log: seq<Report>)
    ensures var r := VisitModifierList(before, ps, AllowAll(), log);
      match FirstChildOfType(ps, ModifierList)
      case None => r.children == ps
      case Some(mi) => ModifierListSettledAt(r.children, mi)
  {
    match FirstChildOfType(ps, ModifierList)
    case None =>
    case Some(mi) =>
      assert VisitModifierList(before, ps, AllowAll(), log) == VisitModifierListAt(before, ps, mi, AllowAll(), log);
      ModifierListAtSettled(before, ps, mi, log);
  }

  lemma {:induction false} ModifierListAtSettled(before: string, ps: seq<Node>, mi: nat, log: seq<Report>)
    requires mi < |ps| && ps[mi].kind == ModifierList
    ensures ModifierListSettledAt(VisitModifierListAt(before, ps, mi, AllowAll(), log).children, mi)
  {
    var r := VisitModifierListAt(before, ps, mi, AllowAll(), log);
    var m := ps[mi];
    var inner := VisitModifiersFrom(before + TextOf(ps[..mi]), Children(m), 0, AllowAll(), log);
    ModifiersSettled(before + TextOf(ps[..mi]), Children(m), 0, log);
    var ps1 := if m.Composite? then ps[mi := Composite(m.kind, inner.children)] else ps;
    assert r == VisitWhiteSpaceAfterModifierList(before, ps1, mi, AllowAll(), inner.log);
    assert Children(ps1[mi]) == inner.children;
    WhiteSpaceAfterModifierListSettles(before, ps1, mi, inner.log);
  }

  lemma {:induction false} WhiteSpaceAfterModifierListSettles(before: string, ps: seq<Node>, mi: nat, log: seq<Report>)
    requires mi < |ps|
    ensures var r := VisitWhiteSpaceAfterModifierList(before, ps, mi, AllowAll(), log);
      r.children[mi] == ps[mi] && (mi + 1 < |ps| ==> ModifierWhiteSpaceSettled(r.children, mi + 1))
  {
    if mi + 1 < |ps| && IsWhiteSpace(ps[mi + 1]) {
      WhiteSpaceAfterModifierSettles(before, ps, mi + 1, log);
    }
  }

  /** No whitespace child comes right before the first colon. */
  predicate NoWhiteSpaceBeforeColon(ps: seq<Node>) {
    match FirstChildOfType(ps, Colon)
    case None => true
    case Some(c) => c == 0 || !IsWhiteSpace(ps[c - 1])
  }

  predicate AdjacentWhiteSpace(ps: seq<Node>, i: nat)
    requires i + 1 < |ps|
  {
    IsWhiteSpace(ps[i]) && IsWhiteSpace(ps[i + 1])
  }

  /** No two whitespace children in a row: the parser merges adjacent whitespace. */
  predicate NoAdjacentWhiteSpace(ps: seq<Node>) {
    forall i :: 0 <= i < |ps| - 1 ==> !AdjacentWhiteSpace(ps, i)
  }

  /**
    With every fix allowed, no whitespace is left before the colon, in
    children that do not hold two whitespace leaves in a row.
   */
  lemma {:induction false} BeforeColonSettled(before: string, ps: seq<Node>, log: seq<Report>)
    requires NoAdjacentWhiteSpace(ps)
    ensures NoWhiteSpaceBeforeColon(RemoveWhiteSpaceBeforeColon(before, ps, AllowAll(), log).children)
  {
    match FirstChildOfType(ps, Colon)
    case None =>
    case Some(c) =>
      if c > 0 && IsWhiteSpace(ps[c - 1]) {
        var (d, log') := Emit(AllowAll(), log, ChildOffset(before, ps, c - 1), UnexpectedWhiteSpace);
        assert d == AllowAutocorrect;
        var ps' := RemoveAt(ps, c - 1);
        assert RemoveWhiteSpaceBeforeColonAt(before, ps, c, AllowAll(), log).children == ps';
        assert RemoveWhiteSpaceBeforeColon(before, ps, AllowAll(), log).children == ps';
        FirstChildAfterRemoval(ps, c - 1, Colon);
        if c > 1 {
          assert !AdjacentWhiteSpace(ps, c - 2);
          assert ps'[c - 2] == ps[c - 2];
        }
      }
  }

  /** Removing a child right before the first child of type `t` keeps that child the first of its type. */
  lemma {:induction false} FirstChildAfterRemoval(ps: seq<Node>, q: nat, t: ElementType)
    requires q + 1 < |ps| && FirstChildOfType(ps, t) == Some(q + 1)
    ensures FirstChildOfType(RemoveAt(ps, q), t) == Some(q)
  {
    var ps' := RemoveAt(ps, q);
    assert ps'[q] == ps[q + 1];
    forall i | 0 <= i < q ensures ps'[i].kind != t {
      assert ps'[i] == ps[i];
    }
    FirstChildOfTypeAt(ps', q, t);
  }

  /** The first child of type `t` is the child `q` of that type with no such child before it. */
  lemma {:induction false} FirstChildOfTypeAt(ps: seq<Node>, q: nat, t: ElementType)
    requires q < |ps| && ps[q].kind == t
    requires forall i :: 0 <= i < q ==> ps[i].kind != t
    ensures FirstChildOfType(ps, t) == Some(q)
  {
    if q > 0 {
      FirstChildOfTypeAt(ps[1..], q - 1, t);
    }
  }

  /**
    The whitespace after the first colon needs no change: it is a single
    space, or a line break before a type with a modifier list, or a line
    break before a type that would not fit on the colon's line.
   */
  predicate SpaceAfterColonSettled(before: string, ps: seq<Node>, after: string, maxLineLength: int) {
    match FirstChildOfType(ps, Colon)
    case None => true
    case Some(c) => SpaceAfterColonSettledAt(before, ps, c, after, maxLineLength)
  }

  /** The whitespace after the colon `c` needs no change. */
  predicate SpaceAfterColonSettledAt(before: string, ps: seq<Node>, c: nat, after: string, maxLineLength: int)
    requires c < |ps|
  {
    && c + 1 < |ps| && IsWhiteSpace(ps[c + 1])
    && (|| ps[c + 1].text == " "
        || (IsTypeReferenceWithModifierList(ps) && IsIndent(ps[c + 1]))
        || TypeDoesNotFitOnColonLine(before, ps, c + 1, after, maxLineLength))
  }

  /** Editing only children after the first colon keeps it the first colon. */
  lemma {:induction false} FirstColonKept(ps: seq<Node>, ps': seq<Node>, c: nat)
    requires FirstChildOfType(ps, Colon) == Some(c) && c < |ps'|
    requires forall q :: 0 <= q <= c ==> ps'[q] == ps[q]
    ensures FirstChildOfType(ps', Colon) == Some(c)
  {
  }

  /** With every fix allowed, the colon is followed by settled whitespace. */
  lemma {:induction false} AfterColonSettled(before: string, ps: seq<Node>, after: string, maxLineLength: int, log: seq<Report>)
    ensures SpaceAfterColonSettled(before, FixWhiteSpaceAfterColon(before, ps, after, maxLineLength, AllowAll(), log).children, after, maxLineLength)
  {
    match FirstChildOfType(ps, Colon)
    case None =>
    case Some(c) =>
      var e := FixWhiteSpaceAfterColonAt(before, ps, c, after, maxLineLength, AllowAll(), log);
      assert FixWhiteSpaceAfterColon(before, ps, after, maxLineLength, AllowAll(), log) == e;
      AfterColonAtSettled(before, ps, c, after, maxLineLength, log);
  }

  /** With every fix allowed, the first colon stays first and is followed by settled whitespace. */
  lemma {:induction false} AfterColonAtSettled(before: string, ps: seq<Node>, c: nat, after: string, maxLineLength: int, log: seq<Report>)
    requires FirstChildOfType(ps, Colon) == Some(c)
    ensures var e := FixWhiteSpaceAfterColonAt(before, ps, c, after, maxLineLength, AllowAll(), log);
      && FirstChildOfType(e.children, Colon) == Some(c)
      && SpaceAfterColonSettledAt(before, e.children, c, after, maxLineLength)
  {
    if c + 1 < |ps| && IsWhiteSpace(ps[c + 1]) {
      if WhiteSpaceAfterColonToCollapse(before, ps, c, after, maxLineLength) {
        CollapseAfterColonSettles(before, ps, c, after, maxLineLength, log);
      } else {
        KeptAfterColonSettled(before, ps, c, after, maxLineLength, log);
      }
    } else {
      InsertAfterColonSettles(before, ps, c, after, maxLineLength, log);
    }
  }

  lemma {:induction false} CollapseAfterColonSettles(before: string, ps: seq<Node>, c: nat, after: string, maxLineLength: int, log: seq<Report>)
    requires FirstChildOfType(ps, Colon) == Some(c) && c + 1 < |ps| && IsWhiteSpace(ps[c + 1])
    requires WhiteSpaceAfterColonToCollapse(before, ps, c, after, maxLineLength)
    ensures var e := FixWhiteSpaceAfterColonAt(before, ps, c, after, maxLineLength, AllowAll(), log);
      && FirstChildOfType(e.children, Colon) == Some(c)
      && SpaceAfterColonSettledAt(before, e.children, c, after, maxLineLength)
  {
    CollapseAfterColonValue(before, ps, c, after, maxLineLength, log);
    SpaceAfterColonPlaced(before, ps, c, ps[c + 1 := WhiteSpaceLeaf(" ")], after, maxLineLength);
  }

  lemma {:induction false} KeptAfterColonSettled(before: string, ps: seq<Node>, c: nat, after: string, maxLineLength: int, log: seq<Report>)
    requires FirstChildOfType(ps, Colon) == Some(c) && c + 1 < |ps| && IsWhiteSpace(ps[c + 1])
    requires !WhiteSpaceAfterColonToCollapse(before, ps, c, after, maxLineLength)
    ensures var e := FixWhiteSpaceAfterColonAt(before, ps, c, after, maxLineLength, AllowAll(), log);
      && FirstChildOfType(e.children, Colon) == Some(c)
      && SpaceAfterColonSettledAt(before, e.children, c, after, maxLineLength)
  {
    assert FixWhiteSpaceAfterColonAt(before, ps, c, after, maxLineLength, AllowAll(), log) == Edit(ps, log);
  }

  lemma {:induction false} InsertAfterColonSettles(before: string, ps: seq<Node>, c: nat, after: string, maxLineLength: int, log: seq<Report>)
    requires FirstChildOfType(ps, Colon) == Some(c) && !(c + 1 < |ps| && IsWhiteSpace(ps[c + 1]))
    ensures var e := FixWhiteSpaceAfterColonAt(before, ps, c, after, maxLineLength, AllowAll(), log);
      && FirstChildOfType(e.children, Colon) == Some(c)
      && SpaceAfterColonSettledAt(before, e.children, c, after, maxLineLength)
  {
    InsertAfterColonValue(before, ps, c, after, maxLineLength, log);
    SpaceAfterColonPlaced(before, ps, c, InsertAt(ps, c + 1, WhiteSpaceLeaf(" ")), after, maxLineLength);
  }

  /** Children that agree with `ps` up to its first colon and hold one space after it are settled there. */
  lemma {:induction false} SpaceAfterColonPlaced(before: string, ps: seq<Node>, c: nat, ps': seq<Node>, after: string, maxLineLength: int)
    requires FirstChildOfType(ps, Colon) == Some(c) && c + 1 < |ps'|
    requires forall q :: 0 <= q <= c ==> ps'[q] == ps[q]
    requires ps'[c + 1] == WhiteSpaceLeaf(" ")
    ensures FirstChildOfType(ps', Colon) == Some(c)
    ensures SpaceAfterColonSettledAt(before, ps', c, after, maxLineLength)
  {
    FirstColonKept(ps, ps', c);
  }

  /** The whitespace after the colon `c` is neither one space nor a line break the rule allows. */
  predicate WhiteSpaceAfterColonToCollapse(before: string, ps: seq<Node>, c: nat, after: string, maxLineLength: int)
    requires c + 1 < |ps| && IsWhiteSpace(ps[c + 1])
  {
    && !(IsTypeReferenceWithModifierList(ps) && IsIndent(ps[c + 1]))
    && !TypeDoesNotFitOnColonLine(before, ps, c + 1, after, maxLineLength)
    && ps[c + 1].text != " "
  }

  /** With every fix allowed, the whitespace after the colon that needs collapsing becomes one space. */
  lemma {:induction false} CollapseAfterColonValue(before: string, ps: seq<Node>, c: nat, after: string, maxLineLength: int, log: seq<Report>)
    requires c + 1 < |ps| && IsWhiteSpace(ps[c + 1])
    requires WhiteSpaceAfterColonToCollapse(before, ps, c, after, maxLineLength)
    ensures FixWhiteSpaceAfterColonAt(before, ps, c, after, maxLineLength, AllowAll(), log).children == ps[c + 1 := WhiteSpaceLeaf(" ")]
  {
    var e := CollapseChild(ps, c + 1, ChildOffset(before, ps, c + 1), AllowAll(), log);
    assert FixWhiteSpaceAfterColonAt(before, ps, c, after, maxLineLength, AllowAll(), log) == e;
    assert e.log[|log|].decision == AllowAutocorrect;
  }

  /** With every fix allowed, a missing space after the colon is inserted. */
  lemma {:induction false} InsertAfterColonValue(before: string, ps: seq<Node>, c: nat, after: string, maxLineLength: int, log: seq<Report>)
    requires c < |ps| && !(c + 1 < |ps| && IsWhiteSpace(ps[c + 1]))
    ensures FixWhiteSpaceAfterColonAt(before, ps, c, after, maxLineLength, AllowAll(), log).children == InsertAt(ps, c + 1, WhiteSpaceLeaf(" "))
  {
    var e := InsertSpaceChild(ps, c + 1, ChildOffset(before, ps, c), MissingWhiteSpaceMessage(ps[c]), AllowAll(), log);
    assert FixWhiteSpaceAfterColonAt(before, ps, c, after, maxLineLength, AllowAll(), log) == e;
    assert e.log[|log|].decision == AllowAutocorrect;
  }

  // ---------------------------------------------------------------------------
  // The list walk with every fix allowed

  /** A comma whose later siblings are `after` lacks a space: the leaf after it is neither whitespace nor `)`. */
  predicate LacksSpace(ctx: Context, after: seq<Node>) {
    var rest := LeavesOf(after);
    var next := if rest != [] then Some(rest[0]) else ctx.nextLeaf;
    next.Some? && !IsWhiteSpace(next.value) && next.value.kind != RPar
  }

  /**
    The space the walk inserts after a comma with later siblings `after`,
    `before` parameters ahead of it in a list of `count`, is kept when the
    walk reaches it: a comma lacking a space is not followed by another
    comma and, in a list without comments, stands between two parameters.
    The commas of every list the Kotlin parser builds are like this; a
    trailing comma is followed by `)`, by whitespace or by a comment.
   */
  predicate CommaFits(ctx: Context, after: seq<Node>, before: nat, count: nat, noComments: bool) {
    LacksSpace(ctx, after) ==>
      && FirstCodeKind(after) != Some(Comma)
      && (noComments ==> 0 < before < count)
  }

  /** Every comma of `cs` fits, `before` parameters preceding `cs`. */
  predicate CommasFitFrom(ctx: Context, cs: seq<Node>, before: nat, count: nat, noComments: bool)
    decreases |cs|
  {
    cs != [] ==>
      && (!IsWhiteSpace(cs[0]) && cs[0].kind == Comma ==> CommaFits(ctx, cs[1..], before, count, noComments))
      && CommasFitFrom(ctx, cs[1..], before + (if cs[0].kind == ValueParameter then 1 else 0), count, noComments)
  }

  /** Every comma of the list children `cs` fits. */
  predicate CommasFit(ctx: Context, cs: seq<Node>) {
    CommasFitFrom(ctx, cs, 0, CountParameters(cs), ContainsNoComments(cs))
  }

  /** The walk over `cs` keeps child `j` if it is whitespace. */
  predicate SettledAt(cs: seq<Node>, count: nat, j: nat)
    requires j < |cs|
  {
    IsWhiteSpace(cs[j]) ==> WhiteSpaceVerdict(cs, j, count, CountParameters(cs[..j])) == Keep
  }

  predicate SettledBelow(cs: seq<Node>, count: nat, k: nat)
    requires k <= |cs|
  {
    forall j :: 0 <= j < k ==> SettledAt(cs, count, j)
  }

  /** The children from `lo` up to `hi` are settled. */
  predicate SettledBetween(cs: seq<Node>, count: nat, lo: nat, hi: nat)
    requires lo <= hi <= |cs|
  {
    forall j :: lo <= j < hi ==> SettledAt(cs, count, j)
  }

  /** A walk over `cs` finds no whitespace to remove or collapse, and no whitespace makes it abort. */
  predicate ListSettled(cs: seq<Node>) {
    SettledBelow(cs, CountParameters(cs), |cs|)
  }

  /**
    The step of the walk at child `k` of `cs` leaves `cs'` and goes on at
    `k'`: the children before `k` and those after `k` are untouched, and
    child `k`, with what the step inserted after it, has the kind of code,
    the comments and the parameters child `k` had.
   */
  predicate Advances(cs: seq<Node>, k: nat, cs': seq<Node>, k': nat) {
    && k < |cs| && k <= k' <= |cs'|
    && cs'[..k] == cs[..k]
    && cs'[k'..] == cs[k + 1..]
    && FirstCodeKind(cs'[k..]) == FirstCodeKind(cs[k..])
    && ContainsNoComments(cs') == ContainsNoComments(cs)
    && CountParameters(cs'[..k']) == CountParameters(cs[..k + 1])
  }

  lemma {:induction false} CountParametersAppend(a: seq<Node>, b: seq<Node>)
    ensures CountParameters(a + b) == CountParameters(a) + CountParameters(b)
  {
    if a == [] {
      assert a + b == b;
    } else {
      assert (a + b)[0] == a[0] && (a + b)[1..] == a[1..] + b;
      CountParametersAppend(a[1..], b);
    }
  }

  /** Counting the parameters of a prefix one child further. */
  lemma {:induction false} CountParametersSplit(cs: seq<Node>, i: nat)
    requires i <= |cs|
    ensures CountParameters(cs) == CountParameters(cs[..i]) + CountParameters(cs[i..])
  {
    assert cs == cs[..i] + cs[i..];
    CountParametersAppend(cs[..i], cs[i..]);
  }

  lemma {:induction false} CountParametersStep(cs: seq<Node>, k: nat)
    requires k < |cs|
    ensures CountParameters(cs[..k + 1]) == CountParameters(cs[..k]) + (if cs[k].kind == ValueParameter then 1 else 0)
  {
    assert cs[..k + 1] == cs[..k] + [cs[k]];
    CountParametersAppend(cs[..k], [cs[k]]);
  }

  /** Replacing child `k` by a node of the same standing keeps everything `Advances` compares. */
  lemma {:induction false} ReplaceAdvances(cs: seq<Node>, k: nat, x: Node)
    requires k < |cs|
    requires IsCode(x) == IsCode(cs[k]) && IsComment(x) == IsComment(cs[k])
    requires IsCode(x) ==> x.kind == cs[k].kind
    requires (x.kind == ValueParameter) == (cs[k].kind == ValueParameter)
    ensures Advances(cs, k, cs[k := x], k + 1)
  {
    var cs' := cs[k := x];
    assert cs'[k..][0] == x && cs'[k..][1..] == cs[k..][1..];
    assert cs'[..k + 1] == cs[..k] + [x] && cs[..k + 1] == cs[..k] + [cs[k]];
    CountParametersAppend(cs[..k], [x]);
    CountParametersAppend(cs[..k], [cs[k]]);
    assert forall i :: 0 <= i < |cs| ==> IsComment(cs'[i]) == IsComment(cs[i]);
  }

  /** Removing the whitespace child `k`, the walk staying at `k`. */
  lemma {:induction false} RemoveAdvances(cs: seq<Node>, k: nat)
    requires k < |cs| && IsWhiteSpace(cs[k])
    ensures Advances(cs, k, RemoveAt(cs, k), k)
  {
    var cs' := RemoveAt(cs, k);
    assert cs'[..k] == cs[..k] && cs'[k..] == cs[k + 1..];
    assert cs[k..][0] == cs[k] && cs[k..][1..] == cs[k + 1..];
    CountParametersStep(cs, k);
    assert ContainsNoComments(cs') == ContainsNoComments(cs) by {
      if ContainsNoComments(cs') {
        assert forall i :: 0 <= i < |cs| && i != k ==> cs[i] == cs'[if i < k then i else i - 1];
      }
    }
  }

  /** Inserting a space after the code child `k`, the walk going on after the space. */
  lemma {:induction false} InsertAdvances(cs: seq<Node>, k: nat)
    requires k < |cs| && IsCode(cs[k])
    ensures Advances(cs, k, InsertAt(cs, k + 1, WhiteSpaceLeaf(" ")), k + 2)
  {
    var w := WhiteSpaceLeaf(" ");
    var cs' := InsertAt(cs, k + 1, w);
    assert cs'[..k] == cs[..k] && cs'[k + 2..] == cs[k + 1..];
    assert cs'[k..][0] == cs[k] && cs[k..][0] == cs[k];
    InsertKeepsParameterCount(cs, k, w);
    InsertKeepsComments(cs, k + 1, w);
  }

  lemma {:induction false} InsertKeepsParameterCount(cs: seq<Node>, k: nat, w: Node)
    requires k < |cs| && w.kind != ValueParameter
    ensures CountParameters(InsertAt(cs, k + 1, w)[..k + 2]) == CountParameters(cs[..k + 1])
  {
    assert InsertAt(cs, k + 1, w)[..k + 2] == cs[..k + 1] + [w];
    CountParametersAppend(cs[..k + 1], [w]);
  }

  lemma {:induction false} InsertKeepsComments(cs: seq<Node>, k: nat, w: Node)
    requires k <= |cs| && !IsComment(w)
    ensures ContainsNoComments(InsertAt(cs, k, w)) == ContainsNoComments(cs)
  {
    if ContainsNoComments(cs) {
      InsertKeepsNoComments(cs, k, w);
    } else {
      InsertKeepsAComment(cs, k, w);
    }
  }

  /** Inserting a non-comment into comment-free children leaves them comment-free. */
  lemma {:induction false} InsertKeepsNoComments(cs: seq<Node>, k: nat, w: Node)
    requires k <= |cs| && !IsComment(w) && ContainsNoComments(cs)
    ensures ContainsNoComments(InsertAt(cs, k, w))
  {
    var cs' := InsertAt(cs, k, w);
    forall i | 0 <= i < |cs'|
      ensures !IsComment(cs'[i])
    {
      if i != k {
        assert cs'[i] == cs[if i < k then i else i - 1];
      }
    }
  }

  /** A comment among the children is still there after an insertion. */
  lemma {:induction false} InsertKeepsAComment(cs: seq<Node>, k: nat, w: Node)
    requires k <= |cs| && !ContainsNoComments(cs)
    ensures !ContainsNoComments(InsertAt(cs, k, w))
  {
    var i :| 0 <= i < |cs| && IsComment(cs[i]);
    assert InsertAt(cs, k, w)[if i < k then i else i + 1] == cs[i];
  }

  lemma {:induction false} SkipAdvances(cs: seq<Node>, k: nat)
    requires k < |cs|
    ensures Advances(cs, k, cs, k + 1)
  {
  }

  /**
    A whitespace child's verdict depends only on the children before it,
    the kind of the first code after it, and whether the list has comments.
   */
  lemma {:induction false} VerdictFrame(cs: seq<Node>, cs': seq<Node>, j: nat, count: nat, seen: nat)
    requires j < |cs| && j < |cs'| && cs[..j + 1] == cs'[..j + 1] && IsWhiteSpace(cs[j])
    requires FirstCodeKind(cs[j + 1..]) == FirstCodeKind(cs'[j + 1..])
    requires ContainsNoComments(cs) == ContainsNoComments(cs')
    ensures WhiteSpaceVerdict(cs, j, count, seen) == WhiteSpaceVerdict(cs', j, count, seen)
  {
    assert cs[j] == cs[..j + 1][j] == cs'[j];
    assert cs[..j] == cs[..j + 1][..j] && cs'[..j] == cs'[..j + 1][..j];
    PrevCodeSiblingOfPrefix(cs, cs', j);
    var prev := PrevCodeSibling(cs, j);
    if prev.Some? {
      assert cs[prev.value] == cs[..j + 1][prev.value] == cs'[prev.value];
    }
    NextCodeSiblingKind(cs, j);
    NextCodeSiblingKind(cs', j);
  }

  /** A step that `Advances` keeps the verdicts of the whitespace before `k`. */
  lemma {:induction false} SettledFrame(cs: seq<Node>, k: nat, cs': seq<Node>, k': nat, count: nat, j: nat)
    requires Advances(cs, k, cs', k') && j < k && SettledAt(cs, count, j)
    ensures SettledAt(cs', count, j)
  {
    PrefixesAgree(cs, k, cs', j);
    if IsWhiteSpace(cs[j]) {
      FirstCodeKindFrame(cs, k, cs', j);
      VerdictFrame(cs, cs', j, count, CountParameters(cs[..j]));
    }
  }

  /** Lists that agree before `k` agree up to and before any `j < k`. */
  lemma {:induction false} PrefixesAgree(cs: seq<Node>, k: nat, cs': seq<Node>, j: nat)
    requires j < k <= |cs| && k <= |cs'| && cs'[..k] == cs[..k]
    ensures cs[..j + 1] == cs'[..j + 1] && cs[..j] == cs'[..j] && cs[j] == cs'[j]
  {
    assert cs[..j + 1] == cs[..k][..j + 1] == cs'[..j + 1];
    assert cs[..j] == cs[..k][..j] == cs'[..j];
    assert cs[j] == cs[..k][j] == cs'[j];
  }

  /** Lists that agree before `k` and in their first code kind from `k` on agree in it from `j + 1` on. */
  lemma {:induction false} FirstCodeKindFrame(cs: seq<Node>, k: nat, cs': seq<Node>, j: nat)
    requires j < k <= |cs| && k <= |cs'| && cs'[..k] == cs[..k]
    requires FirstCodeKind(cs'[k..]) == FirstCodeKind(cs[k..])
    ensures FirstCodeKind(cs[j + 1..]) == FirstCodeKind(cs'[j + 1..])
  {
    assert cs[j + 1..] == cs[j + 1..k] + cs[k..] && cs'[j + 1..] == cs'[j + 1..k] + cs'[k..];
    assert cs[j + 1..k] == cs[..k][j + 1..] == cs'[j + 1..k];
    FirstCodeKindAppend(cs[j + 1..k], cs[k..]);
    FirstCodeKindAppend(cs'[j + 1..k], cs'[k..]);
  }

  /** What the walk keeps true from one child to the next. */
  predicate WalkInvariant(ctx: Context, cs: seq<Node>, k: nat, count: nat, seen: nat) {
    && k <= |cs|
    && count == CountParameters(cs)
    && seen == CountParameters(cs[..k])
    && SettledBelow(cs, count, k)
    && CommasFitFrom(ctx, cs[k..], seen, count, ContainsNoComments(cs))
  }

  /** A step that `Advances` and settles the children it passes keeps the walk invariant. */
  lemma {:induction false} AdvanceKeepsInvariant(ctx: Context, cs: seq<Node>, k: nat, cs': seq<Node>, k': nat, count: nat, seen: nat, seen': nat)
    requires Advances(cs, k, cs', k') && WalkInvariant(ctx, cs, k, count, seen)
    requires SettledBetween(cs', count, k, k')
    requires seen' == seen + (if cs[k].kind == ValueParameter then 1 else 0)
    ensures WalkInvariant(ctx, cs', k', count, seen')
  {
    AdvanceKeepsCounts(cs, k, cs', k');
    AdvanceKeepsSettled(cs, k, cs', k', count);
    AdvanceKeepsCommas(ctx, cs, k, count, seen, ContainsNoComments(cs));
    assert cs'[k'..] == cs[k + 1..];
  }

  /** The commas still to fit after child `k` are those after `k + 1`, counted from past child `k`. */
  lemma {:induction false} AdvanceKeepsCommas(ctx: Context, cs: seq<Node>, k: nat, count: nat, seen: nat, noComments: bool)
    requires k < |cs| && CommasFitFrom(ctx, cs[k..], seen, count, noComments)
    ensures CommasFitFrom(ctx, cs[k + 1..], seen + (if cs[k].kind == ValueParameter then 1 else 0), count, noComments)
  {
    assert cs[k..][0] == cs[k] && cs[k..][1..] == cs[k + 1..];
  }

  /** A step that `Advances` keeps the number of parameters, and counts child `k` among those passed. */
  lemma {:induction false} AdvanceKeepsCounts(cs: seq<Node>, k: nat, cs': seq<Node>, k': nat)
    requires Advances(cs, k, cs', k')
    ensures CountParameters(cs') == CountParameters(cs)
    ensures CountParameters(cs'[..k']) == CountParameters(cs[..k]) + (if cs[k].kind == ValueParameter then 1 else 0)
  {
    CountParametersStep(cs, k);
    CountParametersSplit(cs, k + 1);
    CountParametersSplit(cs', k');
  }

  /** A step that `Advances` keeps the children before `k` settled. */
  lemma {:induction false} AdvanceKeepsSettled(cs: seq<Node>, k: nat, cs': seq<Node>, k': nat, count: nat)
    requires Advances(cs, k, cs', k') && SettledBelow(cs, count, k)
    requires SettledBetween(cs', count, k, k')
    ensures SettledBelow(cs', count, k')
  {
    forall j | 0 <= j < k
      ensures SettledAt(cs', count, j)
    {
      SettledFrame(cs, k, cs', k', count, j);
    }
  }


  /** The space inserted after a comma that fits is kept when the walk reaches it. */
  lemma {:induction false} InsertedSpaceKept(ctx: Context, cs: seq<Node>, k: nat, count: nat, seen: nat)
    requires k < |cs| && IsCode(cs[k]) && cs[k].kind == Comma && seen == CountParameters(cs[..k])
    requires LacksSpace(ctx, cs[k + 1..]) && CommaFits(ctx, cs[k + 1..], seen, count, ContainsNoComments(cs))
    ensures SettledAt(InsertAt(cs, k + 1, WhiteSpaceLeaf(" ")), count, k + 1)
  {
    var w := WhiteSpaceLeaf(" ");
    var cs' := InsertAt(cs, k + 1, w);
    InsertAtSlices(cs, k + 1, w);
    CountParametersStep(cs, k);
    InsertKeepsComments(cs, k + 1, w);
    SpaceBeforeNonCommaKept(cs', k + 1, count, seen);
  }

  lemma {:induction false} InsertAtSlices(cs: seq<Node>, k: nat, w: Node)
    requires k <= |cs|
    ensures InsertAt(cs, k, w)[..k] == cs[..k] && InsertAt(cs, k, w)[k] == w && InsertAt(cs, k, w)[k + 1..] == cs[k..]
  {
  }

  /** A single space whose next code sibling is not a comma, between parameters or in a list with comments, is kept. */
  lemma {:induction false} SpaceBeforeNonCommaKept(cs: seq<Node>, j: nat, count: nat, seen: nat)
    requires j < |cs| && cs[j] == WhiteSpaceLeaf(" ")
    requires FirstCodeKind(cs[j + 1..]) != Some(Comma)
    requires ContainsNoComments(cs) ==> 0 < seen < count
    ensures WhiteSpaceVerdict(cs, j, count, seen) == Keep
  {
    NextCodeSiblingKind(cs, j);
  }


  /**
    With every fix allowed, a completed walk over a list whose commas fit
    leaves children that a second walk passes without removing, collapsing
    or aborting on any whitespace, and with the same number of parameters.
   */
  lemma {:induction false} AllowedWalkSettles(ctx: Context, cs: seq<Node>, maxLineLength: int)
    requires CommasFit(ctx, cs)
    ensures var r := VisitValueParameterList(ctx, cs, maxLineLength, AllowAll());
      r.Completed? ==> CountParameters(r.value.children) == CountParameters(cs) && ListSettled(r.value.children)
  {
    assert cs[..0] == [] && cs[0..] == cs;
    ListSettles(ctx, cs, 0, CountParameters(cs), 0, maxLineLength, []);
  }

  lemma {:induction false} ListSettles(
    ctx: Context, cs: seq<Node>, k: nat, count: nat, seen: nat, maxLineLength: int, log: seq<Report>
  )
    requires WalkInvariant(ctx, cs, k, count, seen)
    ensures var r := VisitListFrom(ctx, cs, k, count, seen, maxLineLength, AllowAll(), log);
      r.Completed? ==> CountParameters(r.value.children) == count && ListSettled(r.value.children)
    decreases |cs| - k, 1
  {
    if k < |cs| {
      if IsWhiteSpace(cs[k]) {
        WhiteSpaceStepSettles(ctx, cs, k, count, seen, maxLineLength, log);
      } else if cs[k].kind == Comma {
        CommaStepSettles(ctx, cs, k, count, seen, maxLineLength, log);
      } else if cs[k].kind == ValueParameter {
        ParameterStepSettles(ctx, cs, k, count, seen, maxLineLength, log);
      } else {
        SkipAdvances(cs, k);
        assert SettledAt(cs, count, k) && SettledBetween(cs, count, k, k + 1);
        AdvanceKeepsInvariant(ctx, cs, k, cs, k + 1, count, seen, seen);
        ListSettles(ctx, cs, k + 1, count, seen, maxLineLength, log);
      }
    }
  }

  lemma {:induction false} WhiteSpaceStepSettles(
    ctx: Context, cs: seq<Node>, k: nat, count: nat, seen: nat, maxLineLength: int, log: seq<Report>
  )
    requires WalkInvariant(ctx, cs, k, count, seen) && k < |cs| && IsWhiteSpace(cs[k])
    ensures var r := VisitListFrom(ctx, cs, k, count, seen, maxLineLength, AllowAll(), log);
      r.Completed? ==> CountParameters(r.value.children) == count && ListSettled(r.value.children)
    decreases |cs| - k, 0
  {
    var v := WhiteSpaceVerdict(cs, k, count, seen);
    if v != Fail {
      var (cs', k', log') := WhiteSpaceStep(ctx.before, cs, k, v, AllowAll(), log);
      WhiteSpaceStepAdvances(ctx, cs, k, count, seen, log);
      ListSettles(ctx, cs', k', count, seen, maxLineLength, log');
    }
  }

  /** An allowed whitespace step keeps the walk invariant. */
  lemma {:induction false} WhiteSpaceStepAdvances(ctx: Context, cs: seq<Node>, k: nat, count: nat, seen: nat, log: seq<Report>)
    requires WalkInvariant(ctx, cs, k, count, seen) && k < |cs| && IsWhiteSpace(cs[k])
    requires WhiteSpaceVerdict(cs, k, count, seen) != Fail
    ensures var v := WhiteSpaceVerdict(cs, k, count, seen);
      var (cs', k', log') := WhiteSpaceStep(ctx.before, cs, k, v, AllowAll(), log);
      WalkInvariant(ctx, cs', k', count, seen)
  {
    var v := WhiteSpaceVerdict(cs, k, count, seen);
    WhiteSpaceStepEditsWhiteSpace(ctx.before, cs, k, v, AllowAll(), log);
    if v == Remove {
      RemoveKeepsInvariant(ctx, cs, k, count, seen);
    } else if v == Collapse {
      CollapseKeepsInvariant(ctx, cs, k, count, seen);
    } else {
      KeepKeepsInvariant(ctx, cs, k, count, seen);
    }
  }

  /** Removing whitespace keeps the walk invariant at the same index. */
  lemma {:induction false} RemoveKeepsInvariant(ctx: Context, cs: seq<Node>, k: nat, count: nat, seen: nat)
    requires WalkInvariant(ctx, cs, k, count, seen) && k < |cs| && IsWhiteSpace(cs[k])
    ensures WalkInvariant(ctx, RemoveAt(cs, k), k, count, seen)
  {
    RemoveAdvances(cs, k);
    assert SettledBetween(RemoveAt(cs, k), count, k, k);
    AdvanceKeepsInvariant(ctx, cs, k, RemoveAt(cs, k), k, count, seen, seen);
  }

  /** Collapsing whitespace to one space keeps the walk invariant past it. */
  lemma {:induction false} CollapseKeepsInvariant(ctx: Context, cs: seq<Node>, k: nat, count: nat, seen: nat)
    requires WalkInvariant(ctx, cs, k, count, seen) && k < |cs| && IsWhiteSpace(cs[k])
    requires WhiteSpaceVerdict(cs, k, count, seen) == Collapse
    ensures WalkInvariant(ctx, cs[k := WhiteSpaceLeaf(" ")], k + 1, count, seen)
  {
    var cs' := cs[k := WhiteSpaceLeaf(" ")];
    ReplaceAdvances(cs, k, WhiteSpaceLeaf(" "));
    CollapseIsFinal(cs, k, count, seen);
    assert cs'[..k] == cs[..k];
    assert SettledAt(cs', count, k) && SettledBetween(cs', count, k, k + 1);
    AdvanceKeepsInvariant(ctx, cs, k, cs', k + 1, count, seen, seen);
  }

  /** Passing whitespace whose verdict is Keep keeps the walk invariant past it. */
  lemma {:induction false} KeepKeepsInvariant(ctx: Context, cs: seq<Node>, k: nat, count: nat, seen: nat)
    requires WalkInvariant(ctx, cs, k, count, seen) && k < |cs| && IsWhiteSpace(cs[k])
    requires WhiteSpaceVerdict(cs, k, count, seen) == Keep
    ensures WalkInvariant(ctx, cs, k + 1, count, seen)
  {
    SkipAdvances(cs, k);
    assert SettledAt(cs, count, k) && SettledBetween(cs, count, k, k + 1);
    AdvanceKeepsInvariant(ctx, cs, k, cs, k + 1, count, seen, seen);
  }

  lemma {:induction false} CommaStepSettles(
    ctx: Context, cs: seq<Node>, k: nat, count: nat, seen: nat, maxLineLength: int, log: seq<Report>
  )
    requires WalkInvariant(ctx, cs, k, count, seen) && k < |cs| && !IsWhiteSpace(cs[k]) && cs[k].kind == Comma
    ensures var r := VisitListFrom(ctx, cs, k, count, seen, maxLineLength, AllowAll(), log);
      r.Completed? ==> CountParameters(r.value.children) == count && ListSettled(r.value.children)
    decreases |cs| - k, 0
  {
    var (cs', k', log') := CommaStep(ctx, cs, k, AllowAll(), log);
    CommaStepAdvances(ctx, cs, k, count, seen, log);
    ListSettles(ctx, cs', k', count, seen, maxLineLength, log');
  }

  /** An allowed comma step keeps the walk invariant. */
  lemma {:induction false} CommaStepAdvances(ctx: Context, cs: seq<Node>, k: nat, count: nat, seen: nat, log: seq<Report>)
    requires WalkInvariant(ctx, cs, k, count, seen) && k < |cs| && !IsWhiteSpace(cs[k]) && cs[k].kind == Comma
    ensures var (cs', k', log') := CommaStep(ctx, cs, k, AllowAll(), log);
      WalkInvariant(ctx, cs', k', count, seen)
  {
    var (cs', k', log') := CommaStep(ctx, cs, k, AllowAll(), log);
    if LacksSpace(ctx, cs[k + 1..]) {
      assert Emit(AllowAll(), log, ChildOffset(ctx.before, cs, k), MissingWhiteSpaceMessage(cs[k])).0 == AllowAutocorrect;
      assert cs' == InsertAt(cs, k + 1, WhiteSpaceLeaf(" ")) && k' == k + 2;
      InsertKeepsInvariant(ctx, cs, k, count, seen);
    } else {
      assert cs' == cs && k' == k + 1;
      SkipAdvances(cs, k);
      assert SettledAt(cs, count, k) && SettledBetween(cs, count, k, k + 1);
      AdvanceKeepsInvariant(ctx, cs, k, cs, k + 1, count, seen, seen);
    }
  }

  /** Inserting a space after a comma that lacks one keeps the walk invariant. */
  lemma {:induction false} InsertKeepsInvariant(ctx: Context, cs: seq<Node>, k: nat, count: nat, seen: nat)
    requires WalkInvariant(ctx, cs, k, count, seen) && k < |cs| && !IsWhiteSpace(cs[k]) && cs[k].kind == Comma
    requires LacksSpace(ctx, cs[k + 1..])
    ensures WalkInvariant(ctx, InsertAt(cs, k + 1, WhiteSpaceLeaf(" ")), k + 2, count, seen)
  {
    assert cs[k..][0] == cs[k] && cs[k..][1..] == cs[k + 1..];
    InsertAdvances(cs, k);
    InsertedSpaceKept(ctx, cs, k, count, seen);
    InsertedPairSettled(cs, k, count);
    AdvanceKeepsInvariant(ctx, cs, k, InsertAt(cs, k + 1, WhiteSpaceLeaf(" ")), k + 2, count, seen, seen);
  }

  /** The comma and the space inserted after it are both settled once the space is. */
  lemma {:induction false} InsertedPairSettled(cs: seq<Node>, k: nat, count: nat)
    requires k < |cs| && !IsWhiteSpace(cs[k])
    requires SettledAt(InsertAt(cs, k + 1, WhiteSpaceLeaf(" ")), count, k + 1)
    ensures SettledBetween(InsertAt(cs, k + 1, WhiteSpaceLeaf(" ")), count, k, k + 2)
  {
    var cs' := InsertAt(cs, k + 1, WhiteSpaceLeaf(" "));
    forall j | k <= j < k + 2
      ensures SettledAt(cs', count, j)
    {
      if j == k {
        assert cs'[j] == cs[k];
      }
    }
  }

  lemma {:induction false} ParameterStepSettles(
    ctx: Context, cs: seq<Node>, k: nat, count: nat, seen: nat, maxLineLength: int, log: seq<Report>
  )
    requires WalkInvariant(ctx, cs, k, count, seen) && k < |cs| && !IsWhiteSpace(cs[k]) && cs[k].kind == ValueParameter
    ensures var r := VisitListFrom(ctx, cs, k, count, seen, maxLineLength, AllowAll(), log);
      r.Completed? ==> CountParameters(r.value.children) == count && ListSettled(r.value.children)
    decreases |cs| - k, 0
  {
    var before := ctx.before + TextOf(cs[..k]);
    var after := TextOf(cs[k + 1..]) + ctx.after;
    var (p, log') := VisitValueParameter(cs[k], before, after, maxLineLength, AllowAll(), log);
    ParameterStepAdvances(ctx, cs, k, p, count, seen);
    ListSettles(ctx, cs[k := p], k + 1, count, seen + 1, maxLineLength, log');
  }

  /** Putting the visited parameter `p` in place of child `k` keeps the walk invariant. */
  lemma {:induction false} ParameterStepAdvances(ctx: Context, cs: seq<Node>, k: nat, p: Node, count: nat, seen: nat)
    requires WalkInvariant(ctx, cs, k, count, seen) && k < |cs| && !IsWhiteSpace(cs[k]) && cs[k].kind == ValueParameter
    requires p.kind == ValueParameter
    ensures WalkInvariant(ctx, cs[k := p], k + 1, count, seen + 1)
  {
    ReplaceAdvances(cs, k, p);
    assert SettledAt(cs[k := p], count, k) && SettledBetween(cs[k := p], count, k, k + 1);
    AdvanceKeepsInvariant(ctx, cs, k, cs[k := p], k + 1, count, seen, seen + 1);
  }

  /** The walk from child `k` on never changes the children before `k`. */
  lemma {:induction false} ListKeepsVisitedPrefix(
    ctx: Context, cs: seq<Node>, k: nat, count: nat, seen: nat,
    maxLineLength: int, policy: Policy, log: seq<Report>
  )
    requires k <= |cs|
    ensures var r := VisitListFrom(ctx, cs, k, count, seen, maxLineLength, policy, log);
      r.Completed? ==> k <= |r.value.children| && r.value.children[..k] == cs[..k]
    decreases |cs| - k, 1
  {
    if k < |cs| {
      if IsWhiteSpace(cs[k]) {
        WhiteSpaceStepKeepsPrefix(ctx, cs, k, count, seen, maxLineLength, policy, log);
      } else if cs[k].kind == Comma {
        CommaStepKeepsPrefix(ctx, cs, k, count, seen, maxLineLength, policy, log);
      } else if cs[k].kind == ValueParameter {
        ParameterStepKeepsPrefix(ctx, cs, k, count, seen, maxLineLength, policy, log);
      } else {
        ListKeepsVisitedPrefix(ctx, cs, k + 1, count, seen, maxLineLength, policy, log);
        assert cs[..k + 1][..k] == cs[..k];
      }
    }
  }

  lemma {:induction false} WhiteSpaceStepKeepsPrefix(
    ctx: Context, cs: seq<Node>, k: nat, count: nat, seen: nat,
    maxLineLength: int, policy: Policy, log: seq<Report>
  )
    requires k < |cs| && IsWhiteSpace(cs[k])
    ensures var r := VisitListFrom(ctx, cs, k, count, seen, maxLineLength, policy, log);
      r.Completed? ==> k <= |r.value.children| && r.value.children[..k] == cs[..k]
    decreases |cs| - k, 0
  {
    var v := WhiteSpaceVerdict(cs, k, count, seen);
    if v != Fail {
      var r := VisitListFrom(ctx, cs, k, count, seen, maxLineLength, policy, log);
      var (cs', k', log') := WhiteSpaceStep(ctx.before, cs, k, v, policy, log);
      assert r == VisitListFrom(ctx, cs', k', count, seen, maxLineLength, policy, log');
      ListKeepsVisitedPrefix(ctx, cs', k', count, seen, maxLineLength, policy, log');
      assert cs'[..k] == cs'[..k'][..k];
    }
  }

  lemma {:induction false} CommaStepKeepsPrefix(
    ctx: Context, cs: seq<Node>, k: nat, count: nat, seen: nat,
    maxLineLength: int, policy: Policy, log: seq<Report>
  )
    requires k < |cs| && !IsWhiteSpace(cs[k]) && cs[k].kind == Comma
    ensures var r := VisitListFrom(ctx, cs, k, count, seen, maxLineLength, policy, log);
      r.Completed? ==> k <= |r.value.children| && r.value.children[..k] == cs[..k]
    decreases |cs| - k, 0
  {
    var r := VisitListFrom(ctx, cs, k, count, seen, maxLineLength, policy, log);
    var (cs', k', log') := CommaStep(ctx, cs, k, policy, log);
    assert r == VisitListFrom(ctx, cs', k', count, seen, maxLineLength, policy, log');
    ListKeepsVisitedPrefix(ctx, cs', k', count, seen, maxLineLength, policy, log');
    assert cs'[..k] == cs'[..k'][..k] && cs[..k] == cs[..k + 1][..k] && cs'[..k] == cs'[..k + 1][..k];
  }

  lemma {:induction false} ParameterStepKeepsPrefix(
    ctx: Context, cs: seq<Node>, k: nat, count: nat, seen: nat,
    maxLineLength: int, policy: Policy, log: seq<Report>
  )
    requires k < |cs| && !IsWhiteSpace(cs[k]) && cs[k].kind == ValueParameter
    ensures var r := VisitListFrom(ctx, cs, k, count, seen, maxLineLength, policy, log);
      r.Completed? ==> k <= |r.value.children| && r.value.children[..k] == cs[..k]
    decreases |cs| - k, 0
  {
    var r := VisitListFrom(ctx, cs, k, count, seen, maxLineLength, policy, log);
    var before := ctx.before + TextOf(cs[..k]);
    var after := TextOf(cs[k + 1..]) + ctx.after;
    var (p, log') := VisitValueParameter(cs[k], before, after, maxLineLength, policy, log);
    assert r == VisitListFrom(ctx, cs[k := p], k + 1, count, seen + 1, maxLineLength, policy, log');
    ListKeepsVisitedPrefix(ctx, cs[k := p], k + 1, count, seen + 1, maxLineLength, policy, log');
    assert cs[k := p][..k + 1][..k] == cs[..k];
  }

  /**
    A comma the walk gives a space keeps it to the end of the walk: in the
    children a completed walk leaves, the comma is followed by that single
    space, so it no longer lacks one.
   */
  lemma {:induction false} CommaSpaceKept(
    ctx: Context, cs: seq<Node>, k: nat, count: nat, seen: nat,
    maxLineLength: int, policy: Policy, log: seq<Report>, e: Edit
  )
    requires k < |cs| && !IsWhiteSpace(cs[k]) && cs[k].kind == Comma
    requires VisitListFrom(ctx, cs, k, count, seen, maxLineLength, policy, log) == Completed(e)
    requires var log' := CommaStep(ctx, cs, k, policy, log).2;
      |log'| > |log| && log'[|log|].decision == AllowAutocorrect
    ensures k + 1 < |e.children| && e.children[k] == cs[k] && e.children[k + 1] == WhiteSpaceLeaf(" ")
    ensures !LacksSpace(ctx, e.children[k + 1..])
  {
    var (cs', k', log') := CommaStep(ctx, cs, k, policy, log);
    assert Completed(e) == VisitListFrom(ctx, cs', k', count, seen, maxLineLength, policy, log');
    CommaStepEditsWhiteSpace(ctx, cs, k, policy, log);
    ListKeepsVisitedPrefix(ctx, cs', k', count, seen, maxLineLength, policy, log');
    InsertedSpaceStays(ctx, cs, k, cs', e.children);
  }

  /** Children that keep the first `k + 2` of `cs` with a space inserted after `k` hold that space after `cs[k]`. */
  lemma {:induction false} InsertedSpaceStays(ctx: Context, cs: seq<Node>, k: nat, cs': seq<Node>, us: seq<Node>)
    requires k < |cs| && cs' == InsertAt(cs, k + 1, WhiteSpaceLeaf(" "))
    requires k + 2 <= |us| && us[..k + 2] == cs'[..k + 2]
    ensures k + 1 < |us| && us[k] == cs[k] && us[k + 1] == WhiteSpaceLeaf(" ")
    ensures !LacksSpace(ctx, us[k + 1..])
  {
    assert us[k] == us[..k + 2][k] && us[k + 1] == us[..k + 2][k + 1];
    SpaceFirstNotLacking(ctx, us[k + 1..]);
  }

  /** Children that start with a single space do not lack one. */
  lemma {:induction false} SpaceFirstNotLacking(ctx: Context, us: seq<Node>)
    requires us != [] && us[0] == WhiteSpaceLeaf(" ")
    ensures !LacksSpace(ctx, us)
  {
    LeavesOfSingle(us[0]);
    LeavesOfAppend([us[0]], us[1..]);
    assert us == [us[0]] + us[1..];
  }

  /** The children of `(a,b)` for parameter names `a` and `b`: each parameter is just its name. */
  function TightPairList(a: string, b: string): seq<Node> {
    [Leaf(LPar, "("), Composite(ValueParameter, [Leaf(Identifier, a)]), Leaf(Comma, ","),
     Composite(ValueParameter, [Leaf(Identifier, b)]), Leaf(RPar, ")")]
  }

  /** The comma of `(a,b)` lacks a space and fits, so the allowed walk over it settles. */
  lemma {:induction false} TightPairListFits(ctx: Context, a: string, b: string)
    ensures CommasFit(ctx, TightPairList(a, b))
    ensures LacksSpace(ctx, TightPairList(a, b)[3..])
  {
    TightPairCommasFit(ctx, a, b);
    TightPairListLeaves(a, b);
  }

  /** Every comma of `(a,b)` fits. */
  lemma {:induction false} TightPairCommasFit(ctx: Context, a: string, b: string)
    ensures CommasFit(ctx, TightPairList(a, b))
  {
    var cs := TightPairList(a, b);
    TightPairListShape(a, b);
    TightPairListHasNoComments(a, b);
    TightPairAfterLParFits(ctx, a, b);
    assert cs[1..] == cs[0..][1..] && cs[0..] == cs;
  }

  /** Past `(`, the comma of `(a,b)` fits: it stands between the first and the second parameter. */
  lemma {:induction false} TightPairAfterLParFits(ctx: Context, a: string, b: string)
    ensures CommasFitFrom(ctx, TightPairList(a, b)[1..], 0, 2, true)
  {
    var cs := TightPairList(a, b);
    TightPairAfterCommaFits(ctx, a, b);
    TightPairAfterCommaCode(a, b);
    assert cs[1..][0] == cs[1] && cs[1..][1..] == cs[2..];
    assert cs[2..][0] == cs[2] && cs[2..][1..] == cs[3..];
    assert CommasFitFrom(ctx, cs[2..], 1, 2, true);
  }

  /** The first code after the comma of `(a,b)` is the parameter `b`. */
  lemma {:induction false} TightPairAfterCommaCode(a: string, b: string)
    ensures FirstCodeKind(TightPairList(a, b)[3..]) == Some(ValueParameter)
  {
    var cs := TightPairList(a, b);
    assert cs[3..][0] == cs[3];
  }

  /** After the comma of `(a,b)` there is no other comma. */
  lemma {:induction false} TightPairAfterCommaFits(ctx: Context, a: string, b: string)
    ensures CommasFitFrom(ctx, TightPairList(a, b)[3..], 1, 2, true)
  {
    var cs := TightPairList(a, b);
    assert cs[3..][0] == cs[3] && cs[3..][1..] == cs[4..];
    assert cs[4..][0] == cs[4] && cs[4..][1..] == [];
    assert CommasFitFrom(ctx, cs[4..], 2, 2, true);
  }

  /** `(a,b)` has no comment. */
  lemma {:induction false} TightPairListHasNoComments(a: string, b: string)
    ensures ContainsNoComments(TightPairList(a, b))
  {
    var cs := TightPairList(a, b);
    forall i | 0 <= i < |cs| ensures !IsComment(cs[i]) {
      assert cs[i].kind in {LPar, ValueParameter, Comma, RPar};
    }
  }

  /** `(a,b)` has two parameters. */
  lemma {:induction false} TightPairListShape(a: string, b: string)
    ensures CountParameters(TightPairList(a, b)) == 2
  {
    var cs := TightPairList(a, b);
    assert cs[..0] == [];
    CountParametersStep(cs, 0);
    CountParametersStep(cs, 1);
    CountParametersStep(cs, 2);
    CountParametersStep(cs, 3);
    CountParametersStep(cs, 4);
    assert cs[..5] == cs;
  }

  /** The leaves after the comma of `(a,b)` are `b` and `)`. */
  lemma {:induction false} TightPairListLeaves(a: string, b: string)
    ensures LeavesOf(TightPairList(a, b)[3..]) == [Leaf(Identifier, b), Leaf(RPar, ")")]
  {
    var cs := TightPairList(a, b);
    var id, rpar := Leaf(Identifier, b), Leaf(RPar, ")");
    assert cs[3..] == [Composite(ValueParameter, [id])] + [rpar];
    LeavesOfAppend([Composite(ValueParameter, [id])], [rpar]);
    LeavesOfSingle(Composite(ValueParameter, [id]));
    LeavesOfSingle(id);
    LeavesOfSingle(rpar);
  }
}
