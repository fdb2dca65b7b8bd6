/**
  The syntax tree the rules inspect and edit: an immutable model of the
  Kotlin PSI tree ktlint works on. A node has an element type; a leaf also
  has its text, a composite has an ordered sequence of children. The text of
  a file is the concatenation of the texts of its leaves, so the start offset
  of a node is the length of the text of the leaves before it, counted in
  UTF-16 code units as a Kotlin string counts them.

  Nodes inside the file are addressed by paths of child indices from the
  root. Whitespace is always a leaf, as the Kotlin parser produces it.
 */
module Syntax {

  datatype Option<T> = None | Some(value: T)

  /** The element types the modelled rules distinguish; everything else is `Other`. */
  datatype ElementType =
    // whitespace and comments
    | WhiteSpace | EolComment | BlockComment | KDoc
    // punctuation and keywords
    | Comma | Colon | LPar | RPar | LBrace | RBrace
    | ElseKeyword | ReturnKeyword | Identifier
    // operators
    | Dot | SafeAccess | Elvis
    | Mul | Div | Perc | AndAnd | OrOr | Plus | Minus
    | PlusPlus | MinusMinus | ExclExcl | Excl
    | Lt | Gt | LtEq | GtEq | EqEqEq | ExclEqEqEq | EqEq | ExclEq
    | Range | RangeUntil | Eq | MultEq | DivEq | PercEq | PlusEq | MinusEq
    | AsKeyword | AsSafe | IsKeyword | InKeyword | NotIn | NotIs
    // composite element types
    | File | ValueParameterList | ValueParameter | ModifierList | AnnotationEntry | TypeReference
    | OperationReference | PrefixExpression
    | Class | ClassBody | ClassInitializer | Fun | ObjectDeclaration | ObjectLiteral
    | Property | PropertyAccessor | Block | FunctionLiteral | ValueArgument | When
    | Other(name: string)

  /** The element types of comments (a KDoc is a composite comment). */
  predicate IsCommentType(t: ElementType) {
    t == EolComment || t == BlockComment || t == KDoc
  }

  /**
    The Kotlin compiler's `KtTokens.OPERATIONS` token set (the compiler's
    lexer is not part of this model; the set is restated here).
   */
  predicate IsOperation(t: ElementType) {
    t in {AsKeyword, AsSafe, IsKeyword, InKeyword, Dot, PlusPlus, MinusMinus, ExclExcl, Mul, Plus,
          Minus, Excl, Div, Perc, Lt, Gt, LtEq, GtEq, EqEqEq, ExclEqEqEq, EqEq, ExclEq, AndAnd, OrOr,
          SafeAccess, Elvis, Range, RangeUntil, Eq, MultEq, DivEq, PercEq, PlusEq, MinusEq,
          NotIn, NotIs, Identifier}
  }

  datatype Node =
    | Leaf(kind: ElementType, text: string)
    | Composite(kind: ElementType, children: seq<Node>)

  function Children(n: Node): seq<Node> {
    if n.Composite? then n.children else []
  }

  predicate IsWhiteSpace(n: Node) {
    n.Leaf? && n.kind == WhiteSpace
  }

  /** Whitespace containing a line break (ktlint: `isWhiteSpaceWithNewline20`, an "indent"). */
  predicate IsIndent(n: Node) {
    IsWhiteSpace(n) && '\n' in n.text
  }

  /** Whitespace without a line break (ktlint: `isWhiteSpaceWithoutNewline20`). */
  predicate IsSameLineWhiteSpace(n: Node) {
    IsWhiteSpace(n) && '\n' !in n.text
  }

  predicate IsComment(n: Node) {
    IsCommentType(n.kind)
  }

  /** Neither whitespace nor a comment (ktlint: `isCode`), for nodes outside comments. */
  predicate IsCode(n: Node) {
    !IsWhiteSpace(n) && !IsComment(n)
  }

  function WhiteSpaceLeaf(text: string): (n: Node)
    ensures IsWhiteSpace(n) && n.text == text
  {
    Leaf(WhiteSpace, text)
  }

  // ---------------------------------------------------------------------------
  // Text and leaves

  function Text(n: Node): string
    decreases n
  {
    match n
    case Leaf(_, t) => t
    case Composite(_, cs) => TextOf(cs)
  }

  function TextOf(ns: seq<Node>): string
    decreases ns
  {
    if ns == [] then "" else Text(ns[0]) + TextOf(ns[1..])
  }

  function Leaves(n: Node): seq<Node>
    decreases n
  {
    match n
    case Leaf(_, _) => [n]
    case Composite(_, cs) => LeavesOf(cs)
  }

  function LeavesOf(ns: seq<Node>): seq<Node>
    decreases ns
  {
    if ns == [] then [] else Leaves(ns[0]) + LeavesOf(ns[1..])
  }

  /** The leaves that are not whitespace: what a whitespace-only edit must not change. */
  function Significant(ls: seq<Node>): seq<Node> {
    if ls == [] then []
    else if IsWhiteSpace(ls[0]) then Significant(ls[1..])
    else [ls[0]] + Significant(ls[1..])
  }

  /** The significant leaves are exactly the leaves that are not whitespace. */
  lemma {:induction false} SignificantIsFilter(ls: seq<Node>)
    ensures forall l :: l in Significant(ls) <==> l in ls && !IsWhiteSpace(l)
  {
    if ls != [] {
      SignificantIsFilter(ls[1..]);
      assert ls == [ls[0]] + ls[1..];
    }
  }

  lemma {:induction false} TextOfAppend(a: seq<Node>, b: seq<Node>)
    ensures TextOf(a + b) == TextOf(a) + TextOf(b)
    decreases a
  {
    if a == [] {
      assert a + b == b;
    } else {
      assert (a + b)[1..] == a[1..] + b;
      TextOfAppend(a[1..], b);
    }
  }

  // ---------------------------------------------------------------------------
  // Lengths in UTF-16 code units

  /** The number of UTF-16 code units that encode `c`: two outside the Basic Multilingual Plane. */
  function Utf16Units(c: char): nat {
    if c as int < 0x1_0000 then 1 else 2
  }

  /** Kotlin `String.length`: the number of UTF-16 code units of `s`. */
  function Utf16Length(s: string): nat {
    if s == [] then 0 else Utf16Units(s[0]) + Utf16Length(s[1..])
  }

  lemma {:induction false} Utf16LengthAppend(a: string, b: string)
    ensures Utf16Length(a + b) == Utf16Length(a) + Utf16Length(b)
  {
    if a == [] {
      assert a + b == b;
    } else {
      assert (a + b)[0] == a[0] && (a + b)[1..] == a[1..] + b;
      Utf16LengthAppend(a[1..], b);
    }
  }

  /**
    A string has between one and two code units per character, and exactly
    one per character when no character lies outside the Basic Multilingual Plane.
   */
  lemma {:induction false} Utf16LengthBounds(s: string)
    ensures |s| <= Utf16Length(s) <= 2 * |s|
    ensures Utf16Length(s) == |s| <==> forall i :: 0 <= i < |s| ==> s[i] as int < 0x1_0000
  {
    if s != [] {
      Utf16LengthBounds(s[1..]);
      if Utf16Length(s) == |s| {
        forall i | 0 <= i < |s|
          ensures s[i] as int < 0x1_0000
        {
          if i > 0 {
            assert s[i] == s[1..][i - 1];
          }
        }
      }
    }
  }

  /** An emoji is one character of a Dafny string and two code units of a Kotlin string. */
  lemma {:induction false} AstralCharCountsTwice()
    ensures |"\U{1F600}"| == 1 && Utf16Length("\U{1F600}") == 2
  {
    assert "\U{1F600}"[1..] == "";
  }

  lemma {:induction false} LeavesOfAppend(a: seq<Node>, b: seq<Node>)
    ensures LeavesOf(a + b) == LeavesOf(a) + LeavesOf(b)
    decreases a
  {
    if a == [] {
      assert a + b == b;
    } else {
      assert (a + b)[1..] == a[1..] + b;
      LeavesOfAppend(a[1..], b);
    }
  }

  lemma {:induction false} SignificantAppend(a: seq<Node>, b: seq<Node>)
    ensures Significant(a + b) == Significant(a) + Significant(b)
    decreases a
  {
    if a == [] {
      assert a + b == b;
    } else {
      assert (a + b)[1..] == a[1..] + b;
      SignificantAppend(a[1..], b);
    }
  }

  lemma {:induction false} LeavesOfSingle(n: Node)
    ensures LeavesOf([n]) == Leaves(n)
  {
    assert [n][1..] == [];
  }

  lemma {:induction false} TextOfSingle(n: Node)
    ensures TextOf([n]) == Text(n)
  {
    assert [n][1..] == [];
  }

  /** A sequence of nodes that are all whitespace leaves has no significant leaf. */
  lemma {:induction false} WhiteSpaceOnlyIsInsignificant(ws: seq<Node>)
    requires forall i :: 0 <= i < |ws| ==> IsWhiteSpace(ws[i])
    ensures Significant(LeavesOf(ws)) == []
    decreases ws
  {
    if ws != [] {
      LeavesOfAppend([ws[0]], ws[1..]);
      assert [ws[0]] + ws[1..] == ws;
      LeavesOfSingle(ws[0]);
      SignificantAppend(Leaves(ws[0]), LeavesOf(ws[1..]));
      WhiteSpaceOnlyIsInsignificant(ws[1..]);
    }
  }

  /**
    Replacing a run of whitespace leaves among siblings by another run of
    whitespace leaves (removing one, inserting one, or changing its text)
    leaves the significant leaves unchanged.
   */
  lemma {:induction false} WhiteSpaceEditKeepsSignificant(a: seq<Node>, x: seq<Node>, y: seq<Node>, b: seq<Node>)
    requires forall i :: 0 <= i < |x| ==> IsWhiteSpace(x[i])
    requires forall i :: 0 <= i < |y| ==> IsWhiteSpace(y[i])
    ensures Significant(LeavesOf(a + x + b)) == Significant(LeavesOf(a + y + b))
  {
    LeavesOfAppend(a + x, b);
    LeavesOfAppend(a, x);
    LeavesOfAppend(a + y, b);
    LeavesOfAppend(a, y);
    SignificantAppend(LeavesOf(a) + LeavesOf(x), LeavesOf(b));
    SignificantAppend(LeavesOf(a), LeavesOf(x));
    SignificantAppend(LeavesOf(a) + LeavesOf(y), LeavesOf(b));
    SignificantAppend(LeavesOf(a), LeavesOf(y));
    WhiteSpaceOnlyIsInsignificant(x);
    WhiteSpaceOnlyIsInsignificant(y);
  }

  /** Replacing one child by a node with the same significant leaves keeps those of the siblings. */
  lemma {:induction false} ReplaceChildKeepsSignificant(cs: seq<Node>, k: nat, c: Node)
    requires k < |cs|
    requires Significant(Leaves(c)) == Significant(Leaves(cs[k]))
    ensures Significant(LeavesOf(cs[k := c])) == Significant(LeavesOf(cs))
  {
    assert cs == cs[..k] + [cs[k]] + cs[k+1..];
    assert cs[k := c] == cs[..k] + [c] + cs[k+1..];
    forall n | n == c || n == cs[k]
      ensures Significant(LeavesOf(cs[..k] + [n] + cs[k+1..]))
           == Significant(LeavesOf(cs[..k])) + Significant(Leaves(n)) + Significant(LeavesOf(cs[k+1..]))
    {
      LeavesOfAppend(cs[..k] + [n], cs[k+1..]);
      LeavesOfAppend(cs[..k], [n]);
      LeavesOfSingle(n);
      SignificantAppend(LeavesOf(cs[..k]) + Leaves(n), LeavesOf(cs[k+1..]));
      SignificantAppend(LeavesOf(cs[..k]), Leaves(n));
    }
  }

  // ---------------------------------------------------------------------------
  // Siblings

  /** ktlint `findChildByType`: the first child of the given type. */
  function FirstChildOfType(cs: seq<Node>, t: ElementType): (r: Option<nat>)
    ensures r.Some? ==> r.value < |cs| && cs[r.value].kind == t
    ensures r.Some? ==> forall q :: 0 <= q < r.value ==> cs[q].kind != t
    ensures r.None? ==> forall q :: 0 <= q < |cs| ==> cs[q].kind != t
  {
    if cs == [] then None
    else if cs[0].kind == t then Some(0)
    else match FirstChildOfType(cs[1..], t)
      case None => None
      case Some(q) => Some(q + 1)
  }

  /** No sibling strictly between positions `lo` and `hi` is code. */
  predicate NoCodeSiblingBetween(cs: seq<Node>, lo: int, hi: int) {
    forall q :: lo < q < hi && 0 <= q < |cs| ==> !IsCode(cs[q])
  }

  /** ktlint `nextCodeSibling20`: the index of the first code sibling after position `k`. */
  function NextCodeSibling(cs: seq<Node>, k: nat): (r: Option<nat>)
    ensures r.Some? ==> k < r.value < |cs| && IsCode(cs[r.value])
    ensures r.Some? ==> NoCodeSiblingBetween(cs, k, r.value)
    ensures r.None? ==> NoCodeSiblingBetween(cs, k, |cs|)
    decreases |cs| - k
  {
    if k + 1 >= |cs| then None
    else if IsCode(cs[k + 1]) then Some(k + 1)
    else NextCodeSibling(cs, k + 1)
  }

  /** ktlint `prevCodeSibling20`: the index of the last code sibling before position `k`. */
  function PrevCodeSibling(cs: seq<Node>, k: nat): (r: Option<nat>)
    requires k <= |cs|
    ensures r.Some? ==> r.value < k && IsCode(cs[r.value])
    ensures r.Some? ==> NoCodeSiblingBetween(cs, r.value, k)
    ensures r.None? ==> NoCodeSiblingBetween(cs, -1, k)
  {
    if k == 0 then None
    else if IsCode(cs[k - 1]) then Some(k - 1)
    else PrevCodeSibling(cs, k - 1)
  }

  /** The kind of the first code node of `cs`, if any. */
  function FirstCodeKind(cs: seq<Node>): Option<ElementType> {
    if cs == [] then None
    else if IsCode(cs[0]) then Some(cs[0].kind)
    else FirstCodeKind(cs[1..])
  }

  /** The first code node of `a + b` is that of `a`, else that of `b`. */
  lemma {:induction false} FirstCodeKindAppend(a: seq<Node>, b: seq<Node>)
    ensures FirstCodeKind(a + b) == if FirstCodeKind(a).Some? then FirstCodeKind(a) else FirstCodeKind(b)
  {
    if a == [] {
      assert a + b == b;
    } else {
      assert (a + b)[0] == a[0] && (a + b)[1..] == a[1..] + b;
      FirstCodeKindAppend(a[1..], b);
    }
  }

  /** The next code sibling of position `k` is the first code node after it. */
  lemma {:induction false} NextCodeSiblingKind(cs: seq<Node>, k: nat)
    requires k < |cs|
    ensures FirstCodeKind(cs[k + 1..])
      == if NextCodeSibling(cs, k).Some? then Some(cs[NextCodeSibling(cs, k).value].kind) else None
    decreases |cs| - k
  {
    if k + 1 < |cs| {
      assert cs[k + 1..][0] == cs[k + 1] && cs[k + 1..][1..] == cs[k + 2..];
      if !IsCode(cs[k + 1]) {
        NextCodeSiblingKind(cs, k + 1);
      }
    }
  }

  /** The siblings without child `k`. */
  function RemoveAt(cs: seq<Node>, k: nat): (r: seq<Node>)
    requires k < |cs|
    ensures |r| == |cs| - 1
    ensures forall i :: 0 <= i < k ==> r[i] == cs[i]
    ensures forall i :: k <= i < |r| ==> r[i] == cs[i + 1]
  {
    cs[..k] + cs[k + 1..]
  }

  /** The siblings with `n` inserted as child `k`. */
  function InsertAt(cs: seq<Node>, k: nat, n: Node): (r: seq<Node>)
    requires k <= |cs|
    ensures |r| == |cs| + 1 && r[k] == n
    ensures forall i :: 0 <= i < k ==> r[i] == cs[i]
    ensures forall i :: k < i < |r| ==> r[i] == cs[i - 1]
  {
    cs[..k] + [n] + cs[k..]
  }

  /** The kind of an optional node; `None` stands for a missing node. */
  function KindOf(n: Option<Node>): Option<ElementType> {
    if n.Some? then Some(n.value.kind) else None
  }

  lemma {:induction false} SplitAt(cs: seq<Node>, k: nat)
    requires k < |cs|
    ensures cs == cs[..k] + [cs[k]] + cs[k + 1..]
    ensures RemoveAt(cs, k) == cs[..k] + [] + cs[k + 1..]
  {
  }

  /** Removing a whitespace child keeps the significant leaves. */
  lemma {:induction false} RemoveWhiteSpaceKeepsSignificant(cs: seq<Node>, k: nat)
    requires k < |cs| && IsWhiteSpace(cs[k])
    ensures Significant(LeavesOf(RemoveAt(cs, k))) == Significant(LeavesOf(cs))
  {
    SplitAt(cs, k);
    WhiteSpaceEditKeepsSignificant(cs[..k], [cs[k]], [], cs[k + 1..]);
  }

  lemma {:induction false} SplitBefore(cs: seq<Node>, k: nat, w: Node)
    requires k <= |cs|
    ensures cs == cs[..k] + [] + cs[k..]
    ensures InsertAt(cs, k, w) == cs[..k] + [w] + cs[k..]
  {
  }

  /** Inserting a whitespace child keeps the significant leaves. */
  lemma {:induction false} InsertWhiteSpaceKeepsSignificant(cs: seq<Node>, k: nat, w: Node)
    requires k <= |cs| && IsWhiteSpace(w)
    ensures Significant(LeavesOf(InsertAt(cs, k, w))) == Significant(LeavesOf(cs))
  {
    SplitBefore(cs, k, w);
    WhiteSpaceEditKeepsSignificant(cs[..k], [], [w], cs[k..]);
  }

  /** Giving a whitespace child another text keeps the significant leaves. */
  lemma {:induction false} ReTextWhiteSpaceKeepsSignificant(cs: seq<Node>, k: nat, text: string)
    requires k < |cs| && IsWhiteSpace(cs[k])
    ensures Significant(LeavesOf(cs[k := WhiteSpaceLeaf(text)])) == Significant(LeavesOf(cs))
  {
    LeavesOfSingle(cs[k]);
    ReplaceChildKeepsSignificant(cs, k, WhiteSpaceLeaf(text));
  }

  // ---------------------------------------------------------------------------
  // Paths

  predicate ValidPath(n: Node, p: seq<nat>)
    decreases |p|
  {
    p == [] || (n.Composite? && p[0] < |n.children| && ValidPath(n.children[p[0]], p[1..]))
  }

  function At(n: Node, p: seq<nat>): Node
    requires ValidPath(n, p)
    decreases |p|
  {
    if p == [] then n else At(n.children[p[0]], p[1..])
  }

  /** The tree with the node at `p` replaced by `m`. */
  function Replace(n: Node, p: seq<nat>, m: Node): Node
    requires ValidPath(n, p)
    decreases |p|
  {
    if p == [] then m
    else Composite(n.kind, n.children[p[0] := Replace(n.children[p[0]], p[1..], m)])
  }

  /** The leaves of the file that come before the node at `p`, in order. */
  function LeavesBefore(n: Node, p: seq<nat>): seq<Node>
    requires ValidPath(n, p)
    decreases |p|
  {
    if p == [] then []
    else LeavesOf(n.children[..p[0]]) + LeavesBefore(n.children[p[0]], p[1..])
  }

  /** The leaves of the file that come after the node at `p`, in order. */
  function LeavesAfter(n: Node, p: seq<nat>): seq<Node>
    requires ValidPath(n, p)
    decreases |p|
  {
    if p == [] then []
    else LeavesAfter(n.children[p[0]], p[1..]) + LeavesOf(n.children[p[0] + 1..])
  }

  /** ktlint `prevLeaf`: the leaf just before the node at `p`. */
  function PrevLeaf(root: Node, p: seq<nat>): Option<Node>
    requires ValidPath(root, p)
  {
    var before := LeavesBefore(root, p);
    if before == [] then None else Some(before[|before| - 1])
  }

  /** ktlint `startOffset`: the length of the text before the node at `p`, in UTF-16 code units. */
  function StartOffset(root: Node, p: seq<nat>): nat
    requires ValidPath(root, p)
  {
    Utf16Length(TextOf(LeavesBefore(root, p)))
  }

  function ParentPath(p: seq<nat>): seq<nat>
    requires p != []
  {
    p[..|p| - 1]
  }

  function Last(p: seq<nat>): nat
    requires p != []
  {
    p[|p| - 1]
  }

  /** Extending a path by one child index, read from the end. */
  lemma {:induction false} ExtendPath(n: Node, p: seq<nat>, k: nat)
    requires ValidPath(n, p)
    requires At(n, p).Composite? && k < |At(n, p).children|
    ensures ValidPath(n, p + [k])
    ensures At(n, p + [k]) == At(n, p).children[k]
    ensures LeavesBefore(n, p + [k]) == LeavesBefore(n, p) + LeavesOf(At(n, p).children[..k])
    ensures LeavesAfter(n, p + [k]) == LeavesOf(At(n, p).children[k + 1..]) + LeavesAfter(n, p)
    decreases |p|
  {
    if p == [] {
      assert p + [k] == [k];
      assert [k][1..] == [];
    } else {
      assert (p + [k])[0] == p[0];
      assert (p + [k])[1..] == p[1..] + [k];
      ExtendPath(n.children[p[0]], p[1..], k);
    }
  }

  /** A path that is not empty is its parent's path extended by its last index. */
  lemma {:induction false} SplitPath(n: Node, p: seq<nat>)
    requires ValidPath(n, p) && p != []
    ensures ValidPath(n, ParentPath(p))
    ensures At(n, ParentPath(p)).Composite?
    ensures Last(p) < |At(n, ParentPath(p)).children|
    ensures At(n, p) == At(n, ParentPath(p)).children[Last(p)]
    ensures LeavesBefore(n, p) == LeavesBefore(n, ParentPath(p)) + LeavesOf(At(n, ParentPath(p)).children[..Last(p)])
  {
    PrefixValid(n, p, |p| - 1);
    assert ParentPath(p) + [Last(p)] == p;
    ExtendPath(n, ParentPath(p), Last(p));
  }

  lemma {:induction false} PrefixValid(n: Node, p: seq<nat>, j: nat)
    requires ValidPath(n, p) && j < |p|
    ensures ValidPath(n, p[..j])
    ensures At(n, p[..j]).Composite? && p[j] < |At(n, p[..j]).children|
    decreases |p|
  {
    if j > 0 {
      assert p[..j][0] == p[0];
      assert p[..j][1..] == p[1..][..j - 1];
      PrefixValid(n.children[p[0]], p[1..], j - 1);
    }
  }

  /** The leaves of a tree, split around the node at `p`. */
  lemma {:induction false} SplitLeaves(n: Node, p: seq<nat>)
    requires ValidPath(n, p)
    ensures Leaves(n) == LeavesBefore(n, p) + Leaves(At(n, p)) + LeavesAfter(n, p)
    decreases |p|
  {
    if p != [] {
      var cs := n.children;
      var i := p[0];
      assert cs == cs[..i] + [cs[i]] + cs[i + 1..];
      LeavesOfAppend(cs[..i] + [cs[i]], cs[i + 1..]);
      LeavesOfAppend(cs[..i], [cs[i]]);
      LeavesOfSingle(cs[i]);
      SplitLeaves(cs[i], p[1..]);
    }
  }

  /** Replacing the node at `p` changes nothing before or after it. */
  lemma {:induction false} ReplaceFrame(n: Node, p: seq<nat>, m: Node)
    requires ValidPath(n, p)
    ensures ValidPath(Replace(n, p, m), p)
    ensures At(Replace(n, p, m), p) == m
    ensures LeavesBefore(Replace(n, p, m), p) == LeavesBefore(n, p)
    ensures LeavesAfter(Replace(n, p, m), p) == LeavesAfter(n, p)
    decreases |p|
  {
    if p != [] {
      var i := p[0];
      var cs := n.children;
      var cs' := cs[i := Replace(cs[i], p[1..], m)];
      assert cs'[..i] == cs[..i];
      assert cs'[i + 1..] == cs[i + 1..];
      ReplaceFrame(cs[i], p[1..], m);
    }
  }

  /** A replacement with the same significant leaves keeps those of the whole file. */
  lemma {:induction false} ReplaceKeepsSignificant(n: Node, p: seq<nat>, m: Node)
    requires ValidPath(n, p)
    requires Significant(Leaves(m)) == Significant(Leaves(At(n, p)))
    ensures Significant(Leaves(Replace(n, p, m))) == Significant(Leaves(n))
  {
    ReplaceFrame(n, p, m);
    SplitLeaves(n, p);
    SplitLeaves(Replace(n, p, m), p);
    var b := LeavesBefore(n, p);
    var a := LeavesAfter(n, p);
    SignificantAppend(b + Leaves(m), a);
    SignificantAppend(b, Leaves(m));
    SignificantAppend(b + Leaves(At(n, p)), a);
    SignificantAppend(b, Leaves(At(n, p)));
  }

  /** Putting back the node that is already there changes nothing. */
  lemma {:induction false} ReplaceUnchanged(n: Node, p: seq<nat>)
    requires ValidPath(n, p)
    ensures Replace(n, p, At(n, p)) == n
    decreases |p|
  {
    if p != [] {
      ReplaceUnchanged(n.children[p[0]], p[1..]);
      assert n.children[p[0] := n.children[p[0]]] == n.children;
    }
  }

  /** The text of a node is the text of its leaves. */
  lemma {:induction false} TextOfLeaves(n: Node)
    ensures TextOf(Leaves(n)) == Text(n)
    decreases n, 1
  {
    match n
    case Leaf(_, _) => TextOfSingle(n);
    case Composite(_, cs) => TextOfLeavesOf(cs);
  }

  lemma {:induction false} TextOfLeavesOf(ns: seq<Node>)
    ensures TextOf(LeavesOf(ns)) == TextOf(ns)
    decreases ns, 0
  {
    if ns != [] {
      TextOfLeaves(ns[0]);
      TextOfLeavesOf(ns[1..]);
      TextOfAppend(Leaves(ns[0]), LeavesOf(ns[1..]));
    }
  }

  /** The start offset of child `k`: the parent's offset plus the text of the earlier siblings. */
  lemma {:induction false} StartOffsetOfChild(root: Node, p: seq<nat>, k: nat)
    requires ValidPath(root, p) && At(root, p).Composite? && k < |At(root, p).children|
    ensures ValidPath(root, p + [k])
    ensures StartOffset(root, p + [k]) == StartOffset(root, p) + Utf16Length(TextOf(At(root, p).children[..k]))
  {
    ExtendPath(root, p, k);
    TextOfAppend(LeavesBefore(root, p), LeavesOf(At(root, p).children[..k]));
    TextOfLeavesOf(At(root, p).children[..k]);
    Utf16LengthAppend(TextOf(LeavesBefore(root, p)), TextOf(At(root, p).children[..k]));
  }

  /** Sibling sequences that agree on which positions hold code have the same code siblings. */
  lemma {:induction false} SameNextCodeSibling(cs: seq<Node>, cs': seq<Node>, k: nat)
    requires |cs| == |cs'|
    requires forall q :: 0 <= q < |cs| ==> (IsCode(cs[q]) <==> IsCode(cs'[q]))
    ensures NextCodeSibling(cs, k) == NextCodeSibling(cs', k)
    decreases |cs| - k
  {
    if k + 1 < |cs| && !IsCode(cs[k + 1]) {
      SameNextCodeSibling(cs, cs', k + 1);
    }
  }

  lemma {:induction false} SamePrevCodeSibling(cs: seq<Node>, cs': seq<Node>, k: nat)
    requires |cs| == |cs'| && k <= |cs|
    requires forall q :: 0 <= q < |cs| ==> (IsCode(cs[q]) <==> IsCode(cs'[q]))
    ensures PrevCodeSibling(cs, k) == PrevCodeSibling(cs', k)
  {
    if k > 0 && !IsCode(cs[k - 1]) {
      SamePrevCodeSibling(cs, cs', k - 1);
    }
  }

  /** The previous code sibling of position `k` depends only on the siblings before `k`. */
  lemma {:induction false} PrevCodeSiblingOfPrefix(cs: seq<Node>, cs': seq<Node>, k: nat)
    requires k <= |cs| && k <= |cs'| && cs[..k] == cs'[..k]
    ensures PrevCodeSibling(cs, k) == PrevCodeSibling(cs', k)
  {
    if k > 0 {
      assert cs[k - 1] == cs[..k][k - 1] == cs'[k - 1];
      if !IsCode(cs[k - 1]) {
        assert cs[..k - 1] == cs[..k][..k - 1];
        assert cs'[..k - 1] == cs'[..k][..k - 1];
        PrevCodeSiblingOfPrefix(cs, cs', k - 1);
      }
    }
  }
}
