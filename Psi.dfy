/**
 * An abstract stand-in for the IDE's PSI tree, which the plugin queries and
 * mutates but whose implementation is not part of this model.
 *
 * A node is a leaf (a token, a left brace, whitespace or a comment) or an inner
 * node of one of the kinds the plugin asks about, with an ordered list of
 * children. A node's text is the concatenation of its leaves. A node is
 * addressed by its path of child indices from the file root.
 */
module Psi {
  import opened Wrappers

  /** The language of the containing file: `PsiJavaFile`, `KtFile`, or any other file. */
  datatype Grammar = Java | Kotlin | OtherLanguage

  datatype LeafKind = Token | LBrace | PsiWhiteSpace | PsiComment

  /** The node kinds the plugin distinguishes; everything else is a `Composite`. */
  datatype Kind =
    | KtBlockExpression
    | PsiCodeBlock
    | KtNamedFunction(name: Option<string>, parameters: seq<Option<string>>)
    | PsiMethod(methodName: string, parameterNames: seq<string>)
    | KtBinaryExpression(operationToken: string, hasLeft: bool)
    | PsiAssignmentExpression
    | PsiExpressionStatement
    | KtCallExpression
    | KtDotQualifiedExpression
    | KtSafeQualifiedExpression
    | Composite(description: string)

  datatype Node = Leaf(leafKind: LeafKind, token: string) | Inner(kind: Kind, children: seq<Node>)

  /** What `createNewLine()` produces. */
  const NewLine: Node := Leaf(PsiWhiteSpace, "\n")

  /** `element.text`: the concatenation of the leaves. */
  function Text(n: Node): string {
    match n
    case Leaf(_, t) => t
    case Inner(_, cs) => TextOf(cs)
  }

  function TextOf(cs: seq<Node>): string {
    if cs == [] then "" else Text(cs[0]) + TextOf(cs[1..])
  }

  lemma {:induction false} TextOfAppend(a: seq<Node>, b: seq<Node>)
    ensures TextOf(a + b) == TextOf(a) + TextOf(b)
  {
    if a != [] {
      assert (a + b)[0] == a[0];
      assert (a + b)[1..] == a[1..] + b;
      TextOfAppend(a[1..], b);
    } else {
      assert a + b == b;
    }
  }

  /** The text of a child list is the text before child `i`, then child `i`, then the rest. */
  lemma TextOfAround(cs: seq<Node>, i: nat)
    requires i < |cs|
    ensures TextOf(cs) == TextOf(cs[..i]) + Text(cs[i]) + TextOf(cs[i + 1..])
  {
    var rest := cs[i..];
    assert cs == cs[..i] + rest;
    TextOfAppend(cs[..i], rest);
    assert rest[0] == cs[i] && rest[1..] == cs[i + 1..];
  }

  // ---------------------------------------------------------------- paths

  type Path = seq<nat>

  function Parent(p: Path): Path
    requires p != []
  {
    p[..|p| - 1]
  }

  function Last(p: Path): nat
    requires p != []
  {
    p[|p| - 1]
  }

  predicate IsPrefixPath(a: Path, b: Path) {
    |a| <= |b| && b[..|a|] == a
  }

  predicate IsStrictPrefix(a: Path, b: Path) {
    |a| < |b| && b[..|a|] == a
  }

  /** The node at a path, if the path leads anywhere. */
  function NodeAt(n: Node, p: Path): Option<Node>
    decreases |p|
  {
    if p == [] then Some(n)
    else
      match NodeAt(n, Parent(p))
      case Some(Inner(_, cs)) => if Last(p) < |cs| then Some(cs[Last(p)]) else None
      case _ => None
  }

  predicate ValidPath(n: Node, p: Path) {
    NodeAt(n, p).Some?
  }

  function At(n: Node, p: Path): Node
    requires ValidPath(n, p)
  {
    NodeAt(n, p).value
  }

  lemma ParentValid(n: Node, p: Path)
    requires p != [] && ValidPath(n, p)
    ensures ValidPath(n, Parent(p)) && At(n, Parent(p)).Inner?
    ensures Last(p) < |At(n, Parent(p)).children|
    ensures At(n, p) == At(n, Parent(p)).children[Last(p)]
  {
  }

  lemma ChildValid(n: Node, p: Path, i: nat)
    requires ValidPath(n, p) && At(n, p).Inner? && i < |At(n, p).children|
    ensures ValidPath(n, p + [i]) && At(n, p + [i]) == At(n, p).children[i]
  {
    assert Parent(p + [i]) == p;
  }

  lemma {:induction false} PrefixValid(n: Node, p: Path, k: nat)
    requires ValidPath(n, p) && k <= |p|
    ensures ValidPath(n, p[..k])
    decreases |p|
  {
    if k < |p| {
      ParentValid(n, p);
      assert Parent(p)[..k] == p[..k];
      PrefixValid(n, Parent(p), k);
    } else {
      assert p[..k] == p;
    }
  }

  /** Following `a` and then `b` from the root is following `b` from the node at `a`. */
  lemma {:induction false} AtConcat(n: Node, a: Path, b: Path)
    requires ValidPath(n, a + b)
    ensures ValidPath(n, a) && ValidPath(At(n, a), b)
    ensures At(n, a + b) == At(At(n, a), b)
    decreases |b|
  {
    if b == [] {
      assert a + b == a;
    } else {
      ParentValid(n, a + b);
      assert Parent(a + b) == a + Parent(b);
      AtConcat(n, a, Parent(b));
      ChildValid(At(n, a), Parent(b), Last(b));
      assert Parent(b) + [Last(b)] == b;
    }
  }

  /** The converse of `AtConcat`. */
  lemma {:induction false} ConcatValid(n: Node, a: Path, b: Path)
    requires ValidPath(n, a) && ValidPath(At(n, a), b)
    ensures ValidPath(n, a + b) && At(n, a + b) == At(At(n, a), b)
    decreases |b|
  {
    if b == [] {
      assert a + b == a;
    } else {
      ParentValid(At(n, a), b);
      ConcatValid(n, a, Parent(b));
      assert a + Parent(b) + [Last(b)] == a + b;
      ChildValid(n, a + Parent(b), Last(b));
    }
  }

  // ------------------------------------------------------- replacing a subtree

  /** The tree with the node at `p` replaced by `m`; nothing else changes. */
  function ReplaceAt(n: Node, p: Path, m: Node): (r: Node)
    requires ValidPath(n, p)
    ensures ValidPath(r, p) && At(r, p) == m
    decreases |p|
  {
    if p == [] then m
    else
      ParentValid(n, p);
      var parent := At(n, Parent(p));
      var r := ReplaceAt(n, Parent(p), parent.(children := parent.children[Last(p) := m]));
      ChildValid(r, Parent(p), Last(p));
      assert Parent(p) + [Last(p)] == p;
      r
  }

  /** Putting back what was there changes nothing. */
  lemma {:induction false} ReplaceAtSame(n: Node, p: Path)
    requires ValidPath(n, p)
    ensures ReplaceAt(n, p, At(n, p)) == n
    decreases |p|
  {
    if p != [] {
      ParentValid(n, p);
      var parent := At(n, Parent(p));
      assert parent.children[Last(p) := At(n, p)] == parent.children;
      ReplaceAtSame(n, Parent(p));
    }
  }

  /** A second replacement at the same place overrides the first. */
  lemma {:induction false} ReplaceAtTwice(n: Node, p: Path, m1: Node, m2: Node)
    requires ValidPath(n, p)
    ensures ValidPath(ReplaceAt(n, p, m1), p)
    ensures ReplaceAt(ReplaceAt(n, p, m1), p, m2) == ReplaceAt(n, p, m2)
    decreases |p|
  {
    if p != [] {
      ParentValid(n, p);
      var parent := At(n, Parent(p));
      var p1 := parent.(children := parent.children[Last(p) := m1]);
      var p2 := parent.(children := parent.children[Last(p) := m2]);
      var r1 := ReplaceAt(n, Parent(p), p1);
      ChildValid(r1, Parent(p), Last(p));
      assert Parent(p) + [Last(p)] == p;
      assert p1.(children := p1.children[Last(p) := m2]) == p2;
      ReplaceAtTwice(n, Parent(p), p1, p2);
    }
  }

  /** Replacing below `a` is replacing the node at `a` by its own replaced version. */
  lemma {:induction false} ReplaceAtConcat(n: Node, a: Path, b: Path, m: Node)
    requires ValidPath(n, a + b)
    ensures ValidPath(n, a) && ValidPath(At(n, a), b)
    ensures ReplaceAt(n, a + b, m) == ReplaceAt(n, a, ReplaceAt(At(n, a), b, m))
    decreases |b|
  {
    AtConcat(n, a, b);
    if b == [] {
      assert a + b == a;
    } else {
      ParentValid(n, a + b);
      ParentValid(At(n, a), b);
      assert Parent(a + b) == a + Parent(b);
      AtConcat(n, a, Parent(b));
      var parent := At(n, Parent(a + b));
      var p1 := parent.(children := parent.children[Last(b) := m]);
      ReplaceAtConcat(n, a, Parent(b), p1);
    }
  }

  /** Replacing below child `i` replaces child `i` by its own replaced version. */
  lemma ReplaceBelowChild(n: Node, i: nat, w: Path, m: Node)
    requires n.Inner? && i < |n.children| && ValidPath(n.children[i], w)
    ensures ValidPath(n, [i] + w)
    ensures ReplaceAt(n, [i] + w, m) == n.(children := n.children[i := ReplaceAt(n.children[i], w, m)])
  {
    ChildValid(n, [], i);
    assert [] + [i] == [i];
    ConcatValid(n, [i], w);
    ReplaceAtConcat(n, [i], w, m);
    assert Parent([i]) == [] && Last([i]) == i;
  }

  /** The text in front of the node at `p`. */
  function Before(n: Node, p: Path): string
    requires ValidPath(n, p)
    decreases |p|
  {
    if p == [] then ""
    else
      ParentValid(n, p);
      Before(n, Parent(p)) + TextOf(At(n, Parent(p)).children[..Last(p)])
  }

  /** The text behind the node at `p`. */
  function After(n: Node, p: Path): string
    requires ValidPath(n, p)
    decreases |p|
  {
    if p == [] then ""
    else
      ParentValid(n, p);
      TextOf(At(n, Parent(p)).children[Last(p) + 1..]) + After(n, Parent(p))
  }

  /** The file text is the text before a node, the node's text, then the text after it. */
  lemma {:induction false} TextAround(n: Node, p: Path)
    requires ValidPath(n, p)
    ensures Text(n) == Before(n, p) + Text(At(n, p)) + After(n, p)
    decreases |p|
  {
    if p != [] {
      ParentValid(n, p);
      var cs := At(n, Parent(p)).children;
      TextOfAround(cs, Last(p));
      TextAround(n, Parent(p));
    }
  }

  /** Replacing a node keeps the text around it. */
  lemma {:induction false} ReplaceKeepsAround(n: Node, p: Path, m: Node)
    requires ValidPath(n, p)
    ensures Before(ReplaceAt(n, p, m), p) == Before(n, p)
    ensures After(ReplaceAt(n, p, m), p) == After(n, p)
    decreases |p|
  {
    if p != [] {
      ParentValid(n, p);
      var parent := At(n, Parent(p));
      var p1 := parent.(children := parent.children[Last(p) := m]);
      var r := ReplaceAt(n, Parent(p), p1);
      ReplaceKeepsAround(n, Parent(p), p1);
      ParentValid(r, p);
      assert Parent(p) + [Last(p)] == p;
      ChildValid(r, Parent(p), Last(p));
      assert p1.children[..Last(p)] == parent.children[..Last(p)];
      assert p1.children[Last(p) + 1..] == parent.children[Last(p) + 1..];
    }
  }

  /** Replacing a node splices the new node's text in place of the old one's. */
  lemma ReplaceText(n: Node, p: Path, m: Node)
    requires ValidPath(n, p)
    ensures Text(ReplaceAt(n, p, m)) == Before(n, p) + Text(m) + After(n, p)
  {
    TextAround(ReplaceAt(n, p, m), p);
    ReplaceKeepsAround(n, p, m);
  }

  /** The text of the first `i + 1` children. */
  lemma TextOfSnoc(cs: seq<Node>, i: nat)
    requires i < |cs|
    ensures TextOf(cs[..i + 1]) == TextOf(cs[..i]) + Text(cs[i])
  {
    assert cs[..i + 1] == cs[..i] + [cs[i]];
    TextOfAppend(cs[..i], [cs[i]]);
    assert TextOf([cs[i]]) == Text(cs[i]) + TextOf([]);
  }

  // ------------------------------------------------------------ inserting children

  /** `parent.addAfter`: `xs` become children `k, k+1, ...` of the node at `q`. */
  function InsertChildren(n: Node, q: Path, k: nat, xs: seq<Node>): (r: Node)
    requires ValidPath(n, q) && At(n, q).Inner? && k <= |At(n, q).children|
    ensures ValidPath(r, q)
  {
    var parent := At(n, q);
    ReplaceAt(n, q, parent.(children := parent.children[..k] + xs + parent.children[k..]))
  }

  /** Inserting children splices their text where they go, after the text of the first `k` children. */
  lemma InsertChildrenText(n: Node, q: Path, k: nat, xs: seq<Node>)
    requires ValidPath(n, q) && At(n, q).Inner? && k <= |At(n, q).children|
    ensures var cs := At(n, q).children;
      Text(n) == Before(n, q) + TextOf(cs[..k]) + TextOf(cs[k..]) + After(n, q) &&
      Text(InsertChildren(n, q, k, xs))
        == Before(n, q) + TextOf(cs[..k]) + TextOf(xs) + TextOf(cs[k..]) + After(n, q)
  {
    TextAroundSplit(n, q, k);
    InsertedTextAround(n, q, k, xs);
  }

  lemma TextAroundSplit(n: Node, q: Path, k: nat)
    requires ValidPath(n, q) && At(n, q).Inner? && k <= |At(n, q).children|
    ensures var cs := At(n, q).children;
      Text(n) == Before(n, q) + TextOf(cs[..k]) + TextOf(cs[k..]) + After(n, q)
  {
    var cs := At(n, q).children;
    TextAround(n, q);
    TextOfSplit(cs, k);
    RegroupText(Before(n, q), TextOf(cs[..k]), "", TextOf(cs[k..]), After(n, q));
  }

  lemma InsertedTextAround(n: Node, q: Path, k: nat, xs: seq<Node>)
    requires ValidPath(n, q) && At(n, q).Inner? && k <= |At(n, q).children|
    ensures var cs := At(n, q).children;
      Text(InsertChildren(n, q, k, xs)) == Before(n, q) + TextOf(cs[..k]) + TextOf(xs) + TextOf(cs[k..]) + After(n, q)
  {
    var parent := At(n, q);
    var cs := parent.children;
    ReplaceText(n, q, parent.(children := cs[..k] + xs + cs[k..]));
    TextOfSplice(cs[..k], xs, cs[k..]);
    RegroupText(Before(n, q), TextOf(cs[..k]), TextOf(xs), TextOf(cs[k..]), After(n, q));
  }

  /** Regrouping a concatenation of five strings. */
  lemma RegroupText(b: string, f: string, x: string, k: string, a: string)
    ensures b + (f + x + k) + a == b + f + x + k + a
    ensures b + (f + k) + a == b + f + k + a
  {
  }

  /** The text of a child list is the text of its first `k` children, then the rest. */
  lemma TextOfSplit(cs: seq<Node>, k: nat)
    requires k <= |cs|
    ensures TextOf(cs) == TextOf(cs[..k]) + TextOf(cs[k..])
  {
    assert cs == cs[..k] + cs[k..];
    TextOfAppend(cs[..k], cs[k..]);
  }

  /** The text of three child lists put together. */
  lemma TextOfSplice(a: seq<Node>, xs: seq<Node>, b: seq<Node>)
    ensures TextOf(a + xs + b) == TextOf(a) + TextOf(xs) + TextOf(b)
  {
    TextOfAppend(a + xs, b);
    TextOfAppend(a, xs);
  }

  // ------------------------------------------------------- searching the tree

  /** The operators `insertKotlinAssignmentLogs` keeps: `=`, `+=`, `-=`, `*=`, `/=`, `%=`. */
  const AssignmentOperators: seq<string> := ["=", "+=", "-=", "*=", "/=", "%="]

  /** The node classes handed to `findChildrenOfType` (with the operator filter for Kotlin assignments). */
  datatype Target =
    | NamedFunctions
    | Methods
    | KotlinAssignments
    | JavaAssignments
    | ExpressionStatements
    | Calls

  predicate IsTarget(n: Node, t: Target) {
    n.Inner? &&
    match t
    case NamedFunctions => n.kind.KtNamedFunction?
    case Methods => n.kind.PsiMethod?
    case KotlinAssignments => n.kind.KtBinaryExpression? && n.kind.operationToken in AssignmentOperators
    case JavaAssignments => n.kind.PsiAssignmentExpression?
    case ExpressionStatements => n.kind.PsiExpressionStatement?
    case Calls => n.kind.KtCallExpression?
  }

  /** The number of nodes of the target class in a subtree, itself included. */
  function Count(n: Node, t: Target): nat {
    match n
    case Leaf(_, _) => 0
    case Inner(_, cs) => (if IsTarget(n, t) then 1 else 0) + CountOf(cs, t)
  }

  function CountOf(cs: seq<Node>, t: Target): nat {
    if cs == [] then 0 else Count(cs[0], t) + CountOf(cs[1..], t)
  }

  lemma {:induction false} CountOfAppend(a: seq<Node>, b: seq<Node>, t: Target)
    ensures CountOf(a + b, t) == CountOf(a, t) + CountOf(b, t)
  {
    if a != [] {
      assert (a + b)[0] == a[0];
      assert (a + b)[1..] == a[1..] + b;
      CountOfAppend(a[1..], b, t);
    } else {
      assert a + b == b;
    }
  }

  lemma CountOfUpdate(cs: seq<Node>, i: nat, x: Node, t: Target)
    requires i < |cs|
    ensures CountOf(cs[i := x], t) + Count(cs[i], t) == CountOf(cs, t) + Count(x, t)
  {
    assert cs == cs[..i] + [cs[i]] + cs[i + 1..];
    assert cs[i := x] == cs[..i] + [x] + cs[i + 1..];
    CountOfAppend(cs[..i] + [cs[i]], cs[i + 1..], t);
    CountOfAppend(cs[..i], [cs[i]], t);
    CountOfAppend(cs[..i] + [x], cs[i + 1..], t);
    CountOfAppend(cs[..i], [x], t);
    assert CountOf([x], t) == Count(x, t) + CountOf([], t);
    assert CountOf([cs[i]], t) == Count(cs[i], t) + CountOf([], t);
  }

  /** Replacing a subtree trades its targets for those of the new subtree. */
  lemma {:induction false} CountReplace(n: Node, p: Path, m: Node, t: Target)
    requires ValidPath(n, p)
    ensures Count(ReplaceAt(n, p, m), t) + Count(At(n, p), t) == Count(n, t) + Count(m, t)
    decreases |p|
  {
    if p != [] {
      ParentValid(n, p);
      var parent := At(n, Parent(p));
      var p1 := parent.(children := parent.children[Last(p) := m]);
      CountOfUpdate(parent.children, Last(p), m, t);
      CountReplace(n, Parent(p), p1, t);
    }
  }

  /**
   * `PsiTreeUtil.findChildrenOfType` from the node at `q`, as paths from the root,
   * in document (pre-)order; the node at `q` itself comes first when it is a target.
   */
  function FindAllAt(root: Node, q: Path, t: Target): seq<Path>
    requires ValidPath(root, q)
    decreases At(root, q), 1
  {
    (if IsTarget(At(root, q), t) then [q] else []) + FindChildrenAt(root, q, t, 0)
  }

  function FindChildrenAt(root: Node, q: Path, t: Target, i: nat): seq<Path>
    requires ValidPath(root, q)
    decreases At(root, q), 0, if At(root, q).Inner? then |At(root, q).children| - i else 0
  {
    var n := At(root, q);
    if n.Leaf? || i >= |n.children| then []
    else
      ChildValid(root, q, i);
      FindAllAt(root, q + [i], t) + FindChildrenAt(root, q, t, i + 1)
  }

  /** Every path found below `q` leads to a target node at or below `q`. */
  lemma {:induction false} FindAllAtSound(root: Node, q: Path, t: Target)
    requires ValidPath(root, q)
    ensures forall p | p in FindAllAt(root, q, t) :: ValidPath(root, p) && IsPrefixPath(q, p) && IsTarget(At(root, p), t)
    decreases At(root, q), 1
  {
    FindChildrenAtSound(root, q, t, 0);
  }

  lemma {:induction false} FindChildrenAtSound(root: Node, q: Path, t: Target, i: nat)
    requires ValidPath(root, q)
    ensures forall p | p in FindChildrenAt(root, q, t, i) :: ValidPath(root, p) && IsStrictPrefix(q, p) && IsTarget(At(root, p), t)
    decreases At(root, q), 0, if At(root, q).Inner? then |At(root, q).children| - i else 0
  {
    var n := At(root, q);
    if n.Inner? && i < |n.children| {
      ChildValid(root, q, i);
      FindAllAtSound(root, q + [i], t);
      FindChildrenAtSound(root, q, t, i + 1);
      forall p | p in FindAllAt(root, q + [i], t) ensures IsStrictPrefix(q, p) {
        assert p[..|q|] == (p[..|q| + 1])[..|q|];
      }
    }
  }

  /** Every target list has one entry per target node. */
  lemma {:induction false} FindAllAtLength(root: Node, q: Path, t: Target)
    requires ValidPath(root, q)
    ensures |FindAllAt(root, q, t)| == Count(At(root, q), t)
    decreases At(root, q), 1
  {
    if At(root, q).Inner? {
      FindChildrenAtLength(root, q, t, 0);
    }
  }

  lemma {:induction false} FindChildrenAtLength(root: Node, q: Path, t: Target, i: nat)
    requires ValidPath(root, q) && At(root, q).Inner? && i <= |At(root, q).children|
    ensures |FindChildrenAt(root, q, t, i)| == CountOf(At(root, q).children[i..], t)
    decreases At(root, q), 0, |At(root, q).children| - i
  {
    var cs := At(root, q).children;
    if i < |cs| {
      ChildValid(root, q, i);
      FindAllAtLength(root, q + [i], t);
      FindChildrenAtLength(root, q, t, i + 1);
      assert cs[i..][1..] == cs[i + 1..];
    }
  }

  /** Every target below `q` is found. */
  lemma {:induction false} FindAllAtComplete(root: Node, q: Path, t: Target, p: Path)
    requires ValidPath(root, q) && ValidPath(root, p) && IsPrefixPath(q, p) && IsTarget(At(root, p), t)
    ensures p in FindAllAt(root, q, t)
    decreases At(root, q), 1
  {
    if |p| > |q| {
      var i := p[|q|];
      PrefixValid(root, p, |q| + 1);
      assert p[..|q| + 1] == q + [i];
      assert Parent(q + [i]) == q;
      ParentValid(root, q + [i]);
      assert IsPrefixPath(q + [i], p);
      FindAllAtComplete(root, q + [i], t, p);
      FindChildrenAtContains(root, q, t, 0, i);
    } else {
      assert p == q;
    }
  }

  lemma {:induction false} FindChildrenAtContains(root: Node, q: Path, t: Target, j: nat, i: nat)
    requires ValidPath(root, q) && At(root, q).Inner? && j <= i < |At(root, q).children|
    ensures ValidPath(root, q + [i])
    ensures forall p | p in FindAllAt(root, q + [i], t) :: p in FindChildrenAt(root, q, t, j)
    decreases i - j
  {
    ChildValid(root, q, i);
    ChildValid(root, q, j);
    var here := FindAllAt(root, q + [j], t);
    var rest := FindChildrenAt(root, q, t, j + 1);
    assert FindChildrenAt(root, q, t, j) == here + rest;
    if j < i {
      FindChildrenAtContains(root, q, t, j + 1, i);
      forall p | p in FindAllAt(root, q + [i], t) ensures p in here + rest {
        assert p in rest;
      }
    }
  }

  /** All targets of the file, in document order. */
  function AllTargets(root: Node, t: Target): (r: seq<Path>)
    ensures forall p | p in r :: ValidPath(root, p) && IsTarget(At(root, p), t)
  {
    FindAllAtSound(root, [], t);
    FindAllAt(root, [], t)
  }

  /** A path is listed among the file's targets exactly when it leads to a target node. */
  lemma AllTargetsExactly(root: Node, t: Target, p: Path)
    ensures p in AllTargets(root, t) <==> ValidPath(root, p) && IsTarget(At(root, p), t)
  {
    if ValidPath(root, p) && IsTarget(At(root, p), t) {
      FindAllAtComplete(root, [], t, p);
    }
  }

  /**
   * The ranks, among the file's targets `all`, of those strictly inside `scope`:
   * the snapshot `findChildrenOfType(scope, ...)` takes before any change is made.
   */
  function ScopeRanks(all: seq<Path>, scope: Path, from: nat): (r: seq<nat>)
    ensures forall j | 0 <= j < |r| :: from <= r[j] < |all| && IsStrictPrefix(scope, all[r[j]])
    ensures forall k | from <= k < |all| && IsStrictPrefix(scope, all[k]) :: k in r
    ensures forall a, b | 0 <= a < b < |r| :: r[a] < r[b]
    decreases |all| - from
  {
    if from >= |all| then []
    else if IsStrictPrefix(scope, all[from]) then [from] + ScopeRanks(all, scope, from + 1)
    else ScopeRanks(all, scope, from + 1)
  }

  // ------------------------------------------------------- child and parent queries

  /** What a search among the children of one node looks for. */
  datatype Selector =
    | KotlinBody      // `bodyBlockExpression`
    | JavaBody        // `PsiMethod.getBody()`
    | LBraceToken     // `lBrace`
    | NonTrivia       // neither `PsiWhiteSpace` nor `PsiComment`

  predicate Selects(sel: Selector, n: Node) {
    match sel
    case KotlinBody => n.Inner? && n.kind == KtBlockExpression
    case JavaBody => n.Inner? && n.kind == PsiCodeBlock
    case LBraceToken => n.Leaf? && n.leafKind == LBrace
    case NonTrivia => !(n.Leaf? && (n.leafKind == PsiWhiteSpace || n.leafKind == PsiComment))
  }

  /** The index of the first child at or after `from` that the selector accepts. */
  function FindFirst(cs: seq<Node>, sel: Selector, from: nat): (r: Option<nat>)
    ensures r.Some? ==> from <= r.value < |cs| && Selects(sel, cs[r.value])
    ensures r.Some? ==> forall j | from <= j < r.value :: !Selects(sel, cs[j])
    ensures r.None? ==> forall j | from <= j < |cs| :: !Selects(sel, cs[j])
    decreases |cs| - from
  {
    if from >= |cs| then None
    else if Selects(sel, cs[from]) then Some(from)
    else FindFirst(cs, sel, from + 1)
  }

  /** The parent-walks of `isLogAlreadyPresent`/`insertAfterStatement` and of `removeLogs`. */
  datatype ClimbTest =
    | NotBlock    // the parent is neither a `KtBlockExpression` nor a `PsiCodeBlock`
    | Qualified   // the parent is a `KtDotQualifiedExpression` or a `KtSafeQualifiedExpression`

  predicate Passes(test: ClimbTest, n: Node) {
    match test
    case NotBlock => !(n.Inner? && (n.kind == KtBlockExpression || n.kind == PsiCodeBlock))
    case Qualified => n.Inner? && (n.kind == KtDotQualifiedExpression || n.kind == KtSafeQualifiedExpression)
  }

  /** The node at `c` has a parent, and that parent passes the test. */
  predicate ParentPasses(root: Node, c: Path, test: ClimbTest) {
    c != [] && ValidPath(root, Parent(c)) && Passes(test, At(root, Parent(c)))
  }

  /** `while (current.parent != null && <test on current.parent>) current = current.parent`, from `p`. */
  function ClimbWhile(root: Node, p: Path, test: ClimbTest): (c: Path)
    requires ValidPath(root, p)
    ensures IsPrefixPath(c, p) && ValidPath(root, c)
    ensures !ParentPasses(root, c, test)
    ensures forall k | |c| < k <= |p| :: ParentPasses(root, p[..k], test)
    decreases |p|
  {
    if p == [] then []
    else
      ParentValid(root, p);
      if Passes(test, At(root, Parent(p))) then
        var c := ClimbWhile(root, Parent(p), test);
        assert forall k | |c| < k <= |p| :: p[..k] == if k == |p| then p else Parent(p)[..k];
        c
      else p
  }

  // ------------------------------------------------------------------ deleting

  /** The subtree at `q` with every node whose path is in `gone` removed from its parent. */
  function Prune(root: Node, q: Path, gone: set<Path>): Node
    requires ValidPath(root, q)
    decreases At(root, q), 1
  {
    match At(root, q)
    case Leaf(_, _) => At(root, q)
    case Inner(k, _) => Inner(k, PruneChildren(root, q, gone, 0))
  }

  function PruneChildren(root: Node, q: Path, gone: set<Path>, i: nat): seq<Node>
    requires ValidPath(root, q) && At(root, q).Inner?
    decreases At(root, q), 0, |At(root, q).children| - i
  {
    if i >= |At(root, q).children| then []
    else
      ChildValid(root, q, i);
      (if q + [i] in gone then [] else [Prune(root, q + [i], gone)]) + PruneChildren(root, q, gone, i + 1)
  }

  /** `delete()` on every node in `gone` (the root itself cannot be deleted). */
  function DeleteAll(root: Node, gone: set<Path>): Node {
    Prune(root, [], gone)
  }

  /** Inserting children adds exactly their targets. */
  lemma InsertChildrenCount(n: Node, q: Path, k: nat, xs: seq<Node>, t: Target)
    requires ValidPath(n, q) && At(n, q).Inner? && k <= |At(n, q).children|
    ensures Count(InsertChildren(n, q, k, xs), t) == Count(n, t) + CountOf(xs, t)
  {
    var parent := At(n, q);
    var cs := parent.children;
    var m := parent.(children := cs[..k] + xs + cs[k..]);
    CountReplace(n, q, m, t);
    assert cs == cs[..k] + cs[k..];
    CountOfAppend(cs[..k], cs[k..], t);
    CountOfAppend(cs[..k] + xs, cs[k..], t);
    CountOfAppend(cs[..k], xs, t);
  }

  /** The inserted children sit at positions `k, k+1, ...` of the node at `q`, which keeps its kind. */
  lemma InsertChildrenAt(n: Node, q: Path, k: nat, xs: seq<Node>, j: nat)
    requires ValidPath(n, q) && At(n, q).Inner? && k <= |At(n, q).children| && j < |xs|
    ensures At(InsertChildren(n, q, k, xs), q).Inner? && At(InsertChildren(n, q, k, xs), q).kind == At(n, q).kind
    ensures ValidPath(InsertChildren(n, q, k, xs), q + [k + j]) && At(InsertChildren(n, q, k, xs), q + [k + j]) == xs[j]
  {
    var parent := At(n, q);
    var m := parent.(children := parent.children[..k] + xs + parent.children[k..]);
    var r := InsertChildren(n, q, k, xs);
    assert At(r, q) == m;
    assert m.children[k + j] == xs[j];
    ChildValid(r, q, k + j);
  }

  /** Two `addAfter` calls at the same anchor: the later one lands first. */
  lemma InsertChildrenTwice(n: Node, q: Path, k: nat, xs: seq<Node>, ys: seq<Node>)
    requires ValidPath(n, q) && At(n, q).Inner? && k <= |At(n, q).children|
    ensures At(InsertChildren(n, q, k, xs), q).Inner? && k <= |At(InsertChildren(n, q, k, xs), q).children|
    ensures InsertChildren(InsertChildren(n, q, k, xs), q, k, ys) == InsertChildren(n, q, k, ys + xs)
  {
    var parent := At(n, q);
    var cs := parent.children;
    var m1 := parent.(children := cs[..k] + xs + cs[k..]);
    var cs1 := m1.children;
    assert cs1[..k] == cs[..k];
    assert cs1[k..] == xs + cs[k..];
    assert cs1[..k] + ys + cs1[k..] == cs[..k] + (ys + xs) + cs[k..];
    ReplaceAtTwice(n, q, m1, m1.(children := cs1[..k] + ys + cs1[k..]));
  }

  // ------------------------------------------------- what a local change keeps

  /** A search that stops at `j` finds `j`. */
  lemma FindFirstAt(cs: seq<Node>, sel: Selector, from: nat, j: nat)
    requires from <= j < |cs| && Selects(sel, cs[j])
    requires forall i | from <= i < j :: !Selects(sel, cs[i])
    ensures FindFirst(cs, sel, from) == Some(j)
  {
  }

  /** A climb that stops at `c` ends at `c`. */
  lemma ClimbWhileAt(root: Node, p: Path, test: ClimbTest, c: Path)
    requires ValidPath(root, p) && IsPrefixPath(c, p) && !ParentPasses(root, c, test)
    requires forall k | |c| < k <= |p| :: ParentPasses(root, p[..k], test)
    ensures ClimbWhile(root, p, test) == c
  {
    var d := ClimbWhile(root, p, test);
    assert p[..|c|] == c && p[..|d|] == d;
  }

  /** Replacing the child `b` of a node. */
  lemma ReplaceAtChild(f: Node, b: nat, m: Node)
    requires f.Inner? && b < |f.children|
    ensures ValidPath(f, [b]) && ReplaceAt(f, [b], m) == f.(children := f.children[b := m])
  {
    ChildValid(f, [], b);
    assert Parent([b]) == [] && Last([b]) == b;
  }

  /** Inserting children into child `b` of the node at `p` changes only that child. */
  lemma InsertBelowChild(n: Node, p: Path, b: nat, k: nat, xs: seq<Node>)
    requires ValidPath(n, p) && At(n, p).Inner? && b < |At(n, p).children|
    requires At(n, p).children[b].Inner? && k <= |At(n, p).children[b].children|
    ensures ValidPath(n, p + [b]) && At(n, p + [b]) == At(n, p).children[b]
    ensures var f := At(n, p); var body := f.children[b];
      ValidPath(InsertChildren(n, p + [b], k, xs), p) &&
      At(InsertChildren(n, p + [b], k, xs), p)
        == f.(children := f.children[b := body.(children := body.children[..k] + xs + body.children[k..])])
  {
    var f := At(n, p);
    var body := f.children[b];
    ChildValid(n, p, b);
    var body1 := body.(children := body.children[..k] + xs + body.children[k..]);
    assert InsertChildren(n, p + [b], k, xs) == ReplaceAt(n, p + [b], body1);
    ReplaceAtConcat(n, p, [b], body1);
    ReplaceAtChild(f, b, body1);
  }

  /** Replacing a node below `v` changes, at `v`, only the child on the way down. */
  lemma ReplaceAtAbove(n: Node, q: Path, m: Node, v: Path)
    requires ValidPath(n, q) && IsStrictPrefix(v, q)
    ensures ValidPath(n, v) && At(n, v).Inner? && q[|v|] < |At(n, v).children|
    ensures ValidPath(n, v + [q[|v|]]) && At(n, v + [q[|v|]]) == At(n, v).children[q[|v|]]
    ensures ValidPath(At(n, v + [q[|v|]]), q[|v| + 1..]) && ValidPath(ReplaceAt(n, q, m), v)
    ensures At(ReplaceAt(n, q, m), v)
      == At(n, v).(children := At(n, v).children[q[|v|] := ReplaceAt(At(n, v + [q[|v|]]), q[|v| + 1..], m)])
  {
    var c := q[|v|];
    var w := q[|v| + 1..];
    assert q == v + [c] + w by {
      assert q == q[..|v|] + [c] + w;
    }
    AtConcat(n, v + [c], w);
    assert Parent(v + [c]) == v && Last(v + [c]) == c;
    ParentValid(n, v + [c]);
    assert v + [c] + w == v + ([c] + w);
    ReplaceAtConcat(n, v, [c] + w, m);
    ReplaceBelowChild(At(n, v), c, w, m);
  }

  /** Two prefixes of one path are prefixes of each other, one way or the other. */
  lemma PrefixesComparable(a: Path, b: Path, u: Path)
    requires IsPrefixPath(a, u) && IsPrefixPath(b, u)
    ensures IsPrefixPath(a, b) || IsPrefixPath(b, a)
  {
    if |a| <= |b| {
      assert b[..|a|] == u[..|b|][..|a|];
    } else {
      assert a[..|b|] == u[..|a|][..|b|];
    }
  }

  /** Replacing the node at `q` keeps every node that is neither on the way to `q` nor below it. */
  lemma {:induction false} ReplaceAtOff(n: Node, q: Path, m: Node, u: Path)
    requires ValidPath(n, q) && ValidPath(n, u) && !IsPrefixPath(u, q) && !IsPrefixPath(q, u)
    ensures ValidPath(ReplaceAt(n, q, m), u) && At(ReplaceAt(n, q, m), u) == At(n, u)
    decreases |q|
  {
    ParentValid(n, q);
    var a := Parent(q);
    var parent := At(n, a);
    var p1 := parent.(children := parent.children[Last(q) := m]);
    var r := ReplaceAt(n, a, p1);
    assert ReplaceAt(n, q, m) == r;
    if IsPrefixPath(a, u) {
      assert q == a + [Last(q)];
      var i := u[|a|];
      var w := u[|a| + 1..];
      assert u == a + ([i] + w) by {
        assert u == u[..|a|] + [i] + w;
      }
      assert i != Last(q) by {
        assert u[..|a| + 1] == u[..|a|] + [i];
      }
      AtConcat(n, a, [i] + w);
      AtConcat(parent, [i], w);
      assert Parent([i]) == [] && Last([i]) == i;
      ParentValid(parent, [i]);
      assert p1.children[i] == parent.children[i];
      SameChildPath(parent, i, p1, i, w);
      assert At(r, a) == p1;
      ConcatValid(r, a, [i] + w);
      assert At(r, u) == At(n, u);
    } else {
      assert !IsPrefixPath(u, a);
      ReplaceAtOff(n, a, p1, u);
    }
  }

  /** Inserting children after position `i` keeps everything at and below child `i`. */
  lemma InsertKeepsBelow(n: Node, q: Path, k: nat, xs: seq<Node>, i: nat, w: Path)
    requires ValidPath(n, q) && At(n, q).Inner? && k <= |At(n, q).children|
    requires i < k && ValidPath(n, q + [i] + w)
    ensures ValidPath(InsertChildren(n, q, k, xs), q + [i] + w)
    ensures At(InsertChildren(n, q, k, xs), q + [i] + w) == At(n, q + [i] + w)
  {
    var parent := At(n, q);
    var cs := parent.children;
    var m := parent.(children := cs[..k] + xs + cs[k..]);
    var n1 := InsertChildren(n, q, k, xs);
    assert q + [i] + w == q + ([i] + w);
    AtConcat(n, q, [i] + w);
    AtConcat(parent, [i], w);
    ChildValid(parent, [], i);
    assert m.children[i] == cs[i];
    ChildValid(m, [], i);
    ConcatValid(m, [i], w);
    ConcatValid(n1, q, [i] + w);
  }

  /** Inserting `xs` at position `k` moves child `j >= k`, and everything below it, `|xs|` places on. */
  lemma InsertKeepsAfter(n: Node, q: Path, k: nat, xs: seq<Node>, j: nat, w: Path)
    requires ValidPath(n, q) && At(n, q).Inner? && k <= |At(n, q).children|
    requires k <= j && ValidPath(n, q + [j] + w)
    ensures ValidPath(InsertChildren(n, q, k, xs), q + [j + |xs|] + w)
    ensures At(InsertChildren(n, q, k, xs), q + [j + |xs|] + w) == At(n, q + [j] + w)
  {
    var parent := At(n, q);
    var cs := parent.children;
    var m := parent.(children := cs[..k] + xs + cs[k..]);
    var n1 := InsertChildren(n, q, k, xs);
    assert q + [j] + w == q + ([j] + w);
    assert q + [j + |xs|] + w == q + ([j + |xs|] + w);
    AtConcat(n, q, [j] + w);
    AtConcat(parent, [j], w);
    assert Parent([j]) == [] && Last([j]) == j;
    ParentValid(parent, [j]);
    assert m.children[j + |xs|] == cs[j];
    SameChildPath(parent, j, m, j + |xs|, w);
    assert At(n1, q) == m;
    ConcatValid(n1, q, [j + |xs|] + w);
  }

  /** Two nodes that share a child share everything below it. */
  lemma SameChildPath(a: Node, i: nat, b: Node, j: nat, w: Path)
    requires a.Inner? && b.Inner? && i < |a.children| && j < |b.children| && a.children[i] == b.children[j]
    requires ValidPath(a, [i] + w)
    ensures ValidPath(b, [j] + w) && At(b, [j] + w) == At(a, [i] + w)
  {
    AtConcat(a, [i], w);
    ChildValid(a, [], i);
    ChildValid(b, [], j);
    assert [] + [i] == [i] && [] + [j] == [j];
    ConcatValid(b, [j], w);
  }

  /**
   * Where the node at `u` is found once `n` children have been inserted at
   * position `k` of the node at `q`: the old children from `k` on, and
   * everything below them, move `n` places on; every other path stays.
   */
  function Shift(u: Path, q: Path, k: nat, n: nat): (r: Path)
    ensures |r| == |u|
  {
    if IsStrictPrefix(q, u) && u[|q|] >= k then u[|q| := u[|q|] + n] else u
  }

  /**
   * Inserting children at `q` keeps every node that is not on the way to `q`:
   * each is found, unchanged, at its shifted path.
   */
  lemma InsertChildrenFrame(n: Node, q: Path, k: nat, xs: seq<Node>, u: Path)
    requires ValidPath(n, q) && At(n, q).Inner? && k <= |At(n, q).children|
    requires ValidPath(n, u) && !IsPrefixPath(u, q)
    ensures ValidPath(InsertChildren(n, q, k, xs), Shift(u, q, k, |xs|))
    ensures At(InsertChildren(n, q, k, xs), Shift(u, q, k, |xs|)) == At(n, u)
  {
    if IsStrictPrefix(q, u) {
      var j := u[|q|];
      var w := u[|q| + 1..];
      assert u == q + [j] + w by {
        assert u == u[..|q|] + [j] + w;
      }
      if j < k {
        InsertKeepsBelow(n, q, k, xs, j, w);
      } else {
        assert Shift(u, q, k, |xs|) == q + [j + |xs|] + w;
        InsertKeepsAfter(n, q, k, xs, j, w);
      }
    } else {
      var parent := At(n, q);
      ReplaceAtOff(n, q, parent.(children := parent.children[..k] + xs + parent.children[k..]), u);
    }
  }
}
