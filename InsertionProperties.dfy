/**
 * What the four insertion passes of services/LogInserterService.kt promise:
 * which functions and assignments get a log, where its text lands, that a
 * second visit of the same node adds nothing, and that a pass only ever adds
 * text to the file.
 */
module InsertionProperties {
  import opened Wrappers
  import opened Strings
  import opened LogStrategies
  import opened Psi
  import opened LogInserterService

  // ------------------------------------------------------------------ messages

  /** A Kotlin function log message names the function and lists every parameter as `p=${p}`. */
  lemma KotlinMethodMessageMentions(name: Option<string>, parameters: seq<Option<string>>)
    ensures var m := KotlinMethodMessage(name, parameters);
      IsPrefix(NullableText(name) + "(", m) && m[|m| - 1] == ')' &&
      forall k | 0 <= k < |parameters| :: Contains(m, NullableText(parameters[k]) + "=${" + NullableText(parameters[k]) + "}")
  {
    var texts := KotlinParameterTexts(parameters);
    var m := KotlinMethodMessage(name, parameters);
    assert m == (NullableText(name) + "(") + (Join(", ", texts) + ")");
    forall k | 0 <= k < |parameters|
      ensures Contains(m, NullableText(parameters[k]) + "=${" + NullableText(parameters[k]) + "}")
    {
      JoinContainsElements(", ", texts, k);
      ContainsExtend(NullableText(name) + "(", Join(", ", texts), ")", texts[k]);
    }
  }

  /** A Java method log message names the method and lists every parameter as `p=" + p + "`. */
  lemma JavaMethodMessageMentions(name: string, parameters: seq<string>)
    ensures var m := JavaMethodMessage(name, parameters);
      IsPrefix(name + "(", m) && m[|m| - 1] == ')' &&
      forall k | 0 <= k < |parameters| :: Contains(m, parameters[k] + "=\" + " + parameters[k] + " + \"")
  {
    var texts := JavaParameterTexts(parameters);
    var m := JavaMethodMessage(name, parameters);
    assert m == (name + "(") + (Join(", ", texts) + ")");
    forall k | 0 <= k < |parameters|
      ensures Contains(m, parameters[k] + "=\" + " + parameters[k] + " + \"")
    {
      JoinContainsElements(", ", texts, k);
      ContainsExtend(name + "(", Join(", ", texts), ")", texts[k]);
    }
  }

  /** The message of the plugin's Kotlin function test: `test(param=${param})`. */
  lemma KotlinMethodMessageScenario()
    ensures KotlinMethodMessage(Some("test"), [Some("param")]) == "test(param=${param})"
  {
    var ps: seq<Option<string>> := [Some("param")];
    assert ps[1..] == [];
    assert KotlinParameterText(Some("param")) == "param=${param}";
    assert KotlinParameterTexts(ps) == ["param=${param}"];
    assert Join(", ", ["param=${param}"]) == "param=${param}";
  }

  /**
   * The println Java assignment log as rendered: the message's own closing quote
   * is doubled by the strategy's, so the statement ends in `v");`.
   */
  lemma JavaAssignmentPrintlnText(tag: string, v: string)
    ensures CreateJavaLog(PrintlnStrategy, tag, JavaAssignmentMessage(v))
      == "System.out.println(\"" + tag + ": " + v + " assigned new value: \" + " + v + "\");"
  {
  }

  /** Every message starts with the name the skip check looks for. */
  lemma MessageStartsWithName(s: string, rest: string)
    ensures Contains(s + rest, s)
  {
    ContainsInfix("", s, rest);
    assert "" + s + rest == s + rest;
  }

  // ---------------------------------------------------- one function or method

  /** The text a function log adds: a newline and the Kotlin call, or the Java statement. */
  function MethodLogText(s: LogStrategy, tag: string, k: Kind): string {
    match k
    case PsiMethod(name, parameters) => CreateJavaLog(s, tag, JavaMethodMessage(name, parameters))
    case KtNamedFunction(name, parameters) => "\n" + CreateKotlinLog(s, tag, KotlinMethodMessage(name, parameters))
    case _ => ""
  }

  lemma MethodLogNodesText(s: LogStrategy, tag: string, k: Kind)
    ensures TextOf(MethodLogNodes(s, tag, k)) == MethodLogText(s, tag, k)
  {
    match k
    case PsiMethod(name, parameters) =>
      var t := CreateJavaLog(s, tag, JavaMethodMessage(name, parameters));
      LogNodeText(t);
    case KtNamedFunction(name, parameters) =>
      var t := CreateKotlinLog(s, tag, KotlinMethodMessage(name, parameters));
      LogNodeText(t);
      assert [NewLine, KotlinLogNode(t)][1..] == [KotlinLogNode(t)];
    case _ =>
  }

  /** The text of a log node, alone or after a newline. */
  lemma LogNodeText(t: string)
    ensures Text(KotlinLogNode(t)) == t && Text(JavaLogNode(t)) == t
    ensures TextOf([KotlinLogNode(t)]) == t && TextOf([JavaLogNode(t)]) == t
    ensures TextOf([NewLine, KotlinLogNode(t)]) == "\n" + t && TextOf([NewLine, JavaLogNode(t)]) == "\n" + t
  {
    assert TextOf([Leaf(Token, t)]) == t + TextOf([]);
    assert TextOf([KotlinLogNode(t)]) == t + TextOf([]);
    assert TextOf([JavaLogNode(t)]) == t + TextOf([]);
    assert [NewLine, KotlinLogNode(t)][1..] == [KotlinLogNode(t)];
    assert [NewLine, JavaLogNode(t)][1..] == [JavaLogNode(t)];
  }

  /** The log text mentions the tag and the name the skip check looks for. */
  lemma MethodLogMentions(s: LogStrategy, tag: string, k: Kind)
    requires k.KtNamedFunction? || k.PsiMethod?
    ensures Contains(MethodLogText(s, tag, k), tag) && Contains(MethodLogText(s, tag, k), CheckedName(k))
  {
    match k
    case PsiMethod(name, parameters) =>
      var m := JavaMethodMessage(name, parameters);
      MessageStartsWithName(name, m[|name|..]);
      assert name + m[|name|..] == m;
      ContainsTransitive(CreateJavaLog(s, tag, m), m, name);
    case KtNamedFunction(name, parameters) =>
      var m := KotlinMethodMessage(name, parameters);
      var log := CreateKotlinLog(s, tag, m);
      ContainsExtend("\n", log, "", tag);
      assert "\n" + log + "" == "\n" + log;
      if name.Some? {
        MessageStartsWithName(name.value, m[|name.value|..]);
        assert name.value + m[|name.value|..] == m;
        ContainsTransitive(log, m, name.value);
        ContainsExtend("\n", log, "", name.value);
      }
  }

  /** The text of a child list holds the text of any run of children. */
  lemma TextOfContainsMiddle(a: seq<Node>, xs: seq<Node>, b: seq<Node>)
    ensures Contains(TextOf(a + xs + b), TextOf(xs))
  {
    TextOfAppend(a + xs, b);
    TextOfAppend(a, xs);
    ContainsInfix(TextOf(a), TextOf(xs), TextOf(b));
  }

  /** Inserting children leaves the old text in place, as a subsequence of the new one. */
  lemma InsertChildrenOnlyAdds(n: Node, q: Path, k: nat, xs: seq<Node>)
    requires ValidPath(n, q) && At(n, q).Inner? && k <= |At(n, q).children|
    ensures IsSubsequence(Text(n), Text(InsertChildren(n, q, k, xs)))
  {
    var cs := At(n, q).children;
    InsertChildrenText(n, q, k, xs);
    SubsequenceInsertMid(Before(n, q), TextOf(cs[..k]), TextOf(xs), TextOf(cs[k..]), After(n, q));
  }

  /** Inserting children splices their text in at the end of the text of the first `k` children. */
  lemma InsertChildrenSplice(n: Node, q: Path, k: nat, xs: seq<Node>) returns (j: nat)
    requires ValidPath(n, q) && At(n, q).Inner? && k <= |At(n, q).children|
    ensures j == |Before(n, q) + TextOf(At(n, q).children[..k])| && j <= |Text(n)|
    ensures Text(InsertChildren(n, q, k, xs)) == Text(n)[..j] + TextOf(xs) + Text(n)[j..]
  {
    var cs := At(n, q).children;
    InsertChildrenText(n, q, k, xs);
    j := |Before(n, q) + TextOf(cs[..k])|;
    SpliceAt(Before(n, q), TextOf(cs[..k]), TextOf(xs), TextOf(cs[k..]), After(n, q));
  }

  /** When the function needs its log, the log text lands right after the text through the `{`. */
  lemma MethodStepSplice(s: LogStrategy, tag: string, root: Node, p: Path) returns (k: nat)
    requires ValidPath(root, p) && (IsTarget(At(root, p), NamedFunctions) || IsTarget(At(root, p), Methods))
    requires NeedsMethodLog(tag, root, p)
    ensures k <= |Text(root)|
    ensures Text(MethodStep(s, tag, root, p)) == Text(root)[..k] + MethodLogText(s, tag, At(root, p).kind) + Text(root)[k..]
  {
    var b, l := MethodStepInserts(s, tag, root, p);
    k := InsertChildrenSplice(root, p + [b], l + 1, MethodLogNodes(s, tag, At(root, p).kind));
    MethodLogNodesText(s, tag, At(root, p).kind);
  }

  /** A pass over one function only ever adds text. */
  lemma MethodStepOnlyAdds(s: LogStrategy, tag: string, root: Node, p: Path)
    requires ValidPath(root, p) && At(root, p).Inner?
    ensures IsSubsequence(Text(root), Text(MethodStep(s, tag, root, p)))
  {
    if NeedsMethodLog(tag, root, p) {
      var b, l := MethodStepInserts(s, tag, root, p);
      InsertChildrenOnlyAdds(root, p + [b], l + 1, MethodLogNodes(s, tag, At(root, p).kind));
    } else {
      MethodStepUnneeded(s, tag, root, p);
      SubsequenceRefl(Text(root));
    }
  }

  /**
   * `insertKotlinMethodLogs`/`insertJavaMethodLogs` on one function: with nothing
   * to do the tree stays as it is, otherwise the log text is spliced into the
   * file text right after the body's `{`; the tree changes exactly then.
   */
  lemma MethodStepEffect(s: LogStrategy, tag: string, root: Node, p: Path)
    requires ValidPath(root, p) && (IsTarget(At(root, p), NamedFunctions) || IsTarget(At(root, p), Methods))
    ensures !NeedsMethodLog(tag, root, p) ==> MethodStep(s, tag, root, p) == root
    ensures NeedsMethodLog(tag, root, p) ==>
      exists k | 0 <= k <= |Text(root)| ::
        Text(MethodStep(s, tag, root, p)) == Text(root)[..k] + MethodLogText(s, tag, At(root, p).kind) + Text(root)[k..]
    ensures MethodStep(s, tag, root, p) != root <==> NeedsMethodLog(tag, root, p)
  {
    if NeedsMethodLog(tag, root, p) {
      var k := MethodStepSplice(s, tag, root, p);
      var kind := At(root, p).kind;
      MethodLogMentions(s, tag, kind);
      assert |MethodLogText(s, tag, kind)| > 0;
      assert |Text(MethodStep(s, tag, root, p))| > |Text(root)|;
    }
  }

  /** A function that has just been given its log is left alone when it is visited again. */
  lemma MethodStepIdempotent(s: LogStrategy, tag: string, root: Node, p: Path)
    requires ValidPath(root, p) && (IsTarget(At(root, p), NamedFunctions) || IsTarget(At(root, p), Methods))
    ensures ValidPath(MethodStep(s, tag, root, p), p)
    ensures At(MethodStep(s, tag, root, p), p).Inner?
    ensures MethodStep(s, tag, MethodStep(s, tag, root, p), p) == MethodStep(s, tag, root, p)
  {
    if NeedsMethodLog(tag, root, p) {
      var b, l := MethodStepInserts(s, tag, root, p);
      var f := At(root, p);
      assert f.kind.KtNamedFunction? || f.kind.PsiMethod?;
      InsertBelowChild(root, p, b, l + 1, MethodLogNodes(s, tag, f.kind));
      MethodLogSettles(s, tag, MethodStep(s, tag, root, p), p, f, b, l + 1);
    } else {
      MethodStepUnneeded(s, tag, root, p);
    }
  }

  /** A function whose body already mentions the tag and the name is left alone. */
  lemma MethodStepSettled(s: LogStrategy, tag: string, root: Node, p: Path, b: nat)
    requires ValidPath(root, p) && At(root, p).Inner?
    requires FindFirst(At(root, p).children, BodySelector(At(root, p).kind), 0) == Some(b) && b < |At(root, p).children|
    requires Contains(Text(At(root, p).children[b]), tag) && Contains(Text(At(root, p).children[b]), CheckedName(At(root, p).kind))
    ensures MethodStep(s, tag, root, p) == root
  {
  }

  /** A function whose function node at `p` is `f` with the log behind the `{` of its body is left alone. */
  lemma MethodLogSettles(s: LogStrategy, tag: string, r: Node, p: Path, f: Node, b: nat, l: nat)
    requires f.Inner? && (f.kind.KtNamedFunction? || f.kind.PsiMethod?)
    requires b < |f.children| && FindFirst(f.children, BodySelector(f.kind), 0) == Some(b)
    requires f.children[b].Inner? && l <= |f.children[b].children|
    requires ValidPath(r, p)
    requires var body := f.children[b];
      At(r, p) == f.(children := f.children[b := body.(children := body.children[..l] + MethodLogNodes(s, tag, f.kind) + body.children[l..])])
    ensures MethodStep(s, tag, r, p) == r
  {
    var body := f.children[b];
    var cs := body.children;
    var body1 := body.(children := cs[..l] + MethodLogNodes(s, tag, f.kind) + cs[l..]);
    var f1 := f.(children := f.children[b := body1]);
    FindFirstAt(f1.children, BodySelector(f.kind), 0, b);
    LoggedBodyMentions(s, tag, f.kind, cs, l);
    MethodStepSettled(s, tag, r, p, b);
  }

  /** A body with a function log in it mentions the tag and the checked name. */
  lemma LoggedBodyMentions(s: LogStrategy, tag: string, k: Kind, cs: seq<Node>, l: nat)
    requires (k.KtNamedFunction? || k.PsiMethod?) && l <= |cs|
    ensures var t := TextOf(cs[..l] + MethodLogNodes(s, tag, k) + cs[l..]);
      Contains(t, tag) && Contains(t, CheckedName(k))
  {
    var t := TextOf(cs[..l] + MethodLogNodes(s, tag, k) + cs[l..]);
    TextOfContainsMiddle(cs[..l], MethodLogNodes(s, tag, k), cs[l..]);
    MethodLogNodesText(s, tag, k);
    MethodLogMentions(s, tag, k);
    ContainsTransitive(t, MethodLogText(s, tag, k), tag);
    ContainsTransitive(t, MethodLogText(s, tag, k), CheckedName(k));
  }

  // -------------------------------------------------------------- one assignment

  /** `insertAfterStatement` has a place after the statement at `c`: a Kotlin block, given a factory, or a Java code block. */
  predicate HasStatementSlot(root: Node, c: Path, withNewLine: bool)
    requires ValidPath(root, c)
  {
    c != [] && ValidPath(root, Parent(c)) && At(root, Parent(c)).Inner? &&
    ((At(root, Parent(c)).kind == KtBlockExpression && withNewLine) || At(root, Parent(c)).kind == PsiCodeBlock)
  }

  /** The assignment at `p` gets a log: it has a left side, the next statement is no log of it yet, and there is a place for one. */
  predicate NeedsAssignmentLog(tag: string, root: Node, p: Path)
    requires ValidPath(root, p) && At(root, p).Inner?
  {
    var a := At(root, p);
    var v := VariableText(a);
    v.Some? && !LogAlreadyPresent(root, p, tag, v.value) &&
    HasStatementSlot(root, ClimbWhile(root, p, NotBlock), a.kind.KtBinaryExpression?)
  }

  /** What separates a statement from the log after it: a newline in a Kotlin block, nothing in Java. */
  function Separator(root: Node, c: Path): string
    requires ValidPath(root, c) && c != []
  {
    ParentValid(root, c);
    if At(root, Parent(c)).kind == KtBlockExpression then "\n" else ""
  }

  /** The text of an assignment log. */
  function AssignmentLogText(s: LogStrategy, tag: string, k: Kind, varName: string): string {
    if k.KtBinaryExpression? then CreateKotlinLog(s, tag, KotlinAssignmentMessage(varName))
    else CreateJavaLog(s, tag, JavaAssignmentMessage(varName))
  }

  /** An assignment log mentions the tag and the assigned variable. */
  lemma AssignmentLogMentions(s: LogStrategy, tag: string, k: Kind, varName: string)
    ensures Text(AssignmentLog(s, tag, k, varName)) == AssignmentLogText(s, tag, k, varName)
    ensures Contains(AssignmentLogText(s, tag, k, varName), tag)
    ensures Contains(AssignmentLogText(s, tag, k, varName), varName)
  {
    var m := if k.KtBinaryExpression? then KotlinAssignmentMessage(varName) else JavaAssignmentMessage(varName);
    MessageStartsWithName(varName, m[|varName|..]);
    assert varName + m[|varName|..] == m;
    ContainsTransitive(AssignmentLogText(s, tag, k, varName), m, varName);
    LogNodeText(AssignmentLogText(s, tag, k, varName));
  }

  /** Children inserted right after the node at `c` follow its text. */
  lemma InsertAfterText(root: Node, c: Path, xs: seq<Node>)
    requires ValidPath(root, c) && c != []
    ensures ValidPath(root, Parent(c)) && At(root, Parent(c)).Inner? && Last(c) < |At(root, Parent(c)).children|
    ensures Text(InsertChildren(root, Parent(c), Last(c) + 1, xs))
      == Before(root, c) + Text(At(root, c)) + TextOf(xs) + After(root, c)
  {
    ParentValid(root, c);
    var q := Parent(c);
    var i := Last(c);
    var cs := At(root, q).children;
    var b, t0, t1, t2, af := Before(root, q), TextOf(cs[..i]), Text(cs[i]), TextOf(cs[i + 1..]), After(root, q);
    var x := TextOf(xs);
    assert Text(InsertChildren(root, q, i + 1, xs)) == b + (t0 + t1) + x + t2 + af by {
      InsertChildrenText(root, q, i + 1, xs);
      TextOfSnoc(cs, i);
    }
    assert Before(root, c) + Text(At(root, c)) + x + After(root, c) == (b + t0) + t1 + x + (t2 + af);
    Regroup(b, t0, t1, x, t2, af);
  }

  /** The text of one node, alone or after a newline. */
  lemma OneOrTwoText(x: Node)
    ensures TextOf([x]) == Text(x) && TextOf([NewLine, x]) == "\n" + Text(x)
  {
    assert TextOf([x]) == Text(x) + TextOf([]);
    assert [NewLine, x][1..] == [x];
  }

  /** `insertAfterStatement` splices the new element's text in right after the enclosing statement. */
  lemma InsertedAfterStatementText(root: Node, statement: Path, x: Node, withNewLine: bool)
    requires ValidPath(root, statement)
    ensures var c := ClimbWhile(root, statement, NotBlock);
      (!HasStatementSlot(root, c, withNewLine) ==> InsertedAfterStatement(root, statement, x, withNewLine) == root) &&
      (HasStatementSlot(root, c, withNewLine) ==>
        Text(InsertedAfterStatement(root, statement, x, withNewLine))
          == Before(root, c) + Text(At(root, c)) + Separator(root, c) + Text(x) + After(root, c))
  {
    var c := ClimbWhile(root, statement, NotBlock);
    if HasStatementSlot(root, c, withNewLine) {
      ParentValid(root, c);
      var xs := if At(root, Parent(c)).kind == KtBlockExpression && withNewLine then [NewLine, x] else [x];
      assert InsertedAfterStatement(root, statement, x, withNewLine) == InsertChildren(root, Parent(c), Last(c) + 1, xs);
      assert TextOf(xs) == Separator(root, c) + Text(x) by {
        OneOrTwoText(x);
      }
      InsertAfterText(root, c, xs);
      RegroupPair(Before(root, c), Text(At(root, c)), Separator(root, c), Text(x), After(root, c));
    }
  }

  /**
   * `insertKotlinAssignmentLogs`/`insertJavaAssignmentLogs` on one assignment: with
   * nothing to do the tree stays as it is, otherwise the log text is spliced in
   * right after the statement that holds the assignment; the tree changes exactly then.
   */
  lemma AssignmentStepEffect(s: LogStrategy, tag: string, root: Node, p: Path)
    requires ValidPath(root, p) && (IsTarget(At(root, p), KotlinAssignments) || IsTarget(At(root, p), JavaAssignments))
    ensures !NeedsAssignmentLog(tag, root, p) ==> AssignmentStep(s, tag, root, p) == root
    ensures NeedsAssignmentLog(tag, root, p) ==>
      var c := ClimbWhile(root, p, NotBlock);
      var a := At(root, p);
      Text(AssignmentStep(s, tag, root, p))
        == Before(root, c) + Text(At(root, c)) + Separator(root, c)
           + AssignmentLogText(s, tag, a.kind, VariableText(a).value) + After(root, c)
    ensures AssignmentStep(s, tag, root, p) != root <==> NeedsAssignmentLog(tag, root, p)
  {
    var a := At(root, p);
    var c := ClimbWhile(root, p, NotBlock);
    match VariableText(a)
    case None =>
    case Some(v) =>
      if !LogAlreadyPresent(root, p, tag, v) {
        var x := AssignmentLog(s, tag, a.kind, v);
        assert AssignmentStep(s, tag, root, p) == InsertedAfterStatement(root, p, x, a.kind.KtBinaryExpression?);
        InsertedAfterStatementText(root, p, x, a.kind.KtBinaryExpression?);
        AssignmentLogMentions(s, tag, a.kind, v);
        if NeedsAssignmentLog(tag, root, p) {
          TextAround(root, c);
          InsertLengthens(Before(root, c), Text(At(root, c)), Separator(root, c), Text(x), After(root, c));
        }
      }
  }

  /** Writing a non-empty string into the middle of another makes it longer. */
  lemma InsertLengthens(a: string, b: string, sep: string, t: string, c: string)
    requires |t| > 0
    ensures a + b + c != a + b + sep + t + c
  {
    assert |a + b + sep + t + c| > |a + b + c|;
  }

  /** Inserting after the statement at `c` keeps what lies under it, and the climb up to it. */
  lemma InsertAfterKeepsClimb(root: Node, p: Path, xs: seq<Node>)
    requires ValidPath(root, p) && ClimbWhile(root, p, NotBlock) != []
    ensures var c := ClimbWhile(root, p, NotBlock);
      ValidPath(root, Parent(c)) && At(root, Parent(c)).Inner? && Last(c) < |At(root, Parent(c)).children|
    ensures var c := ClimbWhile(root, p, NotBlock);
      var r := InsertChildren(root, Parent(c), Last(c) + 1, xs);
      ValidPath(r, p) && At(r, p) == At(root, p) && ClimbWhile(r, p, NotBlock) == c
  {
    var c := ClimbWhile(root, p, NotBlock);
    ParentValid(root, c);
    var q := Parent(c);
    var i := Last(c);
    var r := InsertChildren(root, q, i + 1, xs);
    assert c == q + [i];
    var w := p[|c|..];
    assert p == q + [i] + w;
    InsertKeepsBelow(root, q, i + 1, xs, i, w);
    forall k | |c| < k <= |p|
      ensures ParentPasses(r, p[..k], NotBlock)
    {
      InsertKeepsParentPasses(root, q, i, xs, p, k);
    }
    ClimbWhileAt(r, p, NotBlock, c);
  }

  /** Inserting behind child `i` of `q` keeps every ancestor strictly below that child as it was. */
  lemma InsertKeepsParentPasses(root: Node, q: Path, i: nat, xs: seq<Node>, p: Path, k: nat)
    requires ValidPath(root, q) && At(root, q).Inner? && i < |At(root, q).children|
    requires ValidPath(root, p) && IsPrefixPath(q + [i], p) && |q| + 1 < k <= |p|
    requires ParentPasses(root, p[..k], NotBlock)
    ensures ParentPasses(InsertChildren(root, q, i + 1, xs), p[..k], NotBlock)
  {
    var u := p[|q| + 1..k - 1];
    assert Parent(p[..k]) == q + [i] + u;
    InsertKeepsBelow(root, q, i + 1, xs, i, u);
  }

  /** After inserting a node, or a newline and a node, behind `c`, that node is the next non-trivia sibling. */
  lemma InsertAfterNextSibling(root: Node, c: Path, x: Node, xs: seq<Node>)
    requires ValidPath(root, c) && c != [] && x.Inner? && (xs == [x] || xs == [NewLine, x])
    ensures ValidPath(root, Parent(c)) && At(root, Parent(c)).Inner? && Last(c) < |At(root, Parent(c)).children|
    ensures var r := InsertChildren(root, Parent(c), Last(c) + 1, xs);
      ValidPath(r, c) && NextNonTriviaText(r, c) == Text(x)
  {
    ParentValid(root, c);
    var q := Parent(c);
    var i := Last(c);
    var parent := At(root, q);
    var r := InsertChildren(root, q, i + 1, xs);
    var cs1 := parent.children[..i + 1] + xs + parent.children[i + 1..];
    assert At(r, q) == parent.(children := cs1);
    ChildValid(r, q, i);
    assert q + [i] == c;
    NextAfterInsert(parent.children, i, x, xs);
  }

  /** Behind child `i`, the first non-trivia child after inserting `xs` there is `x`. */
  lemma NextAfterInsert(cs: seq<Node>, i: nat, x: Node, xs: seq<Node>)
    requires i < |cs| && x.Inner? && (xs == [x] || xs == [NewLine, x])
    ensures var cs1 := cs[..i + 1] + xs + cs[i + 1..];
      FindFirst(cs1, NonTrivia, i + 1) == Some(i + |xs|) && cs1[i + |xs|] == x
  {
    var cs1 := cs[..i + 1] + xs + cs[i + 1..];
    var j := i + |xs|;
    assert cs1[j] == x;
    FindFirstAt(cs1, NonTrivia, i + 1, j);
  }

  /** Right after its log is inserted, an assignment's log is found by `isLogAlreadyPresent`. */
  lemma InsertedLogIsFound(s: LogStrategy, tag: string, root: Node, p: Path)
    requires ValidPath(root, p) && (IsTarget(At(root, p), KotlinAssignments) || IsTarget(At(root, p), JavaAssignments))
    requires NeedsAssignmentLog(tag, root, p)
    ensures ValidPath(AssignmentStep(s, tag, root, p), p)
    ensures At(AssignmentStep(s, tag, root, p), p) == At(root, p)
    ensures LogAlreadyPresent(AssignmentStep(s, tag, root, p), p, tag, VariableText(At(root, p)).value)
  {
    var a := At(root, p);
    var v := VariableText(a).value;
    var x := AssignmentLog(s, tag, a.kind, v);
    var xs := AssignmentStepInserts(s, tag, root, p);
    InsertAfterShowsLog(root, p, x, xs);
    AssignmentLogMentions(s, tag, a.kind, v);
  }

  /** Once `x` is inserted behind the statement above `p`, the climb from `p` sees `x` as the next statement. */
  lemma InsertAfterShowsLog(root: Node, p: Path, x: Node, xs: seq<Node>)
    requires ValidPath(root, p) && ClimbWhile(root, p, NotBlock) != [] && x.Inner? && (xs == [x] || xs == [NewLine, x])
    ensures var c := ClimbWhile(root, p, NotBlock);
      ValidPath(root, Parent(c)) && At(root, Parent(c)).Inner? && Last(c) < |At(root, Parent(c)).children|
    ensures var c := ClimbWhile(root, p, NotBlock);
      var r := InsertChildren(root, Parent(c), Last(c) + 1, xs);
      ValidPath(r, p) && At(r, p) == At(root, p) && NextNonTriviaText(r, ClimbWhile(r, p, NotBlock)) == Text(x)
  {
    var c := ClimbWhile(root, p, NotBlock);
    InsertAfterKeepsClimb(root, p, xs);
    InsertAfterNextSibling(root, c, x, xs);
  }

  /** An assignment that needs a log gets it, with or without a newline, right behind its statement. */
  lemma AssignmentStepInserts(s: LogStrategy, tag: string, root: Node, p: Path) returns (xs: seq<Node>)
    requires ValidPath(root, p) && (IsTarget(At(root, p), KotlinAssignments) || IsTarget(At(root, p), JavaAssignments))
    requires NeedsAssignmentLog(tag, root, p)
    ensures var c := ClimbWhile(root, p, NotBlock);
      c != [] && ValidPath(root, Parent(c)) && At(root, Parent(c)).Inner? && Last(c) < |At(root, Parent(c)).children|
    ensures var x := AssignmentLog(s, tag, At(root, p).kind, VariableText(At(root, p)).value);
      var c := ClimbWhile(root, p, NotBlock);
      xs == (if At(root, Parent(c)).kind == KtBlockExpression && At(root, p).kind.KtBinaryExpression? then [NewLine, x] else [x]) &&
      AssignmentStep(s, tag, root, p) == InsertChildren(root, Parent(ClimbWhile(root, p, NotBlock)), Last(ClimbWhile(root, p, NotBlock)) + 1, xs)
  {
    var a := At(root, p);
    var v := VariableText(a).value;
    var x := AssignmentLog(s, tag, a.kind, v);
    assert AssignmentStep(s, tag, root, p) == InsertedAfterStatement(root, p, x, a.kind.KtBinaryExpression?);
    xs := InsertedAfterSlot(root, p, x, a.kind.KtBinaryExpression?);
  }

  /** Where there is a slot for it, `insertAfterStatement` splices the element in right behind the statement. */
  lemma InsertedAfterSlot(root: Node, statement: Path, x: Node, withNewLine: bool) returns (xs: seq<Node>)
    requires ValidPath(root, statement) && HasStatementSlot(root, ClimbWhile(root, statement, NotBlock), withNewLine)
    ensures var c := ClimbWhile(root, statement, NotBlock);
      c != [] && ValidPath(root, Parent(c)) && At(root, Parent(c)).Inner? && Last(c) < |At(root, Parent(c)).children|
    ensures var c := ClimbWhile(root, statement, NotBlock);
      xs == (if At(root, Parent(c)).kind == KtBlockExpression && withNewLine then [NewLine, x] else [x]) &&
      InsertedAfterStatement(root, statement, x, withNewLine)
        == InsertChildren(root, Parent(ClimbWhile(root, statement, NotBlock)), Last(ClimbWhile(root, statement, NotBlock)) + 1, xs)
  {
    var c := ClimbWhile(root, statement, NotBlock);
    ParentValid(root, c);
    xs := if At(root, Parent(c)).kind == KtBlockExpression && withNewLine then [NewLine, x] else [x];
  }

  /** An assignment that has just been given its log is left alone when it is visited again. */
  lemma AssignmentStepIdempotent(s: LogStrategy, tag: string, root: Node, p: Path)
    requires ValidPath(root, p) && (IsTarget(At(root, p), KotlinAssignments) || IsTarget(At(root, p), JavaAssignments))
    ensures ValidPath(AssignmentStep(s, tag, root, p), p)
    ensures At(AssignmentStep(s, tag, root, p), p).Inner?
    ensures AssignmentStep(s, tag, AssignmentStep(s, tag, root, p), p) == AssignmentStep(s, tag, root, p)
  {
    if NeedsAssignmentLog(tag, root, p) {
      InsertedLogIsFound(s, tag, root, p);
    } else {
      AssignmentStepEffect(s, tag, root, p);
    }
  }

  /** A pass over one assignment only ever adds text. */
  lemma AssignmentStepOnlyAdds(s: LogStrategy, tag: string, root: Node, p: Path)
    requires ValidPath(root, p) && (IsTarget(At(root, p), KotlinAssignments) || IsTarget(At(root, p), JavaAssignments))
    ensures IsSubsequence(Text(root), Text(AssignmentStep(s, tag, root, p)))
  {
    AssignmentStepEffect(s, tag, root, p);
    if NeedsAssignmentLog(tag, root, p) {
      var a := At(root, p);
      var c := ClimbWhile(root, p, NotBlock);
      TextAround(root, c);
      SubsequenceInsertTwo(Before(root, c), Text(At(root, c)), Separator(root, c),
        AssignmentLogText(s, tag, a.kind, VariableText(a).value), After(root, c));
    } else {
      SubsequenceRefl(Text(root));
    }
  }

  // ---------------------------------------------------------------- whole passes

  /** The candidate at `p` gets a log from the pass `op`. */
  predicate NeedsLog(op: InsertOp, tag: string, root: Node, p: Path)
    requires ValidPath(root, p) && At(root, p).Inner?
  {
    if op == KotlinMethodLogs || op == JavaMethodLogs then NeedsMethodLog(tag, root, p)
    else NeedsAssignmentLog(tag, root, p)
  }

  /** One candidate's step only adds text, and it changes the tree exactly when the candidate needs a log, and then it adds text. */
  lemma StepEffect(op: InsertOp, s: LogStrategy, tag: string, root: Node, p: Path)
    requires ValidPath(root, p) && IsTarget(At(root, p), TargetOf(op))
    ensures IsSubsequence(Text(root), Text(Step(op, s, tag, root, p)))
    ensures Step(op, s, tag, root, p) != root <==> NeedsLog(op, tag, root, p)
    ensures NeedsLog(op, tag, root, p) ==> |Text(root)| < |Text(Step(op, s, tag, root, p))|
  {
    if op == KotlinMethodLogs || op == JavaMethodLogs {
      MethodStepOnlyAdds(s, tag, root, p);
      MethodStepEffect(s, tag, root, p);
      if NeedsMethodLog(tag, root, p) {
        var k := MethodStepSplice(s, tag, root, p);
        MethodLogMentions(s, tag, At(root, p).kind);
      }
    } else {
      AssignmentStepOnlyAdds(s, tag, root, p);
      AssignmentStepEffect(s, tag, root, p);
      if NeedsAssignmentLog(tag, root, p) {
        var a := At(root, p);
        var c := ClimbWhile(root, p, NotBlock);
        TextAround(root, c);
        AssignmentLogMentions(s, tag, a.kind, VariableText(a).value);
      }
    }
  }

  /** The candidate of rank `r` among the file's nodes of the pass's class needs a log. */
  predicate NeedsLogAtRank(op: InsertOp, tag: string, root: Node, r: nat)
    requires r < Count(root, TargetOf(op))
  {
    FindAllAtLength(root, [], TargetOf(op));
    var p := AllTargets(root, TargetOf(op))[r];
    NeedsLog(op, tag, root, p)
  }

  /**
   * Visiting the candidates one after the other only adds text; the tree is left
   * as it was exactly when no candidate needs a log, and grows otherwise.
   */
  lemma {:induction false} RunRanksEffect(op: InsertOp, s: LogStrategy, tag: string, root: Node, ranks: seq<nat>)
    requires forall j | 0 <= j < |ranks| :: ranks[j] < Count(root, TargetOf(op))
    ensures IsSubsequence(Text(root), Text(RunRanks(op, s, tag, root, ranks)))
    ensures (forall j | 0 <= j < |ranks| :: !NeedsLogAtRank(op, tag, root, ranks[j])) ==> RunRanks(op, s, tag, root, ranks) == root
    ensures (exists j | 0 <= j < |ranks| :: NeedsLogAtRank(op, tag, root, ranks[j])) ==>
      |Text(root)| < |Text(RunRanks(op, s, tag, root, ranks))|
    decreases |ranks|
  {
    if ranks == [] {
      SubsequenceRefl(Text(root));
    } else {
      var p, next := RunRanksFirst(op, s, tag, root, ranks);
      var rest := ranks[1..];
      StepEffect(op, s, tag, root, p);
      RunRanksEffect(op, s, tag, next, rest);
      var last := RunRanks(op, s, tag, next, rest);
      SubsequenceTrans(Text(root), Text(next), Text(last));
      if NeedsLog(op, tag, root, p) {
        SubsequenceLength(Text(next), Text(last));
        assert NeedsLogAtRank(op, tag, root, ranks[0]);
      } else {
        assert next == root && !NeedsLogAtRank(op, tag, root, ranks[0]);
        if exists j | 0 <= j < |ranks| :: NeedsLogAtRank(op, tag, root, ranks[j]) {
          var j :| 0 <= j < |ranks| && NeedsLogAtRank(op, tag, root, ranks[j]);
          assert rest[j - 1] == ranks[j];
        }
        if forall j | 0 <= j < |ranks| :: !NeedsLogAtRank(op, tag, root, ranks[j]) {
          forall j | 0 <= j < |rest| ensures !NeedsLogAtRank(op, tag, next, rest[j]) {
            assert rest[j] == ranks[j + 1];
          }
        }
      }
    }
  }

  /** The first step of a run: the candidate of the first rank, and the tree after its step. */
  lemma RunRanksFirst(op: InsertOp, s: LogStrategy, tag: string, root: Node, ranks: seq<nat>) returns (p: Path, next: Node)
    requires ranks != [] && forall j | 0 <= j < |ranks| :: ranks[j] < Count(root, TargetOf(op))
    ensures |AllTargets(root, TargetOf(op))| == Count(root, TargetOf(op)) && p == AllTargets(root, TargetOf(op))[ranks[0]]
    ensures ValidPath(root, p) && IsTarget(At(root, p), TargetOf(op))
    ensures next == Step(op, s, tag, root, p)
    ensures forall j | 0 <= j < |ranks[1..]| :: ranks[1..][j] < Count(next, TargetOf(op))
    ensures RunRanks(op, s, tag, root, ranks) == RunRanks(op, s, tag, next, ranks[1..])
    ensures NeedsLogAtRank(op, tag, root, ranks[0]) <==> NeedsLog(op, tag, root, p)
  {
    var t := TargetOf(op);
    FindAllAtLength(root, [], t);
    p := AllTargets(root, t)[ranks[0]];
    StepKeepsCount(op, s, tag, root, p);
    next := Step(op, s, tag, root, p);
    var rest := ranks[1..];
    forall j | 0 <= j < |rest| ensures rest[j] < Count(next, t) {
      assert rest[j] == ranks[j + 1];
    }
  }

  /**
   * A whole `insert*Logs` pass over `scope` only adds text to the file, and it
   * changes the file exactly when some candidate inside the scope needs a log:
   * a scope whose functions (or assignments) already carry their logs is left as it is.
   */
  lemma RunEffect(op: InsertOp, s: LogStrategy, tag: string, root: Node, scope: Path)
    ensures IsSubsequence(Text(root), Text(Run(op, s, tag, root, scope)))
    ensures var cands := ScopeTargets(root, TargetOf(op), scope);
      Run(op, s, tag, root, scope) != root <==> exists j | 0 <= j < |cands| :: NeedsLog(op, tag, root, cands[j])
  {
    var t := TargetOf(op);
    var ranks := Candidates(op, root, scope);
    var cands := ScopeTargets(root, t, scope);
    FindAllAtLength(root, [], t);
    assert |cands| == |ranks|;
    assert forall j | 0 <= j < |ranks| :: cands[j] == AllTargets(root, t)[ranks[j]];
    RunRanksEffect(op, s, tag, root, ranks);
    if exists j | 0 <= j < |cands| :: NeedsLog(op, tag, root, cands[j]) {
      var j :| 0 <= j < |cands| && NeedsLog(op, tag, root, cands[j]);
      assert NeedsLogAtRank(op, tag, root, ranks[j]);
    } else {
      forall j | 0 <= j < |ranks| ensures !NeedsLogAtRank(op, tag, root, ranks[j]) {
        assert !NeedsLog(op, tag, root, cands[j]);
      }
    }
  }
}
