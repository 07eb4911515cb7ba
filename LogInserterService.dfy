/**
 * services/LogInserterService.kt: inserting a log line at the top of every
 * function or method body and after every assignment, and removing the log
 * lines again, in the PSI tree of one edited file.
 *
 * Each operation is written twice: as a pure function of the old tree (the
 * specification, about which the property modules prove what the plugin
 * promises) and as a method that changes a `SourceFile` step by step, as the
 * plugin does, proved to end in the tree the function describes.
 */
module LogInserterService {
  import opened Wrappers
  import opened Strings
  import opened Settings
  import opened LogStrategies
  import opened Psi

  /** The edited file: its language and its PSI tree, which the service mutates in place. */
  class SourceFile {
    const grammar: Grammar
    var root: Node

    constructor (grammar: Grammar, root: Node)
      ensures this.grammar == grammar && this.root == root
    {
      this.grammar := grammar;
      this.root := root;
    }
  }

  // ------------------------------------------------------------------ messages

  /** A nullable string spliced into a Kotlin string template: `null` prints as "null". */
  function NullableText(s: Option<string>): string {
    match s
    case Some(x) => x
    case None => "null"
  }

  function KotlinParameterText(name: Option<string>): string {
    NullableText(name) + "=${" + NullableText(name) + "}"
  }

  function JavaParameterText(name: string): string {
    name + "=\" + " + name + " + \""
  }

  function KotlinParameterTexts(parameters: seq<Option<string>>): (r: seq<string>)
    ensures |r| == |parameters|
    ensures forall i | 0 <= i < |r| :: r[i] == KotlinParameterText(parameters[i])
  {
    if parameters == [] then [] else [KotlinParameterText(parameters[0])] + KotlinParameterTexts(parameters[1..])
  }

  function JavaParameterTexts(parameters: seq<string>): (r: seq<string>)
    ensures |r| == |parameters|
    ensures forall i | 0 <= i < |r| :: r[i] == JavaParameterText(parameters[i])
  {
    if parameters == [] then [] else [JavaParameterText(parameters[0])] + JavaParameterTexts(parameters[1..])
  }

  /** The message of a Kotlin function log: `name(p1=${p1}, p2=${p2})`. */
  function KotlinMethodMessage(name: Option<string>, parameters: seq<Option<string>>): string {
    NullableText(name) + "(" + Join(", ", KotlinParameterTexts(parameters)) + ")"
  }

  /** The message of a Java method log: `name(p1=" + p1 + ", p2=" + p2 + ")`. */
  function JavaMethodMessage(name: string, parameters: seq<string>): string {
    name + "(" + Join(", ", JavaParameterTexts(parameters)) + ")"
  }

  function KotlinAssignmentMessage(varName: string): string {
    varName + " assigned new value: ${" + varName + "}"
  }

  function JavaAssignmentMessage(varName: string): string {
    varName + " assigned new value: \" + " + varName
  }

  /**
   * The node the host factory builds from a Kotlin log text (`createExpression`)
   * and from a Java one (`createStatementFromText`). Its inner structure is the
   * host parser's business; the model keeps its kind and its text.
   */
  function KotlinLogNode(text: string): Node {
    Inner(KtCallExpression, [Leaf(Token, text)])
  }

  function JavaLogNode(text: string): Node {
    Inner(PsiExpressionStatement, [Leaf(Token, text)])
  }

  // ------------------------------------------------------ one function or method

  /** The name a function's body is searched for before it gets a log: `function.name ?: ""`. */
  function CheckedName(k: Kind): string {
    match k
    case KtNamedFunction(name, _) => name.GetOr("")
    case PsiMethod(name, _) => name
    case _ => ""
  }

  /** What goes after the body's `{`: a newline and the Kotlin log, or the Java log statement. */
  function MethodLogNodes(s: LogStrategy, tag: string, k: Kind): seq<Node> {
    match k
    case PsiMethod(name, parameters) => [JavaLogNode(CreateJavaLog(s, tag, JavaMethodMessage(name, parameters)))]
    case KtNamedFunction(name, parameters) =>
      [NewLine, KotlinLogNode(CreateKotlinLog(s, tag, KotlinMethodMessage(name, parameters)))]
    case _ => []
  }

  function BodySelector(k: Kind): Selector {
    if k.PsiMethod? then JavaBody else KotlinBody
  }

  /**
   * The body of `insertKotlinMethodLogs`/`insertJavaMethodLogs` for the function
   * at `p`: unless it has no body, its body already mentions both the tag and the
   * name, or the body has no `{`, the log goes right after the `{`.
   */
  function MethodStep(s: LogStrategy, tag: string, root: Node, p: Path): Node
    requires ValidPath(root, p) && At(root, p).Inner?
  {
    var f := At(root, p);
    match FindFirst(f.children, BodySelector(f.kind), 0)
    case None => root
    case Some(b) =>
      var body := f.children[b];
      if Contains(Text(body), tag) && Contains(Text(body), CheckedName(f.kind)) then root
      else
        match FindFirst(body.children, LBraceToken, 0)
        case None => root
        case Some(l) =>
          ChildValid(root, p, b);
          InsertChildren(root, p + [b], l + 1, MethodLogNodes(s, tag, f.kind))
  }

  // --------------------------------------------------------------- one assignment

  /**
   * The text of the assigned expression: `assignment.left?.text` for Kotlin, which
   * may be missing, and `assignment.lExpression.text` for Java.
   */
  function VariableText(a: Node): Option<string>
    requires a.Inner?
  {
    if a.kind.KtBinaryExpression? then
      if a.kind.hasLeft && |a.children| > 0 then Some(Text(a.children[0])) else None
    else
      Some(if |a.children| > 0 then Text(a.children[0]) else "")
  }

  function AssignmentLog(s: LogStrategy, tag: string, k: Kind, varName: string): Node {
    if k.KtBinaryExpression? then KotlinLogNode(CreateKotlinLog(s, tag, KotlinAssignmentMessage(varName)))
    else JavaLogNode(CreateJavaLog(s, tag, JavaAssignmentMessage(varName)))
  }

  /** The text of the first sibling after `c` that is neither whitespace nor a comment, or "". */
  function NextNonTriviaText(root: Node, c: Path): string
    requires ValidPath(root, c)
  {
    if c == [] then ""
    else
      ParentValid(root, c);
      var cs := At(root, Parent(c)).children;
      match FindFirst(cs, NonTrivia, Last(c) + 1)
      case None => ""
      case Some(j) => Text(cs[j])
  }

  /**
   * `isLogAlreadyPresent`: from the element, climb to the statement that sits
   * directly in a block; the next non-trivia sibling mentions the tag and the variable.
   */
  predicate LogAlreadyPresent(root: Node, element: Path, logTag: string, varName: string)
    requires ValidPath(root, element)
  {
    var text := NextNonTriviaText(root, ClimbWhile(root, element, NotBlock));
    Contains(text, logTag) && Contains(text, varName)
  }

  /**
   * `insertAfterStatement`: the new element goes right after the statement that
   * sits directly in a block, preceded by a newline in a Kotlin block; a Kotlin
   * block without a factory, and a statement with no block above it, get nothing.
   */
  function InsertedAfterStatement(root: Node, statement: Path, newElement: Node, withNewLine: bool): Node
    requires ValidPath(root, statement)
  {
    var c := ClimbWhile(root, statement, NotBlock);
    if c == [] then root
    else
      ParentValid(root, c);
      var parent := At(root, Parent(c));
      if parent.kind == KtBlockExpression && withNewLine then
        InsertChildren(root, Parent(c), Last(c) + 1, [NewLine, newElement])
      else if parent.kind == PsiCodeBlock then
        InsertChildren(root, Parent(c), Last(c) + 1, [newElement])
      else root
  }

  /** The body of `insertKotlinAssignmentLogs`/`insertJavaAssignmentLogs` for the assignment at `p`. */
  function AssignmentStep(s: LogStrategy, tag: string, root: Node, p: Path): Node
    requires ValidPath(root, p) && At(root, p).Inner?
  {
    var a := At(root, p);
    match VariableText(a)
    case None => root
    case Some(v) =>
      if LogAlreadyPresent(root, p, tag, v) then root
      else InsertedAfterStatement(root, p, AssignmentLog(s, tag, a.kind, v), a.kind.KtBinaryExpression?)
  }

  // -------------------------------------------------------------------- whole runs

  /** The four insertion passes. */
  datatype InsertOp = KotlinMethodLogs | JavaMethodLogs | KotlinAssignmentLogs | JavaAssignmentLogs

  /** The node class each pass collects with `findChildrenOfType`. */
  function TargetOf(op: InsertOp): Target {
    match op
    case KotlinMethodLogs => NamedFunctions
    case JavaMethodLogs => Methods
    case KotlinAssignmentLogs => KotlinAssignments
    case JavaAssignmentLogs => JavaAssignments
  }

  function Step(op: InsertOp, s: LogStrategy, tag: string, root: Node, p: Path): Node
    requires ValidPath(root, p) && IsTarget(At(root, p), TargetOf(op))
  {
    if op == KotlinMethodLogs || op == JavaMethodLogs then MethodStep(s, tag, root, p)
    else AssignmentStep(s, tag, root, p)
  }

  /** The classes a pass collects: functions, methods and assignments. */
  predicate IsInsertTarget(t: Target) {
    t == NamedFunctions || t == Methods || t == KotlinAssignments || t == JavaAssignments
  }

  /** A newline followed by a log, or a log alone, holds none of the collected classes. */
  lemma InsertedNodesCount(text: string, t: Target)
    requires IsInsertTarget(t)
    ensures CountOf([NewLine, KotlinLogNode(text)], t) == 0 && CountOf([NewLine, JavaLogNode(text)], t) == 0
    ensures CountOf([KotlinLogNode(text)], t) == 0 && CountOf([JavaLogNode(text)], t) == 0
  {
    var leaf := [Leaf(Token, text)];
    assert CountOf(leaf, t) == 0 by { assert CountOf(leaf[1..], t) == 0; }
    var k, j := KotlinLogNode(text), JavaLogNode(text);
    assert Count(k, t) == 0 && Count(j, t) == 0;
    assert CountOf([k], t) == Count(k, t) + CountOf([k][1..], t);
    assert CountOf([j], t) == Count(j, t) + CountOf([j][1..], t);
    assert [NewLine, k][1..] == [k] && [NewLine, j][1..] == [j];
    assert CountOf([NewLine, k], t) == Count(NewLine, t) + CountOf([k], t);
    assert CountOf([NewLine, j], t) == Count(NewLine, t) + CountOf([j], t);
  }

  /** The function at `p` gets a log: it has a body that lacks the tag or the name, and a `{`. */
  predicate NeedsMethodLog(tag: string, root: Node, p: Path)
    requires ValidPath(root, p) && At(root, p).Inner?
  {
    var f := At(root, p);
    match FindFirst(f.children, BodySelector(f.kind), 0)
    case None => false
    case Some(b) =>
      var body := f.children[b];
      !(Contains(Text(body), tag) && Contains(Text(body), CheckedName(f.kind)))
        && FindFirst(body.children, LBraceToken, 0).Some?
  }

  /** A function that needs a log gets it spliced in right behind the `{` of its body. */
  lemma MethodStepInserts(s: LogStrategy, tag: string, root: Node, p: Path) returns (b: nat, l: nat)
    requires ValidPath(root, p) && At(root, p).Inner? && NeedsMethodLog(tag, root, p)
    ensures FindFirst(At(root, p).children, BodySelector(At(root, p).kind), 0) == Some(b) && b < |At(root, p).children|
    ensures ValidPath(root, p + [b]) && At(root, p + [b]) == At(root, p).children[b] && At(root, p + [b]).Inner?
    ensures FindFirst(At(root, p + [b]).children, LBraceToken, 0) == Some(l) && l < |At(root, p + [b]).children|
    ensures MethodStep(s, tag, root, p) == InsertChildren(root, p + [b], l + 1, MethodLogNodes(s, tag, At(root, p).kind))
  {
    var f := At(root, p);
    b := FindFirst(f.children, BodySelector(f.kind), 0).value;
    l := FindFirst(f.children[b].children, LBraceToken, 0).value;
    ChildValid(root, p, b);
  }

  /**
   * What a function step changes, and nothing else: the body's children become
   * the old ones up to the `{`, the log nodes, then the rest of the old ones;
   * every node not on the way down to the body is found, unchanged, at its
   * shifted path (children of the body after the `{` move `|xs|` places on).
   */
  lemma MethodStepFrame(s: LogStrategy, tag: string, root: Node, p: Path) returns (b: nat, l: nat)
    requires ValidPath(root, p) && At(root, p).Inner? && NeedsMethodLog(tag, root, p)
    ensures FindFirst(At(root, p).children, BodySelector(At(root, p).kind), 0) == Some(b) && b < |At(root, p).children|
    ensures ValidPath(root, p + [b]) && At(root, p + [b]).Inner?
    ensures FindFirst(At(root, p + [b]).children, LBraceToken, 0) == Some(l) && l < |At(root, p + [b]).children|
    ensures var body := At(root, p + [b]); var xs := MethodLogNodes(s, tag, At(root, p).kind);
      ValidPath(MethodStep(s, tag, root, p), p + [b]) &&
      At(MethodStep(s, tag, root, p), p + [b]) == body.(children := body.children[..l + 1] + xs + body.children[l + 1..])
    ensures forall u | ValidPath(root, u) && !IsPrefixPath(u, p + [b]) ::
      var sh := Shift(u, p + [b], l + 1, |MethodLogNodes(s, tag, At(root, p).kind)|);
      ValidPath(MethodStep(s, tag, root, p), sh) && At(MethodStep(s, tag, root, p), sh) == At(root, u)
  {
    b, l := MethodStepInserts(s, tag, root, p);
    var xs := MethodLogNodes(s, tag, At(root, p).kind);
    var r := MethodStep(s, tag, root, p);
    var body := At(root, p + [b]);
    assert r == ReplaceAt(root, p + [b], body.(children := body.children[..l + 1] + xs + body.children[l + 1..]));
    forall u | ValidPath(root, u) && !IsPrefixPath(u, p + [b])
      ensures ValidPath(r, Shift(u, p + [b], l + 1, |xs|)) && At(r, Shift(u, p + [b], l + 1, |xs|)) == At(root, u)
    {
      InsertChildrenFrame(root, p + [b], l + 1, xs, u);
    }
  }

  /** A function that needs no log is left alone. */
  lemma MethodStepUnneeded(s: LogStrategy, tag: string, root: Node, p: Path)
    requires ValidPath(root, p) && At(root, p).Inner? && !NeedsMethodLog(tag, root, p)
    ensures MethodStep(s, tag, root, p) == root
  {
  }

  /** A function step keeps the number of nodes of every collected class. */
  lemma MethodStepKeepsCount(s: LogStrategy, tag: string, root: Node, p: Path, t: Target)
    requires ValidPath(root, p) && At(root, p).Inner? && IsInsertTarget(t)
    ensures Count(MethodStep(s, tag, root, p), t) == Count(root, t)
  {
    if NeedsMethodLog(tag, root, p) {
      var b, l := MethodStepInserts(s, tag, root, p);
      MethodLogKeepsCount(root, p + [b], l + 1, s, tag, At(root, p).kind, t);
    } else {
      MethodStepUnneeded(s, tag, root, p);
    }
  }

  /** Inserting a function log anywhere keeps the number of nodes of a collected class. */
  lemma MethodLogKeepsCount(root: Node, q: Path, k: nat, s: LogStrategy, tag: string, kind: Kind, t: Target)
    requires ValidPath(root, q) && At(root, q).Inner? && k <= |At(root, q).children| && IsInsertTarget(t)
    ensures Count(InsertChildren(root, q, k, MethodLogNodes(s, tag, kind)), t) == Count(root, t)
  {
    MethodLogNodesCount(s, tag, kind, t);
    InsertChildrenCount(root, q, k, MethodLogNodes(s, tag, kind), t);
  }

  /** A function log holds none of the collected classes. */
  lemma MethodLogNodesCount(s: LogStrategy, tag: string, k: Kind, t: Target)
    requires IsInsertTarget(t)
    ensures CountOf(MethodLogNodes(s, tag, k), t) == 0
  {
    match k
    case PsiMethod(name, ps) => InsertedNodesCount(CreateJavaLog(s, tag, JavaMethodMessage(name, ps)), t);
    case KtNamedFunction(name, ps) =>
      InsertedNodesCount(CreateKotlinLog(s, tag, KotlinMethodMessage(name, ps)), t);
    case _ =>
  }

  lemma InsertedAfterStatementCount(root: Node, statement: Path, x: Node, withNewLine: bool, t: Target)
    requires ValidPath(root, statement)
    requires CountOf([NewLine, x], t) == 0 && CountOf([x], t) == 0
    ensures Count(InsertedAfterStatement(root, statement, x, withNewLine), t) == Count(root, t)
  {
    var changed, q, k, xs := InsertedAfterStatementCases(root, statement, x, withNewLine);
    if changed {
      InsertChildrenCount(root, q, k, xs, t);
    }
  }

  /** `insertAfterStatement` either leaves the tree alone or splices `[x]` or `[NewLine, x]` into the children of `q` at `k`. */
  lemma InsertedAfterStatementCases(root: Node, statement: Path, x: Node, withNewLine: bool)
    returns (changed: bool, q: Path, k: nat, xs: seq<Node>)
    requires ValidPath(root, statement)
    ensures !changed ==> InsertedAfterStatement(root, statement, x, withNewLine) == root
    ensures changed ==> ValidPath(root, q) && At(root, q).Inner? && k <= |At(root, q).children|
    ensures changed ==> (xs == [NewLine, x] || xs == [x])
    ensures changed ==> InsertedAfterStatement(root, statement, x, withNewLine) == InsertChildren(root, q, k, xs)
  {
    var c := ClimbWhile(root, statement, NotBlock);
    changed, q, k, xs := false, [], 0, [];
    if c != [] {
      ParentValid(root, c);
      var parent := At(root, Parent(c));
      if parent.kind == KtBlockExpression && withNewLine {
        changed, q, k, xs := true, Parent(c), Last(c) + 1, [NewLine, x];
      } else if parent.kind == PsiCodeBlock {
        changed, q, k, xs := true, Parent(c), Last(c) + 1, [x];
      }
    }
  }

  /** No pass inserts a node of the class it collects. */
  lemma StepKeepsCount(op: InsertOp, s: LogStrategy, tag: string, root: Node, p: Path)
    requires ValidPath(root, p) && IsTarget(At(root, p), TargetOf(op))
    ensures Count(Step(op, s, tag, root, p), TargetOf(op)) == Count(root, TargetOf(op))
  {
    var t := TargetOf(op);
    var a := At(root, p);
    if op == KotlinMethodLogs || op == JavaMethodLogs {
      MethodStepKeepsCount(s, tag, root, p, t);
    } else {
      match VariableText(a)
      case None =>
      case Some(v) =>
        if a.kind.KtBinaryExpression? {
          InsertedNodesCount(CreateKotlinLog(s, tag, KotlinAssignmentMessage(v)), t);
        } else {
          InsertedNodesCount(CreateJavaLog(s, tag, JavaAssignmentMessage(v)), t);
        }
        InsertedAfterStatementCount(root, p, AssignmentLog(s, tag, a.kind, v), a.kind.KtBinaryExpression?, t);
    }
  }

  /**
   * The pass, once `findChildrenOfType` has collected its candidates: they are
   * visited in document order, each identified by its rank among the file's nodes
   * of the collected class. No pass inserts such a node, so ranks keep naming the
   * same nodes while the tree changes.
   */
  function RunRanks(op: InsertOp, s: LogStrategy, tag: string, root: Node, ranks: seq<nat>): (r: Node)
    requires forall j | 0 <= j < |ranks| :: ranks[j] < Count(root, TargetOf(op))
    ensures Count(r, TargetOf(op)) == Count(root, TargetOf(op))
    decreases |ranks|
  {
    if ranks == [] then root
    else
      var t := TargetOf(op);
      FindAllAtLength(root, [], t);
      var p := AllTargets(root, t)[ranks[0]];
      StepKeepsCount(op, s, tag, root, p);
      RunRanks(op, s, tag, Step(op, s, tag, root, p), ranks[1..])
  }

  /** A run over `ranks[i..]` is the step at rank `ranks[i]`, then the run over `ranks[i + 1..]`. */
  lemma RunRanksUnfold(op: InsertOp, s: LogStrategy, tag: string, root: Node, ranks: seq<nat>, i: nat)
    requires i < |ranks| && forall j | 0 <= j < |ranks| :: ranks[j] < Count(root, TargetOf(op))
    ensures |AllTargets(root, TargetOf(op))| == Count(root, TargetOf(op))
    ensures var p := AllTargets(root, TargetOf(op))[ranks[i]];
      ValidPath(root, p) && IsTarget(At(root, p), TargetOf(op)) &&
      Count(Step(op, s, tag, root, p), TargetOf(op)) == Count(root, TargetOf(op)) &&
      RunRanks(op, s, tag, root, ranks[i..]) == RunRanks(op, s, tag, Step(op, s, tag, root, p), ranks[i + 1..])
  {
    var t := TargetOf(op);
    FindAllAtLength(root, [], t);
    var p := AllTargets(root, t)[ranks[i]];
    assert p in AllTargets(root, t);
    StepKeepsCount(op, s, tag, root, p);
    assert ranks[i..][0] == ranks[i] && ranks[i..][1..] == ranks[i + 1..];
  }

  /** The candidates of a pass over `scope`, as ranks among the file's nodes of their class. */
  function Candidates(op: InsertOp, root: Node, scope: Path): (r: seq<nat>)
    ensures forall j | 0 <= j < |r| :: r[j] < Count(root, TargetOf(op))
  {
    FindAllAtLength(root, [], TargetOf(op));
    ScopeRanks(AllTargets(root, TargetOf(op)), scope, 0)
  }

  /** One whole `insert*Logs` call on `scope`. */
  function Run(op: InsertOp, s: LogStrategy, tag: string, root: Node, scope: Path): Node {
    RunRanks(op, s, tag, root, Candidates(op, root, scope))
  }

  // ------------------------------------------------------------------- removal

  /** The statements of `stmts` whose text contains one of the patterns. */
  function JavaSelected(root: Node, stmts: seq<Path>, patterns: seq<string>): set<Path>
    requires forall j | 0 <= j < |stmts| :: ValidPath(root, stmts[j])
    decreases |stmts|
  {
    if stmts == [] then {}
    else
      var p := stmts[|stmts| - 1];
      JavaSelected(root, stmts[..|stmts| - 1], patterns)
        + (if MatchesAny(Text(At(root, p)), patterns) then {p} else {})
  }

  /** The parent of the node at `top` is a `KtBlockExpression` or a `KtNamedFunction`. */
  predicate DeletableTop(root: Node, top: Path) {
    top != [] && ValidPath(root, Parent(top)) && At(root, Parent(top)).Inner? &&
    (At(root, Parent(top)).kind == KtBlockExpression || At(root, Parent(top)).kind.KtNamedFunction?)
  }

  /**
   * For each call of `calls` whose text contains a pattern: the outermost
   * qualified expression it ends, when that sits directly in a block or a function.
   */
  function KotlinSelected(root: Node, calls: seq<Path>, patterns: seq<string>): set<Path>
    requires forall j | 0 <= j < |calls| :: ValidPath(root, calls[j])
    decreases |calls|
  {
    if calls == [] then {}
    else
      var call := calls[|calls| - 1];
      var top := ClimbWhile(root, call, Qualified);
      KotlinSelected(root, calls[..|calls| - 1], patterns)
        + (if MatchesAny(Text(At(root, call)), patterns) && DeletableTop(root, top) then {top} else {})
  }

  /** The nodes of a class strictly inside `scope`, in document order. */
  function ScopeTargets(root: Node, t: Target, scope: Path): (r: seq<Path>)
    ensures forall j | 0 <= j < |r| :: ValidPath(root, r[j]) && IsTarget(At(root, r[j]), t) && IsStrictPrefix(scope, r[j])
  {
    var all := AllTargets(root, t);
    var ranks := ScopeRanks(all, scope, 0);
    seq(|ranks|, j requires 0 <= j < |ranks| => all[ranks[j]])
  }

  /** The statements `removeLogs` deletes from a Java file. */
  function JavaRemoval(s: LogStrategy, tag: string, root: Node, scope: Path): set<Path> {
    JavaSelected(root, ScopeTargets(root, ExpressionStatements, scope), GetRemovalPatterns(s, tag))
  }

  /** The expressions `removeLogs` deletes from a Kotlin file. */
  function KotlinRemoval(s: LogStrategy, tag: string, root: Node, scope: Path): set<Path> {
    KotlinSelected(root, ScopeTargets(root, Calls, scope), GetRemovalPatterns(s, tag))
  }

  /** One whole `removeLogs` call on `scope`; a file in another language is left alone. */
  function Removed(g: Grammar, s: LogStrategy, tag: string, root: Node, scope: Path): Node {
    match g
    case Java => DeleteAll(root, JavaRemoval(s, tag, root, scope))
    case Kotlin => DeleteAll(root, KotlinRemoval(s, tag, root, scope))
    case OtherLanguage => root
  }

  // ------------------------------------------------------------------- methods

  /** The parent-walk loop of `isLogAlreadyPresent`, `insertAfterStatement` and `removeLogs`. */
  method Climb(root: Node, element: Path, test: ClimbTest) returns (current: Path)
    requires ValidPath(root, element)
    ensures current == ClimbWhile(root, element, test)
  {
    current := element;
    while current != [] && Passes(test, At(root, Parent(current)))
      invariant ValidPath(root, current)
      invariant current != [] ==> ValidPath(root, Parent(current))
      invariant ClimbWhile(root, current, test) == ClimbWhile(root, element, test)
      decreases |current|
    {
      current := Parent(current);
      if current != [] {
        ParentValid(root, current);
      }
    }
  }

  /** `isLogAlreadyPresent`. */
  method IsLogAlreadyPresent(root: Node, element: Path, logTag: string, varName: string) returns (present: bool)
    requires ValidPath(root, element)
    ensures present == LogAlreadyPresent(root, element, logTag, varName)
  {
    var current := Climb(root, element, NotBlock);
    var text := "";
    if current != [] {
      ParentValid(root, current);
      var siblings := At(root, Parent(current)).children;
      var next := Last(current) + 1;
      while next < |siblings| && !Selects(NonTrivia, siblings[next])
        invariant next <= |siblings|
        invariant FindFirst(siblings, NonTrivia, next) == FindFirst(siblings, NonTrivia, Last(current) + 1)
        decreases |siblings| - next
      {
        next := next + 1;
      }
      if next < |siblings| {
        text := Text(siblings[next]);
      }
    }
    present := Contains(text, logTag) && Contains(text, varName);
  }

  /** `insertAfterStatement`; `withNewLine` says whether a Kotlin factory was passed. */
  method InsertAfterStatement(file: SourceFile, statement: Path, newElement: Node, withNewLine: bool)
    requires ValidPath(file.root, statement)
    modifies file
    ensures file.root == InsertedAfterStatement(old(file.root), statement, newElement, withNewLine)
  {
    var current := Climb(file.root, statement, NotBlock);
    if current != [] {
      ParentValid(file.root, current);
      var parent := Parent(current);
      var kind := At(file.root, parent).kind;
      if kind == KtBlockExpression && withNewLine {
        InsertChildrenTwice(file.root, parent, Last(current) + 1, [newElement], [NewLine]);
        assert [NewLine] + [newElement] == [NewLine, newElement];
        file.root := InsertChildren(file.root, parent, Last(current) + 1, [newElement]);
        file.root := InsertChildren(file.root, parent, Last(current) + 1, [NewLine]);
      } else if kind == PsiCodeBlock {
        file.root := InsertChildren(file.root, parent, Last(current) + 1, [newElement]);
      }
    }
  }

  /** The body of the `functions.forEach` loop of `insertKotlinMethodLogs`. */
  method LogKotlinFunction(file: SourceFile, strategy: LogStrategy, logTag: string, fun: Path)
    requires ValidPath(file.root, fun) && IsTarget(At(file.root, fun), NamedFunctions)
    modifies file
    ensures file.root == MethodStep(strategy, logTag, old(file.root), fun)
  {
    var root := file.root;
    var f := At(root, fun);
    assert BodySelector(f.kind) == KotlinBody;
    var bodyIndex := FindFirst(f.children, KotlinBody, 0);
    if bodyIndex.Some? {
      var body := f.children[bodyIndex.value];
      var logMessage := KotlinMethodMessage(f.kind.name, f.kind.parameters);
      var fullLog := CreateKotlinLog(strategy, logTag, logMessage);
      if !(Contains(Text(body), logTag) && Contains(Text(body), f.kind.name.GetOr(""))) {
        var lBrace := FindFirst(body.children, LBraceToken, 0);
        if lBrace.Some? {
          ChildValid(root, fun, bodyIndex.value);
          var bodyPath := fun + [bodyIndex.value];
          var expression := KotlinLogNode(fullLog);
          InsertChildrenTwice(root, bodyPath, lBrace.value + 1, [expression], [NewLine]);
          KotlinFunctionLogNodes(strategy, logTag, f.kind);
          assert MethodStep(strategy, logTag, root, fun)
            == InsertChildren(root, bodyPath, lBrace.value + 1, [NewLine] + [expression]);
          var first := InsertChildren(root, bodyPath, lBrace.value + 1, [expression]);
          file.root := first;
          file.root := InsertChildren(first, bodyPath, lBrace.value + 1, [NewLine]);
        }
      }
    }
  }

  lemma KotlinFunctionLogNodes(s: LogStrategy, tag: string, k: Kind)
    requires k.KtNamedFunction?
    ensures MethodLogNodes(s, tag, k)
      == [NewLine] + [KotlinLogNode(CreateKotlinLog(s, tag, KotlinMethodMessage(k.name, k.parameters)))]
  {
  }

  lemma JavaMethodLogNodes(s: LogStrategy, tag: string, k: Kind)
    requires k.PsiMethod?
    ensures MethodLogNodes(s, tag, k) == [JavaLogNode(CreateJavaLog(s, tag, JavaMethodMessage(k.methodName, k.parameterNames)))]
  {
  }

  /** The body of the `methods.forEach` loop of `insertJavaMethodLogs`. */
  method LogJavaMethod(file: SourceFile, strategy: LogStrategy, logTag: string, met: Path)
    requires ValidPath(file.root, met) && IsTarget(At(file.root, met), Methods)
    modifies file
    ensures file.root == MethodStep(strategy, logTag, old(file.root), met)
  {
    var root := file.root;
    var m := At(root, met);
    assert BodySelector(m.kind) == JavaBody;
    var bodyIndex := FindFirst(m.children, JavaBody, 0);
    if bodyIndex.Some? {
      var body := m.children[bodyIndex.value];
      if !(Contains(Text(body), logTag) && Contains(Text(body), m.kind.methodName)) {
        var lBrace := FindFirst(body.children, LBraceToken, 0);
        if lBrace.Some? {
          ChildValid(root, met, bodyIndex.value);
          var logMessage := JavaMethodMessage(m.kind.methodName, m.kind.parameterNames);
          var statement := JavaLogNode(CreateJavaLog(strategy, logTag, logMessage));
          JavaMethodLogNodes(strategy, logTag, m.kind);
          assert MethodStep(strategy, logTag, root, met)
            == InsertChildren(root, met + [bodyIndex.value], lBrace.value + 1, [statement]);
          file.root := InsertChildren(root, met + [bodyIndex.value], lBrace.value + 1, [statement]);
        }
      }
    }
  }

  /** The body of the `assignments.forEach` loop of `insertKotlinAssignmentLogs`. */
  method LogKotlinAssignment(file: SourceFile, strategy: LogStrategy, logTag: string, assignment: Path)
    requires ValidPath(file.root, assignment) && IsTarget(At(file.root, assignment), KotlinAssignments)
    modifies file
    ensures file.root == AssignmentStep(strategy, logTag, old(file.root), assignment)
  {
    var a := At(file.root, assignment);
    if a.kind.hasLeft && |a.children| > 0 {
      var varName := Text(a.children[0]);
      var logMessage := KotlinAssignmentMessage(varName);
      var fullLog := CreateKotlinLog(strategy, logTag, logMessage);
      var present := IsLogAlreadyPresent(file.root, assignment, logTag, varName);
      if !present {
        InsertAfterStatement(file, assignment, KotlinLogNode(fullLog), true);
      }
    }
  }

  /** The body of the `assignments.forEach` loop of `insertJavaAssignmentLogs`. */
  method LogJavaAssignment(file: SourceFile, strategy: LogStrategy, logTag: string, assignment: Path)
    requires ValidPath(file.root, assignment) && IsTarget(At(file.root, assignment), JavaAssignments)
    modifies file
    ensures file.root == AssignmentStep(strategy, logTag, old(file.root), assignment)
  {
    var a := At(file.root, assignment);
    var varName := if |a.children| > 0 then Text(a.children[0]) else "";
    var logMessage := JavaAssignmentMessage(varName);
    var fullLog := CreateJavaLog(strategy, logTag, logMessage);
    var present := IsLogAlreadyPresent(file.root, assignment, logTag, varName);
    if !present {
      InsertAfterStatement(file, assignment, JavaLogNode(fullLog), false);
    }
  }

  /** `insertKotlinMethodLogs`: collect the candidates, then handle each in document order. */
  method InsertKotlinMethodLogs(file: SourceFile, searchScope: Path, logTag: string, framework: LoggingFramework := PRINTLN)
    modifies file
    ensures file.root == Run(KotlinMethodLogs, GetStrategy(framework), logTag, old(file.root), searchScope)
  {
    var strategy := GetStrategy(framework);
    var functions := Candidates(KotlinMethodLogs, file.root, searchScope);
    ghost var start := file.root;
    var i := 0;
    while i < |functions|
      invariant 0 <= i <= |functions|
      invariant Count(file.root, NamedFunctions) == Count(start, NamedFunctions)
      invariant RunRanks(KotlinMethodLogs, strategy, logTag, file.root, functions[i..])
             == RunRanks(KotlinMethodLogs, strategy, logTag, start, functions)
    {
      RunRanksUnfold(KotlinMethodLogs, strategy, logTag, file.root, functions, i);
      var candidate := AllTargets(file.root, NamedFunctions)[functions[i]];
      LogKotlinFunction(file, strategy, logTag, candidate);
      i := i + 1;
    }
  }

  /** `insertJavaMethodLogs`: collect the candidates, then handle each in document order. */
  method InsertJavaMethodLogs(file: SourceFile, searchScope: Path, logTag: string, framework: LoggingFramework := PRINTLN)
    modifies file
    ensures file.root == Run(JavaMethodLogs, GetStrategy(framework), logTag, old(file.root), searchScope)
  {
    var strategy := GetStrategy(framework);
    var methods := Candidates(JavaMethodLogs, file.root, searchScope);
    ghost var start := file.root;
    var i := 0;
    while i < |methods|
      invariant 0 <= i <= |methods|
      invariant Count(file.root, Methods) == Count(start, Methods)
      invariant RunRanks(JavaMethodLogs, strategy, logTag, file.root, methods[i..])
             == RunRanks(JavaMethodLogs, strategy, logTag, start, methods)
    {
      RunRanksUnfold(JavaMethodLogs, strategy, logTag, file.root, methods, i);
      var candidate := AllTargets(file.root, Methods)[methods[i]];
      LogJavaMethod(file, strategy, logTag, candidate);
      i := i + 1;
    }
  }

  /** `insertKotlinAssignmentLogs`: collect the candidates, then handle each in document order. */
  method InsertKotlinAssignmentLogs(file: SourceFile, searchScope: Path, logTag: string, framework: LoggingFramework := PRINTLN)
    modifies file
    ensures file.root == Run(KotlinAssignmentLogs, GetStrategy(framework), logTag, old(file.root), searchScope)
  {
    var strategy := GetStrategy(framework);
    var assignments := Candidates(KotlinAssignmentLogs, file.root, searchScope);
    ghost var start := file.root;
    var i := 0;
    while i < |assignments|
      invariant 0 <= i <= |assignments|
      invariant Count(file.root, KotlinAssignments) == Count(start, KotlinAssignments)
      invariant RunRanks(KotlinAssignmentLogs, strategy, logTag, file.root, assignments[i..])
             == RunRanks(KotlinAssignmentLogs, strategy, logTag, start, assignments)
    {
      RunRanksUnfold(KotlinAssignmentLogs, strategy, logTag, file.root, assignments, i);
      var candidate := AllTargets(file.root, KotlinAssignments)[assignments[i]];
      LogKotlinAssignment(file, strategy, logTag, candidate);
      i := i + 1;
    }
  }

  /** `insertJavaAssignmentLogs`: collect the candidates, then handle each in document order. */
  method InsertJavaAssignmentLogs(file: SourceFile, searchScope: Path, logTag: string, framework: LoggingFramework := PRINTLN)
    modifies file
    ensures file.root == Run(JavaAssignmentLogs, GetStrategy(framework), logTag, old(file.root), searchScope)
  {
    var strategy := GetStrategy(framework);
    var assignments := Candidates(JavaAssignmentLogs, file.root, searchScope);
    ghost var start := file.root;
    var i := 0;
    while i < |assignments|
      invariant 0 <= i <= |assignments|
      invariant Count(file.root, JavaAssignments) == Count(start, JavaAssignments)
      invariant RunRanks(JavaAssignmentLogs, strategy, logTag, file.root, assignments[i..])
             == RunRanks(JavaAssignmentLogs, strategy, logTag, start, assignments)
    {
      RunRanksUnfold(JavaAssignmentLogs, strategy, logTag, file.root, assignments, i);
      var candidate := AllTargets(file.root, JavaAssignments)[assignments[i]];
      LogJavaAssignment(file, strategy, logTag, candidate);
      i := i + 1;
    }
  }

  /** The Java selection loop of `removeLogs`: the statements whose text contains a pattern. */
  method SelectJavaLogs(root: Node, statements: seq<Path>, patterns: seq<string>) returns (toDelete: set<Path>)
    requires forall j | 0 <= j < |statements| :: ValidPath(root, statements[j])
    ensures toDelete == JavaSelected(root, statements, patterns)
  {
    toDelete := {};
    var i := 0;
    while i < |statements|
      invariant 0 <= i <= |statements|
      invariant toDelete == JavaSelected(root, statements[..i], patterns)
    {
      if MatchesAny(Text(At(root, statements[i])), patterns) {
        toDelete := toDelete + {statements[i]};
      }
      assert statements[..i + 1][..i] == statements[..i];
      i := i + 1;
    }
    assert statements[..i] == statements;
  }

  /** The Kotlin selection loop of `removeLogs`, with its climb over qualified expressions. */
  method SelectKotlinLogs(root: Node, calls: seq<Path>, patterns: seq<string>) returns (toDelete: set<Path>)
    requires forall j | 0 <= j < |calls| :: ValidPath(root, calls[j])
    ensures toDelete == KotlinSelected(root, calls, patterns)
  {
    toDelete := {};
    var i := 0;
    while i < |calls|
      invariant 0 <= i <= |calls|
      invariant toDelete == KotlinSelected(root, calls[..i], patterns)
    {
      var call := calls[i];
      if MatchesAny(Text(At(root, call)), patterns) {
        var top := Climb(root, call, Qualified);
        if DeletableTop(root, top) {
          toDelete := toDelete + {top};
        }
      }
      assert calls[..i + 1][..i] == calls[..i];
      i := i + 1;
    }
    assert calls[..i] == calls;
  }

  /** `removeLogs`: the nodes to delete are chosen first, then deleted. */
  method RemoveLogs(file: SourceFile, searchScope: Path, logTag: string, framework: LoggingFramework := PRINTLN)
    modifies file
    ensures file.root == Removed(file.grammar, GetStrategy(framework), logTag, old(file.root), searchScope)
  {
    var strategy := GetStrategy(framework);
    var patterns := GetRemovalPatterns(strategy, logTag);
    if file.grammar == Java {
      var statements := ScopeTargets(file.root, ExpressionStatements, searchScope);
      var toDelete := SelectJavaLogs(file.root, statements, patterns);
      file.root := DeleteAll(file.root, toDelete);
    } else if file.grammar == Kotlin {
      var calls := ScopeTargets(file.root, Calls, searchScope);
      var toDelete := SelectKotlinLogs(file.root, calls, patterns);
      file.root := DeleteAll(file.root, toDelete);
    }
  }
}
