/**
 * A whole `insertKotlinMethodLogs`/`insertJavaMethodLogs` pass, run a second
 * time on the same scope, changes nothing: every function it visits already
 * carries its log. A later log is spliced right behind a `{` inside an earlier
 * function's body, so it cannot break the tag or the name that body mentions
 * as long as neither contains a `{`.
 */
module MethodPass {
  import opened Wrappers
  import opened Strings
  import opened LogStrategies
  import opened Psi
  import opened LogInserterService
  import opened InsertionProperties
  import opened Snapshot

  // ------------------------------------------------------------ plain braces

  /** Every `{` token is the text "{", and no function's name holds a `{`. */
  predicate PlainBraces(n: Node) {
    match n
    case Leaf(k, tok) => k == LBrace ==> tok == "{"
    case Inner(k, cs) => '{' !in CheckedName(k) && forall i | 0 <= i < |cs| :: PlainBraces(cs[i])
  }

  lemma {:induction false} PlainBracesAt(n: Node, p: Path)
    requires PlainBraces(n) && ValidPath(n, p)
    ensures PlainBraces(At(n, p))
    decreases |p|
  {
    if p != [] {
      ParentValid(n, p);
      PlainBracesAt(n, Parent(p));
    }
  }

  lemma {:induction false} PlainBracesReplace(n: Node, p: Path, m: Node)
    requires PlainBraces(n) && PlainBraces(m) && ValidPath(n, p)
    ensures PlainBraces(ReplaceAt(n, p, m))
    decreases |p|
  {
    if p != [] {
      ParentValid(n, p);
      var parent := At(n, Parent(p));
      PlainBracesAt(n, Parent(p));
      var p1 := parent.(children := parent.children[Last(p) := m]);
      assert PlainBraces(p1);
      PlainBracesReplace(n, Parent(p), p1);
    }
  }

  /** A function log holds no `{` token and no named function. */
  lemma MethodLogNodesPlain(s: LogStrategy, tag: string, k: Kind)
    ensures forall i | 0 <= i < |MethodLogNodes(s, tag, k)| :: PlainBraces(MethodLogNodes(s, tag, k)[i])
  {
  }

  lemma PlainBracesInsert(n: Node, q: Path, k: nat, xs: seq<Node>)
    requires PlainBraces(n) && ValidPath(n, q) && At(n, q).Inner? && k <= |At(n, q).children|
    requires forall i | 0 <= i < |xs| :: PlainBraces(xs[i])
    ensures PlainBraces(InsertChildren(n, q, k, xs))
  {
    var parent := At(n, q);
    PlainBracesAt(n, q);
    var cs := parent.children[..k] + xs + parent.children[k..];
    forall i | 0 <= i < |cs| ensures PlainBraces(cs[i]) {
      if i < k {
        assert cs[i] == parent.children[i];
      } else if i < k + |xs| {
        assert cs[i] == xs[i - k];
      } else {
        assert cs[i] == parent.children[i - |xs|];
      }
    }
    PlainBracesReplace(n, q, parent.(children := cs));
  }

  // --------------------------------------------------- text behind a brace

  /** Text spliced in right behind a `{` keeps every word without a `{` that was there. */
  lemma BraceSpliceContains(a: string, b: string, x: string, w: string)
    requires '{' !in w && Contains(a + "{" + b, w)
    ensures Contains(a + "{" + x + b, w)
  {
    var s := a + "{" + b;
    var i := IndexOf(s, w);
    assert s[|a|] == '{';
    if i + |w| <= |a| {
      assert a[i..i + |w|] == s[i..i + |w|];
      ContainsAt(a, w, i);
      ContainsExtend("", a, "{" + x + b, w);
      assert "" + a + ("{" + x + b) == a + "{" + x + b;
    } else if i > |a| {
      assert b[i - |a| - 1..i - |a| - 1 + |w|] == s[i..i + |w|];
      ContainsAt(b, w, i - |a| - 1);
      ContainsExtend(a + "{" + x, b, "", w);
      assert a + "{" + x + b + "" == a + "{" + x + b;
    } else {
      assert false;
    }
  }

  /** Inserting behind a `{` child splices the new text right behind that `{` of the file text. */
  lemma BraceInsertText(n: Node, q: Path, k: nat, xs: seq<Node>) returns (a: string, b: string)
    requires ValidPath(n, q) && At(n, q).Inner? && 1 <= k <= |At(n, q).children|
    requires At(n, q).children[k - 1] == Leaf(LBrace, "{")
    ensures Text(n) == a + "{" + b
    ensures Text(InsertChildren(n, q, k, xs)) == a + "{" + TextOf(xs) + b
  {
    var cs := At(n, q).children;
    InsertChildrenText(n, q, k, xs);
    TextOfSnoc(cs, k - 1);
    assert cs[..k - 1 + 1] == cs[..k];
    var bf, t1, t2, af, x := Before(n, q), TextOf(cs[..k - 1]), TextOf(cs[k..]), After(n, q), TextOf(xs);
    assert TextOf(cs[..k]) == t1 + "{";
    a := bf + t1;
    b := t2 + af;
    SpliceRegroup(bf, t1, t2, af, x);
  }

  lemma SpliceRegroup(bf: string, t1: string, t2: string, af: string, x: string)
    ensures bf + (t1 + "{") + t2 + af == (bf + t1) + "{" + (t2 + af)
    ensures bf + (t1 + "{") + x + t2 + af == (bf + t1) + "{" + x + (t2 + af)
  {
  }

  // ------------------------------------------- a function around the insertion

  /** Replacing a child by one of the same class leaves a search among the children as it was. */
  lemma {:induction false} FindFirstUpdate(cs: seq<Node>, i: nat, x: Node, sel: Selector, from: nat)
    requires i < |cs| && Selects(sel, x) == Selects(sel, cs[i])
    ensures FindFirst(cs[i := x], sel, from) == FindFirst(cs, sel, from)
    decreases |cs| - from
  {
    if from < |cs| {
      FindFirstUpdate(cs, i, x, sel, from + 1);
    }
  }

  /** Replacing a node by one of the same kind leaves every node on the way of the same kind. */
  lemma ReplaceAtKeepsKind(n: Node, p: Path, m: Node)
    requires ValidPath(n, p) && At(n, p).Inner? && m.Inner? && m.kind == At(n, p).kind
    ensures n.Inner? && ReplaceAt(n, p, m).Inner? && ReplaceAt(n, p, m).kind == n.kind
  {
    if p != [] {
      ReplaceAtAbove(n, p, m, []);
    }
  }

  /**
   * A function that needs no log still needs none once a function log has been
   * inserted behind a `{` strictly inside its body's descendants: its body and
   * that body's `{` are found where they were, and the body's text only gains
   * a splice behind a `{`, which keeps the tag and the name.
   */
  lemma GrownStaysSettled(tag: string, g: Node, w: Path, k: nat, xs: seq<Node>)
    requires ValidPath(g, w) && |w| >= 2 && At(g, w).Inner? && 1 <= k <= |At(g, w).children|
    requires At(g, w).children[k - 1] == Leaf(LBrace, "{")
    requires '{' !in tag && g.Inner? && '{' !in CheckedName(g.kind)
    requires !NeedsMethodLog(tag, g, [])
    ensures InsertChildren(g, w, k, xs).Inner? && InsertChildren(g, w, k, xs).kind == g.kind
    ensures !NeedsMethodLog(tag, InsertChildren(g, w, k, xs), [])
  {
    var parent := At(g, w);
    var m := parent.(children := parent.children[..k] + xs + parent.children[k..]);
    var g2 := InsertChildren(g, w, k, xs);
    assert g2 == ReplaceAt(g, w, m);
    ReplaceAtAbove(g, w, m, []);
    var c := w[0];
    var rest := w[1..];
    assert [] + [c] == [c] && w[0 + 1..] == rest;
    var child := g.children[c];
    assert [c] + rest == w;
    AtConcat(g, [c], rest);
    assert At(g, [c]) == child;
    var child2 := ReplaceAt(child, rest, m);
    assert child2 == InsertChildren(child, rest, k, xs);
    ReplaceAtKeepsKind(child, rest, m);
    assert g2.kind == g.kind && g2.children == g.children[c := child2];
    var sel := BodySelector(g.kind);
    FindFirstUpdate(g.children, c, child2, sel, 0);
    match FindFirst(g.children, sel, 0)
    case None =>
    case Some(b) =>
      if b == c {
        ReplaceAtAbove(child, rest, m, []);
        var d := rest[0];
        assert [] + [d] == [d] && rest[0 + 1..] == rest[1..];
        var below := rest[1..];
        assert [d] + below == rest;
        AtConcat(child, [d], below);
        var grand := child.children[d];
        assert At(child, [d]) == grand;
        ReplaceAtKeepsKind(grand, below, m);
        var grand2 := ReplaceAt(grand, below, m);
        assert child2.children == child.children[d := grand2];
        FindFirstUpdate(child.children, d, grand2, LBraceToken, 0);
        if FindFirst(child.children, LBraceToken, 0).Some? {
          var a, z := BraceInsertText(child, rest, k, xs);
          BraceSpliceContains(a, z, TextOf(xs), tag);
          BraceSpliceContains(a, z, TextOf(xs), CheckedName(g.kind));
        }
      } else {
        assert g2.children[b] == g.children[b];
      }
  }

  /** Inserting children below `u` changes the node at `u` by that same insertion, said from `u`. */
  lemma InsertChildrenBelow(n: Node, q: Path, k: nat, xs: seq<Node>, u: Path)
    requires ValidPath(n, q) && At(n, q).Inner? && k <= |At(n, q).children| && IsStrictPrefix(u, q)
    ensures ValidPath(n, u) && ValidPath(At(n, u), q[|u|..]) && At(At(n, u), q[|u|..]) == At(n, q)
    ensures ValidPath(InsertChildren(n, q, k, xs), u)
    ensures At(InsertChildren(n, q, k, xs), u) == InsertChildren(At(n, u), q[|u|..], k, xs)
  {
    var w := q[|u|..];
    assert u + w == q;
    AtConcat(n, u, w);
    var parent := At(n, q);
    var m := parent.(children := parent.children[..k] + xs + parent.children[k..]);
    ReplaceAtConcat(n, u, w, m);
  }

  // ---------------------------------------------------------------- one step

  /**
   * After the step that logs the function at `p`, a function at `u` that needed
   * no log, or `p` itself, needs none, at the path where the step moved it.
   */
  lemma SettledMoves(op: InsertOp, s: LogStrategy, tag: string, root: Node, p: Path, b: nat, l: nat, u: Path)
    requires op == KotlinMethodLogs || op == JavaMethodLogs
    requires PlainBraces(root) && '{' !in tag
    requires ValidPath(root, p) && IsTarget(At(root, p), TargetOf(op)) && NeedsMethodLog(tag, root, p)
    requires FindFirst(At(root, p).children, BodySelector(At(root, p).kind), 0) == Some(b)
    requires At(root, p).children[b].Inner? && FindFirst(At(root, p).children[b].children, LBraceToken, 0) == Some(l)
    requires ValidPath(root, u) && IsTarget(At(root, u), TargetOf(op)) && (!NeedsMethodLog(tag, root, u) || u == p)
    ensures var v := Shift(u, p + [b], l + 1, |MethodLogNodes(s, tag, At(root, p).kind)|);
      ValidPath(MethodStep(s, tag, root, p), v) && At(MethodStep(s, tag, root, p), v).Inner? &&
      !NeedsMethodLog(tag, MethodStep(s, tag, root, p), v)
  {
    var f := At(root, p);
    var xs := MethodLogNodes(s, tag, f.kind);
    var b1, l1 := MethodStepFrame(s, tag, root, p);
    assert b1 == b && l1 == l;
    var q, k := p + [b], l + 1;
    var r := MethodStep(s, tag, root, p);
    assert r == InsertChildren(root, q, k, xs);
    assert At(root, q) == f.children[b];
    assert u != q;
    if !IsPrefixPath(u, q) {
      InsertChildrenFrame(root, q, k, xs, u);
    } else if u == p {
      assert Shift(u, q, k, |xs|) == p;
      MethodStepIdempotent(s, tag, root, p);
      InsertBelowChild(root, p, b, k, xs);
      MethodStepEffect(s, tag, r, p);
    } else {
      assert IsStrictPrefix(u, p) by {
        assert q[..|u|] == p[..|u|];
      }
      assert Shift(u, q, k, |xs|) == u;
      var g := At(root, u);
      var w := q[|u|..];
      InsertChildrenBelow(root, q, k, xs, u);
      PlainBracesAt(root, q);
      assert PlainBraces(At(root, q).children[l]);
      PlainBracesAt(root, u);
      assert NeedsMethodLog(tag, root, u) == NeedsMethodLog(tag, g, []);
      GrownStaysSettled(tag, g, w, k, xs);
    }
  }

  /** Moving children of `q` keeps every path inside, or outside, a scope above `q`. */
  lemma ShiftKeepsScope(u: Path, q: Path, k: nat, n: nat, scope: Path)
    requires |scope| < |q|
    ensures IsStrictPrefix(scope, Shift(u, q, k, n)) == IsStrictPrefix(scope, u)
  {
    if IsStrictPrefix(q, u) && u[|q|] >= k {
      assert u[|q| := u[|q|] + n][..|scope|] == u[..|scope|];
    }
  }

  /** The node of rank `j` among the file's nodes of the pass's class lies strictly inside `scope`. */
  predicate InScopeAtRank(op: InsertOp, root: Node, scope: Path, j: nat)
    requires j < Count(root, TargetOf(op))
  {
    FindAllAtLength(root, [], TargetOf(op));
    IsStrictPrefix(scope, AllTargets(root, TargetOf(op))[j])
  }

  /**
   * The step for the candidate of rank `r0`, strictly inside `scope`: every rank
   * stays inside or outside the scope, a rank that needed no log still needs
   * none, rank `r0` needs none any more, and braces stay plain.
   */
  lemma StepSettles(op: InsertOp, s: LogStrategy, tag: string, root: Node, scope: Path, r0: nat, p: Path)
    requires op == KotlinMethodLogs || op == JavaMethodLogs
    requires PlainBraces(root) && '{' !in tag
    requires r0 < |AllTargets(root, TargetOf(op))| && p == AllTargets(root, TargetOf(op))[r0] && IsStrictPrefix(scope, p)
    ensures ValidPath(root, p) && IsTarget(At(root, p), TargetOf(op))
    ensures Count(Step(op, s, tag, root, p), TargetOf(op)) == Count(root, TargetOf(op))
    ensures forall j | 0 <= j < Count(root, TargetOf(op)) ::
      InScopeAtRank(op, Step(op, s, tag, root, p), scope, j) == InScopeAtRank(op, root, scope, j)
    ensures forall j | 0 <= j < Count(root, TargetOf(op)) && !NeedsLogAtRank(op, tag, root, j) ::
      !NeedsLogAtRank(op, tag, Step(op, s, tag, root, p), j)
    ensures r0 < Count(root, TargetOf(op)) && !NeedsLogAtRank(op, tag, Step(op, s, tag, root, p), r0)
    ensures PlainBraces(Step(op, s, tag, root, p))
  {
    var t := TargetOf(op);
    FindAllAtLength(root, [], t);
    assert p in AllTargets(root, t);
    MethodStepKeepsCount(s, tag, root, p, t);
    var next := Step(op, s, tag, root, p);
    assert next == MethodStep(s, tag, root, p);
    if !NeedsMethodLog(tag, root, p) {
      MethodStepUnneeded(s, tag, root, p);
    } else {
      var b, l := MethodStepFrame(s, tag, root, p);
      var xs := MethodLogNodes(s, tag, At(root, p).kind);
      var q, k := p + [b], l + 1;
      assert next == InsertChildren(root, q, k, xs);
      MethodLogNodesCount(s, tag, At(root, p).kind, t);
      InsertKeepsTargets(root, q, k, xs, t);
      MethodLogNodesPlain(s, tag, At(root, p).kind);
      PlainBracesInsert(root, q, k, xs);
      FindAllAtLength(next, [], t);
      forall j | 0 <= j < Count(root, t)
        ensures InScopeAtRank(op, next, scope, j) == InScopeAtRank(op, root, scope, j)
        ensures !NeedsLogAtRank(op, tag, root, j) || j == r0 ==> !NeedsLogAtRank(op, tag, next, j)
      {
        var u := AllTargets(root, t)[j];
        assert u in AllTargets(root, t);
        ShiftAllIndex(AllTargets(root, t), q, k, |xs|, j);
        assert AllTargets(next, t)[j] == Shift(u, q, k, |xs|);
        ShiftKeepsScope(u, q, k, |xs|, scope);
        if !NeedsMethodLog(tag, root, u) || u == p {
          SettledMoves(op, s, tag, root, p, b, l, u);
        }
      }
    }
  }

  // -------------------------------------------------------------- whole pass

  /**
   * Visiting candidates strictly inside `scope` one after the other keeps every
   * rank inside or outside the scope, keeps every settled rank settled, and
   * leaves every visited rank settled.
   */
  lemma {:induction false} RunRanksSettles(op: InsertOp, s: LogStrategy, tag: string, root: Node, ranks: seq<nat>, scope: Path)
    requires op == KotlinMethodLogs || op == JavaMethodLogs
    requires PlainBraces(root) && '{' !in tag
    requires forall j | 0 <= j < |ranks| :: ranks[j] < Count(root, TargetOf(op))
    requires forall j | 0 <= j < |ranks| :: InScopeAtRank(op, root, scope, ranks[j])
    ensures forall j | 0 <= j < Count(root, TargetOf(op)) ::
      InScopeAtRank(op, RunRanks(op, s, tag, root, ranks), scope, j) == InScopeAtRank(op, root, scope, j)
    ensures forall j | 0 <= j < Count(root, TargetOf(op)) && !NeedsLogAtRank(op, tag, root, j) ::
      !NeedsLogAtRank(op, tag, RunRanks(op, s, tag, root, ranks), j)
    ensures forall i | 0 <= i < |ranks| :: !NeedsLogAtRank(op, tag, RunRanks(op, s, tag, root, ranks), ranks[i])
    ensures PlainBraces(RunRanks(op, s, tag, root, ranks))
    decreases |ranks|
  {
    if ranks != [] {
      var t := TargetOf(op);
      var p, next := RunRanksFirst(op, s, tag, root, ranks);
      StepSettles(op, s, tag, root, scope, ranks[0], p);
      var rest := ranks[1..];
      forall j | 0 <= j < |rest| ensures InScopeAtRank(op, next, scope, rest[j]) {
        assert rest[j] == ranks[j + 1];
      }
      RunRanksSettles(op, s, tag, next, rest, scope);
      var last := RunRanks(op, s, tag, next, rest);
      forall i | 0 <= i < |ranks| ensures !NeedsLogAtRank(op, tag, last, ranks[i]) {
        if i > 0 {
          assert rest[i - 1] == ranks[i];
        }
      }
    }
  }

  /**
   * `insertKotlinMethodLogs`/`insertJavaMethodLogs` is idempotent: a second
   * call on the same scope changes nothing, as long as the tag holds no `{`,
   * no function name holds one, and every `{` token is the text "{".
   */
  lemma RunMethodsIdempotent(op: InsertOp, s: LogStrategy, tag: string, root: Node, scope: Path)
    requires op == KotlinMethodLogs || op == JavaMethodLogs
    requires PlainBraces(root) && '{' !in tag
    ensures Run(op, s, tag, Run(op, s, tag, root, scope), scope) == Run(op, s, tag, root, scope)
  {
    var t := TargetOf(op);
    var ranks := Candidates(op, root, scope);
    var r1 := Run(op, s, tag, root, scope);
    FindAllAtLength(root, [], t);
    forall j | 0 <= j < |ranks| ensures InScopeAtRank(op, root, scope, ranks[j]) {
    }
    RunRanksSettles(op, s, tag, root, ranks, scope);
    var again := Candidates(op, r1, scope);
    FindAllAtLength(r1, [], t);
    forall j | 0 <= j < |again| ensures !NeedsLogAtRank(op, tag, r1, again[j]) {
      assert InScopeAtRank(op, r1, scope, again[j]);
      assert again[j] in ranks;
      var i :| 0 <= i < |ranks| && ranks[i] == again[j];
    }
    RunRanksEffect(op, s, tag, r1, again);
  }
}
