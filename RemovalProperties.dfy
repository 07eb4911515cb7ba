/**
 * What `removeLogs` of services/LogInserterService.kt promises: exactly which
 * statements (Java) and expressions (Kotlin) it deletes, that every deleted node
 * mentions the tag, that it stays within its scope, and that it only ever takes
 * text away.
 */
module RemovalProperties {
  import opened Strings
  import opened LogStrategies
  import opened Psi
  import opened LogInserterService
  import opened InsertionProperties

  // ---------------------------------------------------------------- selecting

  /** The scope snapshot holds exactly the nodes of the class strictly inside the scope. */
  lemma ScopeTargetsExactly(root: Node, t: Target, scope: Path, p: Path)
    ensures p in ScopeTargets(root, t, scope) <==> ValidPath(root, p) && IsTarget(At(root, p), t) && IsStrictPrefix(scope, p)
  {
    var all := AllTargets(root, t);
    var ranks := ScopeRanks(all, scope, 0);
    var r := ScopeTargets(root, t, scope);
    if ValidPath(root, p) && IsTarget(At(root, p), t) && IsStrictPrefix(scope, p) {
      AllTargetsExactly(root, t, p);
      var k :| 0 <= k < |all| && all[k] == p;
      assert k in ranks;
      var j :| 0 <= j < |ranks| && ranks[j] == k;
      assert r[j] == p;
    }
  }

  /** A Java statement is selected exactly when it is listed and its text matches a pattern. */
  lemma {:induction false} JavaSelectedExactly(root: Node, stmts: seq<Path>, patterns: seq<string>, p: Path)
    requires forall j | 0 <= j < |stmts| :: ValidPath(root, stmts[j])
    ensures p in JavaSelected(root, stmts, patterns) <==>
      p in stmts && ValidPath(root, p) && MatchesAny(Text(At(root, p)), patterns)
    decreases |stmts|
  {
    if stmts != [] {
      var front := stmts[..|stmts| - 1];
      JavaSelectedExactly(root, front, patterns, p);
      assert stmts == front + [stmts[|stmts| - 1]];
    }
  }

  /**
   * `removeLogs` on a Java file deletes exactly the expression statements
   * strictly inside the scope whose text contains the tag.
   */
  lemma JavaRemovalExactly(s: LogStrategy, tag: string, root: Node, scope: Path, p: Path)
    ensures p in JavaRemoval(s, tag, root, scope) <==>
      ValidPath(root, p) && IsStrictPrefix(scope, p) && IsTarget(At(root, p), ExpressionStatements) &&
      Contains(Text(At(root, p)), tag)
  {
    var stmts := ScopeTargets(root, ExpressionStatements, scope);
    JavaSelectedExactly(root, stmts, GetRemovalPatterns(s, tag), p);
    ScopeTargetsExactly(root, ExpressionStatements, scope, p);
    if ValidPath(root, p) {
      MatchesPatternsIffContainsTag(s, tag, Text(At(root, p)));
    }
  }

  /**
   * A Kotlin expression is selected exactly when some listed call matches a
   * pattern and the qualified chain it ends is that expression, sitting directly
   * in a block or a function.
   */
  lemma {:induction false} KotlinSelectedExactly(root: Node, calls: seq<Path>, patterns: seq<string>, top: Path)
    requires forall j | 0 <= j < |calls| :: ValidPath(root, calls[j])
    ensures top in KotlinSelected(root, calls, patterns) <==>
      exists j | 0 <= j < |calls| ::
        MatchesAny(Text(At(root, calls[j])), patterns) && ClimbWhile(root, calls[j], Qualified) == top && DeletableTop(root, top)
    decreases |calls|
  {
    if calls != [] {
      var n := |calls| - 1;
      var front := calls[..n];
      KotlinSelectedExactly(root, front, patterns, top);
      assert forall j | 0 <= j < n :: front[j] == calls[j];
    }
  }

  /** The call from which a Kotlin deletion starts. */
  predicate RemovableCall(tag: string, root: Node, scope: Path, call: Path, top: Path) {
    ValidPath(root, call) && IsTarget(At(root, call), Calls) && IsStrictPrefix(scope, call) &&
    Contains(Text(At(root, call)), tag) && ClimbWhile(root, call, Qualified) == top && DeletableTop(root, top)
  }

  /**
   * `removeLogs` on a Kotlin file deletes exactly the outermost qualified
   * expressions ended by a call strictly inside the scope whose text contains
   * the tag, when such an expression sits directly in a block or a function.
   */
  lemma KotlinRemovalExactly(s: LogStrategy, tag: string, root: Node, scope: Path, top: Path)
    ensures top in KotlinRemoval(s, tag, root, scope) <==> exists call :: RemovableCall(tag, root, scope, call, top)
  {
    if top in KotlinRemoval(s, tag, root, scope) {
      KotlinRemovalHasCall(s, tag, root, scope, top);
    }
    if exists call :: RemovableCall(tag, root, scope, call, top) {
      var call :| RemovableCall(tag, root, scope, call, top);
      KotlinCallIsRemoved(s, tag, root, scope, call, top);
    }
  }

  lemma KotlinRemovalHasCall(s: LogStrategy, tag: string, root: Node, scope: Path, top: Path)
    requires top in KotlinRemoval(s, tag, root, scope)
    ensures exists call :: RemovableCall(tag, root, scope, call, top)
  {
    var calls := ScopeTargets(root, Calls, scope);
    var patterns := GetRemovalPatterns(s, tag);
    KotlinSelectedExactly(root, calls, patterns, top);
    var j :| 0 <= j < |calls| && MatchesAny(Text(At(root, calls[j])), patterns) &&
      ClimbWhile(root, calls[j], Qualified) == top && DeletableTop(root, top);
    MatchesPatternsIffContainsTag(s, tag, Text(At(root, calls[j])));
    assert RemovableCall(tag, root, scope, calls[j], top);
  }

  lemma KotlinCallIsRemoved(s: LogStrategy, tag: string, root: Node, scope: Path, call: Path, top: Path)
    requires RemovableCall(tag, root, scope, call, top)
    ensures top in KotlinRemoval(s, tag, root, scope)
  {
    var calls := ScopeTargets(root, Calls, scope);
    var patterns := GetRemovalPatterns(s, tag);
    ScopeTargetsExactly(root, Calls, scope, call);
    var j :| 0 <= j < |calls| && calls[j] == call;
    MatchesPatternsIffContainsTag(s, tag, Text(At(root, call)));
    KotlinSelectedExactly(root, calls, patterns, top);
  }

  /** A node's text holds the text of every node below it. */
  lemma TextContainsDescendant(root: Node, c: Path, p: Path)
    requires ValidPath(root, p) && IsPrefixPath(c, p)
    ensures ValidPath(root, c) && Contains(Text(At(root, c)), Text(At(root, p)))
  {
    var w := p[|c|..];
    assert p == c + w;
    AtConcat(root, c, w);
    TextAround(At(root, c), w);
    ContainsInfix(Before(At(root, c), w), Text(At(root, p)), After(At(root, c), w));
  }

  /**
   * Every Kotlin expression `removeLogs` deletes mentions the tag, and lies
   * strictly inside the scope, unless the scope node is itself part of the
   * qualified chain, in which case the deletion takes it along.
   */
  lemma KotlinRemovedMentionsTag(s: LogStrategy, tag: string, root: Node, scope: Path, top: Path)
    requires top in KotlinRemoval(s, tag, root, scope)
    ensures ValidPath(root, top) && Contains(Text(At(root, top)), tag)
    ensures IsStrictPrefix(scope, top) || (IsPrefixPath(top, scope) && ValidPath(root, scope) && Passes(Qualified, At(root, scope)))
  {
    KotlinRemovalExactly(s, tag, root, scope, top);
    var call :| RemovableCall(tag, root, scope, call, top);
    TextContainsDescendant(root, top, call);
    ContainsTransitive(Text(At(root, top)), Text(At(root, call)), tag);
    if !IsStrictPrefix(scope, top) {
      assert call[..|top|] == top && call[..|scope|] == scope;
      assert scope[..|top|] == top;
      PrefixValid(root, call, |scope|);
      var k := |scope| + 1;
      assert ParentPasses(root, call[..k], Qualified);
      assert Parent(call[..k]) == scope;
    }
  }

  // ----------------------------------------------------------------- deleting

  /** Pruning only takes text away. */
  lemma {:induction false} PruneOnlyDeletes(root: Node, q: Path, gone: set<Path>)
    requires ValidPath(root, q)
    ensures IsSubsequence(Text(Prune(root, q, gone)), Text(At(root, q)))
    decreases At(root, q), 1
  {
    if At(root, q).Leaf? {
      SubsequenceRefl(Text(At(root, q)));
    } else {
      PruneChildrenOnlyDeletes(root, q, gone, 0);
      assert At(root, q).children[0..] == At(root, q).children;
    }
  }

  lemma {:induction false} PruneChildrenOnlyDeletes(root: Node, q: Path, gone: set<Path>, i: nat)
    requires ValidPath(root, q) && At(root, q).Inner? && i <= |At(root, q).children|
    ensures IsSubsequence(TextOf(PruneChildren(root, q, gone, i)), TextOf(At(root, q).children[i..]))
    decreases At(root, q), 0, |At(root, q).children| - i
  {
    if i == |At(root, q).children| {
      SubsequenceRefl("");
    } else {
      ChildValid(root, q, i);
      PruneChildrenOnlyDeletes(root, q, gone, i + 1);
      PruneOnlyDeletes(root, q + [i], gone);
      PruneChildrenOnlyDeletesStep(root, q, gone, i);
    }
  }

  /** One step of `PruneChildrenOnlyDeletes`: from the children after `i` to those from `i` on. */
  lemma PruneChildrenOnlyDeletesStep(root: Node, q: Path, gone: set<Path>, i: nat)
    requires ValidPath(root, q) && At(root, q).Inner? && i < |At(root, q).children| && ValidPath(root, q + [i])
    requires At(root, q + [i]) == At(root, q).children[i]
    requires IsSubsequence(TextOf(PruneChildren(root, q, gone, i + 1)), TextOf(At(root, q).children[i + 1..]))
    requires IsSubsequence(Text(Prune(root, q + [i], gone)), Text(At(root, q + [i])))
    ensures IsSubsequence(TextOf(PruneChildren(root, q, gone, i)), TextOf(At(root, q).children[i..]))
  {
    var cs := At(root, q).children;
    var rest := TextOf(PruneChildren(root, q, gone, i + 1));
    var tail := TextOf(cs[i + 1..]);
    assert TextOf(cs[i..]) == Text(cs[i]) + tail by {
      assert cs[i..][0] == cs[i] && cs[i..][1..] == cs[i + 1..];
    }
    if q + [i] in gone {
      assert PruneChildren(root, q, gone, i) == PruneChildren(root, q, gone, i + 1);
      SubsequencePrepend(rest, Text(cs[i]), tail);
    } else {
      var x := Prune(root, q + [i], gone);
      assert TextOf(PruneChildren(root, q, gone, i)) == Text(x) + rest by {
        var xs := PruneChildren(root, q, gone, i);
        assert xs == [x] + PruneChildren(root, q, gone, i + 1);
        assert xs[0] == x && xs[1..] == PruneChildren(root, q, gone, i + 1);
      }
      SubsequenceConcat(Text(x), Text(cs[i]), rest, tail);
    }
  }

  /** A path strictly below a child of `q` is strictly below `q`, and below that child only. */
  lemma ChildPrefix(q: Path, i: nat, j: nat, p: Path)
    ensures IsStrictPrefix(q + [i], p) ==> IsStrictPrefix(q, p) && p[|q|] == i
    ensures IsStrictPrefix(q + [i], p) && IsStrictPrefix(q + [j], p) ==> i == j
  {
    if IsStrictPrefix(q + [i], p) {
      assert p[..|q|] == (p[..|q| + 1])[..|q|];
      assert p[|q|] == (p[..|q| + 1])[|q|];
    }
    if IsStrictPrefix(q + [j], p) {
      assert p[|q|] == (p[..|q| + 1])[|q|];
    }
  }

  /** Being inside a prefix carries down: what is strictly below `b` is strictly below any prefix of `b`. */
  lemma PrefixThenStrict(a: Path, b: Path, c: Path)
    ensures IsPrefixPath(a, b) && IsStrictPrefix(b, c) ==> IsStrictPrefix(a, c)
  {
    if IsPrefixPath(a, b) && IsStrictPrefix(b, c) {
      assert c[..|a|] == (c[..|b|])[..|a|];
    }
  }

  /** With nothing below `q` to delete, pruning leaves the subtree as it is. */
  lemma {:induction false} PruneUntouched(root: Node, q: Path, gone: set<Path>)
    requires ValidPath(root, q)
    requires forall p | p in gone :: !IsStrictPrefix(q, p)
    ensures Prune(root, q, gone) == At(root, q)
    decreases At(root, q), 1
  {
    if At(root, q).Inner? {
      PruneChildrenUntouched(root, q, gone, 0);
      assert At(root, q).children[0..] == At(root, q).children;
    }
  }

  lemma {:induction false} PruneChildrenUntouched(root: Node, q: Path, gone: set<Path>, i: nat)
    requires ValidPath(root, q) && At(root, q).Inner? && i <= |At(root, q).children|
    requires forall p | p in gone :: !IsStrictPrefix(q, p)
    ensures PruneChildren(root, q, gone, i) == At(root, q).children[i..]
    decreases At(root, q), 0, |At(root, q).children| - i
  {
    var cs := At(root, q).children;
    if i < |cs| {
      ChildValid(root, q, i);
      UntouchedChild(q, i, gone);
      PruneUntouched(root, q + [i], gone);
      PruneChildrenUntouched(root, q, gone, i + 1);
      assert cs[i..] == [cs[i]] + cs[i + 1..];
    }
  }

  /** Nothing strictly below `q` is deleted, so neither child `i` of `q` nor anything below it is. */
  lemma UntouchedChild(q: Path, i: nat, gone: set<Path>)
    requires forall p | p in gone :: !IsStrictPrefix(q, p)
    ensures q + [i] !in gone
    ensures forall p | p in gone :: !IsStrictPrefix(q + [i], p)
  {
    assert (q + [i])[..|q|] == q;
    forall p | p in gone ensures !IsStrictPrefix(q + [i], p) {
      ChildPrefix(q, i, i, p);
    }
  }

  /**
   * One whole `removeLogs` call only takes text away from the file, and a file
   * in which it selects nothing is left as it is.
   */
  lemma RemovedOnlyDeletes(g: Grammar, s: LogStrategy, tag: string, root: Node, scope: Path)
    ensures IsSubsequence(Text(Removed(g, s, tag, root, scope)), Text(root))
    ensures g == Java && JavaRemoval(s, tag, root, scope) == {} ==> Removed(g, s, tag, root, scope) == root
    ensures g == Kotlin && KotlinRemoval(s, tag, root, scope) == {} ==> Removed(g, s, tag, root, scope) == root
  {
    match g
    case Java =>
      PruneOnlyDeletes(root, [], JavaRemoval(s, tag, root, scope));
      if JavaRemoval(s, tag, root, scope) == {} {
        PruneUntouched(root, [], {});
      }
    case Kotlin =>
      PruneOnlyDeletes(root, [], KotlinRemoval(s, tag, root, scope));
      if KotlinRemoval(s, tag, root, scope) == {} {
        PruneUntouched(root, [], {});
      }
    case OtherLanguage =>
      SubsequenceRefl(Text(root));
  }

  /** With everything to delete below child `i` of `q`, pruning the children of `q` only changes child `i`. */
  lemma {:induction false} PruneChildrenAlong(root: Node, q: Path, gone: set<Path>, i: nat, from: nat)
    requires ValidPath(root, q) && At(root, q).Inner? && i < |At(root, q).children| && from <= |At(root, q).children|
    requires forall p | p in gone :: IsStrictPrefix(q + [i], p)
    ensures ValidPath(root, q + [i])
    ensures from <= i ==>
      PruneChildren(root, q, gone, from) == At(root, q).children[from..][i - from := Prune(root, q + [i], gone)]
    ensures i < from ==> PruneChildren(root, q, gone, from) == At(root, q).children[from..]
    decreases |At(root, q).children| - from
  {
    ChildValid(root, q, i);
    if from < |At(root, q).children| {
      PruneChildrenAlong(root, q, gone, i, from + 1);
      PruneChildrenStep(root, q, gone, i, from);
    }
  }

  /** One step of `PruneChildrenAlong`: from the children after `from` to those from `from` on. */
  lemma PruneChildrenStep(root: Node, q: Path, gone: set<Path>, i: nat, from: nat)
    requires ValidPath(root, q) && At(root, q).Inner? && i < |At(root, q).children| && from < |At(root, q).children|
    requires forall p | p in gone :: IsStrictPrefix(q + [i], p)
    requires ValidPath(root, q + [i])
    requires from + 1 <= i ==>
      PruneChildren(root, q, gone, from + 1) == At(root, q).children[from + 1..][i - (from + 1) := Prune(root, q + [i], gone)]
    requires i < from + 1 ==> PruneChildren(root, q, gone, from + 1) == At(root, q).children[from + 1..]
    ensures from <= i ==>
      PruneChildren(root, q, gone, from) == At(root, q).children[from..][i - from := Prune(root, q + [i], gone)]
    ensures i < from ==> PruneChildren(root, q, gone, from) == At(root, q).children[from..]
  {
    var cs := At(root, q).children;
    ChildValid(root, q, from);
    var rest := PruneChildren(root, q, gone, from + 1);
    var whole := PruneChildren(root, q, gone, from);
    var head := Prune(root, q + [from], gone);
    var v := Prune(root, q + [i], gone);
    assert whole == [head] + rest by {
      ChildNotGone(q, i, from, gone);
    }
    assert (from != i ==> head == cs[from]) && (from == i ==> head == v) by {
      if from != i {
        PruneSibling(root, q, gone, i, from);
      }
    }
    ConsAlong(cs, from, i, v, whole, head, rest);
  }

  /** Putting the first element back in front of the rest, when only the element at `i` differs. */
  lemma ConsAlong(cs: seq<Node>, from: nat, i: nat, v: Node, whole: seq<Node>, head: Node, rest: seq<Node>)
    requires from < |cs| && i < |cs| && whole == [head] + rest
    requires from != i ==> head == cs[from]
    requires from == i ==> head == v
    requires from + 1 <= i ==> rest == cs[from + 1..][i - (from + 1) := v]
    requires i < from + 1 ==> rest == cs[from + 1..]
    ensures from <= i ==> whole == cs[from..][i - from := v]
    ensures i < from ==> whole == cs[from..]
  {
    if from < i {
      assert whole == [cs[from]] + cs[from + 1..][i - (from + 1) := v];
    } else if from == i {
      assert whole == [v] + cs[from + 1..];
    } else {
      assert whole == [cs[from]] + cs[from + 1..];
    }
  }

  /** With everything to delete strictly below child `i` of `q`, no child of `q` is deleted itself. */
  lemma ChildNotGone(q: Path, i: nat, j: nat, gone: set<Path>)
    requires forall p | p in gone :: IsStrictPrefix(q + [i], p)
    ensures q + [j] !in gone
  {
    forall p | p in gone
      ensures |p| > |q| + 1
    {
      assert IsStrictPrefix(q + [i], p);
    }
  }

  /** With everything to delete below child `i` of `q`, pruning leaves every other child of `q` as it is. */
  lemma PruneSibling(root: Node, q: Path, gone: set<Path>, i: nat, j: nat)
    requires ValidPath(root, q) && At(root, q).Inner? && j < |At(root, q).children| && i != j
    requires forall p | p in gone :: IsStrictPrefix(q + [i], p)
    ensures ValidPath(root, q + [j]) && Prune(root, q + [j], gone) == At(root, q).children[j]
  {
    ChildValid(root, q, j);
    forall p | p in gone ensures !IsStrictPrefix(q + [j], p) {
      ChildPrefix(q, i, j, p);
    }
    PruneUntouched(root, q + [j], gone);
  }

  /**
   * Deleting only nodes inside `scope` replaces the scope node by its pruned
   * version and leaves everything else as it is.
   */
  lemma {:induction false} PruneWithin(root: Node, q: Path, scope: Path, gone: set<Path>)
    requires ValidPath(root, scope) && IsPrefixPath(q, scope)
    requires forall p | p in gone :: IsStrictPrefix(scope, p)
    ensures ValidPath(root, q) && ValidPath(At(root, q), scope[|q|..])
    ensures Prune(root, q, gone) == ReplaceAt(At(root, q), scope[|q|..], Prune(root, scope, gone))
    decreases |scope| - |q|
  {
    assert scope == q + scope[|q|..];
    AtConcat(root, q, scope[|q|..]);
    if |q| < |scope| {
      var i := scope[|q|];
      var w := scope[|q| + 1..];
      assert scope[..|q| + 1] == q + [i] && scope[|q|..] == [i] + w by {
        assert scope[..|q| + 1] == scope[..|q|] + [i];
      }
      assert IsPrefixPath(q + [i], scope);
      forall p | p in gone ensures IsStrictPrefix(q + [i], p) {
        PrefixThenStrict(q + [i], scope, p);
      }
      assert ValidPath(root, q + [i]) by {
        PrefixValid(root, scope, |q| + 1);
      }
      assert Parent(q + [i]) == q && Last(q + [i]) == i;
      ParentValid(root, q + [i]);
      PruneOneChild(root, q, gone, i);
      PruneWithin(root, q + [i], scope, gone);
      assert scope[|q + [i]|..] == w;
      ReplaceBelowChild(At(root, q), i, w, Prune(root, scope, gone));
    } else {
      assert q == scope && scope[|q|..] == [];
    }
  }

  /** With everything to delete below child `i` of `q`, pruning at `q` prunes that child only. */
  lemma PruneOneChild(root: Node, q: Path, gone: set<Path>, i: nat)
    requires ValidPath(root, q) && At(root, q).Inner? && i < |At(root, q).children|
    requires forall p | p in gone :: IsStrictPrefix(q + [i], p)
    ensures ValidPath(root, q + [i]) && At(root, q + [i]) == At(root, q).children[i]
    ensures Prune(root, q, gone) == At(root, q).(children := At(root, q).children[i := Prune(root, q + [i], gone)])
  {
    ChildValid(root, q, i);
    PruneChildrenAlong(root, q, gone, i, 0);
    assert At(root, q).children[0..] == At(root, q).children;
  }

  /**
   * `removeLogs` changes the file only inside its scope: the scope node is
   * replaced by its own pruned version and the text before and after it stays.
   * For Kotlin this needs the scope node not to be a qualified expression itself
   * (a class or a file never is).
   */
  lemma RemovedWithinScope(g: Grammar, s: LogStrategy, tag: string, root: Node, scope: Path)
    requires ValidPath(root, scope)
    requires g == Kotlin ==> !Passes(Qualified, At(root, scope))
    ensures var gone := RemovalSet(g, s, tag, root, scope);
      Removed(g, s, tag, root, scope) == ReplaceAt(root, scope, Prune(root, scope, gone)) &&
      Text(Removed(g, s, tag, root, scope)) == Before(root, scope) + Text(Prune(root, scope, gone)) + After(root, scope)
  {
    var gone := RemovalSet(g, s, tag, root, scope);
    forall p | p in gone ensures IsStrictPrefix(scope, p) {
      if g == Java {
        JavaRemovalExactly(s, tag, root, scope, p);
      } else {
        KotlinRemovedMentionsTag(s, tag, root, scope, p);
      }
    }
    var top: Path := [];
    PruneWithin(root, top, scope, gone);
    assert scope[|top|..] == scope;
    if g == OtherLanguage {
      PruneUntouched(root, [], {});
      PruneUntouched(root, scope, {});
      ReplaceAtSame(root, scope);
    }
    ReplaceText(root, scope, Prune(root, scope, gone));
  }

  // ------------------------------------------------------------- what survives

  /** The nodes one `removeLogs` call deletes: none from a file in another language. */
  function RemovalSet(g: Grammar, s: LogStrategy, tag: string, root: Node, scope: Path): set<Path> {
    match g
    case Java => JavaRemoval(s, tag, root, scope)
    case Kotlin => KotlinRemoval(s, tag, root, scope)
    case OtherLanguage => {}
  }

  /** A child that is not deleted keeps its pruned text among its pruned siblings. */
  lemma {:induction false} PruneChildrenHolds(root: Node, q: Path, gone: set<Path>, from: nat, i: nat)
    requires ValidPath(root, q) && At(root, q).Inner? && from <= i < |At(root, q).children| && q + [i] !in gone
    ensures ValidPath(root, q + [i])
    ensures Contains(TextOf(PruneChildren(root, q, gone, from)), Text(Prune(root, q + [i], gone)))
    decreases i - from
  {
    ChildValid(root, q, i);
    ChildValid(root, q, from);
    var head := if q + [from] in gone then [] else [Prune(root, q + [from], gone)];
    var rest := PruneChildren(root, q, gone, from + 1);
    assert PruneChildren(root, q, gone, from) == head + rest;
    TextOfAppend(head, rest);
    if from == i {
      var x := Prune(root, q + [i], gone);
      assert TextOf(head) == Text(x) + TextOf([]);
      ContainsInfix("", Text(x), TextOf(rest));
      assert "" + Text(x) + TextOf(rest) == TextOf(head) + TextOf(rest);
    } else {
      PruneChildrenHolds(root, q, gone, from + 1, i);
      ContainsExtend(TextOf(head), TextOf(rest), "", Text(Prune(root, q + [i], gone)));
      assert TextOf(head) + TextOf(rest) + "" == TextOf(head) + TextOf(rest);
    }
  }

  /** A node that is not deleted, below nodes that are not deleted, keeps its pruned text inside the pruned ancestor. */
  lemma {:induction false} PruneKeepsSurvivor(root: Node, q: Path, p: Path, gone: set<Path>)
    requires ValidPath(root, p) && IsPrefixPath(q, p)
    requires forall k | |q| < k <= |p| :: p[..k] !in gone
    ensures ValidPath(root, q) && Contains(Text(Prune(root, q, gone)), Text(Prune(root, p, gone)))
    decreases |p| - |q|
  {
    PrefixValid(root, p, |q|);
    if |q| == |p| {
      assert q == p;
      ContainsInfix("", Text(Prune(root, p, gone)), "");
    } else {
      var i := p[|q|];
      var c := q + [i];
      assert p[..|q| + 1] == c by {
        assert p[..|q| + 1] == p[..|q|] + [i];
      }
      PrefixValid(root, p, |q| + 1);
      assert Parent(c) == q && Last(c) == i;
      ParentValid(root, c);
      PruneKeepsSurvivor(root, c, p, gone);
      PruneChildrenHolds(root, q, gone, 0, i);
      assert Text(Prune(root, q, gone)) == TextOf(PruneChildren(root, q, gone, 0));
      ContainsTransitive(Text(Prune(root, q, gone)), Text(Prune(root, c, gone)), Text(Prune(root, p, gone)));
    }
  }

  /**
   * `removeLogs` keeps every node that neither it nor an enclosing node is
   * deleted: the new file text holds that node's text with only its own
   * deleted descendants taken out, and its whole old text when nothing below
   * it is deleted either.
   */
  lemma RemovedKeepsSurvivor(g: Grammar, s: LogStrategy, tag: string, root: Node, scope: Path, p: Path)
    requires ValidPath(root, p)
    requires forall k | 0 < k <= |p| :: p[..k] !in RemovalSet(g, s, tag, root, scope)
    ensures Contains(Text(Removed(g, s, tag, root, scope)), Text(Prune(root, p, RemovalSet(g, s, tag, root, scope))))
    ensures (forall d | d in RemovalSet(g, s, tag, root, scope) :: !IsStrictPrefix(p, d)) ==>
      Contains(Text(Removed(g, s, tag, root, scope)), Text(At(root, p)))
  {
    var gone := RemovalSet(g, s, tag, root, scope);
    PruneKeepsSurvivor(root, [], p, gone);
    if g == OtherLanguage {
      PruneUntouched(root, [], gone);
    }
    assert Removed(g, s, tag, root, scope) == Prune(root, [], gone);
    if forall d | d in gone :: !IsStrictPrefix(p, d) {
      PruneUntouched(root, p, gone);
    }
  }

  /** Every node `removeLogs` deletes mentions the tag. */
  lemma RemovedMentionsTag(g: Grammar, s: LogStrategy, tag: string, root: Node, scope: Path, d: Path)
    requires d in RemovalSet(g, s, tag, root, scope)
    ensures ValidPath(root, d) && Contains(Text(At(root, d)), tag)
  {
    if g == Java {
      JavaRemovalExactly(s, tag, root, scope, d);
    } else {
      KotlinRemovedMentionsTag(s, tag, root, scope, d);
    }
  }

  /**
   * In Java and in Kotlin alike, a node whose text does not contain the tag
   * and no enclosing node of which is deleted keeps all of its text: a log
   * with another tag, or any code without a log, survives removal unchanged.
   */
  lemma UntaggedSurvives(g: Grammar, s: LogStrategy, tag: string, root: Node, scope: Path, p: Path)
    requires ValidPath(root, p) && !Contains(Text(At(root, p)), tag)
    requires forall k | 0 < k < |p| :: p[..k] !in RemovalSet(g, s, tag, root, scope)
    ensures Contains(Text(Removed(g, s, tag, root, scope)), Text(At(root, p)))
  {
    var gone := RemovalSet(g, s, tag, root, scope);
    assert p !in gone by {
      if p in gone {
        RemovedMentionsTag(g, s, tag, root, scope, p);
      }
    }
    assert p[..|p|] == p;
    forall d | d in gone ensures !IsStrictPrefix(p, d) {
      RemovedMentionsTag(g, s, tag, root, scope, d);
      if IsStrictPrefix(p, d) {
        TextContainsDescendant(root, p, d);
        ContainsTransitive(Text(At(root, p)), Text(At(root, d)), tag);
      }
    }
    RemovedKeepsSurvivor(g, s, tag, root, scope, p);
  }

  // ------------------------------------------- what the passes insert, removeLogs removes

  /** A Java log inserted behind child `i` of `q` is an expression statement right there that mentions the tag. */
  lemma JavaLogPlaced(root: Node, q: Path, i: nat, s: LogStrategy, tag: string, message: string)
    requires ValidPath(root, q) && At(root, q).Inner? && i < |At(root, q).children|
    ensures var r := InsertChildren(root, q, i + 1, [JavaLogNode(CreateJavaLog(s, tag, message))]);
      ValidPath(r, q + [i + 1]) && IsTarget(At(r, q + [i + 1]), ExpressionStatements) &&
      Contains(Text(At(r, q + [i + 1])), tag)
  {
    var log := CreateJavaLog(s, tag, message);
    InsertChildrenAt(root, q, i + 1, [JavaLogNode(log)], 0);
    LogNodeText(log);
    ContainsLog(s, tag, message);
  }

  /** A newline and a Kotlin log inserted behind child `i` of `q` put a call mentioning the tag at `i + 2`. */
  lemma KotlinLogPlaced(root: Node, q: Path, i: nat, s: LogStrategy, tag: string, message: string)
    requires ValidPath(root, q) && At(root, q).Inner? && i < |At(root, q).children|
    ensures var r := InsertChildren(root, q, i + 1, [NewLine, KotlinLogNode(CreateKotlinLog(s, tag, message))]);
      ValidPath(r, q + [i + 2]) && IsTarget(At(r, q + [i + 2]), Calls) &&
      Contains(Text(At(r, q + [i + 2])), tag) &&
      At(r, q).Inner? && At(r, q).kind == At(root, q).kind && Parent(q + [i + 2]) == q
  {
    var log := CreateKotlinLog(s, tag, message);
    InsertChildrenAt(root, q, i + 1, [NewLine, KotlinLogNode(log)], 1);
    LogNodeText(log);
    ContainsLog(s, tag, message);
  }

  /** Where the log of the function at `p` goes: right after the `{` of its body (after the newline in Kotlin). */
  function MethodLogPath(tag: string, root: Node, p: Path): Path
    requires ValidPath(root, p) && At(root, p).Inner? && NeedsMethodLog(tag, root, p)
  {
    var f := At(root, p);
    var b := FindFirst(f.children, BodySelector(f.kind), 0).value;
    var l := FindFirst(f.children[b].children, LBraceToken, 0).value;
    p + [b] + [l + (if f.kind.KtNamedFunction? then 2 else 1)]
  }

  /**
   * The log `insertJavaMethodLogs` puts into a method inside the scope is one of
   * the statements `removeLogs` deletes from that scope.
   */
  lemma JavaMethodLogIsRemovable(s: LogStrategy, tag: string, root: Node, p: Path, scope: Path)
    requires ValidPath(root, p) && IsTarget(At(root, p), Methods) && NeedsMethodLog(tag, root, p)
    requires IsPrefixPath(scope, p)
    ensures MethodLogPath(tag, root, p) in JavaRemoval(s, tag, MethodStep(s, tag, root, p), scope)
  {
    var f := At(root, p);
    var b, l := MethodStepInserts(s, tag, root, p);
    var d := p + [b] + [l + 1];
    var r := MethodStep(s, tag, root, p);
    assert MethodLogPath(tag, root, p) == d;
    JavaMethodLogNodes(s, tag, f.kind);
    JavaLogPlaced(root, p + [b], l, s, tag, JavaMethodMessage(f.kind.methodName, f.kind.parameterNames));
    assert d[..|scope|] == scope;
    JavaRemovalExactly(s, tag, r, scope, d);
  }

  /**
   * The log `insertKotlinMethodLogs` puts into a function inside the scope is one
   * of the expressions `removeLogs` deletes from that scope.
   */
  lemma KotlinFunctionLogIsRemovable(s: LogStrategy, tag: string, root: Node, p: Path, scope: Path)
    requires ValidPath(root, p) && IsTarget(At(root, p), NamedFunctions) && NeedsMethodLog(tag, root, p)
    requires IsPrefixPath(scope, p)
    ensures MethodLogPath(tag, root, p) in KotlinRemoval(s, tag, MethodStep(s, tag, root, p), scope)
  {
    var f := At(root, p);
    var b, l := MethodStepInserts(s, tag, root, p);
    var d := p + [b] + [l + 2];
    var r := MethodStep(s, tag, root, p);
    assert MethodLogPath(tag, root, p) == d;
    KotlinFunctionLogNodes(s, tag, f.kind);
    assert [NewLine] + [KotlinLogNode(CreateKotlinLog(s, tag, KotlinMethodMessage(f.kind.name, f.kind.parameters)))]
      == [NewLine, KotlinLogNode(CreateKotlinLog(s, tag, KotlinMethodMessage(f.kind.name, f.kind.parameters)))];
    KotlinLogPlaced(root, p + [b], l, s, tag, KotlinMethodMessage(f.kind.name, f.kind.parameters));
    assert d[..|scope|] == scope;
    ClimbWhileAt(r, d, Qualified, d);
    assert RemovableCall(tag, r, scope, d, d);
    KotlinCallIsRemoved(s, tag, r, scope, d, d);
  }

  /** Where the log of the assignment at `p` goes: right after its statement (after the newline in a Kotlin block). */
  function AssignmentLogPath(tag: string, root: Node, p: Path): Path
    requires ValidPath(root, p) && At(root, p).Inner? && NeedsAssignmentLog(tag, root, p)
  {
    var c := ClimbWhile(root, p, NotBlock);
    var newLine := At(root, Parent(c)).kind == KtBlockExpression && At(root, p).kind.KtBinaryExpression?;
    Parent(c) + [Last(c) + (if newLine then 2 else 1)]
  }

  /**
   * The log `insertJavaAssignmentLogs` puts after a statement inside the scope is
   * one of the statements `removeLogs` deletes from that scope.
   */
  lemma JavaAssignmentLogIsRemovable(s: LogStrategy, tag: string, root: Node, p: Path, scope: Path)
    requires ValidPath(root, p) && IsTarget(At(root, p), JavaAssignments) && NeedsAssignmentLog(tag, root, p)
    requires IsStrictPrefix(scope, ClimbWhile(root, p, NotBlock))
    ensures AssignmentLogPath(tag, root, p) in JavaRemoval(s, tag, AssignmentStep(s, tag, root, p), scope)
  {
    var c := ClimbWhile(root, p, NotBlock);
    var d := AssignmentLogPath(tag, root, p);
    var r := AssignmentStep(s, tag, root, p);
    JavaAssignmentLogPlaced(s, tag, root, p);
    PrefixThenStrict(scope, Parent(c), d);
    assert d[..|scope|] == scope by {
      assert c[..|scope|] == scope;
    }
    JavaRemovalExactly(s, tag, r, scope, d);
  }

  /** The Java assignment log is an expression statement right after the assignment's statement that mentions the tag. */
  lemma JavaAssignmentLogPlaced(s: LogStrategy, tag: string, root: Node, p: Path)
    requires ValidPath(root, p) && IsTarget(At(root, p), JavaAssignments) && NeedsAssignmentLog(tag, root, p)
    ensures var c := ClimbWhile(root, p, NotBlock);
      var d := AssignmentLogPath(tag, root, p);
      var r := AssignmentStep(s, tag, root, p);
      c != [] && d == Parent(c) + [Last(c) + 1] && ValidPath(r, d) && IsTarget(At(r, d), ExpressionStatements) &&
      Contains(Text(At(r, d)), tag)
  {
    var v := VariableText(At(root, p)).value;
    var c := JavaAssignmentStepInserts(s, tag, root, p);
    JavaLogPlaced(root, Parent(c), Last(c), s, tag, JavaAssignmentMessage(v));
  }

  /** A Java assignment's log is one statement inserted right behind the statement `c` it climbs to. */
  lemma JavaAssignmentStepInserts(s: LogStrategy, tag: string, root: Node, p: Path) returns (c: Path)
    requires ValidPath(root, p) && IsTarget(At(root, p), JavaAssignments) && NeedsAssignmentLog(tag, root, p)
    ensures c == ClimbWhile(root, p, NotBlock) && c != [] && ValidPath(root, Parent(c)) && At(root, Parent(c)).Inner? &&
      Last(c) < |At(root, Parent(c)).children|
    ensures AssignmentLogPath(tag, root, p) == Parent(c) + [Last(c) + 1]
    ensures AssignmentStep(s, tag, root, p) ==
      InsertChildren(root, Parent(c), Last(c) + 1, [JavaLogNode(CreateJavaLog(s, tag, JavaAssignmentMessage(VariableText(At(root, p)).value)))])
  {
    var a := At(root, p);
    var v := VariableText(a).value;
    var x := JavaLogNode(CreateJavaLog(s, tag, JavaAssignmentMessage(v)));
    assert !a.kind.KtBinaryExpression? && AssignmentLog(s, tag, a.kind, v) == x;
    assert AssignmentStep(s, tag, root, p) == InsertedAfterStatement(root, p, x, false);
    c := ClimbWhile(root, p, NotBlock);
    var xs := InsertedAfterSlot(root, p, x, false);
    assert xs == [x];
  }

  /** The Kotlin assignment log is a call that sits directly in the statement's block and mentions the tag. */
  lemma KotlinAssignmentLogPlaced(s: LogStrategy, tag: string, root: Node, p: Path)
    requires ValidPath(root, p) && IsTarget(At(root, p), KotlinAssignments) && NeedsAssignmentLog(tag, root, p)
    requires var c := ClimbWhile(root, p, NotBlock);
      ValidPath(root, Parent(c)) && At(root, Parent(c)).Inner? && At(root, Parent(c)).kind == KtBlockExpression
    ensures var c := ClimbWhile(root, p, NotBlock);
      var d := AssignmentLogPath(tag, root, p);
      var r := AssignmentStep(s, tag, root, p);
      d == Parent(c) + [Last(c) + 2] && ValidPath(r, d) && IsTarget(At(r, d), Calls) && Contains(Text(At(r, d)), tag) &&
      ValidPath(r, Parent(c)) && At(r, Parent(c)).Inner? && At(r, Parent(c)).kind == KtBlockExpression
  {
    var a := At(root, p);
    var c := ClimbWhile(root, p, NotBlock);
    var r := AssignmentStep(s, tag, root, p);
    var v := VariableText(a).value;
    var log := CreateKotlinLog(s, tag, KotlinAssignmentMessage(v));
    var xs := AssignmentStepInserts(s, tag, root, p);
    assert xs == [NewLine, KotlinLogNode(log)];
    KotlinLogPlaced(root, Parent(c), Last(c), s, tag, KotlinAssignmentMessage(v));
  }

  /**
   * The log `insertKotlinAssignmentLogs` puts after a statement of a Kotlin block
   * inside the scope is one of the expressions `removeLogs` deletes from that scope.
   */
  lemma KotlinAssignmentLogIsRemovable(s: LogStrategy, tag: string, root: Node, p: Path, scope: Path)
    requires ValidPath(root, p) && IsTarget(At(root, p), KotlinAssignments) && NeedsAssignmentLog(tag, root, p)
    requires IsStrictPrefix(scope, ClimbWhile(root, p, NotBlock))
    ensures var c := ClimbWhile(root, p, NotBlock);
      ValidPath(root, Parent(c)) && At(root, Parent(c)).Inner? &&
      (At(root, Parent(c)).kind == KtBlockExpression ==>
        AssignmentLogPath(tag, root, p) in KotlinRemoval(s, tag, AssignmentStep(s, tag, root, p), scope))
  {
    var c := ClimbWhile(root, p, NotBlock);
    ParentValid(root, c);
    if At(root, Parent(c)).kind == KtBlockExpression {
      KotlinAssignmentLogPlaced(s, tag, root, p);
      var d := AssignmentLogPath(tag, root, p);
      var r := AssignmentStep(s, tag, root, p);
      assert Parent(d) == Parent(c);
      PrefixThenStrict(scope, Parent(c), d);
      assert d[..|scope|] == scope by {
        assert c[..|scope|] == scope;
      }
      ClimbWhileAt(r, d, Qualified, d);
      assert RemovableCall(tag, r, scope, d, d);
      KotlinCallIsRemoved(s, tag, r, scope, d, d);
    }
  }

  /** A rendered log mentions its tag. */
  lemma ContainsLog(s: LogStrategy, tag: string, message: string)
    ensures Contains(CreateKotlinLog(s, tag, message), tag) && Contains(CreateJavaLog(s, tag, message), tag)
  {
    MatchesPatternsIffContainsTag(s, tag, CreateKotlinLog(s, tag, message));
    MatchesPatternsIffContainsTag(s, tag, CreateJavaLog(s, tag, message));
    RenderedLogMatchesOwnPatterns(s, tag, message);
  }
}
