/**
 * How the snapshot `findChildrenOfType` takes follows the tree while a pass
 * inserts logs: inserting children that hold no node of the collected class
 * keeps the pre-order list of that class, each entry moved by `Psi.Shift`.
 * So the rank of a node in the list names the same node before and after.
 */
module Snapshot {
  import opened Psi

  /** Every path of a list, shifted. */
  function ShiftAll(s: seq<Path>, q: Path, k: nat, n: nat): (r: seq<Path>)
    ensures |r| == |s|
    decreases |s|
  {
    if s == [] then [] else [Shift(s[0], q, k, n)] + ShiftAll(s[1..], q, k, n)
  }

  /** The path `u`, below `a`, moved to below `b`. */
  function Rebase(u: Path, a: Path, b: Path): Path {
    if |a| <= |u| then b + u[|a|..] else u
  }

  /** Every path of a list, moved from below `a` to below `b`. */
  function RebaseAll(s: seq<Path>, a: Path, b: Path): seq<Path>
    decreases |s|
  {
    if s == [] then [] else [Rebase(s[0], a, b)] + RebaseAll(s[1..], a, b)
  }

  lemma {:induction false} ShiftAllIndex(s: seq<Path>, q: Path, k: nat, n: nat, i: nat)
    requires i < |s|
    ensures |ShiftAll(s, q, k, n)| == |s| && ShiftAll(s, q, k, n)[i] == Shift(s[i], q, k, n)
    decreases |s|
  {
    if i > 0 {
      ShiftAllIndex(s[1..], q, k, n, i - 1);
    }
  }

  lemma {:induction false} ShiftAllAppend(x: seq<Path>, y: seq<Path>, q: Path, k: nat, n: nat)
    ensures ShiftAll(x + y, q, k, n) == ShiftAll(x, q, k, n) + ShiftAll(y, q, k, n)
    decreases |x|
  {
    if x == [] {
      assert x + y == y;
    } else {
      assert (x + y)[0] == x[0] && (x + y)[1..] == x[1..] + y;
      ShiftAllAppend(x[1..], y, q, k, n);
    }
  }

  lemma ShiftAllNil(q: Path, k: nat, n: nat)
    ensures ShiftAll([], q, k, n) == []
  {
  }

  lemma {:induction false} RebaseAllAppend(x: seq<Path>, y: seq<Path>, a: Path, b: Path)
    ensures RebaseAll(x + y, a, b) == RebaseAll(x, a, b) + RebaseAll(y, a, b)
    decreases |x|
  {
    if x == [] {
      assert x + y == y;
    } else {
      assert (x + y)[0] == x[0] && (x + y)[1..] == x[1..] + y;
      RebaseAllAppend(x[1..], y, a, b);
    }
  }

  /** Moving paths from below `a` to below `a` leaves them where they are. */
  lemma {:induction false} RebaseAllSelf(s: seq<Path>, a: Path)
    requires forall p | p in s :: IsPrefixPath(a, p)
    ensures RebaseAll(s, a, a) == s
    decreases |s|
  {
    if s != [] {
      assert s[0] in s;
      assert s[0] == s[0][..|a|] + s[0][|a|..];
      assert forall p | p in s[1..] :: p in s;
      RebaseAllSelf(s[1..], a);
      assert s == [s[0]] + s[1..];
    }
  }

  /** Rebasing paths below `a + [i]` onto `b + [i]` is rebasing them from `a` onto `b`. */
  lemma {:induction false} RebaseAllChild(s: seq<Path>, a: Path, b: Path, i: nat)
    requires forall p | p in s :: IsPrefixPath(a + [i], p)
    ensures RebaseAll(s, a + [i], b + [i]) == RebaseAll(s, a, b)
    decreases |s|
  {
    if s != [] {
      var u := s[0];
      assert u in s;
      assert u[|a|] == (u[..|a| + 1])[|a|];
      assert u[|a|..] == [i] + u[|a| + 1..];
      assert Rebase(u, a + [i], b + [i]) == Rebase(u, a, b);
      assert forall p | p in s[1..] :: p in s;
      RebaseAllChild(s[1..], a, b, i);
    }
  }

  /** A list moves like a rebase when each of its paths does. */
  lemma {:induction false} ShiftAllAsRebase(s: seq<Path>, q: Path, k: nat, n: nat, a: Path, b: Path)
    requires forall p | p in s :: Shift(p, q, k, n) == Rebase(p, a, b)
    ensures ShiftAll(s, q, k, n) == RebaseAll(s, a, b)
    decreases |s|
  {
    if s != [] {
      assert s[0] in s;
      assert forall p | p in s[1..] :: p in s;
      ShiftAllAsRebase(s[1..], q, k, n, a, b);
    }
  }

  /** Paths that do not pass through child `k` or a later child of `q` do not move. */
  lemma {:induction false} ShiftAllFixed(s: seq<Path>, q: Path, k: nat, n: nat)
    requires forall p | p in s :: Shift(p, q, k, n) == p
    ensures ShiftAll(s, q, k, n) == s
    decreases |s|
  {
    if s != [] {
      assert s[0] in s;
      assert forall p | p in s[1..] :: p in s;
      ShiftAllFixed(s[1..], q, k, n);
      assert s == [s[0]] + s[1..];
    }
  }

  // ------------------------------------------------------------ where a subtree is

  /** The same subtree, found at `v1` in one tree and at `v2` in another, lists the same targets, moved. */
  lemma {:induction false} FindAllMoved(t1: Node, v1: Path, t2: Node, v2: Path, t: Target)
    requires ValidPath(t1, v1) && ValidPath(t2, v2) && At(t1, v1) == At(t2, v2)
    ensures FindAllAt(t2, v2, t) == RebaseAll(FindAllAt(t1, v1, t), v1, v2)
    decreases At(t1, v1), 1
  {
    FindChildrenMoved(t1, v1, t2, v2, t, 0);
    var head := if IsTarget(At(t1, v1), t) then [v1] else [];
    var head2 := if IsTarget(At(t2, v2), t) then [v2] else [];
    RebaseAllAppend(head, FindChildrenAt(t1, v1, t, 0), v1, v2);
    assert RebaseAll(head, v1, v2) == head2 by {
      assert v2 + v1[|v1|..] == v2;
    }
    assert FindAllAt(t1, v1, t) == head + FindChildrenAt(t1, v1, t, 0);
    assert FindAllAt(t2, v2, t) == head2 + FindChildrenAt(t2, v2, t, 0);
  }

  lemma {:induction false} FindChildrenMoved(t1: Node, v1: Path, t2: Node, v2: Path, t: Target, i: nat)
    requires ValidPath(t1, v1) && ValidPath(t2, v2) && At(t1, v1) == At(t2, v2)
    ensures FindChildrenAt(t2, v2, t, i) == RebaseAll(FindChildrenAt(t1, v1, t, i), v1, v2)
    decreases At(t1, v1), 0, if At(t1, v1).Inner? then |At(t1, v1).children| - i else 0
  {
    var m := At(t1, v1);
    if m.Inner? && i < |m.children| {
      ChildValid(t1, v1, i);
      ChildValid(t2, v2, i);
      FindAllMoved(t1, v1 + [i], t2, v2 + [i], t);
      FindChildrenMoved(t1, v1, t2, v2, t, i + 1);
      var below := FindAllAt(t1, v1 + [i], t);
      FindAllAtSound(t1, v1 + [i], t);
      RebaseAllChild(below, v1, v2, i);
      RebaseAllAppend(below, FindChildrenAt(t1, v1, t, i + 1), v1, v2);
    }
  }

  // --------------------------------------------------------- inserting children

  /** One step of the search among the children of the node at `q`. */
  lemma FindChildrenUnfold(root: Node, q: Path, t: Target, i: nat)
    requires ValidPath(root, q) && At(root, q).Inner?
    ensures i < |At(root, q).children| ==>
      ValidPath(root, q + [i]) &&
      FindChildrenAt(root, q, t, i) == FindAllAt(root, q + [i], t) + FindChildrenAt(root, q, t, i + 1)
    ensures i >= |At(root, q).children| ==> FindChildrenAt(root, q, t, i) == []
  {
    if i < |At(root, q).children| {
      ChildValid(root, q, i);
    }
  }

  /**
   * The search among children from `ir` in one tree lists the shifted search from
   * `i` in another, once the first child and the rest are known to do so.
   */
  lemma CombineStep(r: Node, vr: Path, ir: nat, ir1: nat, n: Node, vn: Path, i: nat, q: Path, k: nat, len: nat, t: Target)
    requires ValidPath(r, vr) && At(r, vr).Inner? && ir < |At(r, vr).children| && ValidPath(r, vr + [ir])
    requires ValidPath(n, vn) && At(n, vn).Inner? && i < |At(n, vn).children| && ValidPath(n, vn + [i])
    requires FindAllAt(r, vr + [ir], t) == ShiftAll(FindAllAt(n, vn + [i], t), q, k, len)
    requires ir1 == ir + 1 && FindChildrenAt(r, vr, t, ir1) == ShiftAll(FindChildrenAt(n, vn, t, i + 1), q, k, len)
    ensures FindChildrenAt(r, vr, t, ir) == ShiftAll(FindChildrenAt(n, vn, t, i), q, k, len)
  {
    FindChildrenUnfold(r, vr, t, ir);
    FindChildrenUnfold(n, vn, t, i);
    ShiftAllAppend(FindAllAt(n, vn + [i], t), FindChildrenAt(n, vn, t, i + 1), q, k, len);
  }

  /** The node children are inserted into. */
  lemma InsertedNode(n: Node, q: Path, k: nat, xs: seq<Node>)
    requires ValidPath(n, q) && At(n, q).Inner? && k <= |At(n, q).children|
    ensures var cs := At(n, q).children;
      At(InsertChildren(n, q, k, xs), q) == At(n, q).(children := cs[..k] + xs + cs[k..])
  {
  }

  /** A subtree found at the same place in both trees, away from the moved children, lists the same targets. */
  lemma SubtreeStays(n: Node, r: Node, c: Path, q: Path, k: nat, len: nat, t: Target)
    requires ValidPath(n, c) && ValidPath(r, c) && At(n, c) == At(r, c)
    requires (!IsPrefixPath(q, c) && !IsPrefixPath(c, q)) || (IsStrictPrefix(q, c) && c[|q|] < k)
    ensures FindAllAt(r, c, t) == ShiftAll(FindAllAt(n, c, t), q, k, len)
  {
    FindAllMoved(n, c, r, c, t);
    var below := FindAllAt(n, c, t);
    FindAllAtSound(n, c, t);
    RebaseAllSelf(below, c);
    forall p | p in below ensures Shift(p, q, k, len) == p {
      if IsStrictPrefix(q, p) {
        PrefixesComparable(q, c, p);
        if IsStrictPrefix(q, c) {
          assert p[|q|] == (p[..|c|])[|q|];
        }
      }
    }
    ShiftAllFixed(below, q, k, len);
  }

  /** Child `j >= k` of `q`, found `len` places on, lists its targets shifted. */
  lemma SubtreeMoves(n: Node, r: Node, q: Path, k: nat, len: nat, j: nat, t: Target)
    requires ValidPath(n, q + [j]) && ValidPath(r, q + [j + len]) && At(n, q + [j]) == At(r, q + [j + len])
    requires k <= j
    ensures FindAllAt(r, q + [j + len], t) == ShiftAll(FindAllAt(n, q + [j], t), q, k, len)
  {
    FindAllMoved(n, q + [j], r, q + [j + len], t);
    var below := FindAllAt(n, q + [j], t);
    FindAllAtSound(n, q + [j], t);
    forall p | p in below ensures Shift(p, q, k, len) == Rebase(p, q + [j], q + [j + len]) {
      ShiftIsRebase(p, q, k, len, j);
    }
    ShiftAllAsRebase(below, q, k, len, q + [j], q + [j + len]);
  }


  /** A child list with no target has no target in any of its children. */
  lemma CountOfNone(cs: seq<Node>, i: nat, t: Target)
    requires i < |cs| && CountOf(cs, t) == 0
    ensures Count(cs[i], t) == 0
  {
    assert cs == cs[..i] + [cs[i]] + cs[i + 1..];
    CountOfAppend(cs[..i] + [cs[i]], cs[i + 1..], t);
    CountOfAppend(cs[..i], [cs[i]], t);
    assert CountOf([cs[i]], t) == Count(cs[i], t) + CountOf([], t);
  }

  /** The children before the insertion point keep their targets and their paths. */
  lemma {:induction false} InsertFindBefore(n: Node, q: Path, k: nat, xs: seq<Node>, t: Target, i: nat)
    requires ValidPath(n, q) && At(n, q).Inner? && k <= |At(n, q).children| && CountOf(xs, t) == 0
    requires i <= k
    ensures ValidPath(InsertChildren(n, q, k, xs), q) && At(InsertChildren(n, q, k, xs), q).Inner?
    ensures FindChildrenAt(InsertChildren(n, q, k, xs), q, t, i) == ShiftAll(FindChildrenAt(n, q, t, i), q, k, |xs|)
    decreases k - i
  {
    var r := InsertChildren(n, q, k, xs);
    if i == k {
      InsertFindInserted(n, q, k, xs, t, k);
      InsertFindAfter(n, q, k, xs, t, k);
    } else {
      InsertFindBeforeChild(n, q, k, xs, t, i);
      InsertFindBefore(n, q, k, xs, t, i + 1);
      CombineStep(r, q, i, i + 1, n, q, i, q, k, |xs|, t);
    }
  }

  /** Child `i < k` of the insertion node stays where it is, with its targets. */
  lemma InsertFindBeforeChild(n: Node, q: Path, k: nat, xs: seq<Node>, t: Target, i: nat)
    requires ValidPath(n, q) && At(n, q).Inner? && i < k <= |At(n, q).children|
    ensures ValidPath(InsertChildren(n, q, k, xs), q) && At(InsertChildren(n, q, k, xs), q).Inner?
    ensures i < |At(InsertChildren(n, q, k, xs), q).children|
    ensures ValidPath(n, q + [i]) && ValidPath(InsertChildren(n, q, k, xs), q + [i])
    ensures FindAllAt(InsertChildren(n, q, k, xs), q + [i], t) == ShiftAll(FindAllAt(n, q + [i], t), q, k, |xs|)
  {
    var r := InsertChildren(n, q, k, xs);
    var cs := At(n, q).children;
    InsertedNode(n, q, k, xs);
    assert At(r, q).children[i] == cs[i];
    ChildValid(n, q, i);
    ChildValid(r, q, i);
    assert (q + [i])[..|q|] == q && (q + [i])[|q|] == i;
    SubtreeStays(n, r, q + [i], q, k, |xs|, t);
  }

  /** The inserted children add no targets. */
  lemma {:induction false} InsertFindInserted(n: Node, q: Path, k: nat, xs: seq<Node>, t: Target, j: nat)
    requires ValidPath(n, q) && At(n, q).Inner? && k <= |At(n, q).children| && CountOf(xs, t) == 0
    requires k <= j <= k + |xs|
    ensures ValidPath(InsertChildren(n, q, k, xs), q) && At(InsertChildren(n, q, k, xs), q).Inner?
    ensures FindChildrenAt(InsertChildren(n, q, k, xs), q, t, j) == FindChildrenAt(InsertChildren(n, q, k, xs), q, t, k + |xs|)
    decreases k + |xs| - j
  {
    if j < k + |xs| {
      InsertedChildFindsNothing(n, q, k, xs, t, j);
      InsertFindInserted(n, q, k, xs, t, j + 1);
    }
  }

  /** An inserted child adds nothing to the targets found among the children. */
  lemma InsertedChildFindsNothing(n: Node, q: Path, k: nat, xs: seq<Node>, t: Target, j: nat)
    requires ValidPath(n, q) && At(n, q).Inner? && k <= |At(n, q).children| && CountOf(xs, t) == 0
    requires k <= j < k + |xs|
    ensures ValidPath(InsertChildren(n, q, k, xs), q) && At(InsertChildren(n, q, k, xs), q).Inner?
    ensures FindChildrenAt(InsertChildren(n, q, k, xs), q, t, j) == FindChildrenAt(InsertChildren(n, q, k, xs), q, t, j + 1)
  {
    var r := InsertChildren(n, q, k, xs);
    InsertChildrenAt(n, q, k, xs, j - k);
    assert k + (j - k) == j;
    assert Parent(q + [j]) == q && Last(q + [j]) == j;
    assert j < |At(r, q).children|;
    CountOfNone(xs, j - k, t);
    FindAllAtLength(r, q + [j], t);
    assert FindAllAt(r, q + [j], t) == [];
    assert FindChildrenAt(r, q, t, j) == FindAllAt(r, q + [j], t) + FindChildrenAt(r, q, t, j + 1);
  }

  /** Child `i` of `q` in `n`, found `len` places on in `r`, lists its targets shifted. */
  predicate ChildShifted(r: Node, n: Node, q: Path, k: nat, len: nat, t: Target, i: nat) {
    ValidPath(n, q + [i]) && ValidPath(r, q + [i + len]) &&
    FindAllAt(r, q + [i + len], t) == ShiftAll(FindAllAt(n, q + [i], t), q, k, len)
  }

  /**
   * Children `j` on of `q` in `n`, each found `len` places on in `r` and listing its
   * targets shifted, make the search among the children shift the same way.
   */
  lemma {:induction false} ShiftedChildren(r: Node, n: Node, q: Path, k: nat, len: nat, t: Target, j: nat)
    requires ValidPath(r, q) && At(r, q).Inner? && ValidPath(n, q) && At(n, q).Inner?
    requires |At(r, q).children| == |At(n, q).children| + len
    requires j <= |At(n, q).children|
    requires forall i | j <= i < |At(n, q).children| :: ChildShifted(r, n, q, k, len, t, i)
    ensures FindChildrenAt(r, q, t, j + len) == ShiftAll(FindChildrenAt(n, q, t, j), q, k, len)
    decreases |At(n, q).children| - j
  {
    if j < |At(n, q).children| {
      ShiftedChildren(r, n, q, k, len, t, j + 1);
      assert ChildShifted(r, n, q, k, len, t, j);
      FindChildrenUnfold(r, q, t, j + len);
      FindChildrenUnfold(n, q, t, j);
      ShiftAllAppend(FindAllAt(n, q + [j], t), FindChildrenAt(n, q, t, j + 1), q, k, len);
    } else {
      FindChildrenUnfold(n, q, t, j);
      FindChildrenUnfold(r, q, t, j + len);
      ShiftAllNil(q, k, len);
    }
  }

  /** The children from the insertion point on keep their targets, each moved `|xs|` places on. */
  lemma InsertFindAfter(n: Node, q: Path, k: nat, xs: seq<Node>, t: Target, j: nat)
    requires ValidPath(n, q) && At(n, q).Inner? && k <= |At(n, q).children|
    requires k <= j <= |At(n, q).children|
    ensures ValidPath(InsertChildren(n, q, k, xs), q) && At(InsertChildren(n, q, k, xs), q).Inner?
    ensures FindChildrenAt(InsertChildren(n, q, k, xs), q, t, j + |xs|) == ShiftAll(FindChildrenAt(n, q, t, j), q, k, |xs|)
  {
    var r := InsertChildren(n, q, k, xs);
    InsertedNode(n, q, k, xs);
    forall i | j <= i < |At(n, q).children| ensures ChildShifted(r, n, q, k, |xs|, t, i) {
      InsertFindAfterChild(n, q, k, xs, t, i);
    }
    ShiftedChildren(r, n, q, k, |xs|, t, j);
  }

  /** Child `j >= k` of the insertion node, now `|xs|` places on, lists its old targets, shifted. */
  lemma InsertFindAfterChild(n: Node, q: Path, k: nat, xs: seq<Node>, t: Target, j: nat)
    requires ValidPath(n, q) && At(n, q).Inner? && k <= j < |At(n, q).children|
    ensures ValidPath(n, q + [j]) && ValidPath(InsertChildren(n, q, k, xs), q + [j + |xs|])
    ensures FindAllAt(InsertChildren(n, q, k, xs), q + [j + |xs|], t) == ShiftAll(FindAllAt(n, q + [j], t), q, k, |xs|)
  {
    var r := InsertChildren(n, q, k, xs);
    var cs := At(n, q).children;
    InsertedNode(n, q, k, xs);
    ChildValid(n, q, j);
    ChildValid(r, q, j + |xs|);
    assert At(r, q).children[j + |xs|] == cs[j];
    SubtreeMoves(n, r, q, k, |xs|, j, t);
  }

  /** A path through child `j >= k` of `q` moves as its part below `q + [j]` is put below `q + [j + n]`. */
  lemma ShiftIsRebase(p: Path, q: Path, k: nat, n: nat, j: nat)
    requires IsPrefixPath(q + [j], p)
    requires k <= j
    ensures Shift(p, q, k, n) == Rebase(p, q + [j], q + [j + n])
  {
    assert p[..|q| + 1] == q + [j];
    assert p[|q|] == j && p[..|q|] == q;
    assert p == q + [j] + p[|q| + 1..];
  }

  /** Above the insertion point, only the child on the way down lists different targets, and those moved. */
  lemma {:induction false} InsertFindAbove(n: Node, q: Path, k: nat, xs: seq<Node>, t: Target, v: Path, i: nat)
    requires ValidPath(n, q) && At(n, q).Inner? && k <= |At(n, q).children| && CountOf(xs, t) == 0
    requires IsStrictPrefix(v, q) && ValidPath(n, v) && At(n, v).Inner? && i <= |At(n, v).children|
    ensures ValidPath(InsertChildren(n, q, k, xs), v)
    ensures FindChildrenAt(InsertChildren(n, q, k, xs), v, t, i) == ShiftAll(FindChildrenAt(n, v, t, i), q, k, |xs|)
    decreases |q| - |v|, 0, |At(n, v).children| - i + 1
  {
    var r := InsertChildren(n, q, k, xs);
    var parent := At(n, q);
    var m := parent.(children := parent.children[..k] + xs + parent.children[k..]);
    ReplaceAtAbove(n, q, m, v);
    var cs := At(n, v).children;
    assert At(r, v).Inner? && |At(r, v).children| == |cs|;
    if i < |cs| {
      InsertFindAboveChild(n, q, k, xs, t, v, i);
      InsertFindAbove(n, q, k, xs, t, v, i + 1);
      CombineStep(r, v, i, i + 1, n, v, i, q, k, |xs|, t);
    } else {
      FindChildrenUnfold(n, v, t, i);
      FindChildrenUnfold(r, v, t, i);
      ShiftAllNil(q, k, |xs|);
    }
  }

  /** One child of a node above the insertion point lists the old targets of that child, shifted. */
  lemma {:induction false} InsertFindAboveChild(n: Node, q: Path, k: nat, xs: seq<Node>, t: Target, v: Path, i: nat)
    requires ValidPath(n, q) && At(n, q).Inner? && k <= |At(n, q).children| && CountOf(xs, t) == 0
    requires IsStrictPrefix(v, q) && ValidPath(n, v) && At(n, v).Inner? && i < |At(n, v).children|
    ensures ValidPath(n, v + [i]) && ValidPath(InsertChildren(n, q, k, xs), v + [i])
    ensures FindAllAt(InsertChildren(n, q, k, xs), v + [i], t) == ShiftAll(FindAllAt(n, v + [i], t), q, k, |xs|)
    decreases |q| - |v|, 0, 0
  {
    var r := InsertChildren(n, q, k, xs);
    var parent := At(n, q);
    var m := parent.(children := parent.children[..k] + xs + parent.children[k..]);
    ReplaceAtAbove(n, q, m, v);
    var c := q[|v|];
    var cs := At(n, v).children;
    ChildValid(n, v, i);
    ChildValid(r, v, i);
    assert q[..|v| + 1] == q[..|v|] + [c];
    if i == c {
      InsertFindAll(n, q, k, xs, t, v + [c]);
    } else {
      assert At(r, v).children[i] == cs[i];
      assert !IsPrefixPath(q, v + [i]) && !IsPrefixPath(v + [i], q) by {
        assert (v + [i])[..|v| + 1] == v + [i];
      }
      SubtreeStays(n, r, v + [i], q, k, |xs|, t);
    }
  }

  /** From any node on the way to the insertion point, the target list is the old one, shifted. */
  lemma {:induction false} InsertFindAll(n: Node, q: Path, k: nat, xs: seq<Node>, t: Target, v: Path)
    requires ValidPath(n, q) && At(n, q).Inner? && k <= |At(n, q).children| && CountOf(xs, t) == 0
    requires IsPrefixPath(v, q)
    ensures ValidPath(n, v) && ValidPath(InsertChildren(n, q, k, xs), v)
    ensures FindAllAt(InsertChildren(n, q, k, xs), v, t) == ShiftAll(FindAllAt(n, v, t), q, k, |xs|)
    decreases |q| - |v|, 1, 0
  {
    var r := InsertChildren(n, q, k, xs);
    var parent := At(n, q);
    var m := parent.(children := parent.children[..k] + xs + parent.children[k..]);
    assert r == ReplaceAt(n, q, m);
    assert q[..|v|] == v;
    PrefixValid(n, q, |v|);
    PrefixValid(r, q, |v|);
    if v == q {
      InsertFindBefore(n, q, k, xs, t, 0);
      assert At(r, v) == m;
    } else {
      ReplaceAtAbove(n, q, m, v);
      InsertFindAbove(n, q, k, xs, t, v, 0);
    }
    assert At(r, v).Inner? == At(n, v).Inner? && (At(n, v).Inner? ==> At(r, v).kind == At(n, v).kind);
    assert IsTarget(At(r, v), t) == IsTarget(At(n, v), t);
    var head := if IsTarget(At(n, v), t) then [v] else [];
    assert Shift(v, q, k, |xs|) == v;
    assert ShiftAll(head, q, k, |xs|) == head;
    ShiftAllAppend(head, FindChildrenAt(n, v, t, 0), q, k, |xs|);
    assert FindAllAt(n, v, t) == head + FindChildrenAt(n, v, t, 0);
  }

  /**
   * Inserting children that hold no target keeps the file's pre-order target
   * list: entry `r` of the new list is entry `r` of the old one, shifted.
   */
  lemma InsertKeepsTargets(n: Node, q: Path, k: nat, xs: seq<Node>, t: Target)
    requires ValidPath(n, q) && At(n, q).Inner? && k <= |At(n, q).children| && CountOf(xs, t) == 0
    ensures AllTargets(InsertChildren(n, q, k, xs), t) == ShiftAll(AllTargets(n, t), q, k, |xs|)
  {
    InsertFindAll(n, q, k, xs, t, []);
  }
}
