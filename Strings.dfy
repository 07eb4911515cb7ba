/**
 * The string operations the plugin relies on: Kotlin's `String.contains`
 * and `joinToString`, over Dafny strings (sequences of characters).
 */
module Strings {

  /** `t` is a prefix of `s`. */
  predicate IsPrefix(t: string, s: string) {
    |t| <= |s| && s[..|t|] == t
  }

  /** Kotlin's `s.contains(t)`: `t` occurs somewhere in `s`; the empty string occurs everywhere. */
  predicate Contains(s: string, t: string)
    decreases |s|
  {
    IsPrefix(t, s) || (|s| > 0 && Contains(s[1..], t))
  }

  /** The first position at which `t` occurs in `s`. */
  function IndexOf(s: string, t: string): (i: nat)
    requires Contains(s, t)
    ensures i + |t| <= |s| && s[i..i + |t|] == t
    decreases |s|
  {
    if IsPrefix(t, s) then 0
    else
      var k := IndexOf(s[1..], t);
      assert s[1..][k..k + |t|] == s[k + 1..k + 1 + |t|];
      k + 1
  }

  /** An occurrence at a known position is an occurrence. */
  lemma {:induction false} ContainsAt(s: string, t: string, i: nat)
    requires i + |t| <= |s| && s[i..i + |t|] == t
    ensures Contains(s, t)
    decreases i
  {
    if i == 0 {
      assert s[..|t|] == t;
    } else {
      assert s[1..][i - 1..i - 1 + |t|] == s[i..i + |t|];
      ContainsAt(s[1..], t, i - 1);
    }
  }

  /** A string contains every infix written into it. */
  lemma ContainsInfix(a: string, t: string, b: string)
    ensures Contains(a + t + b, t)
  {
    assert (a + t + b)[|a|..|a| + |t|] == t;
    ContainsAt(a + t + b, t, |a|);
  }

  /** Containment is transitive: an occurrence of an occurrence is an occurrence. */
  lemma {:induction false} ContainsTransitive(s: string, u: string, t: string)
    requires Contains(s, u) && Contains(u, t)
    ensures Contains(s, t)
    decreases |s|
  {
    if IsPrefix(u, s) {
      var j := IndexOf(u, t);
      assert j + |t| <= |s| && s[j..j + |t|] == t by {
        SliceOfSlice(s, 0, |u|, j, |t|);
        assert s[0..|u|] == u;
      }
      ContainsAt(s, t, j);
    } else {
      ContainsTransitive(s[1..], u, t);
    }
  }

  /** A slice of a slice is a slice. */
  lemma SliceOfSlice(s: string, i: nat, n: nat, j: nat, m: nat)
    requires i + n <= |s| && j + m <= n
    ensures s[i..i + n][j..j + m] == s[i + j..i + j + m]
  {
    var inner, outer := s[i..i + n][j..j + m], s[i + j..i + j + m];
    forall k | 0 <= k < m ensures inner[k] == outer[k] {
      assert inner[k] == s[i..i + n][j + k] == s[i + j + k];
    }
  }

  /** Putting text on either side of a string keeps what it contains. */
  lemma ContainsExtend(a: string, s: string, b: string, t: string)
    requires Contains(s, t)
    ensures Contains(a + s + b, t)
  {
    ContainsInfix(a, s, b);
    ContainsTransitive(a + s + b, s, t);
  }

  /** Kotlin's `xs.joinToString(sep)`. */
  function Join(sep: string, xs: seq<string>): string
    decreases |xs|
  {
    if |xs| == 0 then ""
    else if |xs| == 1 then xs[0]
    else xs[0] + sep + Join(sep, xs[1..])
  }

  /** The joined string holds every element. */
  lemma {:induction false} JoinContainsElements(sep: string, xs: seq<string>, k: nat)
    requires k < |xs|
    ensures Contains(Join(sep, xs), xs[k])
    decreases |xs|
  {
    if |xs| == 1 {
      ContainsInfix("", xs[0], "");
      assert "" + xs[0] + "" == xs[0];
    } else if k == 0 {
      ContainsInfix("", xs[0], sep + Join(sep, xs[1..]));
      assert "" + xs[0] + (sep + Join(sep, xs[1..])) == Join(sep, xs);
    } else {
      JoinContainsElements(sep, xs[1..], k - 1);
      ContainsExtend(xs[0] + sep, Join(sep, xs[1..]), "", xs[k]);
      assert xs[0] + sep + Join(sep, xs[1..]) + "" == Join(sep, xs);
    }
  }

  /** `a` is `b` with some characters left out. */
  predicate IsSubsequence(a: string, b: string)
    decreases |b|
  {
    |a| == 0 || (|b| > 0 && ((a[0] == b[0] && IsSubsequence(a[1..], b[1..])) || IsSubsequence(a, b[1..])))
  }

  lemma {:induction false} SubsequenceRefl(a: string)
    ensures IsSubsequence(a, a)
    decreases |a|
  {
    if |a| > 0 {
      SubsequenceRefl(a[1..]);
    }
  }

  lemma {:induction false} SubsequenceTrans(a: string, b: string, c: string)
    requires IsSubsequence(a, b) && IsSubsequence(b, c)
    ensures IsSubsequence(a, c)
    decreases |c|
  {
    if |a| > 0 {
      if IsSubsequence(b, c[1..]) {
        SubsequenceTrans(a, b, c[1..]);
      } else if a[0] == b[0] && IsSubsequence(a[1..], b[1..]) {
        SubsequenceTrans(a[1..], b[1..], c[1..]);
      } else {
        SubsequenceTrans(a, b[1..], c[1..]);
      }
    }
  }

  /** Characters in front may be left out. */
  lemma {:induction false} SubsequencePrepend(a: string, x: string, b: string)
    requires IsSubsequence(a, b)
    ensures IsSubsequence(a, x + b)
    decreases |x|
  {
    if |x| > 0 {
      SubsequencePrepend(a, x[1..], b);
      assert (x + b)[1..] == x[1..] + b;
    } else {
      assert x + b == b;
    }
  }

  lemma {:induction false} SubsequenceConcat(a1: string, b1: string, a2: string, b2: string)
    requires IsSubsequence(a1, b1) && IsSubsequence(a2, b2)
    ensures IsSubsequence(a1 + a2, b1 + b2)
    decreases |b1|
  {
    if |a1| == 0 {
      assert a1 + a2 == a2;
      SubsequencePrepend(a2, b1, b2);
    } else {
      assert (b1 + b2)[1..] == b1[1..] + b2;
      assert (b1 + b2)[0] == b1[0];
      if a1[0] == b1[0] && IsSubsequence(a1[1..], b1[1..]) {
        SubsequenceConcat(a1[1..], b1[1..], a2, b2);
        assert (a1 + a2)[1..] == a1[1..] + a2;
      } else {
        SubsequenceConcat(a1, b1[1..], a2, b2);
      }
    }
  }

  /** Inserting text anywhere keeps the old text as a subsequence. */
  lemma SubsequenceInsert(x: string, y: string, ins: string)
    ensures IsSubsequence(x + y, x + ins + y)
  {
    SubsequenceRefl(x);
    SubsequenceRefl(y);
    SubsequencePrepend(y, ins, y);
    SubsequenceConcat(x, x, y, ins + y);
    assert x + (ins + y) == x + ins + y;
  }

  /** A subsequence is never longer than the sequence it is taken from. */
  lemma {:induction false} SubsequenceLength(a: string, b: string)
    requires IsSubsequence(a, b)
    ensures |a| <= |b|
    decreases |b|
  {
    if |a| > 0 {
      if a[0] == b[0] && IsSubsequence(a[1..], b[1..]) {
        SubsequenceLength(a[1..], b[1..]);
      } else {
        SubsequenceLength(a, b[1..]);
      }
    }
  }

  /** Inserting two pieces at one place keeps the old text as a subsequence. */
  lemma SubsequenceInsertTwo(a: string, b: string, x: string, y: string, c: string)
    ensures IsSubsequence(a + b + c, a + b + x + y + c)
  {
    SubsequenceInsert(a + b, c, x + y);
    assert a + b + (x + y) + c == a + b + x + y + c;
  }

  /** Inserting a piece between the second and the third of four keeps the old text as a subsequence. */
  lemma SubsequenceInsertMid(a: string, b: string, x: string, c: string, d: string)
    ensures IsSubsequence(a + b + c + d, a + b + x + c + d)
  {
    SubsequenceInsert(a + b, c + d, x);
    assert a + b + (c + d) == a + b + c + d;
    assert a + b + x + (c + d) == a + b + x + c + d;
  }

  /** Putting `m` between `a + b` and `c + d` splits the old string at the end of `b`. */
  lemma SpliceAt(a: string, b: string, m: string, c: string, d: string)
    ensures var t := a + b + c + d; var j := |a + b|;
      j <= |t| && a + b + m + c + d == t[..j] + m + t[j..]
  {
    var t := a + b + c + d;
    var j := |a + b|;
    assert t == (a + b) + (c + d);
    assert t[..j] == a + b && t[j..] == c + d;
  }

  /** Regrouping a five-part concatenation around its middle pair. */
  lemma RegroupPair(a: string, b: string, c: string, d: string, e: string)
    ensures a + b + (c + d) + e == a + b + c + d + e
  {
  }

  /** Regrouping a six-part concatenation. */
  lemma Regroup(a: string, b: string, c: string, d: string, e: string, f: string)
    ensures a + (b + c) + d + e + f == (a + b) + c + d + (e + f)
  {
  }
}
