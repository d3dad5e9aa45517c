/**
 * String scanning shared by the SVG rewrites: the `includes` test, the
 * first-occurrence and global literal `replace`, and the subsequence
 * relation used to say that a rewrite only inserts text.
 */
module Text {
  import opened Common

  /** `s.startsWith(p)`. */
  predicate StartsWith(s: string, p: string)
  {
    |p| <= |s| && s[..|p|] == p
  }

  /** `s.includes(p)`: `p` occurs at some position of `s`. */
  predicate Contains(s: string, p: string)
    decreases |s|
  {
    StartsWith(s, p) || (|s| > 0 && Contains(s[1..], p))
  }

  /** Peeling one character off both the string and the prefix. */
  lemma StartsWithCons(s: string, p: string)
    requires |s| > 0 && |p| > 0
    ensures StartsWith(s, p) <==> s[0] == p[0] && StartsWith(s[1..], p[1..])
  {
    if s[0] == p[0] && StartsWith(s[1..], p[1..]) {
      assert s[..|p|] == [s[0]] + s[1..][..|p| - 1];
      assert p == [p[0]] + p[1..];
    }
    if StartsWith(s, p) {
      assert s[1..][..|p| - 1] == s[..|p|][1..];
    }
  }

  /**
   * An occurrence of `p` in `a + y` starts in `y` when the first character
   * of `p` does not appear in `a`.
   */
  lemma {:induction false} ContainsSkip(a: string, y: string, p: string)
    requires |p| > 0 && p[0] !in a
    requires Contains(a + y, p)
    ensures Contains(y, p)
    decreases |a|
  {
    if a == [] {
      assert a + y == y;
    } else {
      assert (a + y)[0] == a[0];
      assert (a + y)[1..] == a[1..] + y;
      ContainsSkip(a[1..], y, p);
    }
  }

  /** `p` occurs in `s` at position `i`. */
  predicate OccursAt(s: string, p: string, i: nat)
  {
    i + |p| <= |s| && s[i..i + |p|] == p
  }

  lemma StartsWithAppend(x: string, y: string, p: string)
    requires StartsWith(x, p)
    ensures StartsWith(x + y, p)
  {
    assert (x + y)[..|p|] == x[..|p|];
  }

  lemma StartsWithConcat(p: string, y: string)
    ensures StartsWith(p + y, p)
  {
    assert (p + y)[..|p|] == p;
  }

  /** An occurrence at some position is found by `Contains`. */
  lemma {:induction false} OccursAtContains(s: string, p: string, i: nat)
    requires OccursAt(s, p, i)
    ensures Contains(s, p)
    decreases i
  {
    if i == 0 {
      assert s[..|p|] == p;
    } else {
      assert s[1..][i - 1..i - 1 + |p|] == s[i..i + |p|];
      OccursAtContains(s[1..], p, i - 1);
    }
  }

  /** `Contains` finds an occurrence at some position. */
  lemma {:induction false} ContainsOccursAt(s: string, p: string) returns (i: nat)
    requires Contains(s, p)
    ensures OccursAt(s, p, i)
    decreases |s|
  {
    if StartsWith(s, p) {
      i := 0;
    } else {
      var j := ContainsOccursAt(s[1..], p);
      assert s[1..][j..j + |p|] == s[j + 1..j + 1 + |p|];
      i := j + 1;
    }
  }

  lemma {:induction false} ContainsAppendLeft(x: string, y: string, p: string)
    requires Contains(y, p)
    ensures Contains(x + y, p)
    decreases |x|
  {
    if x != [] {
      assert (x + y)[1..] == x[1..] + y;
      ContainsAppendLeft(x[1..], y, p);
    } else {
      assert x + y == y;
    }
  }

  lemma {:induction false} ContainsAppendRight(x: string, y: string, p: string)
    requires Contains(x, p)
    ensures Contains(x + y, p)
    decreases |x|
  {
    if StartsWith(x, p) {
      StartsWithAppend(x, y, p);
    } else {
      assert (x + y)[1..] == x[1..] + y;
      ContainsAppendRight(x[1..], y, p);
    }
  }

  /** One step of `Contains` on a string with a known first character. */
  lemma ContainsCons(c: char, y: string, p: string)
    ensures Contains([c] + y, p) <==> StartsWith([c] + y, p) || Contains(y, p)
  {
    assert ([c] + y)[1..] == y;
  }

  /** An occurrence past a prefix `h` is an occurrence in the rest. */
  lemma OccursInSuffix(h: string, t: string, p: string, q: nat)
    requires OccursAt(h + t, p, q) && |h| <= q
    ensures OccursAt(t, p, q - |h|)
  {
    SliceRight(h, t, q, q + |p|);
  }

  /** `s.indexOf(p)`, absent when `p` does not occur. */
  function IndexOf(s: string, p: string): (r: Option<nat>)
    ensures r.None? <==> !Contains(s, p)
    ensures r.Some? ==> OccursAt(s, p, r.value)
    decreases |s|
  {
    if StartsWith(s, p) then Some(0)
    else if |s| == 0 then None
    else match IndexOf(s[1..], p)
      case None => None
      case Some(i) => Some(i + 1)
  }

  /** `indexOf` finds the first occurrence: `p` starts nowhere before it. */
  lemma {:induction false} IndexOfFirst(s: string, p: string)
    requires IndexOf(s, p).Some?
    ensures forall j :: 0 <= j < IndexOf(s, p).value ==> !StartsWith(s[j..], p)
    decreases |s|
  {
    if !StartsWith(s, p) {
      var i := IndexOf(s, p).value;
      assert |s| > 0;
      IndexOfCons(s, p);
      IndexOfFirst(s[1..], p);
      forall j | 0 <= j < i ensures !StartsWith(s[j..], p) {
        if j > 0 {
          assert s[j..] == s[1..][j - 1..];
        }
      }
    }
  }

  /**
   * `s.replace(p, rep)` with a non-global pattern: the first occurrence of
   * `p`, if any, becomes `rep`.
   */
  function ReplaceFirst(s: string, p: string, rep: string): (r: string)
    requires |p| > 0
    ensures !Contains(s, p) ==> r == s
    decreases |s|
  {
    if StartsWith(s, p) then rep + s[|p|..]
    else if |s| == 0 then s
    else
      assert s == [s[0]] + s[1..];
      [s[0]] + ReplaceFirst(s[1..], p, rep)
  }

  /** The replaced occurrence is the one `indexOf` finds. */
  lemma {:induction false} ReplaceFirstAt(s: string, p: string, rep: string)
    requires |p| > 0 && IndexOf(s, p).Some?
    ensures var i := IndexOf(s, p).value;
      ReplaceFirst(s, p, rep) == s[..i] + rep + s[i + |p|..]
    decreases |s|
  {
    var i := IndexOf(s, p).value;
    if StartsWith(s, p) {
      ReplaceFirstHead(s, p, rep);
    } else {
      assert |s| > 0;
      IndexOfCons(s, p);
      ReplaceFirstAt(s[1..], p, rep);
      ReplaceFirstLift(s, p, rep, i);
    }
  }

  /** An occurrence at the front is the one replaced. */
  lemma ReplaceFirstHead(s: string, p: string, rep: string)
    requires |p| > 0 && StartsWith(s, p)
    ensures IndexOf(s, p) == Some(0)
    ensures ReplaceFirst(s, p, rep) == s[..0] + rep + s[0 + |p|..]
  {
    assert s[..0] + rep == rep;
  }

  /** A replacement at `i - 1` in the rest is one at `i` in the whole. */
  lemma ReplaceFirstLift(s: string, p: string, rep: string, i: nat)
    requires |p| > 0 && |s| > 0 && !StartsWith(s, p) && 0 < i && i + |p| <= |s|
    requires ReplaceFirst(s[1..], p, rep) == s[1..][..i - 1] + rep + s[1..][i - 1 + |p|..]
    ensures ReplaceFirst(s, p, rep) == s[..i] + rep + s[i + |p|..]
  {
    assert ReplaceFirst(s, p, rep) == [s[0]] + ReplaceFirst(s[1..], p, rep);
    SpliceCons(s, i, |p|, rep);
  }

  /** Splicing into the tail and putting the head back is splicing one further right. */
  lemma SpliceCons(s: string, i: nat, m: nat, rep: string)
    requires 0 < i && i + m <= |s|
    ensures [s[0]] + (s[1..][..i - 1] + rep + s[1..][i - 1 + m..]) == s[..i] + rep + s[i + m..]
  {
    var t := s[1..];
    assert t[i - 1 + m..] == s[i + m..];
    assert [s[0]] + t[..i - 1] == s[..i];
  }

  /** Past a non-matching first character, `indexOf` moves one to the right. */
  lemma IndexOfCons(s: string, p: string)
    requires |s| > 0 && !StartsWith(s, p)
    ensures IndexOf(s, p).Some? ==> IndexOf(s, p).value > 0 && IndexOf(s[1..], p) == Some(IndexOf(s, p).value - 1)
  {
  }

  /** `a` is obtained from `b` by deleting characters. */
  predicate IsSubsequence(a: string, b: string)
    decreases |b|
  {
    if a == [] then true
    else if b == [] then false
    else (a[0] == b[0] && IsSubsequence(a[1..], b[1..])) || IsSubsequence(a, b[1..])
  }

  lemma {:induction false} SubsequenceRefl(a: string)
    ensures IsSubsequence(a, a)
    decreases |a|
  {
    if a != [] {
      SubsequenceRefl(a[1..]);
    }
  }

  /** Prepending to the larger string keeps a subsequence. */
  lemma {:induction false} SubsequencePrepend(a: string, u: string, b: string)
    requires IsSubsequence(a, b)
    ensures IsSubsequence(a, u + b)
    decreases |u|
  {
    if u != [] {
      assert (u + b)[1..] == u[1..] + b;
      SubsequencePrepend(a, u[1..], b);
      if a != [] {
        assert IsSubsequence(a, (u + b)[1..]);
      }
    } else {
      assert u + b == b;
    }
  }

  /** A common prefix can be added to both sides. */
  lemma {:induction false} SubsequenceCommonPrefix(p: string, a: string, b: string)
    requires IsSubsequence(a, b)
    ensures IsSubsequence(p + a, p + b)
    decreases |p|
  {
    if p != [] {
      SubsequenceCommonPrefix(p[1..], a, b);
      assert (p + a)[1..] == p[1..] + a;
      assert (p + b)[1..] == p[1..] + b;
    } else {
      assert p + a == a && p + b == b;
    }
  }

  /** Inserting `u` after a common prefix `h` keeps a subsequence. */
  lemma SubsequenceInsertAfter(h: string, u: string, t: string, t': string)
    requires IsSubsequence(t, t')
    ensures IsSubsequence(h + t, h + u + t')
  {
    SubsequencePrepend(t, u, t');
    SubsequenceCommonPrefix(h, t, u + t');
    assert h + (u + t') == h + u + t';
  }

  /** Inserting `u` at position `k` keeps the original as a subsequence. */
  lemma InsertionSubsequence(x: string, k: nat, u: string)
    requires k <= |x|
    ensures IsSubsequence(x, x[..k] + u + x[k..])
  {
    SubsequenceRefl(x[k..]);
    SubsequencePrepend(x[k..], u, x[k..]);
    SubsequenceCommonPrefix(x[..k], x[k..], u + x[k..]);
    assert x[..k] + x[k..] == x;
    assert x[..k] + (u + x[k..]) == x[..k] + u + x[k..];
  }

  /** A slice lying inside the left operand of a concatenation. */
  lemma SliceLeft(a: string, b: string, i: nat, j: nat)
    requires i <= j <= |a|
    ensures (a + b)[i..j] == a[i..j]
  {
  }

  /** A slice lying inside the right operand of a concatenation. */
  lemma SliceRight(a: string, b: string, i: nat, j: nat)
    requires |a| <= i <= j <= |a| + |b|
    ensures (a + b)[i..j] == b[i - |a|..j - |a|]
  {
  }

  /**
   * Inserting `u` at position `k` keeps every occurrence of `p` that does not
   * straddle position `k`.
   */
  lemma InsertKeepsContains(x: string, k: nat, u: string, p: string)
    requires k <= |x| && Contains(x, p)
    requires forall q: nat :: q < k < q + |p| ==> !OccursAt(x, p, q)
    ensures Contains(x[..k] + u + x[k..], p)
  {
    var q := ContainsOccursAt(x, p);
    assert !(q < k < q + |p|);
    InsertKeepsOccurrence(x, k, u, p, q);
  }

  /** An occurrence that the insertion point does not cut survives the insertion. */
  lemma InsertKeepsOccurrence(x: string, k: nat, u: string, p: string, q: nat)
    requires k <= |x| && OccursAt(x, p, q) && (q + |p| <= k || k <= q)
    ensures Contains(x[..k] + u + x[k..], p)
  {
    if q + |p| <= k {
      OccurrenceBeforeInsert(x, k, u, p, q);
      OccursAtContains(x[..k] + u + x[k..], p, q);
    } else {
      OccurrenceAfterInsert(x, k, u, p, q);
      OccursAtContains(x[..k] + u + x[k..], p, q + |u|);
    }
  }

  /** An occurrence ending by `k` stays where it is. */
  lemma OccurrenceBeforeInsert(x: string, k: nat, u: string, p: string, q: nat)
    requires k <= |x| && OccursAt(x, p, q) && q + |p| <= k
    ensures OccursAt(x[..k] + u + x[k..], p, q)
  {
    var a, b := x[..k], x[k..];
    SliceLeft(a, u + b, q, q + |p|);
    assert a + (u + b) == a + u + b;
    assert a[q..q + |p|] == x[q..q + |p|];
  }

  /** An occurrence starting at or after `k` moves right by `|u|`. */
  lemma OccurrenceAfterInsert(x: string, k: nat, u: string, p: string, q: nat)
    requires k <= |x| && OccursAt(x, p, q) && k <= q
    ensures OccursAt(x[..k] + u + x[k..], p, q + |u|)
  {
    var a, b := x[..k], x[k..];
    SliceRight(a + u, b, q + |u|, q + |u| + |p|);
    assert b[q - k..q - k + |p|] == x[q..q + |p|];
  }


  /**
   * An occurrence in `x[..k] + u + x[k..]` lying wholly before or wholly
   * after the inserted `u` is an occurrence in `x`.
   */
  lemma InsertedOccurrence(x: string, k: nat, u: string, p: string, q: nat)
    requires k <= |x| && OccursAt(x[..k] + u + x[k..], p, q)
    ensures q + |p| <= k ==> OccursAt(x, p, q)
    ensures k + |u| <= q ==> OccursAt(x, p, q - |u|)
  {
    var a, b := x[..k], x[k..];
    if q + |p| <= k {
      SliceLeft(a, u + b, q, q + |p|);
      assert a + (u + b) == a + u + b;
      assert a[q..q + |p|] == x[q..q + |p|];
    } else if k + |u| <= q {
      var m: nat := q - |u|;
      SliceRight(a + u, b, q, q + |p|);
      assert (a + u + b)[q..q + |p|] == b[m - k..m - k + |p|];
      SuffixSlice(x, k, m, m + |p|);
    }
  }

  /** A slice of a suffix is a slice of the whole. */
  lemma SuffixSlice(x: string, k: nat, i: nat, j: nat)
    requires k <= i <= j <= |x|
    ensures x[k..][i - k..j - k] == x[i..j]
  {
  }

  lemma {:induction false} SubsequenceTransitive(a: string, b: string, c: string)
    requires IsSubsequence(a, b) && IsSubsequence(b, c)
    ensures IsSubsequence(a, c)
    decreases |c|
  {
    if a != [] {
      assert b != [] && c != [];
      if b[0] == c[0] && IsSubsequence(b[1..], c[1..]) {
        if a[0] == b[0] && IsSubsequence(a[1..], b[1..]) {
          SubsequenceTransitive(a[1..], b[1..], c[1..]);
        } else {
          SubsequenceTransitive(a, b[1..], c[1..]);
        }
      } else {
        SubsequenceTransitive(a, b, c[1..]);
      }
    }
  }
  /** Subsequences of two parts give a subsequence of the concatenation. */
  lemma {:induction false} SubsequenceConcat(a: string, b: string, c: string, d: string)
    requires IsSubsequence(a, b) && IsSubsequence(c, d)
    ensures IsSubsequence(a + c, b + d)
    decreases |b|
  {
    if a == [] {
      SubsequencePrepend(c, b, d);
      assert a + c == c;
    } else if a[0] == b[0] && IsSubsequence(a[1..], b[1..]) {
      SubsequenceConcat(a[1..], b[1..], c, d);
      assert (a + c)[1..] == a[1..] + c;
      assert (b + d)[1..] == b[1..] + d;
    } else {
      SubsequenceConcat(a, b[1..], c, d);
      assert (b + d)[1..] == b[1..] + d;
    }
  }

  /** `s.replace(/p/g, rep)` for a literal `p`: every occurrence, left to right. */
  function ReplaceAll(s: string, p: string, rep: string): (r: string)
    requires |p| > 0
    ensures !Contains(s, p) ==> r == s
    decreases |s|
  {
    if StartsWith(s, p) then rep + ReplaceAll(s[|p|..], p, rep)
    else if |s| == 0 then s
    else [s[0]] + ReplaceAll(s[1..], p, rep)
  }

  /** Putting text after every occurrence only inserts. */
  lemma {:induction false} ReplaceAllInserts(s: string, p: string, u: string)
    requires |p| > 0
    ensures IsSubsequence(s, ReplaceAll(s, p, p + u))
    decreases |s|
  {
    if StartsWith(s, p) {
      var t := s[|p|..];
      ReplaceAllInserts(t, p, u);
      SubsequenceInsertAfter(p, u, t, ReplaceAll(t, p, p + u));
      assert s == p + t;
    } else if |s| > 0 {
      var t := s[1..];
      ReplaceAllInserts(t, p, u);
      SubsequenceCommonPrefix([s[0]], t, ReplaceAll(t, p, p + u));
      assert s == [s[0]] + t;
    } else {
      SubsequenceRefl(s);
    }
  }

  /**
   * Putting text after every occurrence keeps the front of the text: the
   * result is the text, or both begin with the same `|p|` characters.
   */
  lemma {:induction false} ReplaceAllKeepsFront(s: string, p: string, u: string)
    requires |p| > 0
    ensures var r := ReplaceAll(s, p, p + u);
      r == s || (|p| <= |s| && |p| <= |r| && r[..|p|] == s[..|p|])
    decreases |s|
  {
    var r := ReplaceAll(s, p, p + u);
    if StartsWith(s, p) {
      assert r[..|p|] == (p + u + ReplaceAll(s[|p|..], p, p + u))[..|p|] == p;
    } else if |s| > 0 {
      var t := ReplaceAll(s[1..], p, p + u);
      ReplaceAllKeepsFront(s[1..], p, u);
      if t == s[1..] {
        assert s == [s[0]] + s[1..];
      } else {
        assert r[..|p|] == [s[0]] + t[..|p| - 1];
        assert s[..|p|] == [s[0]] + s[1..][..|p| - 1];
      }
    }
  }

  /** The pattern's first character recurs neither later in it nor in `u`. */
  predicate FreshStart(p: string, u: string)
  {
    |p| > 0 && p[0] !in p[1..] && p[0] !in u
  }

  /** Every occurrence of `p` in `r` is followed by `u`. */
  ghost predicate AllFollowed(r: string, p: string, u: string)
  {
    forall i: nat :: OccursAt(r, p, i) ==> OccursAt(r, p + u, i)
  }

  /**
   * After `s.replace(/p/g, p + u)` every occurrence of `p` is followed by
   * `u`, when the first character of `p` cannot start an occurrence inside
   * `p` or `u`.
   */
  lemma {:induction false} ReplaceAllFollowed(s: string, p: string, u: string)
    requires FreshStart(p, u)
    ensures AllFollowed(ReplaceAll(s, p, p + u), p, u)
    decreases |s|
  {
    var r := ReplaceAll(s, p, p + u);
    if StartsWith(s, p) {
      var t := ReplaceAll(s[|p|..], p, p + u);
      ReplaceAllFollowed(s[|p|..], p, u);
      assert r == p + u + t;
      forall i: nat | OccursAt(r, p, i)
        ensures OccursAt(r, p + u, i)
      {
        FollowedAfterInsert(p, u, t, i);
      }
    } else if |s| > 0 {
      var t := ReplaceAll(s[1..], p, p + u);
      ReplaceAllFollowed(s[1..], p, u);
      ReplaceAllKeepsFront(s[1..], p, u);
      NoNewFront(s, p, t);
      assert r == [s[0]] + t;
      forall i: nat | OccursAt(r, p, i)
        ensures OccursAt(r, p + u, i)
      {
        FollowedAfterChar(s[0], t, p, u, i);
      }
    }
  }

  /** In `[c] + t`, past a first position that does not start `p`. */
  lemma FollowedAfterChar(c: char, t: string, p: string, u: string, i: nat)
    requires |p| > 0 && AllFollowed(t, p, u)
    requires !StartsWith([c] + t, p) && OccursAt([c] + t, p, i)
    ensures OccursAt([c] + t, p + u, i)
  {
    var r := [c] + t;
    if i == 0 {
      assert false;
    }
    assert r[i..i + |p|] == t[i - 1..i - 1 + |p|];
    assert OccursAt(t, p, i - 1);
    assert r[i..i + |p| + |u|] == t[i - 1..i - 1 + |p| + |u|];
  }

  /** In `p + u + t`, an occurrence of `p` is the leading one or lies in `t`. */
  lemma FollowedAfterInsert(p: string, u: string, t: string, i: nat)
    requires FreshStart(p, u) && AllFollowed(t, p, u)
    requires OccursAt(p + u + t, p, i)
    ensures OccursAt(p + u + t, p + u, i)
  {
    var r := p + u + t;
    var n := |p| + |u|;
    assert r[..n] == p + u;
    if 0 < i < n {
      assert false;
    } else if n <= i {
      assert r[i..i + |p|] == t[i - n..i - n + |p|];
      assert OccursAt(t, p, i - n);
      assert r[i..i + |p| + |u|] == t[i - n..i - n + |p| + |u|];
    }
  }

  /** A text not starting with `p` does not start with it after a tail rewrite that keeps fronts. */
  lemma NoNewFront(s: string, p: string, t: string)
    requires |p| > 0 && |s| > 0 && !StartsWith(s, p)
    requires t == s[1..] || (|p| <= |s[1..]| && |p| <= |t| && t[..|p|] == s[1..][..|p|])
    ensures !StartsWith([s[0]] + t, p)
  {
  }
}
