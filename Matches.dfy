/**
 * A global regular-expression `replace` over patterns of the form
 * `open[^close]*close`, the shape of every attribute and tag rewrite in the
 * application (`fill="[^"]*"`, `style="([^"]*)"`, `<path([^>]*)>`).
 *
 * `Scan` splits a text into the characters the regular expression passes
 * over and the matches it finds, leftmost first and resuming after each
 * match; `Render` glues the pieces back, turning the k-th match into the
 * replacement `f(k, body)`, where `body` is the text between the
 * delimiters (the capture group) and `k` counts the matches before it.
 */
module Matches {
  import opened Common
  import opened Text

  /** A character passed over, or a match with the text between its delimiters. */
  datatype Piece = Plain(c: char) | Match(body: string)

  /** Position of the first `c` in `s`. */
  function FirstIndex(s: string, c: char): (r: Option<nat>)
    ensures r.None? <==> c !in s
    ensures r.Some? ==> r.value < |s| && s[r.value] == c && c !in s[..r.value]
    decreases |s|
  {
    if |s| == 0 then None
    else if s[0] == c then Some(0)
    else
      assert s == [s[0]] + s[1..];
      match FirstIndex(s[1..], c)
      case None => None
      case Some(j) =>
        assert s[..j + 1] == [s[0]] + s[1..][..j];
        Some(j + 1)
  }

  /**
   * `open[^close]*close` tried at the front of `s`: the text between the
   * delimiters, which runs up to the first `close` after `open`.
   */
  function MatchFront(s: string, open: string, close: char): (r: Option<string>)
    ensures r.None? <==> !StartsWith(s, open) || close !in s[|open|..]
    ensures r.Some? ==>
      var b := r.value;
      close !in b && |open| + |b| < |s| && s[..|open| + |b| + 1] == open + b + [close]
  {
    if !StartsWith(s, open) then None
    else match FirstIndex(s[|open|..], close)
      case None => None
      case Some(j) =>
        var b := s[|open|..][..j];
        assert s[..|open| + |b| + 1] == s[..|open|] + b + [close];
        Some(b)
  }

  /** The delimiters around a body free of `close` are matched exactly. */
  lemma MatchFrontWrapped(open: string, h: string, close: char, t: string)
    requires close !in h
    ensures MatchFront(open + h + [close] + t, open, close) == Some(h)
  {
    var s := open + h + [close] + t;
    StartsWithConcat(open, h + [close] + t);
    assert s[|open|..] == h + [close] + t;
    assert s[|open|..][|h|] == close;
    var b := MatchFront(s, open, close).value;
    assert s[|open|..|open| + |b|] == b;
    assert b == s[|open|..|open| + |h|] == h;
  }

  /** The matches `s.replace(/open[^close]*close/g, …)` visits, in order. */
  function Scan(s: string, open: string, close: char): (ps: seq<Piece>)
    requires |open| > 0
    ensures forall i :: 0 <= i < |ps| && ps[i].Match? ==> close !in ps[i].body
    decreases |s|
  {
    if |s| == 0 then []
    else match MatchFront(s, open, close)
      case Some(b) => [Match(b)] + Scan(s[|open| + |b| + 1..], open, close)
      case None => [Plain(s[0])] + Scan(s[1..], open, close)
  }

  /** The replacement text, matches numbered from `k`. */
  function Render(ps: seq<Piece>, f: (nat, string) -> string, k: nat): string
    decreases |ps|
  {
    if |ps| == 0 then ""
    else match ps[0]
      case Plain(c) => [c] + Render(ps[1..], f, k)
      case Match(b) => f(k, b) + Render(ps[1..], f, k + 1)
  }

  /** A match at the front: its replacement, then the rest of the text. */
  lemma RenderScanMatch(s: string, open: string, close: char, f: (nat, string) -> string, k: nat, b: string)
    requires |open| > 0 && MatchFront(s, open, close) == Some(b)
    ensures |open| + |b| + 1 <= |s|
    ensures Render(Scan(s, open, close), f, k)
         == f(k, b) + Render(Scan(s[|open| + |b| + 1..], open, close), f, k + 1)
  {
    var ps := Scan(s, open, close);
    assert ps[1..] == Scan(s[|open| + |b| + 1..], open, close);
  }

  /** No match at the front: the first character, then the rest of the text. */
  lemma RenderScanPlain(s: string, open: string, close: char, f: (nat, string) -> string, k: nat)
    requires |open| > 0 && |s| > 0 && MatchFront(s, open, close).None?
    ensures Render(Scan(s, open, close), f, k) == [s[0]] + Render(Scan(s[1..], open, close), f, k)
  {
    var ps := Scan(s, open, close);
    assert ps[1..] == Scan(s[1..], open, close);
  }

  /** The number of matches. */
  function Count(ps: seq<Piece>): nat
    decreases |ps|
  {
    if |ps| == 0 then 0 else (if ps[0].Match? then 1 else 0) + Count(ps[1..])
  }

  /** The bodies of the matches, in order. */
  function Bodies(ps: seq<Piece>): (r: seq<string>)
    ensures |r| == Count(ps)
    decreases |ps|
  {
    if |ps| == 0 then []
    else match ps[0]
      case Plain(_) => Bodies(ps[1..])
      case Match(b) => [b] + Bodies(ps[1..])
  }

  /** The replacement that puts every match back as it was. */
  function Original(open: string, close: char): (nat, string) -> string
  {
    (k: nat, b: string) => open + b + [close]
  }

  /** `s.replace(/open([^close]*)close/g, f)`. */
  function ReplaceMatches(s: string, open: string, close: char, f: (nat, string) -> string): (r: string)
    requires |open| > 0
    ensures Count(Scan(s, open, close)) == 0 ==> r == s
  {
    var ps := Scan(s, open, close);
    if Count(ps) == 0 then
      RenderNoMatch(ps, f, Original(open, close), 0);
      ScanRender(s, open, close, 0);
      Render(ps, f, 0)
    else Render(ps, f, 0)
  }

  /** Scanning loses nothing: putting every match back gives the text. */
  lemma {:induction false} ScanRender(s: string, open: string, close: char, k: nat)
    requires |open| > 0
    ensures Render(Scan(s, open, close), Original(open, close), k) == s
    decreases |s|
  {
    if |s| > 0 {
      match MatchFront(s, open, close)
      case Some(b) =>
        var n := |open| + |b| + 1;
        RenderScanMatch(s, open, close, Original(open, close), k, b);
        ScanRender(s[n..], open, close, k + 1);
        assert Original(open, close)(k, b) == s[..n];
        assert s == s[..n] + s[n..];
      case None =>
        RenderScanPlain(s, open, close, Original(open, close), k);
        ScanRender(s[1..], open, close, k);
        assert s == [s[0]] + s[1..];
    }
  }

  /** Without matches the replacement never applies. */
  lemma {:induction false} RenderNoMatch(ps: seq<Piece>, f: (nat, string) -> string,
                                         g: (nat, string) -> string, k: nat)
    requires Count(ps) == 0
    ensures Render(ps, f, k) == Render(ps, g, k)
    decreases |ps|
  {
    if |ps| > 0 {
      RenderNoMatch(ps[1..], f, g, k);
    }
  }

  /** No match is found when no `close` follows the end of `open`. */
  lemma {:induction false} NoMatchWithoutClose(s: string, open: string, close: char)
    requires |open| > 0
    requires forall i :: |open| <= i < |s| ==> s[i] != close
    ensures Count(Scan(s, open, close)) == 0
    decreases |s|
  {
    if |s| > 0 {
      match MatchFront(s, open, close)
      case Some(b) =>
        assert false;
      case None =>
        NoMatchWithoutClose(s[1..], open, close);
    }
  }

  /** Every replacement of a body free of `close` begins with `open`. */
  ghost predicate OpensWith(f: (nat, string) -> string, open: string, close: char)
  {
    forall k: nat, b: string :: close !in b ==> StartsWith(f(k, b), open)
  }

  /**
   * When every replacement begins with `open`, the replaced text either
   * is the text itself or agrees with it on its first `|open|` characters.
   */
  lemma {:induction false} RenderKeepsFront(s: string, open: string, close: char,
                                            f: (nat, string) -> string, k: nat)
    requires |open| > 0 && OpensWith(f, open, close)
    ensures var r := Render(Scan(s, open, close), f, k);
      r == s || (|open| <= |s| && |open| <= |r| && r[..|open|] == s[..|open|])
    decreases |s|
  {
    if |s| > 0 {
      match MatchFront(s, open, close)
      case Some(b) =>
        var t := Render(Scan(s[|open| + |b| + 1..], open, close), f, k + 1);
        FrontOfMatch(s, open, close, b, f(k, b), t);
      case None =>
        RenderKeepsFront(s[1..], open, close, f, k);
        FrontOfPlain(s, |open|, Render(Scan(s[1..], open, close), f, k));
    }
  }

  lemma FrontOfMatch(s: string, open: string, close: char, b: string, x: string, t: string)
    requires |open| + |b| < |s| && s[..|open| + |b| + 1] == open + b + [close]
    requires StartsWith(x, open)
    ensures |open| <= |s| && |open| <= |x + t| && (x + t)[..|open|] == s[..|open|]
  {
    assert (x + t)[..|open|] == x[..|open|];
    assert s[..|open|] == s[..|open| + |b| + 1][..|open|];
  }

  lemma FrontOfPlain(s: string, n: nat, t: string)
    requires |s| > 0 && n > 0
    requires t == s[1..] || (n <= |s[1..]| && n <= |t| && t[..n] == s[1..][..n])
    ensures [s[0]] + t == s || (n <= |s| && n <= |[s[0]] + t| && ([s[0]] + t)[..n] == s[..n])
  {
    if t == s[1..] {
      assert s == [s[0]] + s[1..];
    } else {
      assert ([s[0]] + t)[..n] == [s[0]] + t[..n - 1];
      assert s[..n] == [s[0]] + s[1..][..n - 1];
    }
  }

  /** The pieces with every match body `b` replaced by `h(k, b)`. */
  function MapBodies(ps: seq<Piece>, h: (nat, string) -> string, k: nat): (r: seq<Piece>)
    ensures Count(r) == Count(ps)
    decreases |ps|
  {
    if |ps| == 0 then []
    else match ps[0]
      case Plain(c) => [Plain(c)] + MapBodies(ps[1..], h, k)
      case Match(b) => [Match(h(k, b))] + MapBodies(ps[1..], h, k + 1)
  }

  /** The k-th match body becomes `h(k, b)`: the bodies of `MapBodies` one by one. */
  lemma {:induction false} MapBodiesBodies(ps: seq<Piece>, h: (nat, string) -> string, k: nat)
    ensures var bs, ms := Bodies(ps), Bodies(MapBodies(ps, h, k));
      |ms| == |bs| && forall j :: 0 <= j < |bs| ==> ms[j] == h(k + j, bs[j])
    decreases |ps|
  {
    if |ps| > 0 {
      match ps[0]
      case Plain(_) =>
        MapBodiesBodies(ps[1..], h, k);
      case Match(b) =>
        MapBodiesBodies(ps[1..], h, k + 1);
    }
  }

  /**
   * Every replacement is `open`, a new body free of `close`, and `close`,
   * for bodies free of `close`.
   */
  ghost predicate Wraps(f: (nat, string) -> string, h: (nat, string) -> string,
                        open: string, close: char)
  {
    forall k: nat, b: string :: close !in b ==>
      f(k, b) == open + h(k, b) + [close] && close !in h(k, b)
  }

  /**
   * Scanning a replaced text again finds the same matches at the same
   * places, with the new bodies, when every replacement is itself a match.
   */
  lemma {:induction false} Rescan(s: string, open: string, close: char,
                                  f: (nat, string) -> string, h: (nat, string) -> string, k: nat)
    requires |open| > 0 && Wraps(f, h, open, close)
    ensures Scan(Render(Scan(s, open, close), f, k), open, close)
         == MapBodies(Scan(s, open, close), h, k)
    decreases |s|
  {
    if |s| > 0 {
      var r := Render(Scan(s, open, close), f, k);
      match MatchFront(s, open, close)
      case Some(b) =>
        var rest := s[|open| + |b| + 1..];
        var t := Render(Scan(rest, open, close), f, k + 1);
        assert r == open + h(k, b) + [close] + t;
        MatchFrontWrapped(open, h(k, b), close, t);
        assert r[|open| + |h(k, b)| + 1..] == t;
        Rescan(rest, open, close, f, h, k + 1);
      case None =>
        var t := Render(Scan(s[1..], open, close), f, k);
        assert r == [s[0]] + t;
        Rescan(s[1..], open, close, f, h, k);
        assert MatchFront(r, open, close).None? by {
          PlainStaysPlain(s, open, close, f, h, k);
        }
        assert r[1..] == t;
    }
  }

  /** A position the scan passes over is passed over again after the replacement. */
  lemma PlainStaysPlain(s: string, open: string, close: char,
                        f: (nat, string) -> string, h: (nat, string) -> string, k: nat)
    requires |open| > 0 && Wraps(f, h, open, close)
    requires |s| > 0 && MatchFront(s, open, close).None?
    ensures MatchFront(Render(Scan(s, open, close), f, k), open, close).None?
  {
    var r := Render(Scan(s, open, close), f, k);
    var t := Render(Scan(s[1..], open, close), f, k);
    assert r == [s[0]] + t;
    if StartsWith(s, open) {
      assert forall i :: |open| <= i < |s| ==> s[i] != close by {
        forall i | |open| <= i < |s| ensures s[i] != close {
          assert s[|open|..][i - |open|] == s[i];
        }
      }
      NoMatchWithoutClose(s[1..], open, close);
      RenderNoMatch(Scan(s[1..], open, close), f, Original(open, close), k);
      ScanRender(s[1..], open, close, k);
      assert s == [s[0]] + s[1..];
    } else {
      WrapsOpens(f, h, open, close);
      RenderKeepsFront(s, open, close, f, k);
    }
  }

  /** A wrapping replacement begins with `open` wherever the scan can call it. */
  lemma WrapsOpens(f: (nat, string) -> string, h: (nat, string) -> string,
                   open: string, close: char)
    requires Wraps(f, h, open, close)
    ensures OpensWith(f, open, close)
  {
    forall k: nat, b: string | close !in b
      ensures StartsWith(f(k, b), open)
    {
      StartsWithConcat(open, h(k, b) + [close]);
      assert open + h(k, b) + [close] == open + (h(k, b) + [close]);
    }
  }
  /** The replacement that puts the same text `x` in place of every match. */
  function Constant(x: string): (nat, string) -> string
  {
    (k: nat, b: string) => x
  }

  /** Rendering the mapped bodies is rendering the composed replacement. */
  lemma {:induction false} RenderMapBodies(ps: seq<Piece>, h: (nat, string) -> string,
                                           f: (nat, string) -> string, g: (nat, string) -> string, k: nat)
    requires forall j: nat, b: string :: f(j, h(j, b)) == g(j, b)
    ensures Render(MapBodies(ps, h, k), f, k) == Render(ps, g, k)
    decreases |ps|
  {
    if |ps| > 0 {
      match ps[0]
      case Plain(_) =>
        RenderMapBodies(ps[1..], h, f, g, k);
      case Match(b) =>
        RenderMapBodies(ps[1..], h, f, g, k + 1);
    }
  }

  /**
   * When every replacement keeps a subsequence of another, the whole
   * rendering does.
   */
  lemma {:induction false} RenderSubsequence(ps: seq<Piece>, f: (nat, string) -> string,
                                             g: (nat, string) -> string, k: nat)
    requires forall j: nat, b: string :: IsSubsequence(f(j, b), g(j, b))
    ensures IsSubsequence(Render(ps, f, k), Render(ps, g, k))
    decreases |ps|
  {
    if |ps| == 0 {
      SubsequenceRefl("");
    } else {
      match ps[0]
      case Plain(c) =>
        RenderSubsequence(ps[1..], f, g, k);
        SubsequenceRefl([c]);
        SubsequenceConcat([c], [c], Render(ps[1..], f, k), Render(ps[1..], g, k));
      case Match(b) =>
        RenderSubsequence(ps[1..], f, g, k + 1);
        SubsequenceConcat(f(k, b), g(k, b), Render(ps[1..], f, k + 1), Render(ps[1..], g, k + 1));
    }
  }
}
