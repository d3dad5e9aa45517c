/**
 * `prepareSvgForDownload`: five guarded attribute insertions right after the
 * first `<svg`, then a global rewrite giving every shape tag without a
 * `fill=` before its next `>` an explicit ` fill="black"`.
 */
module SvgUtils {
  import opened Common
  import opened Text

  const SvgTag := "<svg"
  const FillKey := "fill="
  const FillBlack := " fill=\"black\""

  /**
   * The one text on which the fill rewrite destroys a root key: the `h`
   * closing `<path` is also the `h` opening `height=`.
   */
  const Hazard := "<patheight="

  // ---------------------------------------------------------------------
  // Root attributes
  // ---------------------------------------------------------------------

  /** The five root attributes, in the order the function adds them. */
  datatype RootAttribute = ViewBox | Width | Height | AspectRatio | Style
  {
    /** The substring whose absence triggers the insertion. */
    function Key(): string
    {
      match this
      case ViewBox => "viewBox"
      case Width => "width="
      case Height => "height="
      case AspectRatio => "preserveAspectRatio"
      case Style => "style="
    }

    /** What follows the key in the inserted text. */
    function Tail(): string
    {
      match this
      case ViewBox => "=\"0 0 100 100\""
      case Width => "\"100%\""
      case Height => "\"100%\""
      case AspectRatio => "=\"xMidYMid meet\""
      case Style => "\"background:white\""
    }

    /** The text inserted right after `<svg`. */
    function Inserted(): string
    {
      " " + Key() + Tail()
    }
  }

  /**
   * What the scans need of a root key: no `<`, and its first two characters
   * never line up with the `svg` of `<svg`.
   */
  predicate KeyShape(kw: string)
  {
    |kw| >= 2 && '<' !in kw && kw[0] != 'g' &&
    (kw[0] == 's' ==> kw[1] == 't') && (kw[0] == 'v' ==> kw[1] == 'i')
  }

  /** Every key has that shape, and its inserted text carries it and no `<`. */
  lemma AttributeFacts(a: RootAttribute)
    ensures KeyShape(a.Key()) && '<' !in a.Inserted()
    ensures Contains(a.Inserted(), a.Key())
  {
    PaddedCarries(a.Key(), a.Tail());
    KeyLiteral(a);
    TailLiteral(a);
    assert a.Inserted() == " " + a.Key() + a.Tail();
  }

  lemma KeyLiteral(a: RootAttribute)
    ensures KeyShape(a.Key())
  {
  }

  lemma TailLiteral(a: RootAttribute)
    ensures '<' !in a.Tail()
  {
  }

  lemma PaddedCarries(k: string, tail: string)
    ensures Contains(" " + k + tail, k)
  {
    var t := " " + k + tail;
    assert t[1..1 + |k|] == k;
    OccursAtContains(t, k, 1);
  }

  /** Inserting `u` right after an occurrence of `p` at `i`. */
  lemma InsertAfterOccurrence(s: string, p: string, u: string, i: nat)
    requires OccursAt(s, p, i)
    ensures s[..i] + (p + u) + s[i + |p|..] == s[..i + |p|] + u + s[i + |p|..]
  {
    assert s[..i + |p|] == s[..i] + p;
  }

  /**
   * One guarded step: when `key` does not occur anywhere, `attr` goes right
   * after the first `<svg`; with no `<svg` the non-global replace changes
   * nothing.
   */
  function EnsureAttribute(s: string, key: string, attr: string): (r: string)
    ensures Contains(s, key) ==> r == s
    ensures !Contains(s, SvgTag) ==> r == s
    ensures !Contains(s, key) && IndexOf(s, SvgTag).Some? ==>
      var i := IndexOf(s, SvgTag).value; r == s[..i + 4] + attr + s[i + 4..]
  {
    if Contains(s, key) then s
    else
      if IndexOf(s, SvgTag).Some? then
        InsertAfterOccurrence(s, SvgTag, attr, IndexOf(s, SvgTag).value);
        ReplaceFirstAt(s, SvgTag, SvgTag + attr);
        ReplaceFirst(s, SvgTag, SvgTag + attr)
      else ReplaceFirst(s, SvgTag, SvgTag + attr)
  }

  /** The step for one root attribute. */
  function EnsureRootAttribute(s: string, a: RootAttribute): string
  {
    EnsureAttribute(s, a.Key(), a.Inserted())
  }

  /** The five root steps in source order. */
  function AddRootAttributes(s: string): string
  {
    var s1 := EnsureRootAttribute(s, ViewBox);
    var s2 := EnsureRootAttribute(s1, Width);
    var s3 := EnsureRootAttribute(s2, Height);
    var s4 := EnsureRootAttribute(s3, AspectRatio);
    EnsureRootAttribute(s4, Style)
  }

  /** Every root key occurs in `s`. */
  predicate HasRootKeys(s: string)
  {
    forall a: RootAttribute :: Contains(s, a.Key())
  }

  /** No occurrence of `kw` straddles the end of an `<svg` at `i`. */
  lemma NoStraddleAfterSvg(x: string, i: nat, kw: string)
    requires OccursAt(x, SvgTag, i) && KeyShape(kw)
    ensures forall q: nat :: q < i + 4 < q + |kw| ==> !OccursAt(x, kw, q)
  {
    forall q: nat | q < i + 4 < q + |kw|
      ensures !OccursAt(x, kw, q)
    {
      assert x[i..i + 4] == SvgTag;
      var d: nat;
      if q <= i {
        d := i - q;
        assert x[i] == '<';
      } else if kw[0] == x[q] {
        d := 1;
        assert x[q] == 's' || x[q] == 'v';
      } else {
        d := 0;
      }
      assert d < |kw| && x[q + d] != kw[d];
    }
  }

  /** A step keeps every key already present. */
  lemma EnsureKeeps(s: string, key: string, attr: string, kw: string)
    requires KeyShape(kw) && Contains(s, kw)
    ensures Contains(EnsureAttribute(s, key, attr), kw)
  {
    if !Contains(s, key) && Contains(s, SvgTag) {
      var i := IndexOf(s, SvgTag).value;
      NoStraddleAfterSvg(s, i, kw);
      InsertKeepsContains(s, i + 4, attr, kw);
    }
  }

  /** When `<svg` is present, a step leaves both `<svg` and its key behind. */
  lemma EnsureAdds(s: string, key: string, attr: string)
    requires Contains(s, SvgTag) && Contains(attr, key)
    ensures Contains(EnsureAttribute(s, key, attr), key)
    ensures Contains(EnsureAttribute(s, key, attr), SvgTag)
  {
    var r := EnsureAttribute(s, key, attr);
    var i := IndexOf(s, SvgTag).value;
    if !Contains(s, key) {
      var head, rest := s[..i + 4], attr + s[i + 4..];
      assert r == head + rest;
      ContainsAppendRight(attr, s[i + 4..], key);
      ContainsAppendLeft(head, rest, key);
      assert head[i..i + 4] == SvgTag;
      OccursAtContains(head, SvgTag, i);
      ContainsAppendRight(head, rest, SvgTag);
    }
  }

  /** A step only inserts text. */
  lemma EnsureSubsequence(s: string, key: string, attr: string)
    ensures IsSubsequence(s, EnsureAttribute(s, key, attr))
  {
    if !Contains(s, key) && Contains(s, SvgTag) {
      InsertionSubsequence(s, IndexOf(s, SvgTag).value + 4, attr);
    } else {
      SubsequenceRefl(s);
    }
  }

  /**
   * The hazard text cannot start inside an inserted attribute, nor run from
   * the `<svg` at `i` into it.
   */
  lemma NoHazardStraddle(s: string, i: nat, u: string, q: nat)
    requires OccursAt(s, SvgTag, i) && '<' !in u
    requires q < i + 4 + |u| && i + 4 < q + |Hazard|
    ensures !OccursAt(s[..i + 4] + u + s[i + 4..], Hazard, q)
  {
    var y := s[..i + 4] + u + s[i + 4..];
    assert s[i..i + 4] == SvgTag;
    var d: nat;
    if i + 4 <= q {
      d := 0;
      assert y[q] == u[q - i - 4];
    } else if q < i {
      d := i - q;
      assert y[i] == s[i] == '<';
    } else if q == i {
      d := 1;
      assert y[i + 1] == s[i + 1] == 's';
    } else {
      d := 0;
      assert y[q] == s[q];
    }
    assert d < |Hazard| && y[q + d] != Hazard[d];
  }

  /** A step inserting text without `<` cannot create the hazard text. */
  lemma EnsureNoHazard(s: string, key: string, attr: string)
    requires '<' !in attr && !Contains(s, Hazard)
    ensures !Contains(EnsureAttribute(s, key, attr), Hazard)
  {
    if !Contains(s, key) && Contains(s, SvgTag) {
      var i := IndexOf(s, SvgTag).value;
      var y := s[..i + 4] + attr + s[i + 4..];
      if Contains(y, Hazard) {
        var q := ContainsOccursAt(y, Hazard);
        InsertedOccurrence(s, i + 4, attr, Hazard, q);
        if q + |Hazard| <= i + 4 {
          OccursAtContains(s, Hazard, q);
        } else if i + 4 + |attr| <= q {
          OccursAtContains(s, Hazard, q - |attr|);
        } else {
          NoHazardStraddle(s, i, attr, q);
          assert false;
        }
      }
    }
  }

  /** One root step on a string holding `<svg` and the keys of `done`. */
  lemma StepKeepsKeys(s: string, a: RootAttribute, done: set<RootAttribute>)
    requires Contains(s, SvgTag) && forall b :: b in done ==> Contains(s, b.Key())
    ensures Contains(EnsureRootAttribute(s, a), SvgTag)
    ensures forall b :: b in done + {a} ==> Contains(EnsureRootAttribute(s, a), b.Key())
  {
    AttributeFacts(a);
    EnsureAdds(s, a.Key(), a.Inserted());
    forall b | b in done
      ensures Contains(EnsureRootAttribute(s, a), b.Key())
    {
      AttributeFacts(b);
      EnsureKeeps(s, a.Key(), a.Inserted(), b.Key());
    }
  }

  /** Without `<svg` the five root steps are no-ops. */
  lemma AddRootWithoutSvg(s: string)
    requires !Contains(s, SvgTag)
    ensures AddRootAttributes(s) == s
  {
  }

  /** With `<svg`, all five keys (and `<svg`) are present afterwards. */
  lemma AddRootHasKeys(s: string)
    requires Contains(s, SvgTag)
    ensures Contains(AddRootAttributes(s), SvgTag) && HasRootKeys(AddRootAttributes(s))
  {
    var s1 := EnsureRootAttribute(s, ViewBox);
    var s2 := EnsureRootAttribute(s1, Width);
    var s3 := EnsureRootAttribute(s2, Height);
    var s4 := EnsureRootAttribute(s3, AspectRatio);
    StepKeepsKeys(s, ViewBox, {});
    StepKeepsKeys(s1, Width, {ViewBox});
    StepKeepsKeys(s2, Height, {ViewBox, Width});
    StepKeepsKeys(s3, AspectRatio, {ViewBox, Width, Height});
    StepKeepsKeys(s4, Style, {ViewBox, Width, Height, AspectRatio});
    var r := AddRootAttributes(s);
    assert Contains(r, ViewBox.Key()) && Contains(r, Width.Key()) && Contains(r, Height.Key());
    assert Contains(r, AspectRatio.Key()) && Contains(r, Style.Key());
    forall a: RootAttribute
      ensures Contains(r, a.Key())
    {
      match a
      case ViewBox =>
      case Width =>
      case Height =>
      case AspectRatio =>
      case Style =>
    }
  }

  /** When all five keys are present the root steps change nothing. */
  lemma AddRootComplete(s: string)
    requires HasRootKeys(s)
    ensures AddRootAttributes(s) == s
  {
    assert Contains(s, ViewBox.Key()) && Contains(s, Width.Key()) && Contains(s, Height.Key());
    assert Contains(s, AspectRatio.Key()) && Contains(s, Style.Key());
  }

  /** The root steps only insert text. */
  lemma AddRootSubsequence(s: string)
    ensures IsSubsequence(s, AddRootAttributes(s))
  {
    var s1 := EnsureRootAttribute(s, ViewBox);
    var s2 := EnsureRootAttribute(s1, Width);
    var s3 := EnsureRootAttribute(s2, Height);
    var s4 := EnsureRootAttribute(s3, AspectRatio);
    EnsureSubsequence(s, ViewBox.Key(), ViewBox.Inserted());
    EnsureSubsequence(s1, Width.Key(), Width.Inserted());
    EnsureSubsequence(s2, Height.Key(), Height.Inserted());
    EnsureSubsequence(s3, AspectRatio.Key(), AspectRatio.Inserted());
    EnsureSubsequence(s4, Style.Key(), Style.Inserted());
    SubsequenceTransitive(s, s1, s2);
    SubsequenceTransitive(s, s2, s3);
    SubsequenceTransitive(s, s3, s4);
    SubsequenceTransitive(s, s4, AddRootAttributes(s));
  }

  /** The root steps do not create the hazard text. */
  lemma AddRootNoHazard(s: string)
    requires !Contains(s, Hazard)
    ensures !Contains(AddRootAttributes(s), Hazard)
  {
    var s1 := EnsureRootAttribute(s, ViewBox);
    var s2 := EnsureRootAttribute(s1, Width);
    var s3 := EnsureRootAttribute(s2, Height);
    var s4 := EnsureRootAttribute(s3, AspectRatio);
    AttributeFacts(ViewBox);
    AttributeFacts(Width);
    AttributeFacts(Height);
    AttributeFacts(AspectRatio);
    AttributeFacts(Style);
    EnsureNoHazard(s, ViewBox.Key(), ViewBox.Inserted());
    EnsureNoHazard(s1, Width.Key(), Width.Inserted());
    EnsureNoHazard(s2, Height.Key(), Height.Inserted());
    EnsureNoHazard(s3, AspectRatio.Key(), AspectRatio.Inserted());
    EnsureNoHazard(s4, Style.Key(), Style.Inserted());
  }

  // ---------------------------------------------------------------------
  // Shape fills
  // ---------------------------------------------------------------------

  /** The alternation `rect|circle|ellipse|polygon|path` of the fill regex. */
  datatype Shape = Rect | Circle | Ellipse | Polygon | Path
  {
    function Name(): string
    {
      match this
      case Rect => "rect"
      case Circle => "circle"
      case Ellipse => "ellipse"
      case Polygon => "polygon"
      case Path => "path"
    }
  }

  /** Facts about the shape names the scans rely on. */
  lemma NameChars(sh: Shape)
    ensures '<' !in sh.Name() && '>' !in sh.Name() && 'f' !in sh.Name()
    ensures |sh.Name()| >= 4 && sh.Name()[0] != 's'
  {
  }

  /** The shape whose name `x` starts with, the alternatives tried in order. */
  function ShapeAt(x: string): (r: Option<Shape>)
    ensures r.Some? ==> StartsWith(x, r.value.Name())
    ensures r.None? ==> forall sh: Shape :: !StartsWith(x, sh.Name())
  {
    if StartsWith(x, Rect.Name()) then Some(Rect)
    else if StartsWith(x, Circle.Name()) then Some(Circle)
    else if StartsWith(x, Ellipse.Name()) then Some(Ellipse)
    else if StartsWith(x, Polygon.Name()) then Some(Polygon)
    else if StartsWith(x, Path.Name()) then Some(Path)
    else None
  }

  /** No two names share their first two characters. */
  lemma ShapeAtName(sh: Shape, y: string)
    ensures ShapeAt(sh.Name() + y) == Some(sh)
  {
    StartsWithConcat(sh.Name(), y);
    var x := sh.Name() + y;
    assert x[0] == sh.Name()[0] && x[1] == sh.Name()[1];
  }

  /**
   * The negative lookahead `(?![^>]*fill=)` fails: `fill=` starts before
   * the next `>` (or anywhere, when no `>` follows).
   */
  predicate FillAhead(t: string)
    decreases |t|
  {
    StartsWith(t, FillKey) || (|t| > 0 && t[0] != '>' && FillAhead(t[1..]))
  }

  /**
   * The lookahead read as "some `fill=` with no `>` before it": a lookahead
   * that fails has such a position.
   */
  lemma {:induction false} FillAheadWitness(t: string) returns (j: nat)
    requires FillAhead(t)
    ensures j <= |t| && '>' !in t[..j] && StartsWith(t[j..], FillKey)
    decreases |t|
  {
    if StartsWith(t, FillKey) {
      j := 0;
      assert t[..0] == [] && t[0..] == t;
    } else {
      var k := FillAheadWitness(t[1..]);
      j := k + 1;
      assert t[..j] == [t[0]] + t[1..][..k];
      assert t[j..] == t[1..][k..];
    }
  }

  /** Conversely, such a position makes the lookahead fail. */
  lemma {:induction false} FillAheadFromWitness(t: string, j: nat)
    requires j <= |t| && '>' !in t[..j] && StartsWith(t[j..], FillKey)
    ensures FillAhead(t)
    decreases j
  {
    if j == 0 {
      assert t[0..] == t;
    } else {
      assert t[0] in t[..j];
      assert t[1..][..j - 1] == t[..j][1..];
      assert t[1..][j - 1..] == t[j..];
      FillAheadFromWitness(t[1..], j - 1);
    }
  }

  /** The regex matches at the start of `s`: `<`, a shape name, no fill ahead. */
  function MatchAt(s: string): (r: Option<Shape>)
    ensures r.Some? <==>
      |s| > 0 && s[0] == '<' && ShapeAt(s[1..]).Some? &&
      !FillAhead(s[1 + |ShapeAt(s[1..]).value.Name()|..])
    ensures r.Some? ==> r == ShapeAt(s[1..])
  {
    if |s| > 0 && s[0] == '<' then
      match ShapeAt(s[1..])
      case Some(sh) => if FillAhead(s[1 + |sh.Name()|..]) then None else Some(sh)
      case None => None
    else None
  }

  /**
   * The global rewrite, scanning left to right; a match `<name` is followed
   * by ` fill="black"` and scanning resumes after the name.
   */
  function FillShapes(s: string): (r: string)
    ensures |r| >= |s|
    ensures |s| > 0 ==> |r| > 0 && r[0] == s[0]
    decreases |s|
  {
    if |s| == 0 then []
    else match MatchAt(s)
      case Some(sh) => "<" + sh.Name() + FillBlack + FillShapes(s[1 + |sh.Name()|..])
      case None => [s[0]] + FillShapes(s[1..])
  }

  /** Every shape tag of `s` has `fill=` before its next `>`. */
  predicate EveryShapeFilled(s: string)
    decreases |s|
  {
    |s| == 0 ||
    ((s[0] == '<' && ShapeAt(s[1..]).Some? ==> FillAhead(s[1 + |ShapeAt(s[1..]).value.Name()|..])) &&
     EveryShapeFilled(s[1..]))
  }

  /** `EveryShapeFilled` read position by position. */
  lemma EveryShapeFilledAt(s: string, i: nat)
    requires EveryShapeFilled(s) && i < |s| && s[i] == '<' && ShapeAt(s[i + 1..]).Some?
    ensures FillAhead(s[i + 1 + |ShapeAt(s[i + 1..]).value.Name()|..])
  {
    var x := s[i..];
    EveryShapeFilledSuffix(s, i);
    EveryShapeFilledUnfold(x);
    assert x[0] == s[i] && x[1..] == s[i + 1..];
    var k := |ShapeAt(s[i + 1..]).value.Name()|;
    assert x[1 + k..] == s[i + 1 + k..];
  }

  /** Every suffix of a filled text is filled. */
  lemma {:induction false} EveryShapeFilledSuffix(s: string, i: nat)
    requires EveryShapeFilled(s) && i <= |s|
    ensures EveryShapeFilled(s[i..])
    decreases i
  {
    if i > 0 {
      EveryShapeFilledSuffix(s[1..], i - 1);
      assert s[1..][i - 1..] == s[i..];
    }
  }

  lemma EveryShapeFilledUnfold(s: string)
    requires |s| > 0
    ensures EveryShapeFilled(s) <==>
      (s[0] == '<' && ShapeAt(s[1..]).Some? ==> FillAhead(s[1 + |ShapeAt(s[1..]).value.Name()|..])) &&
      EveryShapeFilled(s[1..])
  {
  }

  /** A string starting with `<` and a shape name splits into tag and rest. */
  lemma TagSplit(s: string, n: string)
    requires |s| > 0 && s[0] == '<' && StartsWith(s[1..], n)
    ensures s[1..] == n + s[1 + |n|..]
    ensures s == "<" + n + s[1 + |n|..]
  {
    assert s[1..][..|n|] == n;
    assert s == [s[0]] + s[1..];
    assert s[1..] == s[1..][..|n|] + s[1..][|n|..];
  }

  /** The two shapes of one rewrite step. */
  lemma FillShapesStep(s: string)
    requires |s| > 0
    ensures MatchAt(s).Some? ==>
      var n := MatchAt(s).value.Name();
      FillShapes(s) == "<" + n + FillBlack + FillShapes(s[1 + |n|..])
    ensures MatchAt(s).None? ==> FillShapes(s) == [s[0]] + FillShapes(s[1..])
  {
  }

  /** One step of `EveryShapeFilled` on a string with a known first character. */
  lemma EveryShapeFilledCons(c: char, y: string)
    ensures EveryShapeFilled([c] + y) <==>
      (c == '<' && ShapeAt(y).Some? ==> FillAhead(y[|ShapeAt(y).value.Name()|..])) && EveryShapeFilled(y)
  {
    var x := [c] + y;
    assert x[1..] == y;
    if ShapeAt(y).Some? {
      assert x[1 + |ShapeAt(y).value.Name()|..] == y[|ShapeAt(y).value.Name()|..];
    }
  }

  /** Text without `<` passes through the rewrite unchanged. */
  lemma {:induction false} FillPlainPrefix(a: string, y: string)
    requires '<' !in a
    ensures FillShapes(a + y) == a + FillShapes(y)
    decreases |a|
  {
    if a == [] {
      assert a + y == y;
    } else {
      assert a + y == [a[0]] + (a[1..] + y);
      PlainCharStep(a[0], a[1..] + y);
      FillPlainPrefix(a[1..], y);
      AppendAssoc([a[0]], a[1..], FillShapes(y));
      assert [a[0]] + a[1..] == a;
    }
  }

  /** A character other than `<` is copied by the rewrite. */
  lemma PlainCharStep(c: char, y: string)
    requires c != '<'
    ensures FillShapes([c] + y) == [c] + FillShapes(y)
  {
    var x := [c] + y;
    assert x[0] == c && x[1..] == y;
    assert MatchAt(x).None?;
    FillShapesStep(x);
  }

  /** The rewrite keeps every prefix without `<`. */
  lemma {:induction false} FillStartsWith(x: string, p: string)
    requires '<' !in p
    ensures StartsWith(FillShapes(x), p) <==> StartsWith(x, p)
    decreases |p|
  {
    var r := FillShapes(x);
    if |p| > 0 && |x| > 0 {
      StartsWithCons(r, p);
      StartsWithCons(x, p);
      if x[0] != '<' {
        assert MatchAt(x).None?;
        assert r[1..] == FillShapes(x[1..]);
        FillStartsWith(x[1..], p[1..]);
      }
    }
  }

  /** The rewrite does not change which shape name follows. */
  lemma FillShapeAt(x: string)
    ensures ShapeAt(FillShapes(x)) == ShapeAt(x)
  {
    forall sh: Shape
      ensures StartsWith(FillShapes(x), sh.Name()) <==> StartsWith(x, sh.Name())
    {
      NameChars(sh);
      FillStartsWith(x, sh.Name());
    }
  }

  /** Text without `>` or `f` is skipped by the lookahead. */
  lemma {:induction false} FillAheadSkip(a: string, y: string)
    requires '>' !in a && 'f' !in a
    ensures FillAhead(a + y) <==> FillAhead(y)
    decreases |a|
  {
    if a == [] {
      assert a + y == y;
    } else {
      var x := a + y;
      assert x[0] == a[0] && x[1..] == a[1..] + y;
      FillAheadSkip(a[1..], y);
    }
  }

  /** ` fill="black"` followed by anything satisfies the lookahead. */
  lemma FillBlackAhead(z: string)
    ensures FillAhead(FillBlack + z)
  {
    var rest := FillBlack[1..] + z;
    assert FillBlack[1..] == FillKey + "\"black\"";
    StartsWithConcat(FillKey, "\"black\"" + z);
    assert FillKey + ("\"black\"" + z) == rest;
    assert FillBlack + z == [' '] + rest;
    FillAheadSkip([' '], rest);
  }

  /** A tag just given ` fill="black"` satisfies the lookahead. */
  lemma FilledTag(sh: Shape, z: string)
    ensures ShapeAt(sh.Name() + FillBlack + z) == Some(sh)
    ensures FillAhead((sh.Name() + FillBlack + z)[|sh.Name()|..])
  {
    var n := sh.Name();
    ShapeAtName(sh, FillBlack + z);
    assert n + FillBlack + z == n + (FillBlack + z);
    assert (n + FillBlack + z)[|n|..] == FillBlack + z;
    FillBlackAhead(z);
  }

  /** A rewritten tag, seen from its `<`, satisfies the lookahead. */
  lemma TagFillAhead(n: string, z: string)
    requires '>' !in n && 'f' !in n
    ensures FillAhead("<" + n + FillBlack + z)
  {
    FillBlackAhead(z);
    FillAheadSkip("<" + n, FillBlack + z);
    assert "<" + n + FillBlack + z == ("<" + n) + (FillBlack + z);
  }

  /** A lookahead that succeeds still succeeds after the rewrite. */
  lemma {:induction false} FillAheadKept(t: string)
    requires FillAhead(t)
    ensures FillAhead(FillShapes(t))
    decreases |t|
  {
    FillStartsWith(t, FillKey);
    if !StartsWith(t, FillKey) {
      FillShapesStep(t);
      if MatchAt(t).Some? {
        var sh := MatchAt(t).value;
        NameChars(sh);
        TagFillAhead(sh.Name(), FillShapes(t[1 + |sh.Name()|..]));
      } else {
        FillAheadKept(t[1..]);
        assert FillShapes(t)[1..] == FillShapes(t[1..]);
      }
    }
  }

  /** Text without `<` neither adds nor removes unfilled shape tags. */
  lemma {:induction false} EveryShapeFilledPlain(a: string, y: string)
    requires '<' !in a
    ensures EveryShapeFilled(a + y) <==> EveryShapeFilled(y)
    decreases |a|
  {
    if a == [] {
      assert a + y == y;
    } else {
      assert a + y == [a[0]] + (a[1..] + y);
      EveryShapeFilledCons(a[0], a[1..] + y);
      EveryShapeFilledPlain(a[1..], y);
    }
  }

  /** A tag just rewritten, followed by filled text, is filled throughout. */
  lemma FilledTagStep(sh: Shape, z: string)
    requires EveryShapeFilled(z)
    ensures EveryShapeFilled("<" + sh.Name() + FillBlack + z)
  {
    var n := sh.Name();
    var w := n + FillBlack;
    NameChars(sh);
    FillBlackChars();
    assert '<' !in w;
    FilledTag(sh, z);
    EveryShapeFilledPlain(w, z);
    AppendAssoc("<", n, FillBlack);
    AppendAssoc("<", w, z);
    EveryShapeFilledCons('<', w + z);
  }

  lemma FillBlackChars()
    ensures '<' !in FillBlack
  {
  }

  /** A character the rewrite passes over keeps the result filled. */
  lemma PlainStep(s: string)
    requires |s| > 0 && MatchAt(s).None? && EveryShapeFilled(FillShapes(s[1..]))
    ensures EveryShapeFilled([s[0]] + FillShapes(s[1..]))
  {
    EveryShapeFilledCons(s[0], FillShapes(s[1..]));
    FillShapeAt(s[1..]);
    if s[0] == '<' && ShapeAt(s[1..]).Some? {
      var sh := ShapeAt(s[1..]).value;
      var n := sh.Name();
      var rest := s[1 + |n|..];
      TagSplit(s, n);
      NameChars(sh);
      FillPlainPrefix(n, rest);
      assert FillShapes(s[1..])[|n|..] == FillShapes(rest);
      FillAheadKept(rest);
    }
  }

  /** After the rewrite every shape tag has a fill. */
  lemma {:induction false} FillShapesFillsAll(s: string)
    ensures EveryShapeFilled(FillShapes(s))
    decreases |s|
  {
    if |s| > 0 {
      FillShapesStep(s);
      if MatchAt(s).Some? {
        var sh := MatchAt(s).value;
        FillShapesFillsAll(s[1 + |sh.Name()|..]);
        FilledTagStep(sh, FillShapes(s[1 + |sh.Name()|..]));
      } else {
        FillShapesFillsAll(s[1..]);
        PlainStep(s);
      }
    }
  }

  /** When every tag already has a fill, nothing changes. */
  lemma {:induction false} FillShapesFixpoint(s: string)
    requires EveryShapeFilled(s)
    ensures FillShapes(s) == s
    decreases |s|
  {
    if |s| > 0 {
      assert MatchAt(s).None?;
      FillShapesStep(s);
      FillShapesFixpoint(s[1..]);
      assert s == [s[0]] + s[1..];
    }
  }

  /** The pieces of a tag: `<`, the name, and what follows. */
  lemma TagParts(n: string, t: string)
    ensures var s := "<" + n + t; |s| > 0 && s[0] == '<' && s[1..] == n + t && s[1 + |n|..] == t
  {
  }

  /** A single tag with a fill ahead keeps its text exactly. */
  lemma FilledTagUntouched(sh: Shape, t: string)
    requires FillAhead(t)
    ensures FillShapes("<" + sh.Name() + t) == "<" + sh.Name() + FillShapes(t)
  {
    var n := sh.Name();
    var s := "<" + n + t;
    TagParts(n, t);
    ShapeAtName(sh, t);
    assert s[1 + |n|..] == t;
    assert MatchAt(s).None?;
    FillShapesStep(s);
    assert FillShapes(s) == "<" + FillShapes(n + t);
    NameChars(sh);
    FillPlainPrefix(n, t);
    AppendAssoc("<", n, FillShapes(t));
  }

  /** The rewrite only inserts text. */
  lemma {:induction false} FillShapesSubsequence(s: string)
    ensures IsSubsequence(s, FillShapes(s))
    decreases |s|
  {
    if |s| > 0 {
      FillShapesStep(s);
      match MatchAt(s)
      case Some(sh) =>
        var n := sh.Name();
        var t := s[1 + |n|..];
        FillShapesSubsequence(t);
        SubsequenceInsertAfter("<" + n, FillBlack, t, FillShapes(t));
        TagSplit(s, n);
      case None =>
        FillShapesSubsequence(s[1..]);
        SubsequenceCommonPrefix([s[0]], s[1..], FillShapes(s[1..]));
        assert s == [s[0]] + s[1..];
    }
  }

  /**
   * An `<svg` in a tag `<` + `n` + `t`, where `n` has no `<` and does not
   * start with `s`, lies in `t`.
   */
  lemma SvgSkipsTag(n: string, t: string)
    requires |n| > 0 && n[0] != 's' && '<' !in n
    requires Contains("<" + n + t, SvgTag)
    ensures Contains(t, SvgTag)
  {
    var y := n + t;
    assert "<" + n + t == ['<'] + y;
    ContainsCons('<', y, SvgTag);
    assert !StartsWith(['<'] + y, SvgTag) by {
      assert (['<'] + y)[1] == n[0];
    }
    ContainsSkip(n, t, SvgTag);
  }

  /** Whether `<svg` starts the text is decided before the first match. */
  lemma SvgStartPlain(s: string)
    requires |s| > 0
    ensures StartsWith([s[0]] + FillShapes(s[1..]), SvgTag) <==> StartsWith(s, SvgTag)
  {
    var y := FillShapes(s[1..]);
    StartsWithCons([s[0]] + y, SvgTag);
    assert ([s[0]] + y)[1..] == y;
    FillStartsWith(s[1..], SvgTag[1..]);
    StartsWithCons(s, SvgTag);
  }

  /** An `<svg` in a rewritten tag lies in the text after it. */
  lemma SvgSkipsFilledTag(n: string, z: string)
    requires |n| > 0 && n[0] != 's' && '<' !in n
    requires Contains("<" + n + FillBlack + z, SvgTag)
    ensures Contains(z, SvgTag)
  {
    assert "<" + n + FillBlack + z == "<" + (n + FillBlack) + z;
    SvgSkipsTag(n + FillBlack, z);
  }

  /** The rewrite creates no `<svg`. */
  lemma {:induction false} FillNoNewSvg(s: string)
    requires Contains(FillShapes(s), SvgTag)
    ensures Contains(s, SvgTag)
    decreases |s|
  {
    assert |s| > 0;
    FillShapesStep(s);
    if MatchAt(s).Some? {
      var sh := MatchAt(s).value;
      var t := s[1 + |sh.Name()|..];
      NameChars(sh);
      SvgSkipsFilledTag(sh.Name(), FillShapes(t));
      FillNoNewSvg(t);
      TagSplit(s, sh.Name());
      ContainsAppendLeft("<" + sh.Name(), t, SvgTag);
    } else {
      var y := FillShapes(s[1..]);
      ContainsCons(s[0], y, SvgTag);
      ContainsCons(s[0], s[1..], SvgTag);
      assert s == [s[0]] + s[1..];
      SvgStartPlain(s);
      if Contains(y, SvgTag) {
        FillNoNewSvg(s[1..]);
      }
    }
  }

  /** The rewrite keeps an `<svg` already present. */
  lemma {:induction false} KeepsSvgTag(s: string)
    requires Contains(s, SvgTag)
    ensures Contains(FillShapes(s), SvgTag)
    decreases |s|
  {
    assert |s| > 0;
    FillShapesStep(s);
    if MatchAt(s).Some? {
      var sh := MatchAt(s).value;
      var t := s[1 + |sh.Name()|..];
      NameChars(sh);
      TagSplit(s, sh.Name());
      SvgSkipsTag(sh.Name(), t);
      KeepsSvgTag(t);
      ContainsAppendLeft("<" + sh.Name() + FillBlack, FillShapes(t), SvgTag);
    } else {
      var y := FillShapes(s[1..]);
      assert s == [s[0]] + s[1..];
      ContainsCons(s[0], s[1..], SvgTag);
      ContainsCons(s[0], y, SvgTag);
      SvgStartPlain(s);
      if Contains(s[1..], SvgTag) {
        KeepsSvgTag(s[1..]);
      }
    }
  }

  /**
   * Where a key could overlap the end of a shape name, it is `height=`
   * starting at the final `h` of `path`.
   */
  lemma NameKeyOverlap(sh: Shape, a: RootAttribute, j: nat)
    requires j < |sh.Name()|
    requires a.Key()[0] == sh.Name()[j]
    requires j + 1 < |sh.Name()| ==> a.Key()[1] == sh.Name()[j + 1]
    ensures sh == Path && a == Height && j == 3
  {
  }

  /** The occurrence at `q` is not the `height=` inside the hazard text. */
  predicate Unhazarded(x: string, a: RootAttribute, q: nat)
    requires q <= |x|
  {
    a != Height || q < 4 || x[q - 4..q] != "<pat"
  }

  /** Dropping a prefix `h` keeps an occurrence unhazarded. */
  lemma UnhazardedSuffix(h: string, t: string, a: RootAttribute, q: nat)
    requires |h| <= q <= |h| + |t| && Unhazarded(h + t, a, q)
    ensures Unhazarded(t, a, q - |h|)
  {
    if q - |h| >= 4 {
      SliceRight(h, t, q - 4, q);
    }
  }

  /** A key occurrence starting inside a matched tag name is hazarded. */
  lemma KeyInTag(x: string, sh: Shape, a: RootAttribute, q: nat)
    requires |x| > 0 && x[0] == '<' && StartsWith(x[1..], sh.Name())
    requires 0 < q < 1 + |sh.Name()| && OccursAt(x, a.Key(), q)
    ensures !Unhazarded(x, a, q)
  {
    AttributeFacts(a);
    OverlapChars(x, sh.Name(), a.Key(), q);
    NameKeyOverlap(sh, a, q - 1);
    HazardPrefix(x, sh.Name());
  }

  /** A key starting inside the name after `<` lines up with the name's characters. */
  lemma OverlapChars(x: string, n: string, kw: string, q: nat)
    requires |x| > 0 && StartsWith(x[1..], n) && 0 < q < 1 + |n| && OccursAt(x, kw, q) && |kw| >= 2
    ensures kw[0] == n[q - 1] && (q + 1 < 1 + |n| ==> kw[1] == n[q])
  {
    assert x[1..][..|n|] == n;
    assert x[q] == n[q - 1];
    assert x[q..q + |kw|][0] == kw[0] && x[q..q + |kw|][1] == kw[1];
    assert q + 1 < 1 + |n| ==> x[q + 1] == n[q];
  }

  /** A tag `<path` starts with `<pat`. */
  lemma HazardPrefix(x: string, n: string)
    requires |x| > 0 && x[0] == '<' && StartsWith(x[1..], n) && n == Path.Name()
    ensures x[0..4] == "<pat"
  {
    assert x[1..][..4] == "path";
    assert x[0..4] == [x[0]] + x[1..][..3];
  }

  /** An occurrence past a matched tag's `<` lies after the tag name. */
  lemma KeyPastTag(x: string, sh: Shape, a: RootAttribute, q: nat)
    requires |x| > 0 && x[0] == '<' && StartsWith(x[1..], sh.Name())
    requires 0 < q && OccursAt(x, a.Key(), q) && Unhazarded(x, a, q)
    ensures 1 + |sh.Name()| <= q
    ensures OccursAt(x[1 + |sh.Name()|..], a.Key(), q - 1 - |sh.Name()|)
    ensures Unhazarded(x[1 + |sh.Name()|..], a, q - 1 - |sh.Name()|)
  {
    var n := sh.Name();
    if q < 1 + |n| {
      KeyInTag(x, sh, a, q);
      assert false;
    }
    TagSplit(x, n);
    OccursInSuffix("<" + n, x[1 + |n|..], a.Key(), q);
    UnhazardedSuffix("<" + n, x[1 + |n|..], a, q);
  }

  /** An occurrence past the first character lies in the rest. */
  lemma KeyPastChar(x: string, a: RootAttribute, q: nat)
    requires 0 < q && OccursAt(x, a.Key(), q) && Unhazarded(x, a, q)
    ensures OccursAt(x[1..], a.Key(), q - 1) && Unhazarded(x[1..], a, q - 1)
  {
    assert x == [x[0]] + x[1..];
    OccursInSuffix([x[0]], x[1..], a.Key(), q);
    UnhazardedSuffix([x[0]], x[1..], a, q);
  }

  /** An occurrence of a root key survives the rewrite unless hazarded. */
  lemma {:induction false} FillKeepsOccurrence(x: string, a: RootAttribute, q: nat)
    requires OccursAt(x, a.Key(), q) && Unhazarded(x, a, q)
    ensures Contains(FillShapes(x), a.Key())
    decreases |x|
  {
    if q == 0 {
      AttributeFacts(a);
      FillStartsWith(x, a.Key());
      OccursAtContains(FillShapes(x), a.Key(), 0);
    } else {
      if MatchAt(x).Some? {
        var sh := MatchAt(x).value;
        KeyPastTag(x, sh, a, q);
        FillKeepsOccurrence(x[1 + |sh.Name()|..], a, q - 1 - |sh.Name()|);
      } else {
        KeyPastChar(x, a, q);
        FillKeepsOccurrence(x[1..], a, q - 1);
      }
      FillKeepsContains(x, a.Key());
    }
  }

  /** What the rewrite of the rest contains, the rewrite of the whole contains. */
  lemma FillKeepsContains(x: string, p: string)
    requires |x| > 0
    requires MatchAt(x).Some? ==> Contains(FillShapes(x[1 + |MatchAt(x).value.Name()|..]), p)
    requires MatchAt(x).None? ==> Contains(FillShapes(x[1..]), p)
    ensures Contains(FillShapes(x), p)
  {
    FillShapesStep(x);
    if MatchAt(x).Some? {
      var n := MatchAt(x).value.Name();
      ContainsAppendLeft("<" + n + FillBlack, FillShapes(x[1 + |n|..]), p);
    } else {
      ContainsAppendLeft([x[0]], FillShapes(x[1..]), p);
    }
  }

  /** `<pat` right before `height=` is the hazard text. */
  lemma HazardAt(x: string, q: nat)
    requires 4 <= q && OccursAt(x, Height.Key(), q) && x[q - 4..q] == "<pat"
    ensures Contains(x, Hazard)
  {
    assert x[q - 4..q + 7] == x[q - 4..q] + x[q..q + 7];
    OccursAtContains(x, Hazard, q - 4);
  }

  /** A root key present before the rewrite is present after it. */
  lemma FillKeepsKey(x: string, a: RootAttribute)
    requires Contains(x, a.Key())
    requires a == Height ==> !Contains(x, Hazard)
    ensures Contains(FillShapes(x), a.Key())
  {
    var q := ContainsOccursAt(x, a.Key());
    if !Unhazarded(x, a, q) {
      HazardAt(x, q);
    }
    FillKeepsOccurrence(x, a, q);
  }

  // ---------------------------------------------------------------------
  // The whole function
  // ---------------------------------------------------------------------

  /** `prepareSvgForDownload`. */
  function PrepareSvgForDownload(s: string): (r: string)
    ensures EveryShapeFilled(r)
    ensures IsSubsequence(s, r)
  {
    var t := AddRootAttributes(s);
    FillShapesFillsAll(t);
    AddRootSubsequence(s);
    FillShapesSubsequence(t);
    SubsequenceTransitive(s, t, FillShapes(t));
    FillShapes(t)
  }

  /** Without `<svg` only the fill rewrite applies. */
  lemma PrepareWithoutSvg(s: string)
    requires !Contains(s, SvgTag)
    ensures PrepareSvgForDownload(s) == FillShapes(s)
  {
    AddRootWithoutSvg(s);
  }

  /**
   * With `<svg` present, the output keeps `<svg` and carries the four keys
   * the rewrite cannot touch, and `height=` as well unless the input holds
   * the hazard text.
   */
  lemma PreparedHasRootKeys(s: string)
    requires Contains(s, SvgTag)
    ensures Contains(PrepareSvgForDownload(s), SvgTag)
    ensures forall a: RootAttribute :: a != Height ==> Contains(PrepareSvgForDownload(s), a.Key())
    ensures !Contains(s, Hazard) ==> HasRootKeys(PrepareSvgForDownload(s))
  {
    var t := AddRootAttributes(s);
    AddRootHasKeys(s);
    KeepsSvgTag(t);
    forall a: RootAttribute | a != Height
      ensures Contains(FillShapes(t), a.Key())
    {
      FillKeepsKey(t, a);
    }
    if !Contains(s, Hazard) {
      AddRootNoHazard(s);
      FillKeepsKey(t, Height);
    }
  }

  /**
   * Applying the function twice gives the result of applying it once, for
   * every input free of the hazard text.
   */
  lemma PrepareIdempotent(s: string)
    requires !Contains(s, Hazard)
    ensures PrepareSvgForDownload(PrepareSvgForDownload(s)) == PrepareSvgForDownload(s)
  {
    var t := AddRootAttributes(s);
    var u := FillShapes(t);
    FillShapesFillsAll(t);
    if Contains(s, SvgTag) {
      PreparedHasRootKeys(s);
      AddRootComplete(u);
    } else {
      AddRootWithoutSvg(s);
      if Contains(u, SvgTag) {
        FillNoNewSvg(t);
      }
      AddRootWithoutSvg(u);
    }
    FillShapesFixpoint(u);
  }

  // ---------------------------------------------------------------------
  // The hazard, exhibited
  // ---------------------------------------------------------------------

  /** Root attributes written as bare keys, each after a space, then `>`. */
  function RootText(attrs: seq<RootAttribute>): (r: string)
    ensures |r| > 0 && r[|r| - 1] == '>'
  {
    if |attrs| == 0 then ">" else " " + attrs[0].Key() + RootText(attrs[1..])
  }

  lemma {:induction false} RootTextKeys(attrs: seq<RootAttribute>, a: RootAttribute)
    requires a in attrs
    ensures Contains(RootText(attrs), a.Key())
  {
    var rest := RootText(attrs[1..]);
    AppendAssoc(" ", attrs[0].Key(), rest);
    if attrs[0] == a {
      StartsWithConcat(a.Key(), rest);
      ContainsAppendLeft(" ", a.Key() + rest, a.Key());
    } else {
      RootTextKeys(attrs[1..], a);
      ContainsAppendLeft(" " + attrs[0].Key(), rest, a.Key());
    }
  }

  /** `a` directly followed by `b` at position `i` of `s`. */
  predicate PairAt(s: string, i: int, a: char, b: char)
  {
    0 <= i < |s| - 1 && s[i] == a && s[i + 1] == b
  }

  /** No `a` directly followed by `b` in `s`. */
  ghost predicate PairFree(s: string, a: char, b: char)
  {
    forall i :: !PairAt(s, i, a, b)
  }

  lemma PairFreeConcat(x: string, y: string, a: char, b: char)
    requires PairFree(x, a, b) && PairFree(y, a, b)
    requires |x| > 0 && |y| > 0 ==> !(x[|x| - 1] == a && y[0] == b)
    ensures PairFree(x + y, a, b)
  {
    var s := x + y;
    forall i
      ensures !PairAt(s, i, a, b)
    {
      if 0 <= i < |s| - 1 {
        if i + 1 < |x| {
          assert s[i] == x[i] && s[i + 1] == x[i + 1];
          assert !PairAt(x, i, a, b);
        } else if i + 1 == |x| {
          assert s[i] == x[|x| - 1] && s[i + 1] == y[0];
        } else {
          assert s[i] == y[i - |x|] && s[i + 1] == y[i - |x| + 1];
          assert !PairAt(y, i - |x|, a, b);
        }
      }
    }
  }

  /** An occurrence of a pattern holding the pair puts the pair in `s`. */
  lemma OccurrencePair(s: string, p: string, q: nat, m: nat, a: char, b: char)
    requires OccursAt(s, p, q) && m + 1 < |p| && p[m] == a && p[m + 1] == b
    ensures PairAt(s, q + m, a, b)
  {
    assert s[q..q + |p|][m] == s[q + m] && s[q..q + |p|][m + 1] == s[q + m + 1];
  }

  /** A pattern holding the pair does not occur in a pair-free string. */
  lemma PairFreeAbsent(s: string, p: string, m: nat, a: char, b: char)
    requires PairFree(s, a, b) && m + 1 < |p| && p[m] == a && p[m + 1] == b
    ensures !Contains(s, p)
  {
    if Contains(s, p) {
      var q := ContainsOccursAt(s, p);
      OccurrencePair(s, p, q, m, a, b);
      assert false;
    }
  }

  /** A string missing either character has no such pair. */
  lemma PairFreeMissing(s: string, a: char, b: char)
    requires a !in s || b !in s
    ensures PairFree(s, a, b)
  {
    forall i
      ensures !PairAt(s, i, a, b)
    {
      if 0 <= i < |s| - 1 {
        assert s[i] in s && s[i + 1] in s;
      }
    }
  }

  /** Every key but `height=` lacks `<`, lacks `h` or `e`, and does not end in `h`. */
  lemma KeyPairFree(a: RootAttribute)
    requires a != Height
    ensures '<' !in a.Key() && ('h' !in a.Key() || 'e' !in a.Key())
    ensures a.Key()[|a.Key()| - 1] != 'h'
  {
    match a
    case ViewBox => assert 'h' !in "viewBox";
    case Width => assert 'e' !in "width=";
    case AspectRatio => assert 'h' !in "preserveAspectRatio";
    case Style => assert 'h' !in "style=";
  }

  lemma {:induction false} RootTextPairFree(attrs: seq<RootAttribute>)
    requires Height !in attrs
    ensures '<' !in RootText(attrs) && PairFree(RootText(attrs), 'h', 'e')
  {
    if |attrs| > 0 {
      var key := attrs[0].Key();
      var rest := RootText(attrs[1..]);
      RootTextPairFree(attrs[1..]);
      KeyPairFree(attrs[0]);
      PairFreeMissing(" " + key, 'h', 'e');
      assert (" " + key)[|key|] == key[|key| - 1];
      PairFreeConcat(" " + key, rest, 'h', 'e');
    }
  }

  /** `<svg viewBox width= preserveAspectRatio style=><patheight=1>`, in parts. */
  const WitnessAttributes := [ViewBox, Width, AspectRatio, Style]
  const WitnessRoot := "svg" + RootText(WitnessAttributes)
  const WitnessRest := "eig" + "ht=1"
  const WitnessTail := WitnessRest + ">"
  const WitnessTag := "<" + Path.Name() + WitnessTail
  const WitnessText := "<" + (WitnessRoot + WitnessTag)

  /** `height=` is present, but only inside `<patheight=`. */
  lemma WitnessTagHeight()
    ensures Contains(WitnessTag, Height.Key())
  {
    OccursAtContains(WitnessTag, Height.Key(), 4);
  }

  lemma WitnessKeys()
    ensures HasRootKeys(WitnessText)
  {
    forall a: RootAttribute
      ensures Contains(WitnessText, a.Key())
    {
      if a == Height {
        WitnessTagHeight();
        ContainsAppendLeft(WitnessRoot, WitnessTag, a.Key());
      } else {
        assert a in WitnessAttributes;
        RootTextKeys(WitnessAttributes, a);
        ContainsAppendLeft("svg", RootText(WitnessAttributes), a.Key());
        ContainsAppendRight(WitnessRoot, WitnessTag, a.Key());
      }
      ContainsAppendLeft("<", WitnessRoot + WitnessTag, a.Key());
    }
  }

  /** No shape name starts with `s`. */
  lemma NoShapeAtS(y: string)
    requires |y| > 0 && y[0] == 's'
    ensures ShapeAt(y).None?
  {
    if ShapeAt(y).Some? {
      NameChars(ShapeAt(y).value);
    }
  }

  /** A lone `>` closes the tag before any `fill=`. */
  lemma CloseNoFill()
    ensures !FillAhead(">")
  {
  }

  lemma WitnessTailChars()
    ensures '<' !in WitnessTail && !FillAhead(WitnessTail)
  {
    FillAheadSkip(WitnessRest, ">");
    CloseNoFill();
  }

  /** A shape tag with no `fill=` ahead and no later tag is given one. */
  lemma LoneTagFilled(sh: Shape, tail: string)
    requires '<' !in tail && !FillAhead(tail)
    ensures FillShapes("<" + sh.Name() + tail) == "<" + sh.Name() + FillBlack + tail
  {
    var n := sh.Name();
    var s := "<" + n + tail;
    TagParts(n, tail);
    ShapeAtName(sh, tail);
    assert MatchAt(s) == Some(sh);
    FillShapesStep(s);
    FillPlainPrefix(tail, []);
    assert tail + [] == tail;
  }

  /** A root part without `<` that starts with `s` passes through the rewrite. */
  lemma PlainRootFill(root: string, tag: string)
    requires |root| > 0 && root[0] == 's' && '<' !in root
    ensures FillShapes("<" + (root + tag)) == "<" + (root + FillShapes(tag))
  {
    var w := "<" + (root + tag);
    assert w[0] == '<' && w[1..] == root + tag;
    NoShapeAtS(w[1..]);
    FillShapesStep(w);
    FillPlainPrefix(root, tag);
  }

  /** A complete root followed by one unfilled shape tag: only the tag changes. */
  lemma PreparedRootAndTag(root: string, sh: Shape, tail: string)
    requires HasRootKeys("<" + (root + ("<" + sh.Name() + tail)))
    requires |root| > 0 && root[0] == 's' && '<' !in root
    requires '<' !in tail && !FillAhead(tail)
    ensures PrepareSvgForDownload("<" + (root + ("<" + sh.Name() + tail))) ==
      "<" + (root + ("<" + sh.Name() + FillBlack + tail))
  {
    AddRootComplete("<" + (root + ("<" + sh.Name() + tail)));
    PlainRootFill(root, "<" + sh.Name() + tail);
    LoneTagFilled(sh, tail);
  }

  /** One pass over the witness fills the `<path` tag and adds nothing else. */
  lemma WitnessPrepared()
    ensures PrepareSvgForDownload(WitnessText) == "<" + (WitnessRoot + ("<" + Path.Name() + FillBlack + WitnessTail))
  {
    WitnessKeys();
    RootTextPairFree(WitnessAttributes);
    WitnessTailChars();
    PreparedRootAndTag(WitnessRoot, Path, WitnessTail);
  }

  /** The rewritten tag adds no `h` before an `e`. */
  lemma FilledPairFree(root: string, sh: Shape, tail: string)
    requires PairFree(root, 'h', 'e') && PairFree(tail, 'h', 'e') && 'e' !in sh.Name()
    ensures PairFree("<" + (root + ("<" + sh.Name() + FillBlack + tail)), 'h', 'e')
  {
    var n := sh.Name();
    PairFreeMissing("<" + n, 'h', 'e');
    assert 'h' !in FillBlack && FillBlack[0] == ' ' && FillBlack[|FillBlack| - 1] == '"';
    PairFreeMissing(FillBlack, 'h', 'e');
    PairFreeConcat("<" + n, FillBlack, 'h', 'e');
    PairFreeConcat("<" + n + FillBlack, tail, 'h', 'e');
    PairFreeConcat(root, "<" + n + FillBlack + tail, 'h', 'e');
    PairFreeMissing("<", 'h', 'e');
    PairFreeConcat("<", root + ("<" + n + FillBlack + tail), 'h', 'e');
  }

  /** The prepared witness has no `h` before an `e`. */
  lemma WitnessPreparedPairFree()
    ensures PairFree("<" + (WitnessRoot + ("<" + Path.Name() + FillBlack + WitnessTail)), 'h', 'e')
  {
    RootTextPairFree(WitnessAttributes);
    PairFreeMissing("svg", 'h', 'e');
    PairFreeConcat("svg", RootText(WitnessAttributes), 'h', 'e');
    PairFreeMissing("eig", 'h', 'e');
    PairFreeMissing("ht=1", 'h', 'e');
    PairFreeConcat("eig", "ht=1", 'h', 'e');
    PairFreeMissing(">", 'h', 'e');
    PairFreeConcat(WitnessRest, ">", 'h', 'e');
    FilledPairFree(WitnessRoot, Path, WitnessTail);
  }

  /** Neither `height=` nor `<patheight=` occurs without an `h` before an `e`. */
  lemma PairFreeNoHeight(p: string)
    requires PairFree(p, 'h', 'e')
    ensures !Contains(p, Height.Key()) && !Contains(p, Hazard)
  {
    PairFreeAbsent(p, Height.Key(), 0, 'h', 'e');
    PairFreeAbsent(p, Hazard, 4, 'h', 'e');
  }

  lemma SvgRootTag(r: string, t: string)
    ensures Contains("<" + (("svg" + r) + t), SvgTag)
  {
    AppendAssoc("svg", r, t);
    AppendAssoc("<", "svg", r + t);
    StartsWithConcat(SvgTag, r + t);
  }

  /** The prepared witness has `<svg` but neither `height=` nor `<patheight=`. */
  lemma WitnessPreparedFacts()
    ensures var p := PrepareSvgForDownload(WitnessText);
      Contains(p, SvgTag) && !Contains(p, Height.Key()) && !Contains(p, Hazard)
  {
    WitnessPrepared();
    WitnessPreparedPairFree();
    PairFreeNoHeight("<" + (WitnessRoot + ("<" + Path.Name() + FillBlack + WitnessTail)));
    SvgRootTag(RootText(WitnessAttributes), "<" + Path.Name() + FillBlack + WitnessTail);
  }

  /**
   * Preparing twice is not preparing once: the first pass splits
   * `<patheight=` apart, so the second pass no longer finds `height=` and
   * inserts it into the root.
   */
  lemma PrepareNotIdempotent()
    ensures Contains(WitnessText, Hazard)
    ensures PrepareSvgForDownload(PrepareSvgForDownload(WitnessText)) != PrepareSvgForDownload(WitnessText)
  {
    var p := PrepareSvgForDownload(WitnessText);
    WitnessPreparedFacts();
    PreparedHasRootKeys(p);
    assert Contains(PrepareSvgForDownload(p), Height.Key());
    if !Contains(WitnessText, Hazard) {
      PrepareIdempotent(WitnessText);
    }
  }
}
