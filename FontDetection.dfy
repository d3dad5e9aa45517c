/**
 * `detectFonts`: each of eight common fonts is reported when a random draw
 * exceeds 0.6, with a random confidence between 0.70 and 1.00, and the
 * report is sorted by decreasing confidence.
 *
 * The calls to `Math.random` are a sequence of draws in [0, 1), consumed in
 * the order the calls happen: one threshold draw per font, followed, when
 * the font is reported, by its confidence draw. Confidences are integer
 * hundredths (70 stands for 0.70).
 */
module FontDetection {
  import opened Common
  import opened Sorting

  /** The names of `commonFonts`; the characteristics listed with them are never read. */
  const CommonFonts: seq<string> :=
    ["Arial", "Helvetica", "Times New Roman", "Georgia", "Verdana", "Roboto", "Open Sans", "Montserrat"]

  /** A reported font and its confidence in hundredths. */
  datatype FontMatch = FontMatch(name: string, confidence: int)

  /** A threshold draw above this reports the font. */
  const Threshold := 0.6

  /** What `Math.random` returns. */
  predicate IsDraw(x: real)
  {
    0.0 <= x < 1.0
  }

  predicate AllDraws(draws: seq<real>)
  {
    forall i :: 0 <= i < |draws| ==> IsDraw(draws[i])
  }

  /** `Math.round((0.7 + r * 0.3) * 100) / 100`, in hundredths. */
  function Confidence(r: real): (c: int)
    requires IsDraw(r)
    ensures 70 <= c <= 100
  {
    JsRound((0.7 + r * 0.3) * 100.0)
  }

  /** The reports for `fonts`, in list order, drawing from `draws`. */
  function Detected(fonts: seq<string>, draws: seq<real>): (ms: seq<FontMatch>)
    requires |draws| >= 2 * |fonts| && AllDraws(draws)
    ensures |ms| <= |fonts|
    ensures forall i :: 0 <= i < |ms| ==> ms[i].name in fonts && 70 <= ms[i].confidence <= 100
    decreases |fonts|
  {
    if |fonts| == 0 then []
    else if draws[0] > Threshold then
      [FontMatch(fonts[0], Confidence(draws[1]))] + Detected(fonts[1..], draws[2..])
    else Detected(fonts[1..], draws[1..])
  }

  /** The threshold draw of each of the first `n` fonts. */
  function ThresholdDraws(n: nat, draws: seq<real>): (ts: seq<real>)
    requires |draws| >= 2 * n
    ensures |ts| == n
  {
    if n == 0 then []
    else [draws[0]] + ThresholdDraws(n - 1, if draws[0] > Threshold then draws[2..] else draws[1..])
  }

  /** The order of the report: `(a, b) => b.confidence - a.confidence`. */
  function Descending(m: FontMatch): real
  {
    -(m.confidence as real)
  }

  function NameOf(m: FontMatch): string
  {
    m.name
  }

  /** `detectFonts` with its random draws given. */
  method DetectFonts(draws: seq<real>) returns (result: seq<FontMatch>)
    requires |draws| >= 2 * |CommonFonts| && AllDraws(draws)
    ensures result == Report(CommonFonts, draws)
  {
    result := DetectAmong(CommonFonts, draws);
  }

  /** The `forEach` over the font list, then the sort. */
  method DetectAmong(fonts: seq<string>, draws: seq<real>) returns (result: seq<FontMatch>)
    requires |draws| >= 2 * |fonts| && AllDraws(draws)
    ensures result == Report(fonts, draws)
  {
    var matches: seq<FontMatch> := [];
    var i, next := 0, 0;
    assert fonts[0..] == fonts && draws[0..] == draws;
    while i < |fonts|
      invariant i <= |fonts| && next <= |draws|
      invariant |draws| - next >= 2 * (|fonts| - i)
      invariant matches + Detected(fonts[i..], draws[next..]) == Detected(fonts, draws)
      decreases |fonts| - i
    {
      DetectStep(fonts, draws, i, next);
      if draws[next] > Threshold {
        var m := FontMatch(fonts[i], Confidence(draws[next + 1]));
        var rest := Detected(fonts[i + 1..], draws[next + 2..]);
        AppendAssoc(matches, [m], rest);
        matches := matches + [m];
        next := next + 2;
        assert matches + rest == Detected(fonts, draws);
      } else {
        next := next + 1;
        assert matches + Detected(fonts[i + 1..], draws[next..]) == Detected(fonts, draws);
      }
      i := i + 1;
    }
    assert fonts[i..] == [];
    assert matches + [] == matches;
    result := SortBy(matches, Descending);
  }

  /** One font of the loop: its threshold draw decides, its confidence draw follows. */
  lemma DetectStep(fonts: seq<string>, draws: seq<real>, i: nat, next: nat)
    requires i < |fonts| && next <= |draws| && |draws| - next >= 2 * (|fonts| - i) && AllDraws(draws)
    ensures Detected(fonts[i..], draws[next..]) ==
      if draws[next] > Threshold then
        [FontMatch(fonts[i], Confidence(draws[next + 1]))] + Detected(fonts[i + 1..], draws[next + 2..])
      else Detected(fonts[i + 1..], draws[next + 1..])
  {
    assert fonts[i..][1..] == fonts[i + 1..];
    assert draws[next..][1..] == draws[next + 1..];
    assert draws[next..][2..] == draws[next + 2..];
  }

  /** The report, for the given draws. */
  function Report(fonts: seq<string>, draws: seq<real>): seq<FontMatch>
    requires |draws| >= 2 * |fonts| && AllDraws(draws)
  {
    SortBy(Detected(fonts, draws), Descending)
  }

  /** No more reports than fonts, each a listed font with a confidence in [0.70, 1.00]. */
  lemma ReportBounds(fonts: seq<string>, draws: seq<real>)
    requires |draws| >= 2 * |fonts| && AllDraws(draws)
    ensures |Report(fonts, draws)| <= |fonts|
    ensures forall i :: 0 <= i < |Report(fonts, draws)| ==>
      Report(fonts, draws)[i].name in fonts && 70 <= Report(fonts, draws)[i].confidence <= 100
  {
    SortByMembers(Detected(fonts, draws), Descending);
  }

  /** The most confident font comes first. */
  lemma ReportDescending(fonts: seq<string>, draws: seq<real>)
    requires |draws| >= 2 * |fonts| && AllDraws(draws)
    ensures forall i, j :: 0 <= i < j < |Report(fonts, draws)| ==>
      Report(fonts, draws)[i].confidence >= Report(fonts, draws)[j].confidence
  {
    var r := Report(fonts, draws);
    SortBySorted(Detected(fonts, draws), Descending);
    forall i, j | 0 <= i < j < |r| ensures r[i].confidence >= r[j].confidence {
      assert Descending(r[i]) <= Descending(r[j]);
    }
  }

  /** Fonts with equal confidence keep the order of the list. */
  lemma ReportStable(fonts: seq<string>, draws: seq<real>, c: int)
    requires |draws| >= 2 * |fonts| && AllDraws(draws)
    ensures WithKey(Report(fonts, draws), Descending, -(c as real))
         == WithKey(Detected(fonts, draws), Descending, -(c as real))
  {
    SortByStable(Detected(fonts, draws), Descending, -(c as real));
  }

  /** Distinct names are reported at most once each. */
  lemma {:induction false} DetectedDistinct(fonts: seq<string>, draws: seq<real>)
    requires |draws| >= 2 * |fonts| && AllDraws(draws)
    requires forall i, j :: 0 <= i < j < |fonts| ==> fonts[i] != fonts[j]
    ensures DistinctBy(Detected(fonts, draws), NameOf)
    decreases |fonts|
  {
    if |fonts| > 0 {
      var rest := if draws[0] > Threshold then draws[2..] else draws[1..];
      var t := Detected(fonts[1..], rest);
      DetectedDistinct(fonts[1..], rest);
      if draws[0] > Threshold {
        var ms := Detected(fonts, draws);
        assert ms == [FontMatch(fonts[0], Confidence(draws[1]))] + t;
        forall i, j | 0 <= i < j < |ms| ensures NameOf(ms[i]) != NameOf(ms[j]) {
          assert ms[j] == t[j - 1];
          if i > 0 {
            assert ms[i] == t[i - 1];
          } else {
            assert t[j - 1].name in fonts[1..];
          }
        }
      }
    }
  }

  /** No name is reported twice when the list has none twice. */
  lemma ReportDistinct(fonts: seq<string>, draws: seq<real>)
    requires |draws| >= 2 * |fonts| && AllDraws(draws)
    requires forall i, j :: 0 <= i < j < |fonts| ==> fonts[i] != fonts[j]
    ensures DistinctBy(Report(fonts, draws), NameOf)
  {
    DetectedDistinct(fonts, draws);
    SortByDistinct(Detected(fonts, draws), Descending, NameOf);
  }

  /** The eight common fonts have different names. */
  lemma CommonFontsDistinct()
    ensures |CommonFonts| == 8
    ensures forall i, j :: 0 <= i < j < |CommonFonts| ==> CommonFonts[i] != CommonFonts[j]
  {
    assert forall i :: 0 <= i < |CommonFonts| ==> |CommonFonts[i]| > 0;
    assert forall i, j :: 0 <= i < j < |CommonFonts| ==> CommonFonts[i][0] != CommonFonts[j][0];
  }

  /** Some report in `ms` names `name`. */
  ghost predicate Named(ms: seq<FontMatch>, name: string)
  {
    exists m :: m in ms && m.name == name
  }

  lemma NamedAppend(a: seq<FontMatch>, b: seq<FontMatch>, name: string)
    ensures Named(a + b, name) <==> Named(a, name) || Named(b, name)
  {
    if Named(a + b, name) {
      var m :| m in a + b && m.name == name;
    }
    if Named(a, name) {
      var m :| m in a && m.name == name;
      assert m in a + b;
    }
    if Named(b, name) {
      var m :| m in b && m.name == name;
      assert m in a + b;
    }
  }

  /** The first font of the list: its report, if any, and the reports of the rest. */
  lemma DetectedUnfold(fonts: seq<string>, draws: seq<real>)
    requires |fonts| > 0 && |draws| >= 2 * |fonts| && AllDraws(draws)
    ensures var rest := if draws[0] > Threshold then draws[2..] else draws[1..];
      Detected(fonts, draws) ==
        (if draws[0] > Threshold then [FontMatch(fonts[0], Confidence(draws[1]))] else []) +
        Detected(fonts[1..], rest)
    ensures var rest := if draws[0] > Threshold then draws[2..] else draws[1..];
      ThresholdDraws(|fonts|, draws) == [draws[0]] + ThresholdDraws(|fonts| - 1, rest)
  {
    if draws[0] <= Threshold {
      var t := Detected(fonts[1..], draws[1..]);
      assert [] + t == t;
    }
  }

  /** The first font is reported exactly when its threshold draw exceeds 0.6. */
  lemma DetectedHeadIff(fonts: seq<string>, draws: seq<real>)
    requires |fonts| > 0 && |draws| >= 2 * |fonts| && AllDraws(draws)
    requires forall a, b :: 0 <= a < b < |fonts| ==> fonts[a] != fonts[b]
    ensures Named(Detected(fonts, draws), fonts[0]) <==> draws[0] > Threshold
  {
    var rest := if draws[0] > Threshold then draws[2..] else draws[1..];
    var head := if draws[0] > Threshold then [FontMatch(fonts[0], Confidence(draws[1]))] else [];
    var t := Detected(fonts[1..], rest);
    DetectedUnfold(fonts, draws);
    NamedAppend(head, t, fonts[0]);
    if draws[0] > Threshold {
      assert head[0] in head;
    }
    assert !Named(t, fonts[0]) by {
      forall m | m in t ensures m.name != fonts[0] {
        assert m.name in fonts[1..];
      }
    }
  }

  /** A later font is reported exactly when it is reported among the rest. */
  lemma DetectedTailIff(fonts: seq<string>, draws: seq<real>, i: nat)
    requires 0 < i < |fonts| && |draws| >= 2 * |fonts| && AllDraws(draws)
    requires fonts[0] != fonts[i]
    ensures var rest := if draws[0] > Threshold then draws[2..] else draws[1..];
      Named(Detected(fonts, draws), fonts[i]) <==> Named(Detected(fonts[1..], rest), fonts[i])
  {
    var rest := if draws[0] > Threshold then draws[2..] else draws[1..];
    var head := if draws[0] > Threshold then [FontMatch(fonts[0], Confidence(draws[1]))] else [];
    DetectedUnfold(fonts, draws);
    NamedAppend(head, Detected(fonts[1..], rest), fonts[i]);
    assert !Named(head, fonts[i]);
  }

  /** Font `i` is reported exactly when its threshold draw exceeds 0.6. */
  lemma {:induction false} DetectedIff(fonts: seq<string>, draws: seq<real>, i: nat)
    requires |draws| >= 2 * |fonts| && AllDraws(draws) && i < |fonts|
    requires forall a, b :: 0 <= a < b < |fonts| ==> fonts[a] != fonts[b]
    ensures Named(Detected(fonts, draws), fonts[i]) <==> ThresholdDraws(|fonts|, draws)[i] > Threshold
    decreases |fonts|
  {
    DetectedUnfold(fonts, draws);
    if i == 0 {
      DetectedHeadIff(fonts, draws);
    } else {
      var rest := if draws[0] > Threshold then draws[2..] else draws[1..];
      DetectedIff(fonts[1..], rest, i - 1);
      assert fonts[1..][i - 1] == fonts[i];
      DetectedTailIff(fonts, draws, i);
    }
  }

  /** Sorting reports the same fonts: font `i` is in the report exactly when its draw exceeds 0.6. */
  lemma ReportIff(fonts: seq<string>, draws: seq<real>, i: nat)
    requires |draws| >= 2 * |fonts| && AllDraws(draws) && i < |fonts|
    requires forall a, b :: 0 <= a < b < |fonts| ==> fonts[a] != fonts[b]
    ensures Named(Report(fonts, draws), fonts[i]) <==> ThresholdDraws(|fonts|, draws)[i] > Threshold
  {
    var d := Detected(fonts, draws);
    DetectedIff(fonts, draws, i);
    SortBySorted(d, Descending);
    assert forall m :: m in Report(fonts, draws) <==> m in d by {
      forall m ensures m in Report(fonts, draws) <==> m in d {
        assert m in multiset(Report(fonts, draws)) <==> m in multiset(d);
      }
    }
  }
}
