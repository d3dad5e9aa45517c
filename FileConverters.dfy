/**
 * `convertToAi` and `convertToCdr`: the SVG text framed by a fixed header
 * and footer, standing in for real Illustrator and CorelDRAW exports.
 */
module FileConverters {
  import opened Common

  const AiHeader := "%!PS-Adobe-3.0\n%%Creator: Adobe Illustrator\n"
  const AiFooter := "\n%%EOF"
  const CdrHeader := "@CorelDRAW\n"
  const CdrFooter := "\n@END"

  /** The body between a header and a footer, when `s` has both. */
  function Unframe(header: string, footer: string, s: string): (r: Option<string>)
    ensures r.Some? ==> s == header + r.value + footer
    ensures r.None? ==> forall body :: s != header + body + footer
  {
    if |header| + |footer| <= |s| && s[..|header|] == header && s[|s| - |footer|..] == footer then
      var body := s[|header|..|s| - |footer|];
      assert s == s[..|header|] + body + s[|s| - |footer|..];
      Some(body)
    else
      NotFramed(header, footer, s);
      None
  }

  /** A text without the header in front or the footer behind frames no body. */
  lemma NotFramed(header: string, footer: string, s: string)
    requires !(|header| + |footer| <= |s| && s[..|header|] == header && s[|s| - |footer|..] == footer)
    ensures forall body :: s != header + body + footer
  {
    forall body ensures s != header + body + footer {
      FramedParts(header, footer, body);
    }
  }

  /** Where the header and the footer sit in a framed text. */
  lemma FramedParts(header: string, footer: string, body: string)
    ensures var s := header + body + footer;
      |header| + |footer| <= |s| && s[..|header|] == header && s[|s| - |footer|..] == footer
  {
  }

  /** Framing then unframing gives the body back. */
  lemma UnframeFrame(header: string, footer: string, body: string)
    ensures Unframe(header, footer, header + body + footer) == Some(body)
  {
    var s := header + body + footer;
    assert s[..|header|] == header && s[|s| - |footer|..] == footer;
    assert s[|header|..|s| - |footer|] == body;
  }

  /** `convertToAi`: the PostScript-style header, the SVG, and `%%EOF`. */
  function ConvertToAi(svg: string): (r: string)
    ensures |r| == |svg| + |AiHeader| + |AiFooter|
    ensures r[..|AiHeader|] == AiHeader && r[|r| - |AiFooter|..] == AiFooter
    ensures r[|AiHeader|..|r| - |AiFooter|] == svg
  {
    AiHeader + svg + AiFooter
  }

  /** Reading an `.ai` text back: the SVG between header and footer. */
  function ParseAi(s: string): Option<string>
  {
    Unframe(AiHeader, AiFooter, s)
  }

  /** Every conversion reads back as its input. */
  lemma AiRoundTrip(svg: string)
    ensures ParseAi(ConvertToAi(svg)) == Some(svg)
  {
    UnframeFrame(AiHeader, AiFooter, svg);
  }

  /** Every text that reads back is the conversion of what it reads as. */
  lemma AiParseSound(s: string)
    ensures ParseAi(s).Some? <==> exists svg :: ConvertToAi(svg) == s
    ensures ParseAi(s).Some? ==> ConvertToAi(ParseAi(s).value) == s
  {
    if ParseAi(s).Some? {
      assert ConvertToAi(ParseAi(s).value) == s;
    }
    if exists svg :: ConvertToAi(svg) == s {
      var svg :| ConvertToAi(svg) == s;
      AiRoundTrip(svg);
    }
  }

  /** Different inputs give different outputs. */
  lemma AiInjective(a: string, b: string)
    requires ConvertToAi(a) == ConvertToAi(b)
    ensures a == b
  {
    AiRoundTrip(a);
    AiRoundTrip(b);
  }

  /** `convertToCdr`: `@CorelDRAW`, the SVG, and `@END`. */
  function ConvertToCdr(svg: string): (r: string)
    ensures |r| == |svg| + |CdrHeader| + |CdrFooter|
    ensures r[..|CdrHeader|] == CdrHeader && r[|r| - |CdrFooter|..] == CdrFooter
    ensures r[|CdrHeader|..|r| - |CdrFooter|] == svg
  {
    CdrHeader + svg + CdrFooter
  }

  /** Reading a `.cdr` text back. */
  function ParseCdr(s: string): Option<string>
  {
    Unframe(CdrHeader, CdrFooter, s)
  }

  lemma CdrRoundTrip(svg: string)
    ensures ParseCdr(ConvertToCdr(svg)) == Some(svg)
  {
    UnframeFrame(CdrHeader, CdrFooter, svg);
  }

  lemma CdrParseSound(s: string)
    ensures ParseCdr(s).Some? <==> exists svg :: ConvertToCdr(svg) == s
    ensures ParseCdr(s).Some? ==> ConvertToCdr(ParseCdr(s).value) == s
  {
    if ParseCdr(s).Some? {
      assert ConvertToCdr(ParseCdr(s).value) == s;
    }
    if exists svg :: ConvertToCdr(svg) == s {
      var svg :| ConvertToCdr(svg) == s;
      CdrRoundTrip(svg);
    }
  }

  lemma CdrInjective(a: string, b: string)
    requires ConvertToCdr(a) == ConvertToCdr(b)
    ensures a == b
  {
    CdrRoundTrip(a);
    CdrRoundTrip(b);
  }

  /** The two formats never produce the same text. */
  lemma AiNeverCdr(a: string, b: string)
    ensures ConvertToAi(a) != ConvertToCdr(b)
  {
    var x, y := ConvertToAi(a), ConvertToCdr(b);
    assert x[0] == x[..|AiHeader|][0] == '%';
    assert y[0] == y[..|CdrHeader|][0] == '@';
  }
}
