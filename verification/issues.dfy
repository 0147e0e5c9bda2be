/**
 * The issue-string protocol between the checks and `applyVisualIndicator`:
 * how each check encodes a finding as a string, and how the indicator
 * classifies a string and turns it into a sidebar message (or drops it).
 */
module Issues {
  import opened Wrappers
  import opened JsText
  import Outline
  import Transparency
  import TextContrast
  import Color

  /**
   * JavaScript's number formatting, left abstract: `show` is the default
   * number-to-string conversion, `fixed2` is `toFixed(2)` and `parse` is
   * `Number(...)`, with `None` for `NaN`.
   */
  datatype NumberFormat = NumberFormat(show: real -> string, fixed2: real -> string, parse: string -> Option<real>)

  /** Characters a JavaScript number rendering can contain. */
  predicate NumberChar(c: char) {
    IsDigit(c) || c in "+-.eEInfinityNa"
  }

  predicate NumberText(t: string) {
    forall k :: 0 <= k < |t| ==> NumberChar(t[k])
  }

  /**
   * What the protocol relies on from the formatting of one number `x`:
   * `Number` reads back what the conversion printed, and both renderings use
   * number characters only.
   */
  predicate ShowsAt(nf: NumberFormat, x: real) {
    && nf.parse(nf.show(x)) == Some(x)
    && NumberText(nf.show(x))
    && NumberText(nf.fixed2(x))
  }

  /**
   * The same for a transparency score, whose `NaN` (an empty image) prints
   * as `"NaN"` and reads back as `NaN`.
   */
  predicate ShowsScore(nf: NumberFormat, score: Option<real>) {
    match score
    case None => nf.parse("NaN") == None
    case Some(v) => ShowsAt(nf, v)
  }

  /** `"heading " + current + " " + expected` with `current = "h" + level`. */
  function HeadingIssue(e: Outline.HeadingError): string {
    "heading h" + DecimalString(e.current) + " h" + DecimalString(e.expected)
  }

  /** `` `${textContrast} contrast ${textContrast.toFixed(2)}:1` `` */
  function ContrastIssue(score: real, nf: NumberFormat): string {
    nf.show(score) + " contrast " + nf.fixed2(score) + ":1"
  }

  /** `score + " transp"`; a `NaN` score (an empty image) prints as `NaN`. */
  function TransparencyIssue(score: Option<real>, nf: NumberFormat): string {
    (match score case None => "NaN" case Some(v) => nf.show(v)) + " transp"
  }

  const AltIssue: string := "Alt"
  const H1Issue: string := "h1 header"

  const AltMessage: string := "Cell Error: Missing Alt Tag"
  const H1Message: string := "Header format: Missing h1 header"

  /** Contrast below this is reported. */
  const ContrastFlagBelow: real := 4.5
  /** A transparency score below this is reported. */
  const TransparencyFlagBelow: real := 9.0

  /** The message a heading error should read as. */
  function HeadingMessage(current: nat, expected: nat): string {
    "Heading format: expecting h" + DecimalString(expected) + ", got h" + DecimalString(current)
  }

  function ContrastMessage(fixed: string): string {
    "Cell Error: Text Contrast " + fixed
  }

  function TransparencyMessage(percent: string): string {
    "Image Err: High Image Transparency (" + percent + "%)"
  }

  /** The five branches of `applyVisualIndicator`'s loop. */
  datatype IssueKind = HeadingKind | ContrastKind | AltKind | H1Kind | TransparencyKind

  /**
   * The classification: a heading by its first seven characters, a contrast
   * by its second space-separated field, the two fixed strings, and
   * everything else as a transparency score.
   */
  function Classify(issue: string): IssueKind {
    if Slice(issue, 0, 7) == "heading" then HeadingKind
    else if Field(issue, 1) == Some("contrast") then ContrastKind
    else if issue == AltIssue then AltKind
    else if issue == H1Issue then H1Kind
    else TransparencyKind
  }

  /**
   * The message `applyVisualIndicator` adds for one issue string, or `None`
   * when the issue is below its threshold (or not a number).
   */
  function Decode(issue: string, nf: NumberFormat): (m: Option<string>)
    ensures m.Some? ==> m.value != []
  {
    match Classify(issue)
    case HeadingKind =>
      Some("Heading format: expecting " + Slice(issue, 11, 13) + ", got " + Slice(issue, 8, 10))
    case ContrastKind =>
      var score := nf.parse(Field(issue, 0).value);
      if score.Some? && score.value < ContrastFlagBelow then
        Some(ContrastMessage(match Field(issue, 2) case Some(f) => f case None => "undefined"))
      else None
    case AltKind => Some(AltMessage)
    case H1Kind => Some(H1Message)
    case TransparencyKind =>
      var score := nf.parse(Field(issue, 0).value);
      if score.Some? && score.value < TransparencyFlagBelow then
        Some(TransparencyMessage(nf.fixed2((10.0 - score.value) * 10.0)))
      else None
  }

  /**
   * The shape of every message `applyVisualIndicator` adds: one of the two
   * fixed messages, a heading message cut from at most four characters of
   * the issue, a contrast message ending in one space-free field, or a
   * transparency message closed by `%)`.
   */
  predicate IndicatorMessage(m: string) {
    || m == AltMessage
    || m == H1Message
    || (26 <= |m| <= 36 && m[..26] == "Heading format: expecting ")
    || (26 <= |m| && m[..26] == "Cell Error: Text Contrast " && ' ' !in m[26..])
    || (38 <= |m| && m[..36] == "Image Err: High Image Transparency (" && m[|m| - 2..] == "%)")
  }

  /** Whatever the issue string, a message the indicator adds has one of the five shapes. */
  lemma {:induction false} DecodeShape(issue: string, nf: NumberFormat)
    requires Decode(issue, nf).Some?
    ensures IndicatorMessage(Decode(issue, nf).value)
  {
    var m := Decode(issue, nf).value;
    match Classify(issue)
    case HeadingKind =>
      var x := Slice(issue, 11, 13);
      var y := Slice(issue, 8, 10);
      assert m == "Heading format: expecting " + x + ", got " + y;
      assert m[..26] == "Heading format: expecting ";
    case ContrastKind =>
      var f := match Field(issue, 2) case Some(f) => f case None => "undefined";
      assert ' ' !in f;
      assert m == "Cell Error: Text Contrast " + f;
      assert m[..26] == "Cell Error: Text Contrast " && m[26..] == f;
    case AltKind =>
    case H1Kind =>
    case TransparencyKind =>
      var score := nf.parse(Field(issue, 0).value);
      var p := nf.fixed2((10.0 - score.value) * 10.0);
      assert m == "Image Err: High Image Transparency (" + p + "%)";
      assert m[..36] == "Image Err: High Image Transparency (";
      assert m[|m| - 2..] == "%)";
  }

  /** A heading error with single-digit levels decodes to the message it stands for. */
  lemma {:induction false} HeadingRoundTrip(e: Outline.HeadingError, nf: NumberFormat)
    requires e.current < 10 && e.expected < 10
    ensures Decode(HeadingIssue(e), nf) == Some(HeadingMessage(e.current, e.expected))
  {
    var issue := HeadingIssue(e);
    var c := DecimalString(e.current);
    var x := DecimalString(e.expected);
    assert issue == "heading h" + c + " h" + x;
    assert |issue| == 13;
    assert Slice(issue, 0, 7) == "heading";
    assert Slice(issue, 8, 10) == "h" + c;
    assert Slice(issue, 11, 13) == "h" + x;
    assert "Heading format: expecting " + ("h" + x) + ", got " + ("h" + c) == HeadingMessage(e.current, e.expected);
  }

  /** Every heading issue is classified as one and always yields a message, whatever its levels. */
  lemma {:induction false} HeadingAlwaysReported(e: Outline.HeadingError, nf: NumberFormat)
    ensures Classify(HeadingIssue(e)) == HeadingKind
    ensures Decode(HeadingIssue(e), nf).Some?
  {
    var issue := HeadingIssue(e);
    assert issue[..7] == "heading";
  }

  /**
   * With a two-digit level the fixed slices cut the wrong characters: an h10
   * after an h1 reads as "expecting  h, got h1".
   */
  lemma {:induction false} TwoDigitHeadingMessage(c: string, nf: NumberFormat)
    ensures Decode(HeadingIssue(Outline.HeadingError(c, 10, 2)), nf) == Some("Heading format: expecting  h, got h1")
  {
    var issue := HeadingIssue(Outline.HeadingError(c, 10, 2));
    assert DecimalString(10) == "10";
    assert DecimalString(2) == "2";
    assert issue == "heading h10 h2";
    assert Slice(issue, 0, 7) == "heading";
    assert Slice(issue, 8, 10) == "h1";
    assert Slice(issue, 11, 13) == " h";
    assert "Heading format: expecting " + " h" + ", got " + "h1" == "Heading format: expecting  h, got h1";
  }

  lemma {:induction false} NumberTextNoSpace(t: string)
    requires NumberText(t)
    ensures ' ' !in t
  {
    assert forall k :: 0 <= k < |t| ==> t[k] != ' ';
  }

  /** An issue that starts with a number rendering (or a space) is never taken for a heading. */
  lemma {:induction false} NotHeadingPrefix(head: string, rest: string)
    requires NumberText(head)
    requires |head + rest| >= 7
    requires head == [] ==> rest != [] && rest[0] == ' '
    ensures Slice(head + rest, 0, 7) != "heading"
  {
    var s := head + rest;
    assert Slice(s, 0, 7)[0] == s[0];
    if head != [] {
      assert s[0] == head[0];
      assert NumberChar(head[0]);
    }
  }

  /** The fields of a contrast issue: the score, `contrast`, the fixed rendering with `:1`. */
  lemma {:induction false} ContrastFields(score: real, nf: NumberFormat)
    requires ShowsAt(nf, score)
    ensures Fields(ContrastIssue(score, nf)) == [nf.show(score), "contrast", nf.fixed2(score) + ":1"]
  {
    var a := nf.show(score);
    var b := nf.fixed2(score);
    NumberTextNoSpace(a);
    NumberTextNoSpace(b);
    var parts := [a, "contrast", b + ":1"];
    assert ' ' !in b + ":1";
    assert JoinSpaces(parts) == ContrastIssue(score, nf) by {
      assert JoinSpaces(parts[2..]) == b + ":1";
      assert JoinSpaces(parts[1..]) == "contrast " + (b + ":1");
    }
    assert forall k :: 0 <= k < |parts| ==> ' ' !in parts[k];
    JoinFields(parts);
  }

  /**
   * A contrast issue is reported exactly when its score is below 4.5, and
   * then with the two-decimal rendering the issue carries.
   */
  lemma {:induction false} ContrastFlagIff(score: real, nf: NumberFormat)
    requires ShowsAt(nf, score)
    ensures Decode(ContrastIssue(score, nf), nf).Some? <==> score < ContrastFlagBelow
    ensures score < ContrastFlagBelow ==> Decode(ContrastIssue(score, nf), nf) == Some(ContrastMessage(nf.fixed2(score) + ":1"))
  {
    var issue := ContrastIssue(score, nf);
    ContrastClassified(score, nf);
    assert Field(issue, 0) == Some(nf.show(score));
    assert Field(issue, 2) == Some(nf.fixed2(score) + ":1");
  }

  lemma {:induction false} ContrastClassified(score: real, nf: NumberFormat)
    requires ShowsAt(nf, score)
    ensures Classify(ContrastIssue(score, nf)) == ContrastKind
    ensures Fields(ContrastIssue(score, nf)) == [nf.show(score), "contrast", nf.fixed2(score) + ":1"]
  {
    var issue := ContrastIssue(score, nf);
    ContrastFields(score, nf);
    ContrastNotHeading(score, nf);
    assert Field(issue, 1) == Some("contrast");
  }

  lemma {:induction false} ContrastNotHeading(score: real, nf: NumberFormat)
    requires ShowsAt(nf, score)
    ensures Slice(ContrastIssue(score, nf), 0, 7) != "heading"
  {
    var rest := " contrast " + nf.fixed2(score) + ":1";
    NotHeadingPrefix(nf.show(score), rest);
    assert ContrastIssue(score, nf) == nf.show(score) + rest;
  }

  /** The fields of a transparency issue: the score rendering and `transp`. */
  lemma {:induction false} TransparencyFields(score: Option<real>, nf: NumberFormat)
    requires ShowsScore(nf, score)
    ensures Fields(TransparencyIssue(score, nf)) == [match score case None => "NaN" case Some(v) => nf.show(v), "transp"]
  {
    var a := match score case None => "NaN" case Some(v) => nf.show(v);
    if score.Some? {
      NumberTextNoSpace(a);
    }
    var parts := [a, "transp"];
    assert JoinSpaces(parts) == TransparencyIssue(score, nf);
    assert forall k :: 0 <= k < |parts| ==> ' ' !in parts[k];
    JoinFields(parts);
  }

  /**
   * A transparency issue is reported exactly when it carries a score below 9,
   * with the non-opaque percentage `(10 - score) * 10` rendered to two
   * decimals; the `NaN` of an empty image is never reported.
   */
  lemma {:induction false} TransparencyFlagIff(score: Option<real>, nf: NumberFormat)
    requires ShowsScore(nf, score)
    ensures Decode(TransparencyIssue(score, nf), nf).Some? <==> score.Some? && score.value < TransparencyFlagBelow
    ensures score.Some? && score.value < TransparencyFlagBelow ==>
      Decode(TransparencyIssue(score, nf), nf) == Some(TransparencyMessage(nf.fixed2((10.0 - score.value) * 10.0)))
  {
    var issue := TransparencyIssue(score, nf);
    var a := match score case None => "NaN" case Some(v) => nf.show(v);
    assert Classify(issue) == TransparencyKind && Field(issue, 0) == Some(a) by {
      TransparencyClassified(score, nf);
    }
    assert nf.parse(a) == score;
    DecodeTransparency(issue, nf);
  }

  /** The transparency branch of the indicator, for an issue classified as a score. */
  lemma {:induction false} DecodeTransparency(issue: string, nf: NumberFormat)
    requires Classify(issue) == TransparencyKind
    requires Field(issue, 0).Some?
    ensures var score := nf.parse(Field(issue, 0).value);
      Decode(issue, nf) ==
        if score.Some? && score.value < TransparencyFlagBelow then Some(TransparencyMessage(nf.fixed2((10.0 - score.value) * 10.0)))
        else None
  {
  }

  lemma {:induction false} TransparencyClassified(score: Option<real>, nf: NumberFormat)
    requires ShowsScore(nf, score)
    ensures Classify(TransparencyIssue(score, nf)) == TransparencyKind
    ensures Fields(TransparencyIssue(score, nf)) == [match score case None => "NaN" case Some(v) => nf.show(v), "transp"]
  {
    var issue := TransparencyIssue(score, nf);
    TransparencyFields(score, nf);
    TransparencyNotHeading(score, nf);
    assert Field(issue, 1) == Some("transp");
    TransparencyNotFixed(score, nf);
  }

  lemma {:induction false} TransparencyNotHeading(score: Option<real>, nf: NumberFormat)
    requires ShowsScore(nf, score)
    ensures Slice(TransparencyIssue(score, nf), 0, 7) != "heading"
  {
    var issue := TransparencyIssue(score, nf);
    var a := match score case None => "NaN" case Some(v) => nf.show(v);
    assert issue == a + " transp";
    if score.Some? {
      NotHeadingPrefix(a, " transp");
    } else {
      assert Slice(issue, 0, 7) == "NaN tra";
    }
  }

  lemma {:induction false} TransparencyNotFixed(score: Option<real>, nf: NumberFormat)
    requires ShowsScore(nf, score)
    ensures TransparencyIssue(score, nf) != AltIssue
    ensures TransparencyIssue(score, nf) != H1Issue
  {
    var issue := TransparencyIssue(score, nf);
    assert |issue| >= 7;
    TransparencyFields(score, nf);
    H1Fields();
    assert Fields(issue)[1] != Fields(H1Issue)[1];
  }

  /** `"Alt"` and `"h1 header"` are always reported, with their fixed messages. */
  lemma {:induction false} FixedIssues(nf: NumberFormat)
    ensures Decode(AltIssue, nf) == Some(AltMessage)
    ensures Decode(H1Issue, nf) == Some(H1Message)
  {
    AltClassified();
    H1Classified();
  }

  lemma {:induction false} AltClassified()
    ensures Classify(AltIssue) == AltKind
  {
    assert Slice(AltIssue, 0, 7) == "Alt";
    assert Fields(AltIssue) == ["Alt"] by {
      JoinFields(["Alt"]);
    }
  }

  lemma {:induction false} H1Classified()
    ensures Classify(H1Issue) == H1Kind
  {
    assert Slice(H1Issue, 0, 7) == "h1 head";
    H1Fields();
  }

  lemma {:induction false} H1Fields()
    ensures Fields(H1Issue) == ["h1", "header"]
  {
    assert JoinSpaces(["h1", "header"]) == H1Issue;
    JoinFields(["h1", "header"]);
  }

  /**
   * End to end for an image's pixel buffer: its transparency issue is
   * reported exactly when the buffer is non-empty and more than a tenth of
   * its pixels are not fully opaque.
   */
  lemma {:induction false} ImageTransparencyReported(data: seq<Color.Byte>, nf: NumberFormat)
    requires ShowsScore(nf, Transparency.Score(data))
    ensures Decode(TransparencyIssue(Transparency.Score(data), nf), nf).Some? <==>
      |data| > 0 && 40 * Transparency.NonOpaque(data) > |data|
  {
    TransparencyFlagIff(Transparency.Score(data), nf);
    if |data| > 0 {
      Transparency.FlagIffOverTenPercent(data);
    }
  }

  /**
   * End to end for an image's OCR words: when no word was found, or a kept
   * word's box holds fewer than two colour buckets, the score falls back to
   * 21 and no contrast issue is reported.
   */
  lemma {:induction false} FailedContrastNotReported(img: TextContrast.ImageData, words: seq<TextContrast.Word>, scale: nat,
                                  contrast: (Color.Rgb, Color.Rgb) -> real, nf: NumberFormat)
    requires scale > 0 && ShowsAt(nf, TextContrast.MaxContrast)
    requires |words| == 0 || exists i :: 0 <= i < |words| && TextContrast.Breaks(img, words[i], scale)
    ensures Decode(ContrastIssue(TextContrast.TextContrastScore(img, words, scale, contrast), nf), nf).None?
  {
    assert TextContrast.TextContrastScore(img, words, scale, contrast) == TextContrast.MaxContrast;
    ContrastFlagIff(TextContrast.MaxContrast, nf);
  }
}
