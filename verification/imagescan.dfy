/**
 * The image checks of a text cell: `checkMDNoAccessIssues` (the two
 * markdown image regular expressions), `checkHtmlNoAccessIssues` over an
 * already parsed list of `<img>` elements, and the way a cell's issue list
 * is assembled from the two.
 */
module ImageScan {
  import opened Wrappers
  import opened JsText

  /**
   * One match of `/!\[.*?\]\((.*?)\)/g`: the `!` at `start`, the `]` at
   * `close` and the `)` at `end`; the captured URL is `s[close + 2..end]`.
   */
  datatype ImageMatch = ImageMatch(start: nat, close: nat, end: nat)

  /** Index of the first `)` or line terminator at or after `k` (or `|s|`): where the lazy `(.*?)` stops. */
  function CloseAt(s: string, k: nat): (e: nat)
    requires k <= |s|
    ensures k <= e <= |s|
    ensures e < |s| ==> s[e] == ')' || IsLineTerminator(s[e])
    ensures forall m :: k <= m < e ==> s[m] != ')' && !IsLineTerminator(s[m])
    decreases |s| - k
  {
    if k == |s| || s[k] == ')' || IsLineTerminator(s[k]) then k else CloseAt(s, k + 1)
  }

  /** Whether the text from `j` on starts with `](`, followed on the same line by a `)`. */
  predicate LinkTailAt(s: string, j: nat)
    requires j <= |s|
  {
    j + 2 <= |s| && s[j] == ']' && s[j + 1] == '(' && CloseAt(s, j + 2) < |s| && s[CloseAt(s, j + 2)] == ')'
  }

  /**
   * The lazy `.*?` between `[` and `]`: the first `j` at or after `k`, before
   * any line terminator, where the rest of the pattern matches.
   */
  function LinkFrom(s: string, k: nat): (j: Option<nat>)
    requires k <= |s|
    ensures j.Some? ==> k <= j.value <= |s| && LinkTailAt(s, j.value)
    ensures j.Some? ==> forall m :: k <= m < j.value ==> !IsLineTerminator(s[m])
    decreases |s| - k
  {
    if k == |s| || IsLineTerminator(s[k]) then None
    else if LinkTailAt(s, k) then Some(k)
    else LinkFrom(s, k + 1)
  }

  /** The regular expression's match when it is tried at position `p`. */
  function ImageAt(s: string, p: nat): (m: Option<ImageMatch>)
    ensures m.Some? ==> IsImageMatch(s, m.value) && m.value.start == p
  {
    if p + 2 <= |s| && s[p] == '!' && s[p + 1] == '[' then
      match LinkFrom(s, p + 2)
      case None => None
      case Some(j) => Some(ImageMatch(p, j, CloseAt(s, j + 2)))
    else None
  }

  /**
   * What a match is, independently of how it is found: `![`, a bracket text
   * and a `](`, a URL without `)`, then `)`, all on one line.
   */
  predicate IsImageMatch(s: string, m: ImageMatch) {
    && m.start + 2 <= m.close && m.close + 2 <= m.end < |s|
    && s[m.start] == '!' && s[m.start + 1] == '['
    && s[m.close] == ']' && s[m.close + 1] == '(' && s[m.end] == ')'
    && (forall k :: m.start + 2 <= k < m.end ==> !IsLineTerminator(s[k]))
    && (forall k :: m.close + 2 <= k < m.end ==> s[k] != ')')
  }

  /** The URL a match captures. */
  function Url(s: string, m: ImageMatch): string
    requires IsImageMatch(s, m)
  {
    s[m.close + 2..m.end]
  }

  /**
   * The `exec` loop from `lastIndex = from`: each search takes the leftmost
   * match, and the next one starts just after its `)`.
   */
  function MatchesFrom(s: string, from: nat): (ms: seq<ImageMatch>)
    requires from <= |s|
    ensures forall i :: 0 <= i < |ms| ==> IsImageMatch(s, ms[i]) && from <= ms[i].start
    ensures forall i :: 0 <= i < |ms| - 1 ==> ms[i].end < ms[i + 1].start
    decreases |s| - from
  {
    if from == |s| then []
    else
      match ImageAt(s, from)
      case Some(m) => [m] + MatchesFrom(s, m.end + 1)
      case None => MatchesFrom(s, from + 1)
  }

  /** A match at `from` is the first one the search reports. */
  lemma {:induction false} MatchesHead(s: string, from: nat)
    requires from < |s| && ImageAt(s, from).Some?
    ensures MatchesFrom(s, from) == [ImageAt(s, from).value] + MatchesFrom(s, ImageAt(s, from).value.end + 1)
  {
  }

  /** The search moves past a position where nothing matches. */
  lemma {:induction false} MatchesSkip(s: string, from: nat)
    requires from < |s| && ImageAt(s, from).None?
    ensures MatchesFrom(s, from) == MatchesFrom(s, from + 1)
  {
  }

  /** The pattern finds nothing at any position before the first match the search reports. */
  lemma {:induction false} NothingBefore(s: string, from: nat, q: nat)
    requires from <= q < |s|
    requires MatchesFrom(s, from) == [] || q < MatchesFrom(s, from)[0].start
    ensures ImageAt(s, q).None?
    decreases q - from
  {
    if ImageAt(s, from).Some? {
      MatchesHead(s, from);
    } else if q > from {
      MatchesSkip(s, from);
      var rest := MatchesFrom(s, from + 1);
      assert rest == [] || q < rest[0].start;
      NothingBefore(s, from + 1, q);
    }
  }

  /** `CloseAt` stops at the first `)` of the line: a `)` with neither a `)` nor a line terminator before it. */
  lemma {:induction false} CloseAtParen(s: string, k: nat, e: nat)
    requires k <= e < |s| && s[e] == ')'
    requires forall t :: k <= t < e ==> s[t] != ')' && !IsLineTerminator(s[t])
    ensures CloseAt(s, k) == e
  {
  }

  /** The lazy bracket text finds a `](` no later than any that the rest of the pattern follows on the same line. */
  lemma {:induction false} LinkFromComplete(s: string, k: nat, j: nat)
    requires k <= j <= |s| && LinkTailAt(s, j)
    requires forall t :: k <= t < j ==> !IsLineTerminator(s[t])
    ensures LinkFrom(s, k).Some? && LinkFrom(s, k).value <= j
    decreases j - k
  {
    if k < j && !LinkTailAt(s, k) {
      LinkFromComplete(s, k + 1, j);
    }
  }

  /**
   * Wherever an image match starts, the pattern finds one there: the one
   * with the earliest `](`, so no later than the given match's.
   */
  lemma {:induction false} ImageAtComplete(s: string, m: ImageMatch)
    requires IsImageMatch(s, m)
    ensures ImageAt(s, m.start).Some?
    ensures ImageAt(s, m.start).value.close <= m.close
  {
    CloseAtParen(s, m.close + 2, m.end);
    LinkFromComplete(s, m.start + 2, m.close);
  }

  /**
   * The search skips no image: its first report starts no later than any
   * image match from `from` on.
   */
  lemma {:induction false} MatchesLeftmost(s: string, from: nat, m: ImageMatch)
    requires from <= m.start && IsImageMatch(s, m)
    ensures MatchesFrom(s, from) != [] && MatchesFrom(s, from)[0].start <= m.start
  {
    ImageAtComplete(s, m);
    if MatchesFrom(s, from) == [] || m.start < MatchesFrom(s, from)[0].start {
      NothingBefore(s, from, m.start);
    }
  }

  /** The search's first report is what the pattern finds where that report starts. */
  lemma {:induction false} MatchesFirstFound(s: string, from: nat)
    requires from <= |s| && MatchesFrom(s, from) != []
    ensures ImageAt(s, MatchesFrom(s, from)[0].start) == Some(MatchesFrom(s, from)[0])
    decreases |s| - from
  {
    if ImageAt(s, from).None? {
      MatchesSkip(s, from);
      MatchesFirstFound(s, from + 1);
    } else {
      MatchesHead(s, from);
    }
  }

  /** A captured URL stays inside its parentheses and on its line. */
  predicate CleanUrl(u: string) {
    forall k :: 0 <= k < |u| ==> u[k] != ')' && !IsLineTerminator(u[k])
  }

  /** Captured URLs of the matches, skipping empty captures (`if (imageUrl)`). */
  function NonEmptyUrls(s: string, ms: seq<ImageMatch>): (urls: seq<string>)
    requires forall i :: 0 <= i < |ms| ==> IsImageMatch(s, ms[i])
    ensures |urls| <= |ms|
    ensures forall i :: 0 <= i < |urls| ==> urls[i] != [] && CleanUrl(urls[i])
  {
    if ms == [] then []
    else
      var u := Url(s, ms[0]);
      var rest := NonEmptyUrls(s, ms[1..]);
      if u == [] then rest else [u] + rest
  }

  /** The image URLs `checkMDNoAccessIssues` collects, in encounter order. */
  function ImageUrls(s: string): (urls: seq<string>)
    ensures forall i :: 0 <= i < |urls| ==> urls[i] != [] && CleanUrl(urls[i])
  {
    NonEmptyUrls(s, MatchesFrom(s, 0))
  }

  /**
   * The first URL collected is that of the leftmost image in the text, taken
   * with its earliest `](`, unless that URL is empty.
   */
  lemma {:induction false} ImageUrlsFirst(s: string, m: ImageMatch)
    requires IsImageMatch(s, m)
    requires forall m' :: IsImageMatch(s, m') ==> m.start < m'.start || (m.start == m'.start && m.close <= m'.close)
    ensures Url(s, m) != [] ==> ImageUrls(s) != [] && ImageUrls(s)[0] == Url(s, m)
  {
    var ms := MatchesFrom(s, 0);
    MatchesLeftmost(s, 0, m);
    MatchesFirstFound(s, 0);
    ImageAtComplete(s, m);
    var f := ImageAt(s, m.start).value;
    assert ms[0].start == m.start && ms[0] == f;
    assert f.close == m.close;
    CloseAtParen(s, m.close + 2, m.end);
    assert f == m;
    assert ms == [ms[0]] + ms[1..];
  }

  /**
   * One occurrence of `/!\[\](\([^)]+\))/`: `![](`, at least one character
   * other than `)` (line terminators included), then `)`.
   */
  predicate EmptyAltAt(s: string, p: nat) {
    p + 5 <= |s| && s[p..p + 4] == "![](" && s[p + 4] != ')' && ')' in s[p + 5..]
  }

  /** Search for an empty-alt image from `p` on. */
  function EmptyAltFrom(s: string, p: nat): bool
    requires p <= |s|
    decreases |s| - p
  {
    if p == |s| then false else EmptyAltAt(s, p) || EmptyAltFrom(s, p + 1)
  }

  /** `imageNoAltRegex.test(mdString)`. */
  function HasEmptyAltImage(s: string): bool {
    EmptyAltFrom(s, 0)
  }

  lemma {:induction false} EmptyAltFromSpec(s: string, p: nat)
    requires p <= |s|
    ensures EmptyAltFrom(s, p) <==> exists q :: p <= q < |s| && EmptyAltAt(s, q)
    decreases |s| - p
  {
    if p < |s| {
      EmptyAltFromSpec(s, p + 1);
      if EmptyAltFrom(s, p + 1) {
        var q :| p + 1 <= q < |s| && EmptyAltAt(s, q);
        assert p <= q < |s| && EmptyAltAt(s, q);
      }
    }
  }

  /** The empty-alt test holds exactly when some position starts an empty-alt image. */
  lemma {:induction false} HasEmptyAltImageSpec(s: string)
    ensures HasEmptyAltImage(s) <==> exists q :: 0 <= q < |s| && EmptyAltAt(s, q)
  {
    EmptyAltFromSpec(s, 0);
  }

  /** An `<img>` element as the HTML parser delivers it: its `src` and its `alt` attribute, if any. */
  datatype HtmlImage = HtmlImage(src: string, alt: Option<string>)

  /**
   * The per-image analyses the checks run on a URL: the string the
   * transparency promise resolves to and the one the text-contrast promise
   * resolves to.
   */
  datatype Analysis = Analysis(transparency: string -> string, contrast: string -> string)

  predicate LacksAlt(img: HtmlImage) {
    img.alt.None? || img.alt.value == ""
  }

  /** One `"Alt"` per image without an alt text, in document order. */
  function HtmlAltIssues(imgs: seq<HtmlImage>): (r: seq<string>)
    ensures |r| <= |imgs|
    ensures forall i :: 0 <= i < |r| ==> r[i] == "Alt"
  {
    if imgs == [] then []
    else (if LacksAlt(imgs[0]) then ["Alt"] else []) + HtmlAltIssues(imgs[1..])
  }

  /** Number of images without an alt text. */
  function CountLacking(imgs: seq<HtmlImage>): nat {
    if imgs == [] then 0 else (if LacksAlt(imgs[0]) then 1 else 0) + CountLacking(imgs[1..])
  }

  lemma {:induction false} HtmlAltIssuesCount(imgs: seq<HtmlImage>)
    ensures |HtmlAltIssues(imgs)| == CountLacking(imgs)
  {
    if imgs != [] {
      HtmlAltIssuesCount(imgs[1..]);
    }
  }

  /** The HTML check reports one `"Alt"` per image without alt text, given that the analyses never return `"Alt"`. */
  lemma {:induction false} HtmlAltCount(imgs: seq<HtmlImage>, an: Analysis)
    requires forall u :: an.transparency(u) != "Alt" && an.contrast(u) != "Alt"
    ensures Count(CheckHtml(imgs, an), "Alt") == CountLacking(imgs)
  {
    var a := HtmlAltIssues(imgs);
    var srcs := Sources(imgs);
    var t := Results(an.transparency, srcs);
    var c := Results(an.contrast, srcs);
    HtmlAltIssuesCount(imgs);
    CountAllSame(a, "Alt");
    CountAbsent(t, "Alt");
    CountAbsent(c, "Alt");
    CountAppend(a, t, "Alt");
    CountAppend(a + t, c, "Alt");
  }

  lemma {:induction false} CountAllSame(xs: seq<string>, x: string)
    requires forall i :: 0 <= i < |xs| ==> xs[i] == x
    ensures Count(xs, x) == |xs|
  {
    if xs != [] {
      CountAllSame(xs[1..], x);
    }
  }

  function Sources(imgs: seq<HtmlImage>): (r: seq<string>)
    ensures |r| == |imgs|
    ensures forall i :: 0 <= i < |r| ==> r[i] == imgs[i].src
  {
    seq(|imgs|, i requires 0 <= i < |imgs| => imgs[i].src)
  }

  /** Every URL's result under one analysis, in URL order (`Promise.all` keeps the order). */
  function Results(f: string -> string, urls: seq<string>): (r: seq<string>)
    ensures |r| == |urls|
    ensures forall i :: 0 <= i < |r| ==> r[i] == f(urls[i])
  {
    seq(|urls|, i requires 0 <= i < |urls| => f(urls[i]))
  }

  /** `checkHtmlNoAccessIssues`: the alt issues, then all transparency results, then all contrast results. */
  function CheckHtml(imgs: seq<HtmlImage>, an: Analysis): (r: seq<string>)
    ensures |r| == |HtmlAltIssues(imgs)| + 2 * |imgs|
    ensures r[..|HtmlAltIssues(imgs)|] == HtmlAltIssues(imgs)
    ensures forall i :: 0 <= i < |imgs| ==> r[|HtmlAltIssues(imgs)| + i] == an.transparency(imgs[i].src)
    ensures forall i :: 0 <= i < |imgs| ==> r[|HtmlAltIssues(imgs)| + |imgs| + i] == an.contrast(imgs[i].src)
  {
    var srcs := Sources(imgs);
    HtmlAltIssues(imgs) + Results(an.transparency, srcs) + Results(an.contrast, srcs)
  }

  /** The `"Alt"` issue the markdown check reports: once, and only when some image has an empty alt text. */
  function MdAltIssue(s: string): seq<string> {
    if HasEmptyAltImage(s) then ["Alt"] else []
  }

  /** The markdown check's report for an alt flag and the collected URLs: the alt issue, the transparency results, the contrast results. */
  function MdReport(alt: seq<string>, urls: seq<string>, an: Analysis): (r: seq<string>)
    ensures |r| == |alt| + 2 * |urls|
    ensures r[..|alt|] == alt
    ensures forall i :: 0 <= i < |urls| ==> r[|alt| + i] == an.transparency(urls[i])
    ensures forall i :: 0 <= i < |urls| ==> r[|alt| + |urls| + i] == an.contrast(urls[i])
  {
    alt + Results(an.transparency, urls) + Results(an.contrast, urls)
  }

  /** `checkMDNoAccessIssues`. */
  function CheckMd(s: string, an: Analysis): seq<string> {
    MdReport(MdAltIssue(s), ImageUrls(s), an)
  }

  /** Number of occurrences of `x` in `xs`. */
  function Count(xs: seq<string>, x: string): nat {
    if xs == [] then 0 else (if xs[0] == x then 1 else 0) + Count(xs[1..], x)
  }

  lemma {:induction false} CountAppend(a: seq<string>, b: seq<string>, x: string)
    ensures Count(a + b, x) == Count(a, x) + Count(b, x)
  {
    if a != [] {
      CountAppend(a[1..], b, x);
      assert (a + b)[0] == a[0];
      assert (a + b)[1..] == a[1..] + b;
    } else {
      assert a + b == b;
    }
  }

  lemma {:induction false} CountAbsent(xs: seq<string>, x: string)
    requires forall i :: 0 <= i < |xs| ==> xs[i] != x
    ensures Count(xs, x) == 0
  {
    if xs != [] {
      CountAbsent(xs[1..], x);
    }
  }

  /**
   * However many images without alt text a markdown cell holds, the markdown
   * check reports `"Alt"` at most once, provided the analyses never answer
   * `"Alt"` themselves.
   */
  lemma {:induction false} MdAltAtMostOnce(s: string, an: Analysis)
    requires forall u :: an.transparency(u) != "Alt" && an.contrast(u) != "Alt"
    ensures Count(CheckMd(s, an), "Alt") == (if HasEmptyAltImage(s) then 1 else 0)
  {
    var urls := ImageUrls(s);
    var head := MdAltIssue(s);
    var t := Results(an.transparency, urls);
    var c := Results(an.contrast, urls);
    CountAbsent(t, "Alt");
    CountAbsent(c, "Alt");
    CountAppend(head + t, c, "Alt");
    CountAppend(head, t, "Alt");
    if HasEmptyAltImage(s) {
      assert Count(head, "Alt") == 1 by {
        assert head[1..] == [];
      }
    }
  }

  /** A markdown cell's issues: the HTML check's, then the markdown check's (`htmlNoAlt.concat(markdownNoAlt)`). */
  function MarkdownCellIssues(source: string, imgs: seq<HtmlImage>, an: Analysis): (r: seq<string>)
    ensures |r| == |CheckHtml(imgs, an)| + |CheckMd(source, an)|
    ensures r[..|CheckHtml(imgs, an)|] == CheckHtml(imgs, an)
    ensures r[|CheckHtml(imgs, an)|..] == CheckMd(source, an)
  {
    CheckHtml(imgs, an) + CheckMd(source, an)
  }

  lemma {:induction false} CloseAtIs(s: string, k: nat, e: nat)
    requires k <= e < |s| && s[e] == ')'
    requires forall m :: k <= m < e ==> s[m] != ')' && !IsLineTerminator(s[m])
    ensures CloseAt(s, k) == e
    decreases e - k
  {
    if k < e {
      CloseAtIs(s, k + 1, e);
    }
  }

  lemma {:induction false} LinkFromIs(s: string, k: nat, j: nat)
    requires k <= j <= |s| && LinkTailAt(s, j)
    requires forall m :: k <= m < j ==> !IsLineTerminator(s[m]) && !LinkTailAt(s, m)
    ensures LinkFrom(s, k) == Some(j)
    decreases j - k
  {
    if k < j {
      LinkFromIs(s, k + 1, j);
    }
  }

  /** `![](pic.png)` is reported as missing its alt text and its URL is collected. */
  lemma {:induction false} EmptyAltExample()
    ensures HasEmptyAltImage("![](pic.png)")
    ensures ImageUrls("![](pic.png)") == ["pic.png"]
  {
    EmptyAltHit();
    var s := "![](pic.png)";
    var m := ImageMatch(0, 2, 11);
    EmptyAltMatch();
    SingleMatch(s, m);
    assert Url(s, m) == "pic.png";
  }

  lemma {:induction false} EmptyAltHit()
    ensures HasEmptyAltImage("![](pic.png)")
  {
    var s := "![](pic.png)";
    assert EmptyAltAt(s, 0) by {
      assert s[0..4] == "![](";
      assert s[5..][6] == ')';
    }
    HasEmptyAltImageSpec(s);
  }

  lemma {:induction false} EmptyAltMatch()
    ensures ImageAt("![](pic.png)", 0) == Some(ImageMatch(0, 2, 11))
  {
    var s := "![](pic.png)";
    CloseAtIs(s, 4, 11);
    LinkFromIs(s, 2, 2);
  }

  /** A text whose only image runs from its first to its last character collects that image's URL, when non-empty. */
  lemma {:induction false} SingleMatch(s: string, m: ImageMatch)
    requires m.end + 1 == |s|
    requires ImageAt(s, 0) == Some(m)
    ensures ImageUrls(s) == if Url(s, m) == [] then [] else [Url(s, m)]
  {
    MatchesHead(s, 0);
    assert MatchesFrom(s, m.end + 1) == [];
    var ms := [m];
    assert ms[1..] == [];
  }

  lemma {:induction false} NoEmptyAltInPhoto()
    ensures !HasEmptyAltImage("![a photo](pic.png)")
  {
    var s := "![a photo](pic.png)";
    forall q | 0 <= q < |s|
      ensures !EmptyAltAt(s, q)
    {
      EmptyAltStart(s, q);
    }
    HasEmptyAltImageSpec(s);
  }

  lemma {:induction false} EmptyAltStart(s: string, q: nat)
    ensures EmptyAltAt(s, q) ==> s[q] == '!' && s[q + 2] == ']'
  {
    if EmptyAltAt(s, q) {
      assert s[q..q + 4][0] == s[q];
      assert s[q..q + 4][2] == s[q + 2];
    }
  }

  lemma {:induction false} PhotoLink()
    ensures LinkFrom("![a photo](pic.png)", 2) == Some(9)
    ensures CloseAt("![a photo](pic.png)", 11) == 18
  {
    var s := "![a photo](pic.png)";
    CloseAtIs(s, 11, 18);
    forall m | 2 <= m < 9
      ensures !IsLineTerminator(s[m]) && !LinkTailAt(s, m)
    {
    }
    LinkFromIs(s, 2, 9);
  }

  /** `![a photo](pic.png)` is not reported, yet its URL is collected. */
  lemma {:induction false} AltPresentExample()
    ensures !HasEmptyAltImage("![a photo](pic.png)")
    ensures ImageUrls("![a photo](pic.png)") == ["pic.png"]
  {
    NoEmptyAltInPhoto();
    PhotoUrls();
  }

  lemma {:induction false} PhotoUrls()
    ensures ImageUrls("![a photo](pic.png)") == ["pic.png"]
  {
    var s := "![a photo](pic.png)";
    var m := ImageMatch(0, 9, 18);
    PhotoMatch();
    SingleMatch(s, m);
    assert Url(s, m) == "pic.png";
  }

  lemma {:induction false} PhotoMatch()
    ensures ImageAt("![a photo](pic.png)", 0) == Some(ImageMatch(0, 9, 18))
  {
    PhotoLink();
  }
}
