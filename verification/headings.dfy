/**
 * Heading extraction from a markdown cell's source, as `checkAllCells`
 * does it: the multiline markdown pattern `^(#+) \s*(.*)$` and the HTML
 * pattern `<h(\d+)>(.*?)<\/h\1>` (case-insensitive), each run as an
 * `exec` loop over the whole text.
 */
module Headings {
  import opened Wrappers
  import opened JsText

  /** A heading as extracted: its level and its trimmed text. */
  datatype Heading = Heading(level: nat, text: string)

  /** Whether `^` holds at `p` in multiline mode. */
  predicate LineStart(s: string, p: nat)
    requires p <= |s|
  {
    p == 0 || IsLineTerminator(s[p - 1])
  }

  /** Length of the run of `c` starting at `p`. */
  function RunOf(s: string, p: nat, c: char): (n: nat)
    requires p <= |s|
    ensures p + n <= |s|
    ensures forall k :: p <= k < p + n ==> s[k] == c
    ensures p + n < |s| ==> s[p + n] != c
    decreases |s| - p
  {
    if p == |s| || s[p] != c then 0 else 1 + RunOf(s, p + 1, c)
  }

  /** Length of the run of whitespace (`\s`) starting at `p`. */
  function SpaceRun(s: string, p: nat): (n: nat)
    requires p <= |s|
    ensures p + n <= |s|
    ensures forall k :: p <= k < p + n ==> IsWhiteSpace(s[k])
    ensures p + n < |s| ==> !IsWhiteSpace(s[p + n])
    decreases |s| - p
  {
    if p == |s| || !IsWhiteSpace(s[p]) then 0 else 1 + SpaceRun(s, p + 1)
  }

  /** Index of the first line terminator at or after `p`, or `|s|`: where `.*` and `$` stop. */
  function LineEnd(s: string, p: nat): (e: nat)
    requires p <= |s|
    ensures p <= e <= |s|
    ensures forall k :: p <= k < e ==> !IsLineTerminator(s[k])
    ensures e < |s| ==> IsLineTerminator(s[e])
    decreases |s| - p
  {
    if p == |s| || IsLineTerminator(s[p]) then p else LineEnd(s, p + 1)
  }

  /**
   * A markdown heading match: `level` hashes from `start`, the captured
   * text `s[textStart..end]`, and the match ends at `end`.
   */
  datatype MdMatch = MdMatch(start: nat, level: nat, textStart: nat, end: nat)

  /** What a markdown heading match is: a line start, hashes, one space, whitespace, then the rest of the line. */
  predicate IsMdMatch(s: string, m: MdMatch) {
    && m.start + m.level < m.textStart <= m.end <= |s|
    && m.level >= 1
    && LineStart(s, m.start)
    && (forall k :: m.start <= k < m.start + m.level ==> s[k] == '#')
    && s[m.start + m.level] == ' '
    && (forall k :: m.start + m.level < k < m.textStart ==> IsWhiteSpace(s[k]))
    && (m.textStart < |s| ==> !IsWhiteSpace(s[m.textStart]))
    && (forall k :: m.textStart <= k < m.end ==> !IsLineTerminator(s[k]))
    && (m.end < |s| ==> IsLineTerminator(s[m.end]))
  }

  /**
   * The markdown pattern tried at `p`: `#+` takes every hash (a shorter run
   * would leave a hash where the space must be), `\s*` takes all whitespace,
   * line terminators included, and `(.*)` the rest of that line.
   */
  function MdMatchAt(s: string, p: nat): (m: Option<MdMatch>)
    requires p <= |s|
    ensures m.Some? ==> IsMdMatch(s, m.value) && m.value.start == p
    ensures m.Some? ==> m.value.level == RunOf(s, p, '#')
  {
    var n := RunOf(s, p, '#');
    if LineStart(s, p) && n >= 1 && p + n < |s| && s[p + n] == ' ' then
      var a := p + n + 1 + SpaceRun(s, p + n + 1);
      Some(MdMatch(p, n, a, LineEnd(s, a)))
    else None
  }

  /** The `exec` loop of the markdown pattern from `lastIndex = from`. */
  function MdMatchesFrom(s: string, from: nat): (ms: seq<MdMatch>)
    requires from <= |s|
    ensures forall i :: 0 <= i < |ms| ==> from <= ms[i].start && IsMdMatch(s, ms[i])
    ensures forall i :: 0 < i < |ms| ==> ms[i - 1].end <= ms[i].start
    decreases |s| - from
  {
    if from == |s| then []
    else
      match MdMatchAt(s, from)
      case Some(m) =>
        var rest := MdMatchesFrom(s, m.end);
        MdMatchesCons(s, from, m, rest);
        [m] + rest
      case None => MdMatchesFrom(s, from + 1)
  }

  /** A match followed by the matches after its end is an ordered list of matches. */
  lemma {:induction false} MdMatchesCons(s: string, from: nat, m: MdMatch, rest: seq<MdMatch>)
    requires from <= m.start && IsMdMatch(s, m)
    requires forall i :: 0 <= i < |rest| ==> m.end <= rest[i].start && IsMdMatch(s, rest[i])
    requires forall i :: 0 < i < |rest| ==> rest[i - 1].end <= rest[i].start
    ensures forall i :: 0 <= i < |[m] + rest| ==> from <= ([m] + rest)[i].start && IsMdMatch(s, ([m] + rest)[i])
    ensures forall i :: 0 < i < |[m] + rest| ==> ([m] + rest)[i - 1].end <= ([m] + rest)[i].start
  {
    assert forall i :: 0 < i <= |rest| ==> ([m] + rest)[i] == rest[i - 1];
  }

  /** The heading a markdown match records: the number of hashes and the trimmed capture. */
  function MdHeading(s: string, m: MdMatch): (h: Heading)
    requires IsMdMatch(s, m)
    ensures h.level == m.level >= 1
    ensures h.text != [] ==> !IsWhiteSpace(h.text[0]) && !IsWhiteSpace(h.text[|h.text| - 1])
    ensures forall k :: 0 <= k < |h.text| ==> !IsLineTerminator(h.text[k])
  {
    var t := s[m.textStart..m.end];
    var r := Trim(t);
    assert forall k :: 0 <= k < |t| ==> !IsLineTerminator(t[k]);
    assert forall k :: 0 <= k < |r| ==> r[k] == t[LeadingSpace(t) + k];
    Heading(m.level, r)
  }

  function MdHeadingsOf(s: string, ms: seq<MdMatch>): (hs: seq<Heading>)
    requires forall i :: 0 <= i < |ms| ==> IsMdMatch(s, ms[i])
    ensures |hs| == |ms|
    ensures forall i :: 0 <= i < |hs| ==> hs[i] == MdHeading(s, ms[i])
  {
    seq(|ms|, i requires 0 <= i < |ms| => MdHeading(s, ms[i]))
  }

  /** The markdown headings of a cell, in text order. */
  function MarkdownHeadings(s: string): (hs: seq<Heading>)
    ensures |hs| == |MdMatchesFrom(s, 0)|
    ensures forall i :: 0 <= i < |hs| ==> hs[i].level == MdMatchesFrom(s, 0)[i].level
  {
    MdHeadingsOf(s, MdMatchesFrom(s, 0))
  }

  /** An HTML heading match: `<h`, `digits` digits from `start + 2`, `>`, the text up to `close`, then the closing tag. */
  datatype HtmlMatch = HtmlMatch(start: nat, digits: nat, close: nat)

  predicate IsH(c: char) { c == 'h' || c == 'H' }

  /** Whether `</h` + `ds` + `>` starts at `k` (the back-reference `\1`, `h` in either case). */
  predicate ClosingTagAt(s: string, k: nat, ds: string) {
    k + |ds| + 4 <= |s| && s[k] == '<' && s[k + 1] == '/' && IsH(s[k + 2])
    && s[k + 3..k + 3 + |ds|] == ds && s[k + 3 + |ds|] == '>'
  }

  /** The lazy `(.*?)`: the first closing tag at or after `k`, looking no further than the line. */
  function ClosingFrom(s: string, k: nat, ds: string): (c: Option<nat>)
    requires k <= |s|
    ensures c.Some? ==> k <= c.value && ClosingTagAt(s, c.value, ds)
    ensures c.Some? ==> forall m :: k <= m < c.value ==> !IsLineTerminator(s[m])
    ensures c.Some? ==> forall m :: k <= m < c.value ==> !ClosingTagAt(s, m, ds)
    decreases |s| - k
  {
    if k == |s| || IsLineTerminator(s[k]) then None
    else if ClosingTagAt(s, k, ds) then Some(k)
    else ClosingFrom(s, k + 1, ds)
  }

  /** What an HTML heading match is. */
  predicate IsHtmlMatch(s: string, m: HtmlMatch) {
    && m.digits >= 1
    && m.start + m.digits + 3 <= m.close
    && m.close + m.digits + 4 <= |s|
    && s[m.start] == '<' && IsH(s[m.start + 1])
    && (forall k :: m.start + 2 <= k < m.start + 2 + m.digits ==> IsDigit(s[k]))
    && s[m.start + 2 + m.digits] == '>'
    && ClosingTagAt(s, m.close, s[m.start + 2..m.start + 2 + m.digits])
    && (forall k :: m.start + m.digits + 3 <= k < m.close ==> !IsLineTerminator(s[k]))
  }

  /** Length of the run of decimal digits starting at `p` (`\d+` is greedy; a shorter run leaves a digit where `>` must be). */
  function DigitRun(s: string, p: nat): (n: nat)
    requires p <= |s|
    ensures p + n <= |s|
    ensures forall k :: p <= k < p + n ==> IsDigit(s[k])
    ensures p + n < |s| ==> !IsDigit(s[p + n])
    decreases |s| - p
  {
    if p == |s| || !IsDigit(s[p]) then 0 else 1 + DigitRun(s, p + 1)
  }

  /** The HTML pattern tried at `p`. */
  function HtmlMatchAt(s: string, p: nat): (m: Option<HtmlMatch>)
    requires p <= |s|
    ensures m.Some? ==> IsHtmlMatch(s, m.value) && m.value.start == p
  {
    if p + 2 <= |s| && s[p] == '<' && IsH(s[p + 1]) then
      var d := DigitRun(s, p + 2);
      if d >= 1 && p + 2 + d < |s| && s[p + 2 + d] == '>' then
        match ClosingFrom(s, p + 3 + d, s[p + 2..p + 2 + d])
        case None => None
        case Some(c) => Some(HtmlMatch(p, d, c))
      else None
    else None
  }

  /** Index just past the closing tag of an HTML match: where the next search starts. */
  function HtmlEnd(m: HtmlMatch): nat {
    m.close + m.digits + 4
  }

  /** The `exec` loop of the HTML pattern from `lastIndex = from`. */
  function HtmlMatchesFrom(s: string, from: nat): (ms: seq<HtmlMatch>)
    requires from <= |s|
    ensures forall i :: 0 <= i < |ms| ==> from <= ms[i].start && IsHtmlMatch(s, ms[i])
    ensures forall i :: 0 < i < |ms| ==> HtmlEnd(ms[i - 1]) <= ms[i].start
    decreases |s| - from
  {
    if from == |s| then []
    else
      match HtmlMatchAt(s, from)
      case Some(m) =>
        assert m.close + m.digits + 4 <= |s| && from < m.close;
        var rest := HtmlMatchesFrom(s, HtmlEnd(m));
        HtmlMatchesCons(s, from, m, rest);
        [m] + rest
      case None => HtmlMatchesFrom(s, from + 1)
  }

  /** A match followed by the matches after its closing tag is an ordered list of matches. */
  lemma {:induction false} HtmlMatchesCons(s: string, from: nat, m: HtmlMatch, rest: seq<HtmlMatch>)
    requires from <= m.start && IsHtmlMatch(s, m)
    requires forall i :: 0 <= i < |rest| ==> HtmlEnd(m) <= rest[i].start && IsHtmlMatch(s, rest[i])
    requires forall i :: 0 < i < |rest| ==> HtmlEnd(rest[i - 1]) <= rest[i].start
    ensures forall i :: 0 <= i < |[m] + rest| ==> from <= ([m] + rest)[i].start && IsHtmlMatch(s, ([m] + rest)[i])
    ensures forall i :: 0 < i < |[m] + rest| ==> HtmlEnd(([m] + rest)[i - 1]) <= ([m] + rest)[i].start
  {
    assert forall i :: 0 < i <= |rest| ==> ([m] + rest)[i] == rest[i - 1];
  }

  /** A match at `from` is the first one the markdown search reports. */
  lemma {:induction false} MdMatchesHead(s: string, from: nat)
    requires from < |s| && MdMatchAt(s, from).Some?
    ensures MdMatchesFrom(s, from) != [] && MdMatchesFrom(s, from)[0].start == from
  {
  }

  /** The markdown search moves past a position where nothing matches. */
  lemma {:induction false} MdMatchesSkip(s: string, from: nat)
    requires from < |s| && MdMatchAt(s, from).None?
    ensures MdMatchesFrom(s, from) == MdMatchesFrom(s, from + 1)
  {
  }

  /** Position `q` lies before the first match the search from `from` reports (or there is none). */
  predicate MdPrecedes(s: string, from: nat, q: nat)
    requires from <= |s|
  {
    MdMatchesFrom(s, from) == [] || q < MdMatchesFrom(s, from)[0].start
  }

  /** The pattern finds nothing at any position before the first match the markdown search reports. */
  lemma {:induction false} MdNothingBefore(s: string, from: nat, q: nat)
    requires from <= q < |s|
    requires MdPrecedes(s, from, q)
    ensures MdMatchAt(s, q).None?
    decreases q - from
  {
    if q == from {
      MdMatchesFirst(s, q);
    } else {
      MdMatchesStep(s, from, q);
      MdNothingBefore(s, from + 1, q);
    }
  }

  /**
   * The markdown search skips no heading: its first report starts no later
   * than any markdown heading match from `from` on.
   */
  lemma {:induction false} MdMatchesLeftmost(s: string, from: nat, m: MdMatch)
    requires from <= m.start && IsMdMatch(s, m)
    ensures MdMatchesFrom(s, from) != [] && MdMatchesFrom(s, from)[0].start <= m.start
  {
    MdMatchComplete(s, m);
    if MdPrecedes(s, from, m.start) {
      MdNothingBefore(s, from, m.start);
    }
  }

  /** A markdown heading match is what the pattern finds at its start: the start determines the rest. */
  lemma {:induction false} MdMatchComplete(s: string, m: MdMatch)
    requires IsMdMatch(s, m)
    ensures MdMatchAt(s, m.start) == Some(m)
  {
    var p, n := m.start, m.level;
    RunAt(s, p, n, '#');
    var b := p + n + 1;
    SpaceRunAt(s, b, m.textStart - b);
    LineEndAt(s, m.textStart, m.end);
    MdMatchAtFound(s, p, n, m.textStart, m.end);
  }

  /** The markdown pattern at `p` succeeds once its hash run, whitespace run and line end are known. */
  lemma {:induction false} MdMatchAtFound(s: string, p: nat, n: nat, a: nat, e: nat)
    requires p + n + 1 <= a <= |s| && LineStart(s, p) && s[p + n] == ' '
    requires n >= 1 && RunOf(s, p, '#') == n
    requires a == p + n + 1 + SpaceRun(s, p + n + 1) && LineEnd(s, a) == e
    ensures MdMatchAt(s, p) == Some(MdMatch(p, n, a, e))
  {
  }

  lemma {:induction false} MdMatchesFirst(s: string, q: nat)
    requires q < |s|
    requires MdPrecedes(s, q, q)
    ensures MdMatchAt(s, q).None?
  {
    if MdMatchAt(s, q).Some? {
      MdMatchesHead(s, q);
    }
  }

  lemma {:induction false} MdMatchesStep(s: string, from: nat, q: nat)
    requires from < q < |s|
    requires MdPrecedes(s, from, q)
    ensures MdPrecedes(s, from + 1, q)
  {
    if MdMatchAt(s, from).Some? {
      MdMatchesHead(s, from);
    } else {
      MdMatchesSkip(s, from);
    }
  }


  /** A match at `from` is the first one the HTML search reports. */
  lemma {:induction false} HtmlMatchesHead(s: string, from: nat)
    requires from < |s| && HtmlMatchAt(s, from).Some?
    ensures HtmlMatchesFrom(s, from) != [] && HtmlMatchesFrom(s, from)[0].start == from
  {
  }

  /** The HTML search moves past a position where nothing matches. */
  lemma {:induction false} HtmlMatchesSkip(s: string, from: nat)
    requires from < |s| && HtmlMatchAt(s, from).None?
    ensures HtmlMatchesFrom(s, from) == HtmlMatchesFrom(s, from + 1)
  {
  }

  /** Position `q` lies before the first match the search from `from` reports (or there is none). */
  predicate HtmlPrecedes(s: string, from: nat, q: nat)
    requires from <= |s|
  {
    HtmlMatchesFrom(s, from) == [] || q < HtmlMatchesFrom(s, from)[0].start
  }

  /** The pattern finds nothing at any position before the first match the HTML search reports. */
  lemma {:induction false} HtmlNothingBefore(s: string, from: nat, q: nat)
    requires from <= q < |s|
    requires HtmlPrecedes(s, from, q)
    ensures HtmlMatchAt(s, q).None?
    decreases q - from
  {
    if q == from {
      HtmlMatchesFirst(s, q);
    } else {
      HtmlMatchesStep(s, from, q);
      HtmlNothingBefore(s, from + 1, q);
    }
  }

  /**
   * The HTML search skips no heading: its first report starts no later than
   * any HTML heading match from `from` on.
   */
  lemma {:induction false} HtmlMatchesLeftmost(s: string, from: nat, m: HtmlMatch)
    requires from <= m.start && IsHtmlMatch(s, m)
    ensures HtmlMatchesFrom(s, from) != [] && HtmlMatchesFrom(s, from)[0].start <= m.start
  {
    HtmlMatchComplete(s, m);
    if HtmlPrecedes(s, from, m.start) {
      HtmlNothingBefore(s, from, m.start);
    }
  }

  /**
   * Wherever an HTML heading match starts, the pattern finds one there, with
   * the same digits and a closing tag no later than the match's.
   */
  lemma {:induction false} HtmlMatchComplete(s: string, m: HtmlMatch)
    requires IsHtmlMatch(s, m)
    ensures HtmlMatchAt(s, m.start).Some?
    ensures HtmlMatchAt(s, m.start).value.digits == m.digits
    ensures HtmlMatchAt(s, m.start).value.close <= m.close
  {
    var p, d := m.start, m.digits;
    DigitRunAt(s, p + 2, d);
    var ds := s[p + 2..p + 2 + d];
    ClosingFromComplete(s, p + 3 + d, ds, m.close);
    var c := ClosingFrom(s, p + 3 + d, ds);
    HtmlMatchAtFound(s, p, d, c.value);
  }

  /** The HTML pattern at `p` succeeds once its digit run, `>` and closing tag are known. */
  lemma {:induction false} HtmlMatchAtFound(s: string, p: nat, d: nat, c: nat)
    requires p + 2 + d < |s| && s[p] == '<' && IsH(s[p + 1]) && s[p + 2 + d] == '>'
    requires d >= 1 && DigitRun(s, p + 2) == d
    requires ClosingFrom(s, p + 3 + d, s[p + 2..p + 2 + d]) == Some(c)
    ensures HtmlMatchAt(s, p) == Some(HtmlMatch(p, d, c))
  {
  }

  /**
   * The lazy search for the closing tag finds one no later than any closing
   * tag on the same line; so when it finds none, the line has none.
   */
  lemma {:induction false} ClosingFromComplete(s: string, k: nat, ds: string, c: nat)
    requires k <= c && ClosingTagAt(s, c, ds)
    requires forall t :: k <= t < c ==> !IsLineTerminator(s[t])
    ensures ClosingFrom(s, k, ds).Some? && ClosingFrom(s, k, ds).value <= c
    decreases c - k
  {
    if !ClosingTagAt(s, k, ds) {
      ClosingFromComplete(s, k + 1, ds, c);
    }
  }

  lemma {:induction false} DigitRunAt(s: string, p: nat, n: nat)
    requires p + n < |s|
    requires forall k :: p <= k < p + n ==> IsDigit(s[k])
    requires !IsDigit(s[p + n])
    ensures DigitRun(s, p) == n
    decreases n
  {
    if n > 0 {
      DigitRunAt(s, p + 1, n - 1);
    }
  }

  lemma {:induction false} HtmlMatchesFirst(s: string, q: nat)
    requires q < |s|
    requires HtmlPrecedes(s, q, q)
    ensures HtmlMatchAt(s, q).None?
  {
    if HtmlMatchAt(s, q).Some? {
      HtmlMatchesHead(s, q);
    }
  }

  lemma {:induction false} HtmlMatchesStep(s: string, from: nat, q: nat)
    requires from < q < |s|
    requires HtmlPrecedes(s, from, q)
    ensures HtmlPrecedes(s, from + 1, q)
  {
    if HtmlMatchAt(s, from).Some? {
      HtmlMatchesHead(s, from);
    } else {
      HtmlMatchesSkip(s, from);
    }
  }


  /** The heading an HTML match records: `parseInt` of the captured digits and the trimmed inner text. */
  function HtmlHeading(s: string, m: HtmlMatch): (h: Heading)
    requires IsHtmlMatch(s, m)
    ensures h.level == DecimalValue(s[m.start + 2..m.start + 2 + m.digits])
    ensures h.text != [] ==> !IsWhiteSpace(h.text[0]) && !IsWhiteSpace(h.text[|h.text| - 1])
  {
    var ds := s[m.start + 2..m.start + 2 + m.digits];
    Heading(DecimalValue(ds), Trim(s[m.start + m.digits + 3..m.close]))
  }

  function HtmlHeadingsOf(s: string, ms: seq<HtmlMatch>): (hs: seq<Heading>)
    requires forall i :: 0 <= i < |ms| ==> IsHtmlMatch(s, ms[i])
    ensures |hs| == |ms|
    ensures forall i :: 0 <= i < |hs| ==> hs[i] == HtmlHeading(s, ms[i])
  {
    seq(|ms|, i requires 0 <= i < |ms| => HtmlHeading(s, ms[i]))
  }

  /** The HTML headings of a cell, in text order. */
  function HtmlHeadings(s: string): (hs: seq<Heading>)
    ensures |hs| == |HtmlMatchesFrom(s, 0)|
  {
    HtmlHeadingsOf(s, HtmlMatchesFrom(s, 0))
  }

  /** A markdown cell's headings: all markdown ones, then all HTML ones. */
  function CellHeadings(s: string): seq<Heading> {
    MarkdownHeadings(s) + HtmlHeadings(s)
  }

  /** The `h1Exists` flag after a run of headings, set as each one is pushed. */
  function H1Exists(seen: bool, hs: seq<Heading>): bool
    decreases |hs|
  {
    if hs == [] then seen else H1Exists(seen || hs[0].level == 1, hs[1..])
  }

  /** The flag ends true exactly when it started true or some heading has level 1. */
  lemma {:induction false} H1ExistsSpec(seen: bool, hs: seq<Heading>)
    ensures H1Exists(seen, hs) <==> seen || exists i :: 0 <= i < |hs| && hs[i].level == 1
    decreases |hs|
  {
    if hs != [] {
      H1ExistsSpec(seen || hs[0].level == 1, hs[1..]);
      if exists i :: 0 <= i < |hs[1..]| && hs[1..][i].level == 1 {
        var i :| 0 <= i < |hs[1..]| && hs[1..][i].level == 1;
        assert hs[i + 1].level == 1;
      }
      if exists i :: 0 <= i < |hs| && hs[i].level == 1 {
        var i :| 0 <= i < |hs| && hs[i].level == 1;
        if i > 0 {
          assert hs[1..][i - 1].level == 1;
        }
      }
    }
  }

  /** A line start at `p`, a run of exactly `level` hashes, then a space. */
  predicate HashesAt(s: string, p: nat, level: nat) {
    p < |s| && LineStart(s, p) && level >= 1 && RunOf(s, p, '#') == level && p + level < |s| && s[p + level] == ' '
  }

  /**
   * Every markdown heading sits at a line start: its level is the length of
   * the hash run there, which a literal space follows.
   */
  lemma {:induction false} MarkdownHeadingShape(s: string, i: nat)
    requires i < |MarkdownHeadings(s)|
    ensures exists p: nat :: HashesAt(s, p, MarkdownHeadings(s)[i].level)
  {
    var m := MdMatchesFrom(s, 0)[i];
    MdMatchShape(s, m);
    assert HashesAt(s, m.start, MarkdownHeadings(s)[i].level);
  }

  lemma {:induction false} MdMatchShape(s: string, m: MdMatch)
    requires IsMdMatch(s, m)
    ensures HashesAt(s, m.start, m.level)
  {
    RunAt(s, m.start, m.level, '#');
  }

  lemma {:induction false} RunAt(s: string, p: nat, n: nat, c: char)
    requires p + n < |s|
    requires forall k :: p <= k < p + n ==> s[k] == c
    requires s[p + n] != c
    ensures RunOf(s, p, c) == n
    decreases n
  {
    if n > 0 {
      RunAt(s, p + 1, n - 1, c);
    }
  }

  lemma {:induction false} SpaceRunAt(s: string, p: nat, n: nat)
    requires p + n <= |s|
    requires forall k :: p <= k < p + n ==> IsWhiteSpace(s[k])
    requires p + n < |s| ==> !IsWhiteSpace(s[p + n])
    ensures SpaceRun(s, p) == n
    decreases n
  {
    if n > 0 {
      SpaceRunAt(s, p + 1, n - 1);
    }
  }

  lemma {:induction false} LineEndAt(s: string, p: nat, e: nat)
    requires p <= e <= |s|
    requires forall k :: p <= k < e ==> !IsLineTerminator(s[k])
    requires e < |s| ==> IsLineTerminator(s[e])
    ensures LineEnd(s, p) == e
    decreases e - p
  {
    if p < e {
      LineEndAt(s, p + 1, e);
    }
  }

  lemma {:induction false} NoMdMatch(s: string, from: nat)
    requires from <= |s|
    requires forall q :: from <= q < |s| ==> MdMatchAt(s, q).None?
    ensures MdMatchesFrom(s, from) == []
    decreases |s| - from
  {
    if from < |s| {
      NoMdMatch(s, from + 1);
    }
  }

  lemma {:induction false} NoHtmlMatch(s: string, from: nat)
    requires from <= |s|
    requires forall q :: from <= q < |s| ==> HtmlMatchAt(s, q).None?
    ensures HtmlMatchesFrom(s, from) == []
    decreases |s| - from
  {
    if from < |s| {
      NoHtmlMatch(s, from + 1);
    }
  }

  /** A text without `<` has no HTML heading. */
  lemma {:induction false} NoHtmlWithoutAngle(s: string)
    requires '<' !in s
    ensures HtmlHeadings(s) == []
  {
    NoHtmlMatch(s, 0);
  }

  /** A text without `#` has no markdown heading. */
  lemma {:induction false} NoMarkdownWithoutHash(s: string)
    requires '#' !in s
    ensures MarkdownHeadings(s) == []
  {
    forall q | 0 <= q < |s|
      ensures MdMatchAt(s, q).None?
    {
      RunAt(s, q, 0, '#');
    }
    NoMdMatch(s, 0);
  }

  /**
   * A cell whose source is `"# "` followed by anything opens with a level-1
   * heading: what the inserted cell of the missing-h1 action provides.
   */
  lemma {:induction false} HashSpaceOpensWithH1(t: string)
    ensures |MarkdownHeadings("# " + t)| >= 1
    ensures MarkdownHeadings("# " + t)[0].level == 1
    ensures H1Exists(false, CellHeadings("# " + t))
  {
    var s := "# " + t;
    RunAt(s, 0, 1, '#');
    var m := MdMatchAt(s, 0).value;
    assert MdMatchesFrom(s, 0) == [m] + MdMatchesFrom(s, m.end);
    var hs := CellHeadings(s);
    assert hs[0].level == 1;
    H1ExistsSpec(false, hs);
  }

  lemma {:induction false} TrimUntouched(t: string)
    requires t != [] && !IsWhiteSpace(t[0]) && !IsWhiteSpace(t[|t| - 1])
    ensures Trim(t) == t
  {
    assert LeadingSpace(t) == 0;
    assert TrailingStart(t) == |t|;
  }

  /** A text whose only markdown match starts at 0 and runs to the end has that one heading. */
  lemma {:induction false} SingleMdMatch(s: string, m: MdMatch)
    requires 0 < |s| && m.start == 0 && m.end == |s|
    requires MdMatchAt(s, 0) == Some(m)
    ensures MarkdownHeadings(s) == [MdHeading(s, m)]
  {
    assert MdMatchesFrom(s, 0) == [m];
  }

  /** `# Title` is one level-1 heading with text `Title`. */
  lemma {:induction false} TitleExample()
    ensures MarkdownHeadings("# Title") == [Heading(1, "Title")]
  {
    var s := "# Title";
    var m := MdMatch(0, 1, 2, 7);
    TitleMatch();
    SingleMdMatch(s, m);
    TitleText();
  }

  lemma {:induction false} TitleMatch()
    ensures MdMatchAt("# Title", 0) == Some(MdMatch(0, 1, 2, 7))
  {
    var s := "# Title";
    RunAt(s, 0, 1, '#');
    SpaceRunAt(s, 2, 0);
    LineEndAt(s, 2, 7);
  }

  lemma {:induction false} TitleText()
    ensures Trim("# Title"[2..7]) == "Title"
  {
    assert "# Title"[2..7] == "Title";
    TrimUntouched("Title");
  }

  /** Without the space after the hashes, `#Title` is no heading. */
  lemma {:induction false} NoSpaceExample()
    ensures MarkdownHeadings("#Title") == []
  {
    var s := "#Title";
    forall q | 0 <= q < |s|
      ensures MdMatchAt(s, q).None?
    {
      if q == 0 {
        RunAt(s, 0, 1, '#');
      }
    }
    NoMdMatch(s, 0);
  }

  /**
   * The `\s*` after the space also swallows a line break, so `"# "`, a line
   * break and `"## b"` give a single level-1 heading whose text is `## b`.
   */
  lemma {:induction false} EmptyHeadingSwallowsNextLine()
    ensures CellHeadings("# \n## b") == [Heading(1, "## b")]
  {
    SwallowedMarkdown();
    SwallowedNoHtml();
    assert [Heading(1, "## b")] + [] == [Heading(1, "## b")];
  }

  lemma {:induction false} SwallowedNoHtml()
    ensures HtmlHeadings("# \n## b") == []
  {
    var s := "# \n## b";
    assert forall k :: 0 <= k < |s| ==> s[k] != '<';
    NoHtmlWithoutAngle(s);
  }

  lemma {:induction false} SwallowedMarkdown()
    ensures MarkdownHeadings("# \n## b") == [Heading(1, "## b")]
  {
    var s := "# \n## b";
    var m := MdMatch(0, 1, 3, 7);
    SwallowedMatch();
    SingleMdMatch(s, m);
    SwallowedText();
  }

  lemma {:induction false} SwallowedMatch()
    ensures MdMatchAt("# \n## b", 0) == Some(MdMatch(0, 1, 3, 7))
  {
    var s := "# \n## b";
    RunAt(s, 0, 1, '#');
    SpaceRunAt(s, 2, 1);
    LineEndAt(s, 3, 7);
  }

  lemma {:induction false} SwallowedText()
    ensures Trim("# \n## b"[3..7]) == "## b"
  {
    assert "# \n## b"[3..7] == "## b";
    TrimUntouched("## b");
  }

  /** `<h2>Intro</h2>` is one level-2 heading with text `Intro`. */
  lemma {:induction false} HtmlExample()
    ensures HtmlHeadings("<h2>Intro</h2>") == [Heading(2, "Intro")]
  {
    var s := "<h2>Intro</h2>";
    var m := HtmlMatch(0, 1, 9);
    IntroMatches();
    IntroHeading();
    assert HtmlHeadingsOf(s, [m])[0] == HtmlHeading(s, m);
  }

  lemma {:induction false} IntroMatches()
    ensures HtmlMatchesFrom("<h2>Intro</h2>", 0) == [HtmlMatch(0, 1, 9)]
  {
    var s := "<h2>Intro</h2>";
    IntroMatch();
    assert HtmlMatchesFrom(s, 14) == [];
  }

  lemma {:induction false} IntroHeading()
    ensures IsHtmlMatch("<h2>Intro</h2>", HtmlMatch(0, 1, 9))
    ensures HtmlHeading("<h2>Intro</h2>", HtmlMatch(0, 1, 9)) == Heading(2, "Intro")
  {
    IntroMatch();
    IntroLevel();
    IntroText();
  }

  lemma {:induction false} IntroLevel()
    ensures "<h2>Intro</h2>"[2..3] == "2"
    ensures DecimalValue("2") == 2
  {
    assert "<h2>Intro</h2>"[2..3] == "2";
    assert DecimalValue("2") == DecimalValue([]) * 10 + DigitValue('2');
  }

  lemma {:induction false} IntroText()
    ensures Trim("<h2>Intro</h2>"[4..9]) == "Intro"
  {
    assert "<h2>Intro</h2>"[4..9] == "Intro";
    TrimUntouched("Intro");
  }

  lemma {:induction false} IntroMatch()
    ensures HtmlMatchAt("<h2>Intro</h2>", 0) == Some(HtmlMatch(0, 1, 9))
  {
    var s := "<h2>Intro</h2>";
    assert DigitRun(s, 2) == 1;
    var ds := s[2..3];
    assert ClosingTagAt(s, 9, ds) by {
      assert s[12..13] == ds;
    }
    assert ClosingFrom(s, 4, ds) == Some(9);
  }
}
