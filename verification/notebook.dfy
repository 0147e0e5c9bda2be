/**
 * One run of `checkAllCells` over a notebook, on its synchronous path (the
 * content-changed re-check, where no image analysis is awaited), followed by
 * the missing-h1 rule and the prune; and the "Add h1 Header" action that
 * inserts a level-1 heading cell.
 */
module Notebook {
  import opened Wrappers
  import opened JsText
  import opened Cells
  import opened Headings
  import opened Outline
  import opened Issues
  import opened Registry
  import opened ImageScan

  /** The headings of one cell, tagged with the cell. */
  function Located(hs: seq<Heading>, c: CellId): (r: seq<LocatedHeading>)
    ensures |r| == |hs|
    ensures forall i :: 0 <= i < |r| ==> r[i] == LocatedHeading(hs[i].level, hs[i].text, c)
  {
    if hs == [] then [] else [LocatedHeading(hs[0].level, hs[0].text, c)] + Located(hs[1..], c)
  }

  /** Every heading of the notebook, cell by cell, as the enabled pass collects them. */
  function AllHeadings(cells: seq<Cell>): seq<LocatedHeading>
    decreases |cells|
  {
    if cells == [] then []
    else
      var last := cells[|cells| - 1];
      AllHeadings(cells[..|cells| - 1])
      + Located(OwnHeadings(last), last.id)
  }

  /** The headings the pass reads from a cell: those of a markdown cell's source, none for other cells. */
  function OwnHeadings(cell: Cell): seq<Heading> {
    if cell.kind == Markdown then CellHeadings(cell.source) else []
  }

  /** A markdown cell holding a level-1 heading. */
  predicate CellHasH1(cell: Cell) {
    exists j :: 0 <= j < |OwnHeadings(cell)| && OwnHeadings(cell)[j].level == 1
  }

  /** Some markdown cell holds a level-1 heading. */
  predicate HasH1(cells: seq<Cell>) {
    exists i :: 0 <= i < |cells| && CellHasH1(cells[i])
  }

  lemma {:induction false} HasH1Split(cells: seq<Cell>)
    requires cells != []
    ensures HasH1(cells) <==> HasH1(cells[..|cells| - 1]) || CellHasH1(cells[|cells| - 1])
  {
    var n := |cells| - 1;
    var init := cells[..n];
    if HasH1(cells) {
      var i :| 0 <= i < |cells| && CellHasH1(cells[i]);
      if i < n {
        assert init[i] == cells[i];
        assert HasH1(init);
      } else {
        assert i == n;
      }
    }
    if HasH1(init) {
      var i :| 0 <= i < n && CellHasH1(init[i]);
      assert cells[i] == init[i];
      assert HasH1(cells);
    }
    if CellHasH1(cells[n]) {
      assert HasH1(cells);
    }
  }

  /** The state the pass threads through the cells: the sidebar, `headingsMap` and `h1Exists`. */
  datatype Pass = Pass(sidebar: Sidebar, headings: seq<LocatedHeading>, h1: bool)

  /** One heading error: the cell is cleared, then given the error's issue string. */
  function ApplyError(sb: Sidebar, e: HeadingError, nf: NumberFormat): Sidebar {
    ApplyVisualIndicator(ApplyVisualIndicator(sb, e.cell, [], nf), e.cell, [HeadingIssue(e)], nf)
  }

  /** The errors in order. */
  function ApplyErrors(sb: Sidebar, es: seq<HeadingError>, nf: NumberFormat): Sidebar
    decreases |es|
  {
    if es == [] then sb
    else ApplyError(ApplyErrors(sb, es[..|es| - 1], nf), es[|es| - 1], nf)
  }

  /** The last error reported against cell `c`, if any. */
  function LastErrorOf(es: seq<HeadingError>, c: CellId): (r: Option<HeadingError>)
    ensures r.Some? ==> r.value.cell == c && r.value in es
    ensures r.None? <==> forall i :: 0 <= i < |es| ==> es[i].cell != c
    decreases |es|
  {
    if es == [] then None
    else if es[|es| - 1].cell == c then Some(es[|es| - 1])
    else
      var r := LastErrorOf(es[..|es| - 1], c);
      assert forall i :: 0 <= i < |es| - 1 ==> es[..|es| - 1][i] == es[i];
      r
  }

  /** The message a heading error shows in the sidebar. */
  function ErrorMessage(e: HeadingError, nf: NumberFormat): (m: string)
    ensures Decoded([HeadingIssue(e)], nf) == [m]
  {
    HeadingAlwaysReported(e, nf);
    DecodedSingle(HeadingIssue(e), nf);
    Decode(HeadingIssue(e), nf).value
  }

  /**
   * After the errors are applied, a cell with an error shows exactly the
   * message of its last error and carries the indicator; any other cell is
   * as it was.
   */
  lemma {:induction false} ApplyErrorsEffect(sb: Sidebar, es: seq<HeadingError>, nf: NumberFormat, c: CellId)
    ensures var r := ApplyErrors(sb, es, nf);
      match LastErrorOf(es, c)
      case Some(e) => Messages(ItemsOf(r.entries, c)) == [ErrorMessage(e, nf)] && c in r.marked
      case None => ItemsOf(r.entries, c) == ItemsOf(sb.entries, c) && (c in r.marked <==> c in sb.marked)
    decreases |es|
  {
    if es != [] {
      var prefix := es[..|es| - 1];
      var e := es[|es| - 1];
      ApplyErrorsEffect(sb, prefix, nf, c);
      var mid := ApplyErrors(sb, prefix, nf);
      var cleared := ApplyVisualIndicator(mid, e.cell, [], nf);
      var m := ErrorMessage(e, nf);
      if e.cell == c {
        assert Decoded([HeadingIssue(e)], nf) == [m];
      } else {
        assert ItemsOf(cleared.entries, c) == ItemsOf(mid.entries, c);
      }
    }
  }

  /** The handling of one cell: heading collection and validation when enabled, a reset otherwise. */
  function VisitCell(p: Pass, cell: Cell, enabled: bool, nf: NumberFormat): Pass {
    if enabled then
      var own := OwnHeadings(cell);
      var hs := p.headings + Located(own, cell.id);
      var sb := if |hs| > 0 then ApplyErrors(p.sidebar, OutlineErrors(hs), nf) else p.sidebar;
      Pass(sb, hs, H1Exists(p.h1, own))
    else
      Pass(ApplyVisualIndicator(p.sidebar, cell.id, [], nf), p.headings, p.h1)
  }

  /** The `forEach` over the cells, in order. */
  function VisitAll(p: Pass, cells: seq<Cell>, enabled: bool, nf: NumberFormat): Pass
    decreases |cells|
  {
    if cells == [] then p
    else VisitCell(VisitAll(p, cells[..|cells| - 1], enabled, nf), cells[|cells| - 1], enabled, nf)
  }

  /** The index of the first markdown cell, if there is one. */
  function FirstMarkdown(cells: seq<Cell>): (r: Option<nat>)
    ensures r.Some? ==> r.value < |cells| && cells[r.value].kind == Markdown
    ensures r.Some? ==> forall i :: 0 <= i < r.value ==> cells[i].kind != Markdown
    ensures r.None? ==> forall i :: 0 <= i < |cells| ==> cells[i].kind != Markdown
  {
    if cells == [] then None
    else if cells[0].kind == Markdown then Some(0)
    else match FirstMarkdown(cells[1..])
      case Some(i) => Some(i + 1)
      case None => None
  }

  /** The missing-h1 rule: without an h1, the first markdown cell is given the `"h1 header"` issue. */
  function MissingH1Rule(sb: Sidebar, cells: seq<Cell>, h1: bool, nf: NumberFormat): Sidebar {
    if h1 then sb
    else match FirstMarkdown(cells)
      case Some(i) => ApplyVisualIndicator(sb, cells[i].id, [H1Issue], nf)
      case None => sb
  }

  /**
   * `checkAllCells`: the pass over the cells, the missing-h1 rule, and the
   * prune to the cells of the open notebook.
   */
  function CheckAllCells(sb: Sidebar, cells: seq<Cell>, open: seq<CellId>, enabled: bool, nf: NumberFormat): Sidebar {
    var p := VisitAll(Pass(sb, [], false), cells, enabled, nf);
    var ruled := MissingH1Rule(p.sidebar, cells, p.h1, nf);
    Sidebar(Visible(ruled.entries, open), ruled.marked)
  }

  /**
   * The enabled pass collects every heading of every markdown cell in cell
   * order, and its `h1Exists` flag ends true exactly when one of them has
   * level 1; the disabled pass collects nothing.
   */
  lemma {:induction false} PassCollects(sb: Sidebar, cells: seq<Cell>, enabled: bool, nf: NumberFormat)
    ensures var p := VisitAll(Pass(sb, [], false), cells, enabled, nf);
      && (enabled ==> p.headings == AllHeadings(cells) && (p.h1 <==> HasH1(cells)))
      && (!enabled ==> p.headings == [] && !p.h1)
    decreases |cells|
  {
    if cells != [] {
      var init := cells[..|cells| - 1];
      var last := cells[|cells| - 1];
      PassCollects(sb, init, enabled, nf);
      if enabled {
        var p := VisitAll(Pass(sb, [], false), init, enabled, nf);
        H1ExistsSpec(p.h1, OwnHeadings(last));
        HasH1Split(cells);
      }
    }
  }

  /**
   * Every cell of an outline error that is still open ends showing exactly
   * the message of its last error, with the indicator on, unless it is the
   * first markdown cell of a notebook without an h1, which the missing-h1
   * rule marks afterwards.
   */
  lemma {:induction false} HeadingErrorsShown(sb: Sidebar, cells: seq<Cell>, open: seq<CellId>, nf: NumberFormat, c: CellId, e: HeadingError)
    requires LastErrorOf(OutlineErrors(AllHeadings(cells)), c) == Some(e)
    requires c in open
    requires HasH1(cells) || FirstMarkdown(cells).None? || cells[FirstMarkdown(cells).value].id != c
    ensures var r := CheckAllCells(sb, cells, open, true, nf);
      Messages(ItemsOf(r.entries, c)) == [ErrorMessage(e, nf)] && c in r.marked
  {
    var all := AllHeadings(cells);
    var errors := OutlineErrors(all);
    assert |all| > 0 by {
      assert |errors| <= |all|;
    }
    var before := LastVisitApplies(sb, cells, nf);
    var p := VisitAll(Pass(sb, [], false), cells, true, nf);
    ApplyErrorsEffect(before, errors, nf, c);
    PassCollects(sb, cells, true, nf);
    RuleSpares(p.sidebar, cells, p.h1, nf, c);
  }

  /** The missing-h1 rule leaves every cell but the first markdown one alone, and every cell when an h1 was found. */
  lemma {:induction false} RuleSpares(sb: Sidebar, cells: seq<Cell>, h1: bool, nf: NumberFormat, c: CellId)
    requires h1 || FirstMarkdown(cells).None? || cells[FirstMarkdown(cells).value].id != c
    ensures ItemsOf(MissingH1Rule(sb, cells, h1, nf).entries, c) == ItemsOf(sb.entries, c)
    ensures c in MissingH1Rule(sb, cells, h1, nf).marked <==> c in sb.marked
  {
  }

  /**
   * Heading validation re-runs after every cell, so the enabled pass ends
   * with the whole notebook's errors applied to the state before the last cell.
   */
  lemma {:induction false} LastVisitApplies(sb: Sidebar, cells: seq<Cell>, nf: NumberFormat) returns (before: Sidebar)
    requires |AllHeadings(cells)| > 0
    ensures VisitAll(Pass(sb, [], false), cells, true, nf).sidebar
      == ApplyErrors(before, OutlineErrors(AllHeadings(cells)), nf)
  {
    var init := cells[..|cells| - 1];
    PassCollects(sb, init, true, nf);
    before := VisitAll(Pass(sb, [], false), init, true, nf).sidebar;
  }

  /**
   * With single-digit levels the shown message reads as the error it stands
   * for: "expecting h<expected>, got h<current>".
   */
  lemma {:induction false} SingleDigitErrorMessage(e: HeadingError, nf: NumberFormat)
    requires e.current < 10 && e.expected < 10
    ensures ErrorMessage(e, nf) == HeadingMessage(e.current, e.expected)
  {
    HeadingRoundTrip(e, nf);
  }

  /**
   * When no markdown cell holds a level-1 heading, the first markdown cell,
   * if open, ends showing exactly the missing-h1 message with the indicator
   * on, whether the checker is enabled or not.
   */
  lemma {:induction false} MissingH1Shown(sb: Sidebar, cells: seq<Cell>, open: seq<CellId>, enabled: bool, nf: NumberFormat, i: nat)
    requires FirstMarkdown(cells) == Some(i)
    requires enabled ==> !HasH1(cells)
    requires cells[i].id in open
    ensures var r := CheckAllCells(sb, cells, open, enabled, nf);
      Messages(ItemsOf(r.entries, cells[i].id)) == [H1Message] && cells[i].id in r.marked
  {
    PassCollects(sb, cells, enabled, nf);
    FixedIssues(nf);
    DecodedSingle(H1Issue, nf);
  }

  /**
   * When some markdown cell holds a level-1 heading, the enabled run's
   * missing-h1 rule changes nothing.
   */
  lemma {:induction false} H1PresentRuleIdle(sb: Sidebar, cells: seq<Cell>, nf: NumberFormat)
    requires HasH1(cells)
    ensures var p := VisitAll(Pass(sb, [], false), cells, true, nf);
      MissingH1Rule(p.sidebar, cells, p.h1, nf) == p.sidebar
  {
    PassCollects(sb, cells, true, nf);
  }

  /** The ids of the notebook's cells. */
  function IdsOf(cells: seq<Cell>): set<CellId> {
    set i | 0 <= i < |cells| :: cells[i].id
  }

  lemma {:induction false} IdsOfSplit(cells: seq<Cell>)
    requires cells != []
    ensures IdsOf(cells) == IdsOf(cells[..|cells| - 1]) + {cells[|cells| - 1].id}
  {
    var init := cells[..|cells| - 1];
    var ids, initIds := IdsOf(cells), IdsOf(init);
    forall k | k in ids
      ensures k in initIds + {cells[|cells| - 1].id}
    {
      var i :| 0 <= i < |cells| && cells[i].id == k;
      if i < |init| {
        assert init[i] == cells[i];
      }
    }
    forall k | k in initIds
      ensures k in ids
    {
      var i :| 0 <= i < |init| && init[i].id == k;
      assert cells[i] == init[i];
    }
  }

  /** The disabled pass leaves no entry and no indicator on any cell of the notebook. */
  lemma {:induction false} DisabledPassClears(sb: Sidebar, cells: seq<Cell>, nf: NumberFormat, c: CellId)
    ensures var p := VisitAll(Pass(sb, [], false), cells, false, nf);
      && (c in IdsOf(cells) ==> c !in p.sidebar.entries && c !in p.sidebar.marked)
      && (c !in IdsOf(cells) ==>
            ItemsOf(p.sidebar.entries, c) == ItemsOf(sb.entries, c) && (c in p.sidebar.marked <==> c in sb.marked))
    decreases |cells|
  {
    if cells != [] {
      var init := cells[..|cells| - 1];
      DisabledPassClears(sb, init, nf, c);
      ClearRemoves(VisitAll(Pass(sb, [], false), init, false, nf).sidebar, cells[|cells| - 1].id, nf);
      IdsOfSplit(cells);
    }
  }

  /**
   * After a disabled run, every open cell of the notebook other than the
   * first markdown cell has no entry and no indicator.
   */
  lemma {:induction false} DisabledRunClears(sb: Sidebar, cells: seq<Cell>, open: seq<CellId>, nf: NumberFormat, k: nat)
    requires k < |cells|
    requires FirstMarkdown(cells).Some? ==> cells[FirstMarkdown(cells).value].id != cells[k].id
    ensures var r := CheckAllCells(sb, cells, open, false, nf);
      cells[k].id !in r.entries && cells[k].id !in r.marked
  {
    DisabledPassClears(sb, cells, nf, cells[k].id);
    assert cells[k].id in IdsOf(cells);
    PassCollects(sb, cells, false, nf);
  }

  /** Every cell left in the registry belongs to the open notebook. */
  lemma {:induction false} OnlyOpenCellsListed(sb: Sidebar, cells: seq<Cell>, open: seq<CellId>, enabled: bool, nf: NumberFormat)
    ensures forall k :: k in CheckAllCells(sb, cells, open, enabled, nf).entries ==> k in open
  {
  }

  /**
   * The click handler of "Add h1 Header" and `addMissingH1HeaderMarkdownCell`:
   * a blank input is refused with an alert; otherwise a markdown cell
   * holding `"# "` and the trimmed text is inserted at index 0. The new
   * cell's id and the images a parser finds in its source come from outside.
   */
  function AddMissingH1(input: string, cells: seq<Cell>, freshId: CellId, images: seq<HtmlImage>): (r: Result<seq<Cell>, string>)
    ensures r.Failure? <==> forall k :: 0 <= k < |input| ==> IsWhiteSpace(input[k])
    ensures r.Success? ==> |r.value| == |cells| + 1 && r.value[1..] == cells
    ensures r.Success? ==> r.value[0].kind == Markdown && r.value[0].id == freshId
    ensures r.Success? ==> r.value[0].source == "# " + Trim(input)
  {
    var text := Trim(input);
    if text == [] then Failure("Please enter some text for the header.")
    else Success([Cell(freshId, Markdown, "# " + text, images, [])] + cells)
  }

  /** Once the h1 cell is inserted, the next enabled run finds an h1 and its missing-h1 rule stays idle. */
  lemma {:induction false} InsertedH1Satisfies(input: string, cells: seq<Cell>, freshId: CellId, images: seq<HtmlImage>, sb: Sidebar, nf: NumberFormat)
    requires AddMissingH1(input, cells, freshId, images).Success?
    ensures HasH1(AddMissingH1(input, cells, freshId, images).value)
    ensures var after := AddMissingH1(input, cells, freshId, images).value;
      VisitAll(Pass(sb, [], false), after, true, nf).h1
  {
    var after := AddMissingH1(input, cells, freshId, images).value;
    var t := Trim(input);
    HashSpaceOpensWithH1(t);
    H1ExistsSpec(false, CellHeadings("# " + t));
    assert after[0].source == "# " + t;
    assert OwnHeadings(after[0]) == CellHeadings("# " + t);
    assert CellHasH1(after[0]);
    assert HasH1(after) by {
      assert 0 < |after| && CellHasH1(after[0]);
    }
    PassCollects(sb, after, true, nf);
  }
}
