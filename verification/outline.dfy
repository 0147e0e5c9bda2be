/**
 * The heading outline validator of `checkAllCells`: one pass over the
 * collected headings with a running `previousLevel` and a `highestLevel`
 * fixed to the first heading's level.
 */
module Outline {
  import opened Wrappers
  import opened Cells

  /** An entry of the headings list: level, trimmed text and the cell it came from. */
  datatype LocatedHeading = LocatedHeading(level: nat, text: string, cell: CellId)

  /** A reported outline error: the cell, the level found and the level expected. */
  datatype HeadingError = HeadingError(cell: CellId, current: nat, expected: nat)

  /** The level `previousLevel` holds when heading `i` is examined. */
  function Previous(hs: seq<LocatedHeading>, i: nat): nat
    requires i < |hs|
  {
    if i == 0 then hs[0].level else hs[i - 1].level
  }

  /**
   * The verdict on heading `i`, from its neighbourhood alone: a jump of more
   * than one level below its predecessor, else a level above the first
   * heading's.
   */
  function ErrorAt(hs: seq<LocatedHeading>, i: nat): (e: Option<HeadingError>)
    requires i < |hs|
    ensures e.Some? ==> e.value.cell == hs[i].cell && e.value.current == hs[i].level
    ensures e.Some? ==> e.value.current != e.value.expected
  {
    var prev := Previous(hs, i);
    if hs[i].level > prev + 1 then Some(HeadingError(hs[i].cell, hs[i].level, prev + 1))
    else if hs[i].level < hs[0].level then Some(HeadingError(hs[i].cell, hs[i].level, hs[0].level))
    else None
  }

  /** The verdicts on the first `n` headings, in order. */
  function ErrorsBelow(hs: seq<LocatedHeading>, n: nat): (es: seq<HeadingError>)
    requires n <= |hs|
    ensures |es| <= n
  {
    if n == 0 then []
    else ErrorsBelow(hs, n - 1) + (match ErrorAt(hs, n - 1) case Some(e) => [e] case None => [])
  }

  /** All errors of a headings list. */
  function OutlineErrors(hs: seq<LocatedHeading>): seq<HeadingError> {
    ErrorsBelow(hs, |hs|)
  }

  /**
   * The validator's loop as written: `previousLevel` starts at the first
   * level and follows each heading, `highestLevel` never changes.
   */
  method ValidateOutline(hs: seq<LocatedHeading>) returns (errors: seq<HeadingError>)
    requires |hs| > 0
    ensures errors == OutlineErrors(hs)
  {
    var previousLevel := hs[0].level;
    var highestLevel := previousLevel;
    errors := [];
    var i := 0;
    while i < |hs|
      invariant 0 <= i <= |hs|
      invariant highestLevel == hs[0].level
      invariant previousLevel == if i == 0 then hs[0].level else hs[i - 1].level
      invariant errors == ErrorsBelow(hs, i)
    {
      var level := hs[i].level;
      if level > previousLevel + 1 {
        errors := errors + [HeadingError(hs[i].cell, level, previousLevel + 1)];
      } else if level < highestLevel {
        errors := errors + [HeadingError(hs[i].cell, level, highestLevel)];
      }
      previousLevel := level;
      i := i + 1;
    }
  }

  /** The first heading is never flagged, so there are fewer errors than headings. */
  lemma {:induction false} FirstNeverFlagged(hs: seq<LocatedHeading>)
    requires |hs| > 0
    ensures ErrorAt(hs, 0).None?
    ensures |OutlineErrors(hs)| < |hs|
  {
    FirstNeverFlaggedBelow(hs, |hs|);
  }

  lemma {:induction false} FirstNeverFlaggedBelow(hs: seq<LocatedHeading>, n: nat)
    requires 0 < n <= |hs|
    ensures |ErrorsBelow(hs, n)| < n
  {
    if n > 1 {
      FirstNeverFlaggedBelow(hs, n - 1);
    }
  }

  /** An outline is accepted exactly when every heading goes at most one level deeper than its predecessor and never above the first. */
  lemma {:induction false} NoErrorsIff(hs: seq<LocatedHeading>)
    ensures OutlineErrors(hs) == [] <==>
      forall i :: 0 < i < |hs| ==> hs[i].level <= hs[i - 1].level + 1 && hs[0].level <= hs[i].level
  {
    NoErrorsBelowIff(hs, |hs|);
    if forall i :: 0 < i < |hs| ==> hs[i].level <= hs[i - 1].level + 1 && hs[0].level <= hs[i].level {
      forall i | 0 <= i < |hs|
        ensures ErrorAt(hs, i).None?
      {
      }
    }
    if forall i :: 0 <= i < |hs| ==> ErrorAt(hs, i).None? {
      forall i | 0 < i < |hs|
        ensures hs[i].level <= hs[i - 1].level + 1 && hs[0].level <= hs[i].level
      {
        assert ErrorAt(hs, i).None?;
      }
    }
  }

  lemma {:induction false} NoErrorsBelowIff(hs: seq<LocatedHeading>, n: nat)
    requires n <= |hs|
    ensures ErrorsBelow(hs, n) == [] <==> forall i :: 0 <= i < n ==> ErrorAt(hs, i).None?
  {
    if n > 0 {
      NoErrorsBelowIff(hs, n - 1);
    }
  }

  /** The errors of a prefix are a prefix of the errors: later headings never change earlier verdicts. */
  lemma {:induction false} ErrorsOfPrefix(hs: seq<LocatedHeading>, n: nat)
    requires n <= |hs|
    ensures ErrorsBelow(hs[..n], n) == ErrorsBelow(hs, n)
  {
    if n > 0 {
      ErrorsOfPrefix(hs, n - 1);
      var p := hs[..n];
      assert ErrorsBelow(p, n - 1) == ErrorsBelow(hs[..n - 1], n - 1) by {
        PrefixOfPrefix(hs, n - 1, n);
      }
      assert ErrorAt(p, n - 1) == ErrorAt(hs, n - 1);
    }
  }

  lemma {:induction false} PrefixOfPrefix(hs: seq<LocatedHeading>, m: nat, n: nat)
    requires m <= n <= |hs|
    ensures ErrorsBelow(hs[..n], m) == ErrorsBelow(hs[..m], m)
    decreases m
  {
    if m > 0 {
      PrefixOfPrefix(hs, m - 1, n);
      PrefixOfPrefix(hs, m - 1, m);
      assert ErrorAt(hs[..n], m - 1) == ErrorAt(hs[..m], m - 1);
    }
  }

  /** Appending headings only appends errors. */
  lemma {:induction false} OutlineErrorsExtend(hs: seq<LocatedHeading>, more: seq<LocatedHeading>)
    ensures OutlineErrors(hs) <= OutlineErrors(hs + more)
  {
    var all := hs + more;
    assert all[..|hs|] == hs;
    ErrorsOfPrefix(all, |hs|);
    ErrorsBelowGrow(all, |hs|, |all|);
  }

  lemma {:induction false} ErrorsBelowGrow(hs: seq<LocatedHeading>, m: nat, n: nat)
    requires m <= n <= |hs|
    ensures ErrorsBelow(hs, m) <= ErrorsBelow(hs, n)
    decreases n - m
  {
    if m < n {
      ErrorsBelowGrow(hs, m, n - 1);
    }
  }

  /** An out-of-order error always expects the first heading's level; a skip error expects one below the predecessor. */
  lemma {:induction false} ExpectedLevels(hs: seq<LocatedHeading>, i: nat)
    requires 0 < i < |hs|
    requires ErrorAt(hs, i).Some?
    ensures var e := ErrorAt(hs, i).value;
      (e.current > e.expected && e.expected == hs[i - 1].level + 1)
      || (e.current < e.expected && e.expected == hs[0].level && hs[i].level <= hs[i - 1].level + 1)
  {
  }

  /** Headings with the given levels, all in one cell. */
  function InCell(levels: seq<nat>, c: CellId): (hs: seq<LocatedHeading>)
    ensures |hs| == |levels|
    ensures forall i :: 0 <= i < |hs| ==> hs[i] == LocatedHeading(levels[i], "", c)
  {
    seq(|levels|, i requires 0 <= i < |levels| => LocatedHeading(levels[i], "", c))
  }

  /** h1, h2, h3 and h1, h2, h1 are accepted. */
  lemma {:induction false} AcceptedExamples(c: CellId)
    ensures OutlineErrors(InCell([1, 2, 3], c)) == []
    ensures OutlineErrors(InCell([1, 2, 1], c)) == []
  {
    NoErrorsIff(InCell([1, 2, 3], c));
    NoErrorsIff(InCell([1, 2, 1], c));
  }

  /** h1 then h3 skips a level; h2 then h1 goes above the first heading. */
  lemma {:induction false} RejectedExamples(c: CellId)
    ensures OutlineErrors(InCell([1, 3], c)) == [HeadingError(c, 3, 2)]
    ensures OutlineErrors(InCell([2, 1], c)) == [HeadingError(c, 1, 2)]
  {
    var a := InCell([1, 3], c);
    assert ErrorsBelow(a, 1) == [];
    var b := InCell([2, 1], c);
    assert ErrorsBelow(b, 1) == [];
  }

  /**
   * In h5, h1, h3 the h3 both skips (after h1) and sits above h5: the skip is
   * reported. In h3, h1, h2 the h2 is still measured against the first h3,
   * not against the h1 seen since.
   */
  lemma {:induction false} PrecedenceExamples(c: CellId)
    ensures OutlineErrors(InCell([5, 1, 3], c)) == [HeadingError(c, 1, 5), HeadingError(c, 3, 2)]
    ensures OutlineErrors(InCell([3, 1, 2], c)) == [HeadingError(c, 1, 3), HeadingError(c, 2, 3)]
  {
    var a := InCell([5, 1, 3], c);
    assert ErrorsBelow(a, 1) == [];
    assert ErrorsBelow(a, 2) == [HeadingError(c, 1, 5)];
    var b := InCell([3, 1, 2], c);
    assert ErrorsBelow(b, 1) == [];
    assert ErrorsBelow(b, 2) == [HeadingError(c, 1, 3)];
  }
}
