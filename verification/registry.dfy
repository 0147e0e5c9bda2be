/**
 * The sidebar registry `AltCellList._cellMap` (cell id to the list of entries
 * shown for that cell), its operations `addCell`, `removeCell` and the prune
 * of `showOnlyVisibleCells`, and `applyVisualIndicator`, which resets a
 * cell's entries and red indicator from a list of issue strings.
 */
module Registry {
  import opened Wrappers
  import opened Cells
  import opened Issues

  /**
   * One list item of a cell. `shown` records whether `addCell` filled the
   * item in (message button, control, dropdown); an item that was not filled
   * in is an empty wrapper that still sits in the cell's list.
   */
  datatype Entry = Entry(message: string, shown: bool)

  type Registry = map<CellId, seq<Entry>>

  /** The sidebar: the registry and the set of cells carrying a red indicator. */
  datatype Sidebar = Sidebar(entries: Registry, marked: set<CellId>)

  /** `t` occurs in `s` starting at `i`. */
  predicate OccursAt(s: string, t: string, i: nat) {
    i + |t| <= |s| && s[i..i + |t|] == t
  }

  /** JavaScript's `s.includes(t)`. */
  predicate Includes(s: string, t: string) {
    exists i: nat :: i <= |s| && OccursAt(s, t, i)
  }

  /** The info icon `&#9432;` placed next to every message but the h1 one. */
  const InfoIcon: string := "\U{24D8}"
  /** The label of the apply button placed next to the missing-h1 message. */
  const ApplyLabel: string := "Add h1 Header"

  /** The control next to the message button. */
  function Control(message: string): (c: string)
    ensures c != []
  {
    if Includes(message, "h1 header") then ApplyLabel else InfoIcon
  }

  /** The guideline link text in the dropdown, chosen by the first category word the message contains. */
  function LinkText(message: string): string {
    if Includes(message, "Transparency") then "WCAG transparency guidelines"
    else if Includes(message, "Heading") then "WCAG headings guidelines"
    else if Includes(message, "Alt") then "WCAG alt-text guidelines"
    else if Includes(message, "Contrast") then "WCAG text color contrast guidelines"
    else if Includes(message, "h1 header") then "WCAG headings guidelines"
    else ""
  }

  /**
   * The `textContent` of an item: a filled-in item reads as its message, its
   * control and its dropdown text; an empty wrapper reads as nothing.
   */
  function TextContent(e: Entry): (t: string)
    ensures e.shown ==> |t| > |e.message| && t[..|e.message|] == e.message
    ensures !e.shown ==> t == []
  {
    if e.shown then e.message + Control(e.message) + LinkText(e.message) else ""
  }

  /** The guard of `addCell` as written: some item already in the list reads exactly as the new message. */
  predicate DuplicateAsWritten(items: seq<Entry>, message: string) {
    exists j :: 0 <= j < |items| && TextContent(items[j]) == message
  }

  /** The guard as intended: some item already in the list shows the new message. */
  predicate Duplicate(items: seq<Entry>, message: string) {
    exists j :: 0 <= j < |items| && items[j].shown && items[j].message == message
  }

  /** The list the registry holds for `id`, or the empty list when it holds none. */
  function ItemsOf(reg: Registry, id: CellId): seq<Entry> {
    if id in reg then reg[id] else []
  }

  /** The messages of a list of items, in order. */
  function Messages(items: seq<Entry>): seq<string> {
    seq(|items|, j requires 0 <= j < |items| => items[j].message)
  }

  /**
   * `addCell` as written: the item is always appended to the cell's list,
   * and filled in unless the `textContent` guard matched.
   */
  function AddCellAsWritten(reg: Registry, id: CellId, message: string): (r: Registry)
    ensures r.Keys == reg.Keys + {id}
    ensures forall k :: k in reg && k != id ==> r[k] == reg[k]
    ensures |r[id]| == |ItemsOf(reg, id)| + 1
    ensures r[id][..|ItemsOf(reg, id)|] == ItemsOf(reg, id)
    ensures r[id][|ItemsOf(reg, id)|].message == message
  {
    var before := ItemsOf(reg, id);
    reg[id := before + [Entry(message, !DuplicateAsWritten(before, message))]]
  }

  /**
   * The `textContent` guard never matches a filled-in item carrying the same
   * message, so adding the same non-empty message twice renders it twice.
   */
  lemma {:induction false} RepeatedMessageRenderedTwice(reg: Registry, id: CellId, message: string)
    requires id !in reg && message != []
    ensures AddCellAsWritten(AddCellAsWritten(reg, id, message), id, message)[id] == [Entry(message, true), Entry(message, true)]
  {
    var once := AddCellAsWritten(reg, id, message);
    assert once[id] == [Entry(message, true)];
    assert TextContent(Entry(message, true)) != message by {
      assert |TextContent(Entry(message, true))| > |message|;
    }
    assert !DuplicateAsWritten(once[id], message);
  }

  /** The written guard matches nothing when the list holds only filled-in items, each reading as more than the new message. */
  lemma {:induction false} NoDuplicateAmongLongerItems(items: seq<Entry>, message: string)
    requires forall j :: 0 <= j < |items| ==> items[j].shown && |items[j].message| >= |message|
    ensures !DuplicateAsWritten(items, message)
  {
    forall j | 0 <= j < |items|
      ensures TextContent(items[j]) != message
    {
      assert |TextContent(items[j])| > |items[j].message|;
    }
  }

  /**
   * `addCell` with the guard as intended: the item is always appended to the
   * cell's list, and filled in unless the list already shows its message.
   */
  function AddCell(reg: Registry, id: CellId, message: string): (r: Registry)
    ensures r.Keys == reg.Keys + {id}
    ensures forall k :: k in reg && k != id ==> r[k] == reg[k]
    ensures |r[id]| == |ItemsOf(reg, id)| + 1
    ensures r[id][..|ItemsOf(reg, id)|] == ItemsOf(reg, id)
    ensures r[id][|ItemsOf(reg, id)|].message == message
    ensures r[id][|ItemsOf(reg, id)|].shown <==> !exists j :: 0 <= j < |ItemsOf(reg, id)| && ItemsOf(reg, id)[j].shown && ItemsOf(reg, id)[j].message == message
  {
    var before := ItemsOf(reg, id);
    reg[id := before + [Entry(message, !Duplicate(before, message))]]
  }

  /** Each item is filled in exactly when no earlier item of its list carries its message. */
  predicate FirstOccurrencesShown(items: seq<Entry>) {
    forall j :: 0 <= j < |items| ==>
      (items[j].shown <==> forall i :: 0 <= i < j ==> items[i].message != items[j].message)
  }

  /** Under the invariant, an item carrying a message has a filled-in item with that message at or before it. */
  lemma {:induction false} ShownAtOrBefore(items: seq<Entry>, i: nat)
    requires FirstOccurrencesShown(items)
    requires i < |items|
    ensures exists k :: 0 <= k <= i && items[k].shown && items[k].message == items[i].message
    decreases i
  {
    if !items[i].shown {
      var i' :| 0 <= i' < i && items[i'].message == items[i].message;
      ShownAtOrBefore(items, i');
    }
  }

  /** The intended guard keeps every message filled in once: at its first occurrence. */
  lemma {:induction false} AddCellKeepsFirstShown(reg: Registry, id: CellId, message: string)
    requires FirstOccurrencesShown(ItemsOf(reg, id))
    ensures FirstOccurrencesShown(AddCell(reg, id, message)[id])
  {
    var items := ItemsOf(reg, id);
    var r := AddCell(reg, id, message)[id];
    var n := |items|;
    var e := r[n];
    assert r == items + [e];
    assert e.shown <==> forall i :: 0 <= i < n ==> items[i].message != message by {
      if exists i :: 0 <= i < n && items[i].message == message {
        var i :| 0 <= i < n && items[i].message == message;
        ShownAtOrBefore(items, i);
        var k :| 0 <= k <= i && items[k].shown && items[k].message == items[i].message;
        assert k < n && items[k].shown && items[k].message == message;
      }
    }
    FirstOccurrencesSnoc(items, e);
  }

  /** An item appended to a list keeping the invariant keeps it when it is filled in exactly for a new message. */
  lemma {:induction false} FirstOccurrencesSnoc(items: seq<Entry>, e: Entry)
    requires FirstOccurrencesShown(items)
    requires e.shown <==> forall i :: 0 <= i < |items| ==> items[i].message != e.message
    ensures FirstOccurrencesShown(items + [e])
  {
    var r := items + [e];
    forall j | 0 <= j < |r|
      ensures r[j].shown <==> forall i :: 0 <= i < j ==> r[i].message != r[j].message
    {
      assert forall i :: 0 <= i < |items| ==> r[i] == items[i];
    }
  }

  /** Adding the same message twice to a fresh cell fills it in once, and leaves an empty wrapper behind it. */
  lemma {:induction false} RepeatedMessageRenderedOnce(reg: Registry, id: CellId, message: string)
    requires id !in reg
    ensures AddCell(AddCell(reg, id, message), id, message)[id] == [Entry(message, true), Entry(message, false)]
  {
    var once := AddCell(reg, id, message);
    assert once[id] == [Entry(message, true)];
    assert Duplicate(once[id], message);
  }

  /** `removeCell`: the cell's list is dropped and every other list stays. */
  function RemoveCell(reg: Registry, id: CellId): (r: Registry)
    ensures r.Keys == reg.Keys - {id}
    ensures forall k :: k in r ==> r[k] == reg[k]
  {
    reg - {id}
  }

  /** Removing a cell undoes anything added to it, under either guard. */
  lemma {:induction false} RemoveUndoesAdd(g: Guard, reg: Registry, id: CellId, message: string)
    ensures RemoveCell(Add(g, reg, id, message), id) == RemoveCell(reg, id)
  {
  }

  /** The registry restricted to the cells of the open notebook. */
  function Visible(reg: Registry, open: seq<CellId>): (r: Registry)
    ensures forall k :: k in r <==> k in reg && k in open
    ensures forall k :: k in r ==> r[k] == reg[k]
  {
    map k | k in reg && k in open :: reg[k]
  }

  /** The inner loop of the prune: whether some widget of the notebook has the id. */
  method CellExists(open: seq<CellId>, k: CellId) returns (found: bool)
    ensures found <==> k in open
  {
    found := false;
    var i := 0;
    while i < |open|
      invariant 0 <= i <= |open|
      invariant k !in open[..i]
    {
      if open[i] == k {
        found := true;
        break;
      }
      i := i + 1;
    }
    assert found || open[..i] == open;
  }

  /**
   * The prune of `showOnlyVisibleCells`: every registered id is looked up
   * among the notebook's cells and removed when absent.
   */
  method ShowOnlyVisibleCells(reg: Registry, open: seq<CellId>) returns (r: Registry)
    ensures r == Visible(reg, open)
  {
    r := reg;
    var todo := reg.Keys;
    while todo != {}
      invariant todo <= reg.Keys
      invariant forall k :: k in r <==> k in reg && (k in todo || k in open)
      invariant forall k :: k in r ==> r[k] == reg[k]
      decreases |todo|
    {
      var k :| k in todo;
      var exists_ := CellExists(open, k);
      if !exists_ {
        r := RemoveCell(r, k);
      }
      todo := todo - {k};
    }
  }

  /** Pruning twice prunes nothing more. */
  lemma {:induction false} VisibleIdempotent(reg: Registry, open: seq<CellId>)
    ensures Visible(Visible(reg, open), open) == Visible(reg, open)
  {
  }

  /** The messages `applyVisualIndicator` adds for a list of issues, in order. */
  function Decoded(issues: seq<string>, nf: NumberFormat): (ms: seq<string>)
    ensures |ms| <= |issues|
    ensures ms == [] <==> forall i :: 0 <= i < |issues| ==> Decode(issues[i], nf).None?
    ensures forall j :: 0 <= j < |ms| ==> ms[j] != []
  {
    if issues == [] then []
    else
      (match Decode(issues[0], nf) case Some(m) => [m] case None => [])
      + Decoded(issues[1..], nf)
  }

  /** A single issue decodes to its message, or to nothing. */
  lemma {:induction false} DecodedSingle(issue: string, nf: NumberFormat)
    ensures Decoded([issue], nf) == (match Decode(issue, nf) case Some(m) => [m] case None => [])
  {
    assert [issue][1..] == [];
  }

  /** Which guard `addCell` applies: the one written, or the one its comment intends. */
  datatype Guard = AsWritten | Intended

  /** `addCell` under the given guard. */
  function Add(g: Guard, reg: Registry, id: CellId, message: string): (r: Registry)
    ensures r.Keys == reg.Keys + {id}
    ensures forall k :: k in reg && k != id ==> r[k] == reg[k]
    ensures |r[id]| == |ItemsOf(reg, id)| + 1
    ensures r[id][..|ItemsOf(reg, id)|] == ItemsOf(reg, id)
    ensures r[id][|ItemsOf(reg, id)|].message == message
  {
    match g
    case AsWritten => AddCellAsWritten(reg, id, message)
    case Intended => AddCell(reg, id, message)
  }

  /** `addCell` for each message in turn. */
  function AddMessages(g: Guard, reg: Registry, id: CellId, messages: seq<string>): (r: Registry)
    ensures r.Keys == if messages == [] then reg.Keys else reg.Keys + {id}
    ensures forall k :: k in reg && k != id ==> r[k] == reg[k]
    decreases |messages|
  {
    if messages == [] then reg
    else Add(g, AddMessages(g, reg, id, messages[..|messages| - 1]), id, messages[|messages| - 1])
  }

  /**
   * The cell's list ends up holding its earlier items followed by one item
   * per message, in order; into an empty list the first item is filled in.
   */
  lemma {:induction false} AddMessagesContents(g: Guard, reg: Registry, id: CellId, messages: seq<string>)
    ensures Messages(ItemsOf(AddMessages(g, reg, id, messages), id)) == Messages(ItemsOf(reg, id)) + messages
    ensures messages != [] && id !in reg ==> AddMessages(g, reg, id, messages)[id][0].shown
  {
    AddMessagesAppends(g, reg, id, messages);
    if messages != [] && id !in reg {
      AddMessagesFirstKept(g, reg, id, messages);
    }
  }

  lemma {:induction false} AddMessagesAppends(g: Guard, reg: Registry, id: CellId, messages: seq<string>)
    ensures Messages(ItemsOf(AddMessages(g, reg, id, messages), id)) == Messages(ItemsOf(reg, id)) + messages
    decreases |messages|
  {
    if messages != [] {
      var last := |messages| - 1;
      var prefix := messages[..last];
      AddMessagesAppends(g, reg, id, prefix);
      var mid := AddMessages(g, reg, id, prefix);
      var r := Add(g, mid, id, messages[last]);
      assert AddMessages(g, reg, id, messages) == r;
      var before := ItemsOf(mid, id);
      var e := r[id][|before|];
      assert r[id] == before + [e];
      MessagesAppend(before, e);
      SplitLast(messages);
      assert Messages(ItemsOf(reg, id)) + messages == Messages(ItemsOf(reg, id)) + prefix + [messages[last]];
    }
  }

  lemma {:induction false} AddMessagesFirstKept(g: Guard, reg: Registry, id: CellId, messages: seq<string>)
    requires messages != [] && id !in reg
    ensures AddMessages(g, reg, id, messages)[id][0].shown
    decreases |messages|
  {
    var last := |messages| - 1;
    var prefix := messages[..last];
    var mid := AddMessages(g, reg, id, prefix);
    var r := Add(g, mid, id, messages[last]);
    assert AddMessages(g, reg, id, messages) == r;
    if prefix != [] {
      AddMessagesFirstKept(g, reg, id, prefix);
      assert r[id][0] == mid[id][0];
    }
  }

  /**
   * Each item is filled in exactly when no earlier item of its list reads as
   * its message: what the written guard keeps.
   */
  predicate GuardedAsWritten(items: seq<Entry>) {
    forall j :: 0 <= j < |items| ==> (items[j].shown <==> !DuplicateAsWritten(items[..j], items[j].message))
  }

  /** The written guard keeps its invariant. */
  lemma {:induction false} AddCellAsWrittenKeepsGuard(reg: Registry, id: CellId, message: string)
    requires GuardedAsWritten(ItemsOf(reg, id))
    ensures GuardedAsWritten(AddCellAsWritten(reg, id, message)[id])
  {
    var items := ItemsOf(reg, id);
    var r := AddCellAsWritten(reg, id, message)[id];
    var n := |items|;
    assert r == items + [Entry(message, !DuplicateAsWritten(items, message))];
    forall j | 0 <= j < n
      ensures r[..j] == items[..j] && r[j] == items[j]
    {
    }
    assert r[..n] == items;
  }

  /** Adding messages in turn through the written guard keeps its invariant. */
  lemma {:induction false} AddMessagesGuarded(reg: Registry, id: CellId, messages: seq<string>)
    requires GuardedAsWritten(ItemsOf(reg, id))
    ensures GuardedAsWritten(ItemsOf(AddMessages(AsWritten, reg, id, messages), id))
    decreases |messages|
  {
    if messages != [] {
      var prefix := messages[..|messages| - 1];
      AddMessagesGuarded(reg, id, prefix);
      AddCellAsWrittenKeepsGuard(AddMessages(AsWritten, reg, id, prefix), id, messages[|messages| - 1]);
    }
  }

  /** Adding messages in turn through the intended guard keeps each message filled in at its first occurrence only. */
  lemma {:induction false} AddMessagesFirstShown(reg: Registry, id: CellId, messages: seq<string>)
    requires FirstOccurrencesShown(ItemsOf(reg, id))
    ensures FirstOccurrencesShown(ItemsOf(AddMessages(Intended, reg, id, messages), id))
    decreases |messages|
  {
    if messages != [] {
      var prefix := messages[..|messages| - 1];
      AddMessagesFirstShown(reg, id, prefix);
      AddCellKeepsFirstShown(AddMessages(Intended, reg, id, prefix), id, messages[|messages| - 1]);
    }
  }

  /** No message of the list, once filled in, reads as a message of the list. */
  predicate ReadApart(ms: seq<string>) {
    forall i, j :: 0 <= i < |ms| && 0 <= j < |ms| ==> TextContent(Entry(ms[i], true)) != ms[j]
  }

  /** When the messages read apart, the written guard never matches: every item is filled in. */
  lemma {:induction false} GuardedReadApartAllShown(items: seq<Entry>)
    requires GuardedAsWritten(items)
    requires ReadApart(Messages(items))
    ensures forall j :: 0 <= j < |items| ==> items[j].shown
  {
    ShownBelow(items, |items|);
  }

  lemma {:induction false} ShownBelow(items: seq<Entry>, n: nat)
    requires n <= |items|
    requires GuardedAsWritten(items)
    requires ReadApart(Messages(items))
    ensures forall j :: 0 <= j < n ==> items[j].shown
    decreases n
  {
    if n > 0 {
      var m := n - 1;
      ShownBelow(items, m);
      assert !DuplicateAsWritten(items[..m], items[m].message) by {
        forall i | 0 <= i < m
          ensures TextContent(items[..m][i]) != items[m].message
        {
          assert items[..m][i] == items[i] == Entry(Messages(items)[i], true);
          assert items[m].message == Messages(items)[m];
        }
      }
    }
  }

  /** A message naming one of the categories gets one of the four guideline links. */
  lemma {:induction false} NamedLinkText(a: string)
    requires Includes(a, "Transparency") || Includes(a, "Heading") || Includes(a, "Alt") || Includes(a, "Contrast") || Includes(a, "h1 header")
    ensures 24 <= |LinkText(a)| && LinkText(a)[4] == ' ' && LinkText(a)[|LinkText(a)| - 1] == 's'
  {
  }

  /** Every indicator message names its category, so its guideline link is one of the four link texts. */
  lemma {:induction false} LinkTextShape(a: string)
    requires IndicatorMessage(a)
    ensures 24 <= |LinkText(a)| && LinkText(a)[4] == ' ' && LinkText(a)[|LinkText(a)| - 1] == 's'
  {
    if a == AltMessage {
      assert Includes(a, "Alt") by {
        assert OccursAt(a, "Alt", 20);
      }
    } else if a == H1Message {
      assert Includes(a, "h1 header") by {
        assert OccursAt(a, "h1 header", 23);
      }
    } else if 26 <= |a| <= 36 && a[..26] == "Heading format: expecting " {
      assert Includes(a, "Heading") by {
        CategoryWords();
        OccursInPrefix(a, "Heading format: expecting ", "Heading", 0);
      }
    } else if 26 <= |a| && a[..26] == "Cell Error: Text Contrast " {
      assert Includes(a, "Contrast") by {
        CategoryWords();
        OccursInPrefix(a, "Cell Error: Text Contrast ", "Contrast", 17);
      }
    } else {
      assert Includes(a, "Transparency") by {
        CategoryWords();
        OccursInPrefix(a, "Image Err: High Image Transparency (", "Transparency", 22);
      }
    }
    NamedLinkText(a);
  }

  /** Where the category words sit in the fixed prefixes of the heading, contrast and transparency messages. */
  lemma {:induction false} CategoryWords()
    ensures OccursAt("Heading format: expecting ", "Heading", 0)
    ensures OccursAt("Cell Error: Text Contrast ", "Contrast", 17)
    ensures OccursAt("Image Err: High Image Transparency (", "Transparency", 22)
  {
  }

  /** A word inside a message's fixed prefix occurs in the message at the same place. */
  lemma {:induction false} OccursInPrefix(a: string, p: string, t: string, i: nat)
    requires |p| <= |a| && a[..|p|] == p && OccursAt(p, t, i)
    ensures OccursAt(a, t, i)
  {
    assert a[i..i + |t|] == a[..|p|][i..i + |t|];
  }

  /**
   * A filled-in item never reads as an indicator message: it carries its
   * message, a control and a guideline link, which is too long for the fixed
   * and heading messages, puts a space inside a contrast message's last
   * field, and ends where a transparency message cannot.
   */
  lemma {:induction false} TextContentApart(a: string, b: string)
    requires IndicatorMessage(a) && IndicatorMessage(b)
    ensures TextContent(Entry(a, true)) != b
  {
    var c := Control(a);
    var l := LinkText(a);
    var t := TextContent(Entry(a, true));
    LinkTextShape(a);
    assert t == a + c + l;
    assert |a| >= 26;
    if 26 <= |b| && b[..26] == "Cell Error: Text Contrast " && ' ' !in b[26..] {
      var k := |a| + |c| + 4;
      assert t[k] == l[4] == ' ';
    } else if 38 <= |b| && b[..36] == "Image Err: High Image Transparency (" && b[|b| - 2..] == "%)" {
      assert t[|t| - 1] == 's';
    } else {
      assert |b| <= 36;
    }
  }

  /** Every message the indicator adds has an indicator message's shape. */
  lemma {:induction false} DecodedShapes(issues: seq<string>, nf: NumberFormat)
    ensures forall j :: 0 <= j < |Decoded(issues, nf)| ==> IndicatorMessage(Decoded(issues, nf)[j])
    decreases |issues|
  {
    if issues != [] {
      DecodedShapes(issues[1..], nf);
      var head := match Decode(issues[0], nf) case Some(m) => [m] case None => [];
      if Decode(issues[0], nf).Some? {
        DecodeShape(issues[0], nf);
      }
      assert Decoded(issues, nf) == head + Decoded(issues[1..], nf);
    }
  }

  /** The messages the indicator adds for one cell read apart. */
  lemma {:induction false} DecodedReadApart(issues: seq<string>, nf: NumberFormat)
    ensures ReadApart(Decoded(issues, nf))
  {
    var ms := Decoded(issues, nf);
    DecodedShapes(issues, nf);
    forall i, j | 0 <= i < |ms| && 0 <= j < |ms|
      ensures TextContent(Entry(ms[i], true)) != ms[j]
    {
      TextContentApart(ms[i], ms[j]);
    }
  }

  lemma {:induction false} SplitLast(xs: seq<string>)
    requires xs != []
    ensures xs == xs[..|xs| - 1] + [xs[|xs| - 1]]
  {
  }

  lemma {:induction false} MessagesAppend(items: seq<Entry>, e: Entry)
    ensures Messages(items + [e]) == Messages(items) + [e.message]
  {
  }

  /** Two registries that agree on every cell but `id` are equal once `id` is removed. */
  lemma {:induction false} AgreeOffId(a: Registry, b: Registry, id: CellId)
    requires forall k :: k != id ==> (k in a <==> k in b)
    requires forall k :: k != id && k in a ==> a[k] == b[k]
    ensures RemoveCell(a, id) == RemoveCell(b, id)
  {
    var ra := RemoveCell(a, id);
    var rb := RemoveCell(b, id);
    assert ra.Keys == rb.Keys;
  }

  /** Two sets that agree off `id` agree once `id` is added. */
  lemma {:induction false} AgreeWithId(a: set<CellId>, b: set<CellId>, id: CellId)
    requires a - {id} == b - {id}
    ensures a + {id} == b + {id}
  {
    forall k | k in a + {id}
      ensures k in b + {id}
    {
      if k != id {
        assert k in a - {id};
      }
    }
    forall k | k in b + {id}
      ensures k in a + {id}
    {
      if k != id {
        assert k in b - {id};
      }
    }
  }

  /**
   * `applyVisualIndicator`: the cell's list is removed, every issue that
   * decodes adds its message, and the indicator is left on exactly when some
   * message was added (otherwise the list is removed once more). The written
   * guard of `addCell` never matches, so every message is filled in,
   * repeats included.
   */
  function ApplyVisualIndicator(sb: Sidebar, id: CellId, issues: seq<string>, nf: NumberFormat): (r: Sidebar)
    ensures id in r.entries <==> Decoded(issues, nf) != []
    ensures id in r.marked <==> Decoded(issues, nf) != []
    ensures Messages(ItemsOf(r.entries, id)) == Decoded(issues, nf)
    ensures forall j :: 0 <= j < |ItemsOf(r.entries, id)| ==> ItemsOf(r.entries, id)[j].shown
    ensures forall k :: k != id ==> (k in r.entries <==> k in sb.entries) && (k in r.marked <==> k in sb.marked)
    ensures forall k :: k != id && k in r.entries ==> r.entries[k] == sb.entries[k]
  {
    var messages := Decoded(issues, nf);
    var entries := ResetEntries(AsWritten, sb.entries, id, messages);
    DecodedReadApart(issues, nf);
    GuardedReadApartAllShown(ItemsOf(entries, id));
    if messages != [] then Sidebar(entries, sb.marked + {id})
    else Sidebar(entries, sb.marked - {id})
  }

  /** `applyVisualIndicator` with the intended guard: each message is filled in at its first occurrence only. */
  function ApplyVisualIndicatorIntended(sb: Sidebar, id: CellId, issues: seq<string>, nf: NumberFormat): (r: Sidebar)
    ensures id in r.entries <==> Decoded(issues, nf) != []
    ensures id in r.marked <==> Decoded(issues, nf) != []
    ensures Messages(ItemsOf(r.entries, id)) == Decoded(issues, nf)
    ensures FirstOccurrencesShown(ItemsOf(r.entries, id))
    ensures forall k :: k != id ==> (k in r.entries <==> k in sb.entries) && (k in r.marked <==> k in sb.marked)
    ensures forall k :: k != id && k in r.entries ==> r.entries[k] == sb.entries[k]
  {
    var messages := Decoded(issues, nf);
    var entries := ResetEntries(Intended, sb.entries, id, messages);
    if messages != [] then Sidebar(entries, sb.marked + {id})
    else Sidebar(entries, sb.marked - {id})
  }

  /**
   * The registry side of `applyVisualIndicator`: the cell's list replaced by
   * one item per message, filled in as the guard decides.
   */
  function ResetEntries(g: Guard, reg: Registry, id: CellId, messages: seq<string>): (r: Registry)
    ensures id in r <==> messages != []
    ensures Messages(ItemsOf(r, id)) == messages
    ensures g == AsWritten ==> GuardedAsWritten(ItemsOf(r, id))
    ensures g == Intended ==> FirstOccurrencesShown(ItemsOf(r, id))
    ensures RemoveCell(r, id) == RemoveCell(reg, id)
  {
    var cleared := RemoveCell(reg, id);
    AddToCleared(g, cleared, id, messages);
    var r := AddMessages(g, cleared, id, messages);
    AgreeOffId(r, reg, id);
    r
  }

  /** Adding messages to a cell with no list: the list holds the messages, under the guard's invariant. */
  lemma {:induction false} AddToCleared(g: Guard, cleared: Registry, id: CellId, messages: seq<string>)
    requires id !in cleared
    ensures Messages(ItemsOf(AddMessages(g, cleared, id, messages), id)) == messages
    ensures g == AsWritten ==> GuardedAsWritten(ItemsOf(AddMessages(g, cleared, id, messages), id))
    ensures g == Intended ==> FirstOccurrencesShown(ItemsOf(AddMessages(g, cleared, id, messages), id))
  {
    assert ItemsOf(cleared, id) == [];
    NoMessages();
    AddMessagesContents(g, cleared, id, messages);
    AddMessagesGuarded(cleared, id, messages);
    AddMessagesFirstShown(cleared, id, messages);
  }

  lemma {:induction false} NoMessages()
    ensures Messages([]) == []
  {
  }

  /** The two decodings of `"Alt"` twice over. */
  lemma {:induction false} AltTwice(nf: NumberFormat)
    ensures Decoded([AltIssue, AltIssue], nf) == [AltMessage, AltMessage]
  {
    FixedIssues(nf);
    DecodedSingle(AltIssue, nf);
    assert [AltIssue, AltIssue][1..] == [AltIssue];
  }

  /** A cell whose issues hold `"Alt"` twice shows the missing-alt message twice. */
  lemma {:induction false} RepeatedAltShownTwice(sb: Sidebar, id: CellId, nf: NumberFormat)
    ensures ItemsOf(ApplyVisualIndicator(sb, id, [AltIssue, AltIssue], nf).entries, id)
      == [Entry(AltMessage, true), Entry(AltMessage, true)]
  {
    AltTwice(nf);
    var items := ItemsOf(ApplyVisualIndicator(sb, id, [AltIssue, AltIssue], nf).entries, id);
    assert |items| == 2 && items[0].message == AltMessage && items[1].message == AltMessage by {
      assert |Messages(items)| == |items|;
    }
  }

  /** Under the intended guard, the same cell shows the message once, followed by an empty wrapper. */
  lemma {:induction false} RepeatedAltShownOnce(sb: Sidebar, id: CellId, nf: NumberFormat)
    ensures ItemsOf(ApplyVisualIndicatorIntended(sb, id, [AltIssue, AltIssue], nf).entries, id)
      == [Entry(AltMessage, true), Entry(AltMessage, false)]
  {
    AltTwice(nf);
    var items := ItemsOf(ApplyVisualIndicatorIntended(sb, id, [AltIssue, AltIssue], nf).entries, id);
    assert |items| == 2 && items[0].message == AltMessage && items[1].message == AltMessage by {
      assert |Messages(items)| == |items|;
    }
  }

  /** The result depends on the sidebar only through the other cells. */
  lemma {:induction false} ApplyIgnoresOwnState(sb1: Sidebar, sb2: Sidebar, id: CellId, issues: seq<string>, nf: NumberFormat)
    requires RemoveCell(sb1.entries, id) == RemoveCell(sb2.entries, id)
    requires sb1.marked - {id} == sb2.marked - {id}
    ensures ApplyVisualIndicator(sb1, id, issues, nf) == ApplyVisualIndicator(sb2, id, issues, nf)
  {
    AgreeWithId(sb1.marked, sb2.marked, id);
  }

  /** Applying a cell's issues leaves the other cells as they were. */
  lemma {:induction false} ApplyKeepsOthers(sb: Sidebar, id: CellId, issues: seq<string>, nf: NumberFormat)
    ensures RemoveCell(ApplyVisualIndicator(sb, id, issues, nf).entries, id) == RemoveCell(sb.entries, id)
    ensures ApplyVisualIndicator(sb, id, issues, nf).marked - {id} == sb.marked - {id}
  {
    var r := ApplyVisualIndicator(sb, id, issues, nf);
    AgreeOffId(r.entries, sb.entries, id);
  }

  /** Applying the same issues twice is the same as applying them once. */
  lemma {:induction false} ApplyIdempotent(sb: Sidebar, id: CellId, issues: seq<string>, nf: NumberFormat)
    ensures var once := ApplyVisualIndicator(sb, id, issues, nf);
      ApplyVisualIndicator(once, id, issues, nf) == once
  {
    var once := ApplyVisualIndicator(sb, id, issues, nf);
    ApplyKeepsOthers(sb, id, issues, nf);
    ApplyIgnoresOwnState(once, sb, id, issues, nf);
  }

  /** Clearing a cell with no issues first changes nothing about a later application. */
  lemma {:induction false} ResetThenApply(sb: Sidebar, id: CellId, issues: seq<string>, nf: NumberFormat)
    ensures ApplyVisualIndicator(ApplyVisualIndicator(sb, id, [], nf), id, issues, nf)
      == ApplyVisualIndicator(sb, id, issues, nf)
  {
    var cleared := ApplyVisualIndicator(sb, id, [], nf);
    ApplyKeepsOthers(sb, id, [], nf);
    ApplyIgnoresOwnState(cleared, sb, id, issues, nf);
  }

  /** Clearing with no issues removes the cell's list and indicator and nothing else. */
  lemma {:induction false} ClearRemoves(sb: Sidebar, id: CellId, nf: NumberFormat)
    ensures ApplyVisualIndicator(sb, id, [], nf) == Sidebar(RemoveCell(sb.entries, id), sb.marked - {id})
  {
  }
}
