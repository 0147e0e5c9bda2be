/**
 * The children of the sidebar's list element, and the loop with which
 * `removeCell` takes a cell's wrappers out of it.
 *
 * The loop walks the live `children` collection by index and, whenever a
 * child's `id` equals a wrapper's, removes that wrapper. Removing a child
 * shifts the next one into the current index, so the scan skips it; and
 * `removeChild` of a node that is no longer a child throws. A throw ends
 * `removeCell` before the cell's map entry is deleted.
 */
module SidebarList {
  import opened Wrappers

  /** A child element: a handle standing for the object's identity, and its `id` attribute. */
  datatype Node = Node(handle: nat, id: string)

  /** The `id` that `addCell` gives the wrapper of a cell's message. */
  function WrapperId(cellId: string, message: string): (r: string)
    ensures |r| == |cellId| + |message| + 6
    ensures r[..5] == "cell-" && r[5..5 + |cellId|] == cellId && r[|r| - |message|..] == message
  {
    "cell-" + cellId + "_" + message
  }

  /** No element occurs twice among the children, as in any DOM element. */
  predicate Distinct(children: seq<Node>) {
    forall i, j :: 0 <= i < j < |children| ==> children[i] != children[j]
  }

  /** The position of a child. */
  function IndexOf(children: seq<Node>, n: Node): (i: nat)
    requires n in children
    ensures i < |children| && children[i] == n && n !in children[..i]
  {
    if children[0] == n then 0
    else
      assert n in children[1..] by {
        var k :| 0 <= k < |children| && children[k] == n;
        assert children[1..][k - 1] == n;
      }
      var i := 1 + IndexOf(children[1..], n);
      assert children[..i] == [children[0]] + children[1..][..i - 1];
      i
  }

  /** `removeChild(n)`: the children without `n`, or `None` where the DOM throws `NotFoundError`. */
  function RemoveChild(children: seq<Node>, n: Node): (r: Option<seq<Node>>)
    ensures r.Some? <==> n in children
    ensures r.Some? ==> |r.value| + 1 == |children|
    ensures r.Some? ==> forall m :: m in children && m != n ==> m in r.value
  {
    if n in children then
      var i := IndexOf(children, n);
      assert children == children[..i] + [n] + children[i + 1..];
      Some(children[..i] + children[i + 1..])
    else None
  }

  /** The children left by a removal, and whether it threw. */
  datatype Outcome = Outcome(children: seq<Node>, threw: bool)

  /**
   * `for (let item of this._listCells.children)` for one wrapper `btn`, from
   * index `k` on: a child with `btn`'s id makes it remove `btn`, and the
   * scan moves on to index `k + 1` of the shortened collection.
   */
  function ScanFrom(children: seq<Node>, btn: Node, k: nat): Outcome
    decreases |children| - k
  {
    if k >= |children| then Outcome(children, false)
    else if children[k].id != btn.id then ScanFrom(children, btn, k + 1)
    else match RemoveChild(children, btn)
      case None => Outcome(children, true)
      case Some(rest) => ScanFrom(rest, btn, k + 1)
  }

  /**
   * `removeCell`'s `listItem.forEach`: one scan for each wrapper of the
   * cell, in the order the map lists them, ending at the first throw.
   */
  function RemoveWrappersAsWritten(children: seq<Node>, btns: seq<Node>): Outcome
    decreases |btns|
  {
    if btns == [] then Outcome(children, false)
    else
      var o := ScanFrom(children, btns[0], 0);
      if o.threw then o else RemoveWrappersAsWritten(o.children, btns[1..])
  }

  /** What `removeCell` is for: every one of the cell's wrappers leaves the list, and every other child stays, in order. */
  function RemoveWrappers(children: seq<Node>, btns: seq<Node>): (r: seq<Node>)
    ensures forall n :: n in r <==> n in children && n !in btns
    ensures |r| <= |children|
  {
    if children == [] then []
    else (if children[0] in btns then [] else [children[0]]) + RemoveWrappers(children[1..], btns)
  }

  /** The children keep their order: what is left is a subsequence of what was there. */
  lemma {:induction false} RemoveWrappersKeepsOrder(children: seq<Node>, btns: seq<Node>)
    ensures IsSubsequence(RemoveWrappers(children, btns), children)
  {
    if children != [] {
      var x, rest := children[0], RemoveWrappers(children[1..], btns);
      RemoveWrappersKeepsOrder(children[1..], btns);
      if x !in btns {
        assert RemoveWrappers(children, btns) == [x] + rest;
        assert ([x] + rest)[1..] == rest;
      } else {
        assert RemoveWrappers(children, btns) == [] + rest == rest;
        if rest != [] {
          assert rest[0] in rest;
          assert rest[0] != x;
        }
      }
    }
  }

  /** `a` is `b` with some elements dropped. */
  ghost predicate IsSubsequence(a: seq<Node>, b: seq<Node>)
    decreases |b|
  {
    if a == [] then true
    else if b == [] then false
    else if a[0] == b[0] then IsSubsequence(a[1..], b[1..])
    else IsSubsequence(a, b[1..])
  }

  /**
   * The order in which the wrappers of one cell may be removed: each
   * wrapper's id belongs to no child but that wrapper and the wrappers
   * removed before it.
   */
  predicate Removable(children: seq<Node>, btns: seq<Node>) {
    forall j, n :: 0 <= j < |btns| && n in children && n.id == btns[j].id ==> n == btns[j] || n in btns[..j]
  }

  /**
   * When the ids allow it, the written loop does what it is for: it never
   * throws, and leaves exactly the children that are not the cell's wrappers.
   */
  lemma {:induction false} RemovableRemoved(children: seq<Node>, btns: seq<Node>)
    requires Distinct(children) && Removable(children, btns)
    ensures RemoveWrappersAsWritten(children, btns) == Outcome(RemoveWrappers(children, btns), false)
    decreases |btns|
  {
    if btns == [] {
      RemoveNoneKeeps(children, btns);
    } else {
      var b := btns[0];
      ScanRemovesOnly(children, b, 0);
      var rest := RemoveWrappers(children, [b]);
      RemoveWrappersDistinct(children, [b]);
      forall j, n | 0 <= j < |btns[1..]| && n in rest && n.id == btns[1..][j].id
        ensures n == btns[1..][j] || n in btns[1..][..j]
      {
        assert btns[1..][j] == btns[j + 1];
        assert n == btns[j + 1] || n in btns[..j + 1];
        assert btns[..j + 1] == [b] + btns[1..][..j];
      }
      RemovableRemoved(rest, btns[1..]);
      RemoveWrappersTwice(children, [b], btns[1..]);
      assert [b] + btns[1..] == btns;
    }
  }

  /** One scan for a wrapper that only it carries the id of removes it, and nothing else, without throwing. */
  lemma {:induction false} ScanRemovesOnly(children: seq<Node>, b: Node, k: nat)
    requires Distinct(children)
    requires forall n :: n in children && n.id == b.id ==> n == b
    requires k <= |children| && b !in children[..k]
    ensures ScanFrom(children, b, k) == Outcome(RemoveWrappers(children, [b]), false)
    decreases |children| - k
  {
    if k == |children| {
      assert children[..k] == children;
      RemoveNoneKeeps(children, [b]);
    } else if children[k].id != b.id {
      assert children[..k + 1] == children[..k] + [children[k]];
      ScanRemovesOnly(children, b, k + 1);
    } else {
      assert children[k] == b;
      assert IndexOf(children, b) == k by {
        var i := IndexOf(children, b);
        assert children[i] == children[k];
      }
      var rest := children[..k] + children[k + 1..];
      assert RemoveChild(children, b) == Some(rest);
      forall i | 0 <= i < |rest|
        ensures rest[i] != b
      {
        if i < k {
          assert rest[i] == children[i];
        } else {
          assert rest[i] == children[i + 1];
        }
      }
      ScanNoMatch(rest, b, k + 1);
      RemoveOne(children, k);
    }
  }

  /** A scan that meets no child with the wrapper's id changes nothing. */
  lemma {:induction false} ScanNoMatch(children: seq<Node>, b: Node, k: nat)
    requires forall n :: n in children && n.id == b.id ==> n == b
    requires b !in children
    ensures ScanFrom(children, b, k) == Outcome(children, false)
    decreases |children| - k
  {
    if k < |children| {
      assert children[k] in children;
      ScanNoMatch(children, b, k + 1);
    }
  }

  /** Removing a child that occurs once is removing it at its position. */
  lemma {:induction false} RemoveOne(children: seq<Node>, k: nat)
    requires Distinct(children) && k < |children|
    ensures RemoveWrappers(children, [children[k]]) == children[..k] + children[k + 1..]
  {
    var b := children[k];
    assert children == children[..k] + ([b] + children[k + 1..]);
    RemoveAppend(children[..k], [b] + children[k + 1..], [b]);
    RemoveNoneKeeps(children[..k], [b]);
    RemoveNoneKeeps(children[k + 1..], [b]);
    assert RemoveWrappers([b] + children[k + 1..], [b]) == RemoveWrappers(children[k + 1..], [b]) by {
      assert ([b] + children[k + 1..])[1..] == children[k + 1..];
    }
  }

  /** Removal from a concatenation is removal from each part. */
  lemma {:induction false} RemoveAppend(a: seq<Node>, c: seq<Node>, btns: seq<Node>)
    ensures RemoveWrappers(a + c, btns) == RemoveWrappers(a, btns) + RemoveWrappers(c, btns)
  {
    if a != [] {
      assert (a + c)[0] == a[0] && (a + c)[1..] == a[1..] + c;
      RemoveAppend(a[1..], c, btns);
    } else {
      assert a + c == c;
    }
  }

  /** With none of the wrappers among the children, nothing is removed. */
  lemma {:induction false} RemoveNoneKeeps(children: seq<Node>, btns: seq<Node>)
    requires forall n :: n in children ==> n !in btns
    ensures RemoveWrappers(children, btns) == children
  {
    if children != [] {
      assert children[0] in children;
      assert forall n :: n in children[1..] ==> n in children;
      RemoveNoneKeeps(children[1..], btns);
      assert children == [children[0]] + children[1..];
    }
  }

  /** What is left of distinct children is distinct. */
  lemma {:induction false} RemoveWrappersDistinct(children: seq<Node>, btns: seq<Node>)
    requires Distinct(children)
    ensures Distinct(RemoveWrappers(children, btns))
  {
    if children != [] {
      var tail := children[1..];
      assert Distinct(tail) by {
        forall i, j | 0 <= i < j < |tail| ensures tail[i] != tail[j] {
          assert tail[i] == children[i + 1] && tail[j] == children[j + 1];
        }
      }
      RemoveWrappersDistinct(tail, btns);
      forall j | 0 <= j < |tail|
        ensures tail[j] != children[0]
      {
        assert tail[j] == children[j + 1];
      }
      var r := RemoveWrappers(tail, btns);
      assert children[0] !in r;
      if children[0] !in btns {
        assert RemoveWrappers(children, btns) == [children[0]] + r;
      }
    }
  }

  /** Removing two lists of wrappers in turn is removing both at once. */
  lemma {:induction false} RemoveWrappersTwice(children: seq<Node>, a: seq<Node>, b: seq<Node>)
    ensures RemoveWrappers(RemoveWrappers(children, a), b) == RemoveWrappers(children, a + b)
  {
    if children != [] {
      RemoveWrappersTwice(children[1..], a, b);
      var x := children[0];
      var tail := RemoveWrappers(children[1..], a);
      if x !in a {
        assert RemoveWrappers(children, a) == [x] + tail;
        assert ([x] + tail)[1..] == tail;
      } else {
        assert x in a + b;
        assert RemoveWrappers(children, a) == [] + tail == tail;
        assert RemoveWrappers(children, a + b) == [] + RemoveWrappers(children[1..], a + b);
      }
    }
  }

  /**
   * `addCell` with the guard it intends: a wrapper whose id, and so whose
   * message, the cell already has joins the cell's map entry but not the
   * list. Given that no other child carries the cell's wrapper ids (they
   * start with `cell-` and the cell's id, section headers do not), the
   * cell's wrappers stay removable.
   */
  lemma {:induction false} IntendedGuardKeepsRemovable(children: seq<Node>, btns: seq<Node>, w: Node)
    requires Removable(children, btns)
    requires w !in children && w !in btns
    requires forall n :: n in children && n.id == w.id ==> n in btns
    ensures var add := forall b :: b in btns ==> b.id != w.id;
      Removable(if add then children + [w] else children, btns + [w])
  {
    var add := forall b :: b in btns ==> b.id != w.id;
    var after, btns' := if add then children + [w] else children, btns + [w];
    forall j, n | 0 <= j < |btns'| && n in after && n.id == btns'[j].id
      ensures n == btns'[j] || n in btns'[..j]
    {
      if j < |btns| {
        assert btns'[j] == btns[j] && btns'[..j] == btns[..j];
        assert btns[j] in btns;
      } else {
        assert btns'[j] == w && btns'[..j] == btns;
      }
    }
  }

  /**
   * `addCell` as written appends every wrapper to the list, so a repeated
   * message leaves two children with one id and the cell's wrappers no
   * longer removable.
   */
  lemma {:induction false} RepeatBreaksRemovable(children: seq<Node>, btns: seq<Node>, w: Node)
    requires w !in btns
    requires exists b :: b in btns && b.id == w.id
    ensures !Removable(children + [w], btns + [w])
  {
    var b :| b in btns && b.id == w.id;
    var j :| 0 <= j < |btns| && btns[j] == b;
    var btns' := btns + [w];
    assert btns'[j] == b && btns'[..j] == btns[..j];
    assert w in children + [w];
    assert w !in btns[..j] by {
      forall i | 0 <= i < j
        ensures btns[..j][i] != w
      {
        assert btns[..j][i] == btns[i];
      }
    }
  }

  /**
   * Two wrappers of one message with another child between them, as the
   * first two `"Alt"` issues of a session leave the list with the alt-text
   * section header in between: the scan for the first wrapper removes it,
   * skips the header, meets the second wrapper's equal id and removes the
   * first again, which throws. The header and the second wrapper stay.
   */
  lemma SeparatedRepeatThrows(cellId: string, message: string)
    ensures var w1, h, w2 := Node(0, WrapperId(cellId, message)), Node(1, "alt-text-errors-section"), Node(2, WrapperId(cellId, message));
      RemoveWrappersAsWritten([w1, h, w2], [w1, w2]) == Outcome([h, w2], true)
  {
    var w1, h, w2 := Node(0, WrapperId(cellId, message)), Node(1, "alt-text-errors-section"), Node(2, WrapperId(cellId, message));
    assert h.id[0] != w1.id[0];
    assert IndexOf([w1, h, w2], w1) == 0;
    assert [w1, h, w2][..0] + [w1, h, w2][1..] == [h, w2];
    assert RemoveChild([w1, h, w2], w1) == Some([h, w2]);
    assert RemoveChild([h, w2], w1) == None;
    assert ScanFrom([h, w2], w1, 1) == Outcome([h, w2], true);
    assert ScanFrom([w1, h, w2], w1, 0) == Outcome([h, w2], true);
  }

  /**
   * After such a throw the map still lists both wrappers while only the
   * second is a child, so every later `removeCell` of the cell throws at
   * the same point and leaves the list as it is.
   */
  lemma StuckAfterThrow(cellId: string, message: string)
    ensures var w1, h, w2 := Node(0, WrapperId(cellId, message)), Node(1, "alt-text-errors-section"), Node(2, WrapperId(cellId, message));
      RemoveWrappersAsWritten([h, w2], [w1, w2]) == Outcome([h, w2], true)
  {
    var w1, h, w2 := Node(0, WrapperId(cellId, message)), Node(1, "alt-text-errors-section"), Node(2, WrapperId(cellId, message));
    assert h.id[0] != w1.id[0];
    assert RemoveChild([h, w2], w1) == None;
    assert ScanFrom([h, w2], w1, 1) == Outcome([h, w2], true);
    assert ScanFrom([h, w2], w1, 0) == Outcome([h, w2], true);
  }

  /** Adjacent repeats are removed: the skipped child is the repeat itself, which its own scan then removes. */
  lemma AdjacentRepeatRemoved(cellId: string, message: string)
    ensures var w1, w2 := Node(0, WrapperId(cellId, message)), Node(1, WrapperId(cellId, message));
      RemoveWrappersAsWritten([w1, w2], [w1, w2]) == Outcome([], false)
  {
    var w1, w2 := Node(0, WrapperId(cellId, message)), Node(1, WrapperId(cellId, message));
    assert IndexOf([w1, w2], w1) == 0;
    assert [w1, w2][..0] + [w1, w2][1..] == [w2];
    assert RemoveChild([w1, w2], w1) == Some([w2]);
    assert ScanFrom([w1, w2], w1, 0) == Outcome([w2], false);
    assert IndexOf([w2], w2) == 0;
    assert [w2][..0] + [w2][1..] == [];
    assert RemoveChild([w2], w2) == Some([]);
    assert ScanFrom([w2], w2, 0) == Outcome([], false);
    assert [w1, w2][1..] == [w2] && [w2][1..] == [];
    assert RemoveWrappersAsWritten([w2], [w2]) == Outcome([], false);
  }

  /** Three adjacent repeats throw: the third wrapper takes the skipped second one's place. */
  lemma TripleRepeatThrows(cellId: string, message: string)
    ensures var w1, w2, w3 := Node(0, WrapperId(cellId, message)), Node(1, WrapperId(cellId, message)), Node(2, WrapperId(cellId, message));
      RemoveWrappersAsWritten([w1, w2, w3], [w1, w2, w3]) == Outcome([w2, w3], true)
  {
    var w1, w2, w3 := Node(0, WrapperId(cellId, message)), Node(1, WrapperId(cellId, message)), Node(2, WrapperId(cellId, message));
    assert IndexOf([w1, w2, w3], w1) == 0;
    assert [w1, w2, w3][..0] + [w1, w2, w3][1..] == [w2, w3];
    assert RemoveChild([w1, w2, w3], w1) == Some([w2, w3]);
    assert RemoveChild([w2, w3], w1) == None;
    assert ScanFrom([w2, w3], w1, 1) == Outcome([w2, w3], true);
    assert ScanFrom([w1, w2, w3], w1, 0) == Outcome([w2, w3], true);
  }
}
