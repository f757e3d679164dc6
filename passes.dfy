/**
 * The loops of insert and remove, one whole pass at a time: the invariant the structure keeps
 * between operations, the predecessors the descent records, and the state after each loop.
 */
module Passes {
  import opened Entries
  import opened Levels
  import opened Arena

  function Max(a: nat, b: nat): nat {
    if a < b then b else a
  }

  /** Levels lo to hi - 1 are linked correctly for order. */
  ghost predicate Linked(nodes: seq<Node>, order: seq<nat>, lo: nat, hi: nat)
    requires Addressable(nodes, order) && hi <= MAX_LEVEL
  {
    forall l :: lo <= l < hi ==> LinksOk(nodes, order, l)
  }

  /**
   * For levels lo to hi - 1, update holds the predecessor the descent stops at on that level:
   * the last node of the level before position m (the header when there is none).
   */
  ghost predicate Recorded(update: seq<int>, order: seq<nat>, es: seq<Entry>, m: nat, lo: nat, hi: nat) {
    |update| == MAX_LEVEL && |es| == |order| && m <= |es| && hi <= MAX_LEVEL &&
    forall j :: lo <= j < hi ==> update[j] == IdOf(order, LastAt(es, j, m))
  }

  /**
   * The invariant kept between operations: keys never decrease along level 0, every level links
   * each of its nodes to the next node of that level, and level is the tallest height, or 1 once
   * removals have lowered the list, or 0 before the first insert.
   */
  ghost predicate Inv(nodes: seq<Node>, order: seq<nat>, level: nat) {
    Addressable(nodes, order) && Sorted(Elements(nodes, order)) && Linked(nodes, order, 0, MAX_LEVEL) &&
    MaxHeight(Elements(nodes, order)) <= level <= MAX_LEVEL &&
    (1 < level ==> level == MaxHeight(Elements(nodes, order)))
  }

  /** The empty list: the header alone, all its links NIL, and level 0. */
  lemma EmptyInv(header: Node)
    requires |header.forward| == MAX_LEVEL && forall l :: 0 <= l < MAX_LEVEL ==> header.forward[l] == NIL
    ensures Inv([header], [], 0) && Elements([header], []) == []
  {
    forall l | 0 <= l < MAX_LEVEL ensures LinksOk([header], [], l) {
      assert LinkOk([header], [], l, -1);
    }
  }

  /** Recording the descent's stop at level i extends the record downward by one level. */
  lemma RecordStep(update: seq<int>, order: seq<nat>, es: seq<Entry>, m: nat, i: nat, hi: nat, current: int)
    requires Recorded(update, order, es, m, i + 1, hi) && i < hi
    requires current == IdOf(order, LastAt(es, i, m))
    ensures Recorded(update[i := current], order, es, m, i, hi)
  {
  }

  /** Above every node, the predecessor on a level is the header. */
  lemma RecordHeader(update: seq<int>, order: seq<nat>, es: seq<Entry>, m: nat, i: nat)
    requires Recorded(update, order, es, m, 0, i) && i < MAX_LEVEL && MaxHeight(es) <= i
    ensures Recorded(update[i := HEADER], order, es, m, 0, i + 1)
  {
    assert LastAt(es, i, m) == -1;
  }

  /** Below lo..hi, a shorter record is still a record. */
  lemma RecordedPrefix(update: seq<int>, order: seq<nat>, es: seq<Entry>, m: nat, hi: nat, hi': nat)
    requires Recorded(update, order, es, m, 0, hi) && hi' <= hi
    ensures Recorded(update, order, es, m, 0, hi')
  {
  }

  /**
   * A node appended to the arena changes no entry and no link, and it may then be spliced in
   * anywhere.
   */
  lemma AppendNode(nodes: seq<Node>, order: seq<nat>, x: Node, m: nat)
    requires Addressable(nodes, order) && Linked(nodes, order, 0, MAX_LEVEL)
    requires 1 <= |x.forward| <= MAX_LEVEL && m <= |order|
    ensures Addressable(nodes + [x], order) && Elements(nodes + [x], order) == Elements(nodes, order)
    ensures Linked(nodes + [x], order, 0, MAX_LEVEL)
    ensures SpliceOk(nodes + [x], order, m, |nodes|)
  {
    var w := nodes + [x];
    assert forall j :: 0 <= j < |order| ==> Real(w, order[j]) && w[order[j]] == nodes[order[j]];
    assert Elements(w, order) == Elements(nodes, order);
    forall l, p | 0 <= l < MAX_LEVEL && -1 <= p < |order| ensures LinkOk(w, order, l, p) {
      assert LinksOk(nodes, order, l) && LinkOk(nodes, order, l, p);
      assert w[IdOf(order, p)] == nodes[IdOf(order, p)];
    }
  }

  /** One pass of insert's splice loop: level i joins the spliced order, every other level keeps its state. */
  lemma LinkInLevel(nodes: seq<Node>, order: seq<nat>, m: nat, n: nat, i: nat, pred: nat, after: seq<Node>)
    requires SpliceStep(nodes, order, m, n, i, pred, after)
    requires Addressable(nodes, Splice(order, m, n))
    requires Linked(nodes, Splice(order, m, n), 0, i) && Linked(nodes, order, i, MAX_LEVEL)
    ensures SameShape(nodes, after) && Addressable(after, order) && Addressable(after, Splice(order, m, n))
    ensures Linked(after, Splice(order, m, n), 0, i + 1) && Linked(after, order, i + 1, MAX_LEVEL)
  {
    var o := Splice(order, m, n);
    LinkInStep(nodes, order, m, n, i, pred, after);
    ShapeElements(nodes, after, order);
    var mid := WithLink(nodes, n, i, nodes[pred].forward[i]);
    forall l | 0 <= l < i ensures LinksOk(after, o, l) {
      LinksOtherLevel(nodes, o, n, i, nodes[pred].forward[i], l);
      LinksOtherLevel(mid, o, pred, i, n, l);
    }
    forall l | i < l < MAX_LEVEL ensures LinksOk(after, order, l) {
      LinksOtherLevel(nodes, order, n, i, nodes[pred].forward[i], l);
      LinksOtherLevel(mid, order, pred, i, n, l);
    }
  }

  /** When the splice loop is done, the levels above the new node are correct for the spliced order too. */
  lemma LinkInDone(nodes: seq<Node>, order: seq<nat>, m: nat, n: nat)
    requires SpliceOk(nodes, order, m, n) && Addressable(nodes, Splice(order, m, n))
    requires Linked(nodes, Splice(order, m, n), 0, |nodes[n].forward|)
    requires Linked(nodes, order, |nodes[n].forward|, MAX_LEVEL)
    ensures Linked(nodes, Splice(order, m, n), 0, MAX_LEVEL)
  {
    forall l | |nodes[n].forward| <= l < MAX_LEVEL ensures LinksOk(nodes, Splice(order, m, n), l) {
      LinksAbove(nodes, order, m, n, l);
    }
  }

  /** One pass of remove's unlink loop: level i drops the node, every other level keeps its state. */
  lemma LinkOutLevel(nodes: seq<Node>, order: seq<nat>, m: nat, i: nat, pred: nat, after: seq<Node>)
    requires UnlinkStep(nodes, order, m, i, pred, after)
    requires Addressable(nodes, Drop(order, m))
    requires Linked(nodes, Drop(order, m), 0, i) && Linked(nodes, order, i, MAX_LEVEL)
    ensures SameShape(nodes, after) && Addressable(after, order) && Addressable(after, Drop(order, m))
    ensures Linked(after, Drop(order, m), 0, i + 1) && Linked(after, order, i + 1, MAX_LEVEL)
  {
    var base := Drop(order, m);
    LinkOutStep(nodes, order, m, i, pred, after);
    ShapeElements(nodes, after, order);
    var target := nodes[order[m]].forward[i];
    forall l | 0 <= l < i ensures LinksOk(after, base, l) {
      LinksOtherLevel(nodes, base, pred, i, target, l);
    }
    forall l | i < l < MAX_LEVEL ensures LinksOk(after, order, l) {
      LinksOtherLevel(nodes, order, pred, i, target, l);
    }
  }

  /** When the unlink loop is done, the levels above the removed node are correct without it too. */
  lemma LinkOutDone(nodes: seq<Node>, order: seq<nat>, m: nat, i: nat)
    requires Addressable(nodes, order) && m < |order| && i == |nodes[order[m]].forward|
    requires Addressable(nodes, Drop(order, m))
    requires Linked(nodes, Drop(order, m), 0, i) && Linked(nodes, order, i, MAX_LEVEL)
    ensures Linked(nodes, Drop(order, m), 0, MAX_LEVEL)
  {
    DropView(nodes, order, m, 0);
    forall l | i <= l < MAX_LEVEL ensures LinksOk(nodes, Drop(order, m), l) {
      LinksAbove(nodes, Drop(order, m), m, order[m], l);
    }
  }

  /**
   * After insert: the entries are the old ones with the new entry placed by InsertSorted, and the
   * invariant holds again with level raised to the new node's height when that is taller.
   */
  lemma InsertKeepsInv(nodes: seq<Node>, order: seq<nat>, level: nat, after: seq<Node>, m: nat, n: nat, e: Entry)
    requires Inv(nodes, order, level) && m == LowerBound(Elements(nodes, order), e.key)
    requires 1 <= e.height <= MAX_LEVEL
    requires m <= |order| && Addressable(after, Splice(order, m, n))
    requires Elements(after, Splice(order, m, n)) == Splice(Elements(nodes, order), m, e)
    requires Linked(after, Splice(order, m, n), 0, MAX_LEVEL)
    ensures Inv(after, Splice(order, m, n), Max(level, e.height))
    ensures Elements(after, Splice(order, m, n)) == InsertSorted(Elements(nodes, order), e)
  {
    var es := Elements(nodes, order);
    InsertAtLowerBound(es, e);
    InsertKeepsSorted(es, e);
    MaxHeightInsert(es, e);
  }

  /**
   * After remove's unlink loop, when the key was present at the descent's stopping position m:
   * the entries are those RemoveFirst leaves, still sorted, none taller than level, and level is
   * at least 1.
   */
  lemma RemoveKeepsOrder(nodes: seq<Node>, order: seq<nat>, level: nat, after: seq<Node>, m: nat, key: int)
    requires Addressable(nodes, order) && Sorted(Elements(nodes, order)) && MaxHeight(Elements(nodes, order)) <= level
    requires m == LowerBound(Elements(nodes, order), key)
    requires m < |order| && Elements(nodes, order)[m].key == key
    requires Addressable(after, Drop(order, m))
    requires Elements(after, Drop(order, m)) == Drop(Elements(nodes, order), m)
    ensures Elements(after, Drop(order, m)) == RemoveFirst(Elements(nodes, order), key)
    ensures Sorted(Elements(after, Drop(order, m)))
    ensures 1 <= level && MaxHeight(Elements(after, Drop(order, m))) <= level
  {
    var es := Elements(nodes, order);
    RemoveAtLowerBound(es, key);
    assert Elements(after, Drop(order, m)) == RemoveFirst(es, key);
    RemoveKeepsSorted(es, key);
    MaxHeightRemove(es, key);
    assert es[m].height == |nodes[order[m]].forward| && Real(nodes, order[m]);
    assert es[m].height <= MaxHeight(es);
  }
}
