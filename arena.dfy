/**
 * The node storage of the skip list: an arena of nodes addressed by index, slot HEADER holding
 * the header sentinel. A link is the index of the next node at that level, or NIL.
 * The predicates here tie the links to the abstract level-0 order; the lemmas say how one
 * relinking step of insert or remove carries that tie from the old order to the new one.
 */
module Arena {
  import opened Entries
  import opened Levels

  /** The number of forward slots of the header, and the largest height a node may have. */
  const MAX_LEVEL: nat := 32
  /** The null link. */
  const NIL: int := -1
  /** The arena slot of the header sentinel. */
  const HEADER: nat := 0

  /** A node: its key, its value and its forward links, one per level it occupies. */
  datatype Node = Node(key: int, value: int, forward: seq<int>)

  /** Slot x holds a real node (not the header) with 1 to MAX_LEVEL forward slots. */
  ghost predicate Real(nodes: seq<Node>, x: int) {
    HEADER < x < |nodes| && 1 <= |nodes[x].forward| <= MAX_LEVEL
  }

  /** No slot is listed twice. */
  ghost predicate Distinct(s: seq<nat>) {
    forall i, j :: 0 <= i < j < |s| ==> s[i] != s[j]
  }

  /** order lists distinct real nodes; the header has exactly MAX_LEVEL forward slots. */
  ghost predicate Addressable(nodes: seq<Node>, order: seq<nat>) {
    |nodes| > 0 && |nodes[HEADER].forward| == MAX_LEVEL &&
    (forall j :: 0 <= j < |order| ==> Real(nodes, order[j])) && Distinct(order)
  }

  /** Slot n holds a real node not yet in order, which may be spliced in at position m. */
  ghost predicate SpliceOk(nodes: seq<Node>, order: seq<nat>, m: nat, n: nat) {
    Addressable(nodes, order) && m <= |order| && Real(nodes, n) && n !in order
  }

  /** a and b differ at most in the targets of their links. */
  ghost predicate SameShape(a: seq<Node>, b: seq<Node>) {
    |a| == |b| &&
    forall y :: 0 <= y < |a| ==> a[y].key == b[y].key && a[y].value == b[y].value && |a[y].forward| == |b[y].forward|
  }

  /** The entries of the nodes listed in order: key, value, and height (the number of forward slots). */
  ghost function Elements(nodes: seq<Node>, order: seq<nat>): seq<Entry>
    requires Addressable(nodes, order)
  {
    seq(|order|, j requires 0 <= j < |order| => Entry(nodes[order[j]].key, nodes[order[j]].value, |nodes[order[j]].forward|))
  }

  /** A fresh node of height h: all its links NIL. */
  function NewNode(key: int, value: int, h: nat): (r: Node)
    ensures r.key == key && r.value == value && |r.forward| == h
    ensures forall l :: 0 <= l < h ==> r.forward[l] == NIL
  {
    Node(key, value, seq(h, _ => NIL))
  }

  /** The slot of the node at position q, NIL past the end. */
  function IdAt(order: seq<nat>, q: nat): int
    requires q <= |order|
  {
    if q < |order| then order[q] else NIL
  }

  /** The slot of the node at position p, the header for p = -1. */
  function IdOf(order: seq<nat>, p: int): nat
    requires -1 <= p < |order|
  {
    if p < 0 then HEADER else order[p]
  }

  /**
   * The node at position p (the header for p = -1), if it occupies level l, links at level l
   * to the next node of the order that occupies level l, or to NIL when there is none.
   */
  ghost predicate LinkOk(nodes: seq<Node>, order: seq<nat>, l: nat, p: int)
    requires Addressable(nodes, order) && l < MAX_LEVEL && -1 <= p < |order|
  {
    var x := IdOf(order, p);
    l < |nodes[x].forward| ==> nodes[x].forward[l] == IdAt(order, SuccPos(Elements(nodes, order), l, p + 1))
  }

  /** Every node of level l, the header included, links to the next node of order on level l. */
  ghost predicate LinksOk(nodes: seq<Node>, order: seq<nat>, l: nat)
    requires Addressable(nodes, order) && l < MAX_LEVEL
  {
    forall p :: -1 <= p < |order| ==> LinkOk(nodes, order, l, p)
  }

  /** The arena after the level-l link of slot x is set to target. */
  function WithLink(nodes: seq<Node>, x: nat, l: nat, target: int): (r: seq<Node>)
    requires x < |nodes| && l < |nodes[x].forward|
    ensures SameShape(nodes, r)
  {
    nodes[x := nodes[x].(forward := nodes[x].forward[l := target])]
  }

  // ---------------------------------------------------------------------------
  // Orders: splicing a slot in, dropping one
  // ---------------------------------------------------------------------------

  lemma SpliceDistinct(s: seq<nat>, m: nat, x: nat)
    requires Distinct(s) && m <= |s| && x !in s
    ensures Distinct(Splice(s, m, x))
  {
    var o := Splice(s, m, x);
    SpliceIndex(s, m, x);
    forall i, j | 0 <= i < j < |o| ensures o[i] != o[j] {
      if i == m {
        assert o[j] == s[j - 1];
      } else if j == m {
        assert o[i] == s[i];
      } else {
        assert o[i] == s[if i < m then i else i - 1];
        assert o[j] == s[if j < m then j else j - 1];
      }
    }
  }

  /** Splicing a real node not yet listed keeps the order addressable. */
  lemma SpliceAddressable(nodes: seq<Node>, order: seq<nat>, m: nat, n: nat)
    requires SpliceOk(nodes, order, m, n)
    ensures Addressable(nodes, Splice(order, m, n))
  {
    var o := Splice(order, m, n);
    SpliceIndex(order, m, n);
    SpliceDistinct(order, m, n);
    forall j | 0 <= j < |o| ensures Real(nodes, o[j]) {
      if j != m {
        assert o[j] == order[if j < m then j else j - 1];
      }
    }
  }

  /** The entries of the spliced order are the old ones with the new node's entry spliced in. */
  lemma ElementsSplice(nodes: seq<Node>, order: seq<nat>, m: nat, n: nat)
    requires SpliceOk(nodes, order, m, n)
    ensures Addressable(nodes, Splice(order, m, n))
    ensures Elements(nodes, Splice(order, m, n)) ==
            Splice(Elements(nodes, order), m, Entry(nodes[n].key, nodes[n].value, |nodes[n].forward|))
  {
    SpliceAddressable(nodes, order, m, n);
    var o := Splice(order, m, n);
    var es := Elements(nodes, order);
    var e := Entry(nodes[n].key, nodes[n].value, |nodes[n].forward|);
    var eo := Elements(nodes, o);
    var se := Splice(es, m, e);
    SpliceIndex(order, m, n);
    SpliceIndex(es, m, e);
    forall j | 0 <= j < |o| ensures eo[j] == se[j] {
      if j != m {
        var k := if j < m then j else j - 1;
        assert Shift(m, k) == j;
      }
    }
  }

  /**
   * Removing position m of order is undoing a splice: the shorter order is addressable, splicing
   * the removed slot back gives order, and the predecessor search before m is the same in both.
   */
  lemma DropView(nodes: seq<Node>, order: seq<nat>, m: nat, l: nat)
    requires Addressable(nodes, order) && m < |order|
    ensures SpliceOk(nodes, Drop(order, m), m, order[m])
    ensures order == Splice(Drop(order, m), m, order[m])
    ensures Elements(nodes, order) ==
            Splice(Elements(nodes, Drop(order, m)), m,
                   Entry(nodes[order[m]].key, nodes[order[m]].value, |nodes[order[m]].forward|))
    ensures LastAt(Elements(nodes, order), l, m) == LastAt(Elements(nodes, Drop(order, m)), l, m)
  {
    var base := Drop(order, m);
    var c := order[m];
    DropAddressable(nodes, order, m);
    ElementsSplice(nodes, base, m, c);
    LastAtSplice(Elements(nodes, base), m, Entry(nodes[c].key, nodes[c].value, |nodes[c].forward|), l);
  }

  /** An order with one position dropped is addressable, and splicing the slot back restores it. */
  lemma DropAddressable(nodes: seq<Node>, order: seq<nat>, m: nat)
    requires Addressable(nodes, order) && m < |order|
    ensures SpliceOk(nodes, Drop(order, m), m, order[m])
    ensures order == Splice(Drop(order, m), m, order[m])
    ensures Elements(nodes, Drop(order, m)) == Drop(Elements(nodes, order), m)
  {
    var b := Drop(order, m);
    DropIndex(order, m);
    DropDistinct(order, m);
    forall j | 0 <= j < |b| ensures Real(nodes, b[j]) {
      assert b[j] == order[if j < m then j else j + 1];
    }
    assert Addressable(nodes, b);
    var es := Elements(nodes, order);
    DropIndex(es, m);
  }

  /** Dropping a position keeps the slots distinct, and the dropped slot is no longer listed. */
  lemma DropDistinct(s: seq<nat>, m: nat)
    requires Distinct(s) && m < |s|
    ensures Distinct(Drop(s, m)) && s[m] !in Drop(s, m)
  {
    var b := Drop(s, m);
    DropIndex(s, m);
    forall i, j | 0 <= i < j < |b| ensures b[i] != b[j] {
      assert b[i] == s[if i < m then i else i + 1];
      assert b[j] == s[if j < m then j else j + 1];
    }
    forall j | 0 <= j < |b| ensures b[j] != s[m] {
      assert b[j] == s[if j < m then j else j + 1];
    }
  }

  /** The slot at a shifted position of the spliced order is the slot at the old position. */
  lemma IdAtShift(order: seq<nat>, m: nat, n: nat, q: nat)
    requires m <= |order| && q <= |order|
    ensures IdAt(Splice(order, m, n), Shift(m, q)) == IdAt(order, q)
  {
    SpliceIndex(order, m, n);
  }

  // ---------------------------------------------------------------------------
  // Framing: what changing link targets leaves alone
  // ---------------------------------------------------------------------------

  /** Arenas of the same shape hold the same entries for any order. */
  lemma ShapeElements(a: seq<Node>, b: seq<Node>, order: seq<nat>)
    requires SameShape(a, b) && Addressable(a, order)
    ensures Addressable(b, order) && Elements(b, order) == Elements(a, order)
  {
    assert forall j :: 0 <= j < |order| ==> Real(b, order[j]);
  }

  /** The link condition at a position only looks at that position's link. */
  lemma LinkOkSameSlot(a: seq<Node>, b: seq<Node>, order: seq<nat>, l: nat, p: int)
    requires SameShape(a, b) && Addressable(a, order) && l < MAX_LEVEL && -1 <= p < |order|
    requires l < |a[IdOf(order, p)].forward| ==> a[IdOf(order, p)].forward[l] == b[IdOf(order, p)].forward[l]
    ensures Addressable(b, order)
    ensures LinkOk(a, order, l, p) <==> LinkOk(b, order, l, p)
  {
    ShapeElements(a, b, order);
  }

  /** Setting a link at level l leaves every other level as it was. */
  lemma LinksOtherLevel(nodes: seq<Node>, order: seq<nat>, x: nat, l: nat, target: int, l': nat)
    requires Addressable(nodes, order) && x < |nodes| && l < |nodes[x].forward| && l' < MAX_LEVEL && l' != l
    ensures Addressable(WithLink(nodes, x, l, target), order)
    ensures LinksOk(WithLink(nodes, x, l, target), order, l') <==> LinksOk(nodes, order, l')
  {
    var w := WithLink(nodes, x, l, target);
    ShapeElements(nodes, w, order);
    forall p | -1 <= p < |order| ensures LinkOk(nodes, order, l', p) <==> LinkOk(w, order, l', p) {
      LinkOkSameSlot(nodes, w, order, l', p);
    }
  }

  // ---------------------------------------------------------------------------
  // Links before and after a splice
  // ---------------------------------------------------------------------------

  /**
   * A link that does not have to pass the splice point means the same before and after splicing:
   * the node at old position p satisfies its link condition at level l in the old order exactly
   * when it does at its shifted position in the new one.
   */
  lemma LinkOkShift(nodes: seq<Node>, order: seq<nat>, m: nat, n: nat, l: nat, p: int)
    requires SpliceOk(nodes, order, m, n)
    requires l < MAX_LEVEL && -1 <= p < |order|
    requires l < |nodes[n].forward| ==> m <= p || SuccPos(Elements(nodes, order), l, p + 1) < m
    ensures Addressable(nodes, Splice(order, m, n))
    ensures LinkOk(nodes, order, l, p) <==> LinkOk(nodes, Splice(order, m, n), l, Shift(m, p))
  {
    var o := Splice(order, m, n);
    var es := Elements(nodes, order);
    var e := Entry(nodes[n].key, nodes[n].value, |nodes[n].forward|);
    var q := SuccPos(es, l, p + 1);
    assert SuccPos(Elements(nodes, o), l, Shift(m, p) + 1) == Shift(m, q) by {
      ElementsSplice(nodes, order, m, n);
      SuccPosShift(es, m, e, l, p);
    }
    assert IdAt(o, Shift(m, q)) == IdAt(order, q) && IdOf(o, Shift(m, p)) == IdOf(order, p) by {
      IdAtShift(order, m, n, q);
      SpliceIndex(order, m, n);
    }
    LinkOkTransfer(nodes, order, o, l, p, Shift(m, p));
  }

  /** The link condition only depends on the slot at the position and the slot it must link to. */
  lemma LinkOkTransfer(nodes: seq<Node>, order: seq<nat>, o: seq<nat>, l: nat, p: int, p': int)
    requires Addressable(nodes, order) && Addressable(nodes, o) && l < MAX_LEVEL
    requires -1 <= p < |order| && -1 <= p' < |o| && IdOf(o, p') == IdOf(order, p)
    requires IdAt(o, SuccPos(Elements(nodes, o), l, p' + 1)) == IdAt(order, SuccPos(Elements(nodes, order), l, p + 1))
    ensures LinkOk(nodes, order, l, p) <==> LinkOk(nodes, o, l, p')
  {
  }

  /** A level the spliced node does not reach is linked correctly before the splice iff after it. */
  lemma LinksAbove(nodes: seq<Node>, order: seq<nat>, m: nat, n: nat, l: nat)
    requires SpliceOk(nodes, order, m, n)
    requires l < MAX_LEVEL && |nodes[n].forward| <= l
    ensures Addressable(nodes, Splice(order, m, n))
    ensures LinksOk(nodes, order, l) <==> LinksOk(nodes, Splice(order, m, n), l)
  {
    var o := Splice(order, m, n);
    ElementsSplice(nodes, order, m, n);
    SpliceIndex(order, m, n);
    forall p | -1 <= p < |order| ensures LinkOk(nodes, order, l, p) <==> LinkOk(nodes, o, l, Shift(m, p)) {
      LinkOkShift(nodes, order, m, n, l, p);
    }
    if LinksOk(nodes, order, l) {
      forall p' | -1 <= p' < |o| ensures LinkOk(nodes, o, l, p') {
        if p' < m {
          assert Shift(m, p') == p';
        } else if p' > m {
          assert Shift(m, p' - 1) == p';
        }
      }
    }
  }

  /** A node of level l, the header included, has a level-l slot, and it holds the next node of level l. */
  lemma LinkAt(nodes: seq<Node>, order: seq<nat>, l: nat, p: int)
    requires Addressable(nodes, order) && l < MAX_LEVEL && LinksOk(nodes, order, l)
    requires -1 <= p < |order| && (p == -1 || l < Elements(nodes, order)[p].height)
    ensures l < |nodes[IdOf(order, p)].forward|
    ensures nodes[IdOf(order, p)].forward[l] == IdAt(order, SuccPos(Elements(nodes, order), l, p + 1))
  {
    assert LinkOk(nodes, order, l, p);
  }

  /** The predecessor the descent records at level i links to the first node at or after m on level i. */
  lemma PredLink(nodes: seq<Node>, order: seq<nat>, m: nat, i: nat)
    requires Addressable(nodes, order) && m <= |order| && i < MAX_LEVEL && LinksOk(nodes, order, i)
    ensures var pred := IdOf(order, LastAt(Elements(nodes, order), i, m));
            i < |nodes[pred].forward| &&
            nodes[pred].forward[i] == IdAt(order, SuccPos(Elements(nodes, order), i, m))
  {
    var r := LastAt(Elements(nodes, order), i, m);
    assert LinkOk(nodes, order, i, r);
    SuccPosPastLast(Elements(nodes, order), i, m);
  }

  /** That link reaches the node at position m exactly on the levels the node occupies. */
  lemma PredLinksTo(nodes: seq<Node>, order: seq<nat>, m: nat, i: nat)
    requires Addressable(nodes, order) && m < |order| && i < MAX_LEVEL && LinksOk(nodes, order, i)
    ensures var pred := IdOf(order, LastAt(Elements(nodes, order), i, m));
            i < |nodes[pred].forward| &&
            (nodes[pred].forward[i] == order[m] <==> i < |nodes[order[m]].forward|)
  {
    PredLink(nodes, order, m, i);
  }

  // ---------------------------------------------------------------------------
  // One level of insert: splice the new node in after its predecessor
  // ---------------------------------------------------------------------------

  /**
   * One iteration of the splice loop of insert at level i: the new node n takes over the level-i
   * link of pred, the predecessor recorded by the descent, and pred then links to n.
   */
  ghost predicate SpliceStep(nodes: seq<Node>, order: seq<nat>, m: nat, n: nat, i: nat, pred: nat, after: seq<Node>) {
    SpliceOk(nodes, order, m, n) && i < |nodes[n].forward| && LinksOk(nodes, order, i) &&
    pred == IdOf(order, LastAt(Elements(nodes, order), i, m)) && pred != n && i < |nodes[pred].forward| &&
    after == WithLink(WithLink(nodes, n, i, nodes[pred].forward[i]), pred, i, n)
  }

  /** That step makes level i correct for the order with n spliced in at m. */
  lemma LinkInStep(nodes: seq<Node>, order: seq<nat>, m: nat, n: nat, i: nat, pred: nat, after: seq<Node>)
    requires SpliceStep(nodes, order, m, n, i, pred, after)
    ensures SameShape(nodes, after)
    ensures Addressable(after, Splice(order, m, n)) && LinksOk(after, Splice(order, m, n), i)
  {
    var o := Splice(order, m, n);
    ElementsSplice(nodes, order, m, n);
    ShapeElements(nodes, after, o);
    forall p' | -1 <= p' < |o| ensures LinkOk(after, o, i, p') {
      var r := LastAt(Elements(nodes, order), i, m);
      if p' == m {
        LinkInNew(nodes, order, m, n, i, pred, after);
      } else if p' == r {
        LinkInPred(nodes, order, m, n, i, pred, after);
      } else {
        LinkInOther(nodes, order, m, n, i, pred, after, p');
      }
    }
  }

  /** The new node links on to the first node at or after m on level i. */
  lemma LinkInNew(nodes: seq<Node>, order: seq<nat>, m: nat, n: nat, i: nat, pred: nat, after: seq<Node>)
    requires SpliceStep(nodes, order, m, n, i, pred, after)
    ensures Addressable(after, Splice(order, m, n)) && m < |Splice(order, m, n)|
    ensures LinkOk(after, Splice(order, m, n), i, m)
  {
    SpliceStepShape(nodes, order, m, n, i, pred, after);
    SplicedNext(nodes, order, m, n, after, i);
    NewTakesLink(nodes, order, m, n, i, pred, after);
    SpliceIndex(order, m, n);
    assert IdOf(Splice(order, m, n), m) == n;
  }

  /** A splice step changes link targets only, and keeps n spliceable. */
  lemma SpliceStepShape(nodes: seq<Node>, order: seq<nat>, m: nat, n: nat, i: nat, pred: nat, after: seq<Node>)
    requires SpliceStep(nodes, order, m, n, i, pred, after)
    ensures SpliceOk(nodes, order, m, n) && SameShape(nodes, after)
  {
  }

  /**
   * Seen from the spliced-in node n at position m (with any link targets), the next node of level i
   * is the first node at or after m on level i of the old order.
   */
  lemma SplicedNext(nodes: seq<Node>, order: seq<nat>, m: nat, n: nat, after: seq<Node>, i: nat)
    requires SpliceOk(nodes, order, m, n) && SameShape(nodes, after)
    ensures Addressable(after, Splice(order, m, n)) && m < |Splice(order, m, n)|
    ensures IdAt(Splice(order, m, n), SuccPos(Elements(after, Splice(order, m, n)), i, m + 1)) ==
            IdAt(order, SuccPos(Elements(nodes, order), i, m))
  {
    var o := Splice(order, m, n);
    var es := Elements(nodes, order);
    var q := SuccPos(es, i, m);
    ElementsSplice(nodes, order, m, n);
    ShapeElements(nodes, after, o);
    SuccPosAfterSplice(es, m, Entry(nodes[n].key, nodes[n].value, |nodes[n].forward|), i, m);
    IdAtShift(order, m, n, q);
  }

  /** The new node's level-i link is the one its predecessor had, to the first node at or after m on level i. */
  lemma NewTakesLink(nodes: seq<Node>, order: seq<nat>, m: nat, n: nat, i: nat, pred: nat, after: seq<Node>)
    requires SpliceStep(nodes, order, m, n, i, pred, after)
    ensures n < |after| && i < |after[n].forward|
    ensures after[n].forward[i] == IdAt(order, SuccPos(Elements(nodes, order), i, m))
  {
    PredLink(nodes, order, m, i);
  }

  /** The predecessor now links to the new node. */
  lemma LinkInPred(nodes: seq<Node>, order: seq<nat>, m: nat, n: nat, i: nat, pred: nat, after: seq<Node>)
    requires SpliceStep(nodes, order, m, n, i, pred, after)
    ensures Addressable(after, Splice(order, m, n))
    ensures LinkOk(after, Splice(order, m, n), i, LastAt(Elements(nodes, order), i, m))
  {
    var o := Splice(order, m, n);
    var es := Elements(nodes, order);
    var r := LastAt(es, i, m);
    ElementsSplice(nodes, order, m, n);
    ShapeElements(nodes, after, o);
    SpliceIndex(order, m, n);
    assert IdOf(o, r) == pred;
    assert after[pred].forward[i] == n;
    SuccPosPastLast(es, i, m);
    SuccPosBeforeSplice(es, m, Entry(nodes[n].key, nodes[n].value, |nodes[n].forward|), i, r + 1);
  }

  /** Every other node keeps its link, which still means the same in the spliced order. */
  lemma LinkInOther(nodes: seq<Node>, order: seq<nat>, m: nat, n: nat, i: nat, pred: nat, after: seq<Node>, p': int)
    requires SpliceStep(nodes, order, m, n, i, pred, after)
    requires -1 <= p' <= |order| && p' != m && p' != LastAt(Elements(nodes, order), i, m)
    ensures Addressable(after, Splice(order, m, n))
    ensures LinkOk(after, Splice(order, m, n), i, p')
  {
    var o := Splice(order, m, n);
    var es := Elements(nodes, order);
    var r := LastAt(es, i, m);
    ElementsSplice(nodes, order, m, n);
    SpliceIndex(order, m, n);
    var p := if p' < m then p' else p' - 1;
    assert Shift(m, p) == p';
    assert IdOf(o, p') == IdOf(order, p);
    assert IdOf(o, p') != pred && IdOf(o, p') != n;
    LinkOkSameSlot(nodes, after, o, i, p');
    if p == -1 || i < es[p].height {
      LinkOkShift(nodes, order, m, n, i, p);
    }
  }

  // ---------------------------------------------------------------------------
  // One level of remove: unlink the node from its predecessor
  // ---------------------------------------------------------------------------

  /**
   * One iteration of the unlink loop of remove at level i: pred, the predecessor recorded by the
   * descent, takes over the level-i link of the node at position m.
   */
  ghost predicate UnlinkStep(nodes: seq<Node>, order: seq<nat>, m: nat, i: nat, pred: nat, after: seq<Node>) {
    Addressable(nodes, order) && m < |order| &&
    i < |nodes[order[m]].forward| && LinksOk(nodes, order, i) &&
    pred == IdOf(order, LastAt(Elements(nodes, order), i, m)) && i < |nodes[pred].forward| &&
    after == WithLink(nodes, pred, i, nodes[order[m]].forward[i])
  }

  /** That step makes level i correct for the order without position m. */
  lemma LinkOutStep(nodes: seq<Node>, order: seq<nat>, m: nat, i: nat, pred: nat, after: seq<Node>)
    requires UnlinkStep(nodes, order, m, i, pred, after)
    ensures SameShape(nodes, after)
    ensures Addressable(after, Drop(order, m)) && LinksOk(after, Drop(order, m), i)
  {
    var base := Drop(order, m);
    DropAddressable(nodes, order, m);
    ShapeElements(nodes, after, base);
    forall p | -1 <= p < |base| ensures LinkOk(after, base, i, p) {
      var r := LastAt(Elements(nodes, order), i, m);
      if p == r {
        LinkOutPred(nodes, order, m, i, pred, after);
      } else {
        LinkOutOther(nodes, order, m, i, pred, after, p);
      }
    }
  }

  /** The link of the node at position m leads to the first node at or after m of the shorter order. */
  lemma DroppedLink(nodes: seq<Node>, order: seq<nat>, m: nat, i: nat)
    requires Addressable(nodes, order) && m < |order| && i < |nodes[order[m]].forward|
    requires i < MAX_LEVEL && LinksOk(nodes, order, i)
    ensures Addressable(nodes, Drop(order, m))
    ensures nodes[order[m]].forward[i] == IdAt(Drop(order, m), SuccPos(Elements(nodes, Drop(order, m)), i, m))
  {
    assert Elements(nodes, order)[m].height == |nodes[order[m]].forward|;
    LinkAt(nodes, order, i, m);
    DropNext(nodes, order, m, i);
  }

  /** The node after position m on level l is, in the order without m, the first node at or after m on level l. */
  lemma DropNext(nodes: seq<Node>, order: seq<nat>, m: nat, l: nat)
    requires Addressable(nodes, order) && m < |order|
    ensures Addressable(nodes, Drop(order, m))
    ensures IdAt(order, SuccPos(Elements(nodes, order), l, m + 1)) ==
            IdAt(Drop(order, m), SuccPos(Elements(nodes, Drop(order, m)), l, m))
  {
    var base := Drop(order, m);
    var c := order[m];
    DropView(nodes, order, m, l);
    var es := Elements(nodes, base);
    var q := SuccPos(es, l, m);
    SuccPosAfterSplice(es, m, Entry(nodes[c].key, nodes[c].value, |nodes[c].forward|), l, m);
    IdAtShift(base, m, c, q);
  }

  /** The predecessor now links past the removed node. */
  lemma LinkOutPred(nodes: seq<Node>, order: seq<nat>, m: nat, i: nat, pred: nat, after: seq<Node>)
    requires UnlinkStep(nodes, order, m, i, pred, after)
    ensures Addressable(after, Drop(order, m))
    ensures LinkOk(after, Drop(order, m), i, LastAt(Elements(nodes, order), i, m))
  {
    var base := Drop(order, m);
    DropView(nodes, order, m, i);
    DroppedLink(nodes, order, m, i);
    ShapeElements(nodes, after, base);
    SuccPosPastLast(Elements(nodes, base), i, m);
  }

  /** Every other node keeps its link, which still means the same once the node is gone. */
  lemma LinkOutOther(nodes: seq<Node>, order: seq<nat>, m: nat, i: nat, pred: nat, after: seq<Node>, p: int)
    requires UnlinkStep(nodes, order, m, i, pred, after)
    requires -1 <= p < |order| - 1 && p != LastAt(Elements(nodes, order), i, m)
    ensures Addressable(after, Drop(order, m))
    ensures LinkOk(after, Drop(order, m), i, p)
  {
    var base := Drop(order, m);
    var c := order[m];
    DropView(nodes, order, m, i);
    var es := Elements(nodes, base);
    assert IdOf(base, p) != pred by {
      SpliceIndex(base, m, c);
    }
    LinkOkSameSlot(nodes, after, base, i, p);
    if p == -1 || i < es[p].height {
      LinkOkShift(nodes, base, m, c, i, p);
      assert LinkOk(nodes, order, i, Shift(m, p));
    }
  }

  // ---------------------------------------------------------------------------
  // What the header and the end of the descent see
  // ---------------------------------------------------------------------------

  /** The header's level-l link is NIL exactly when no node is taller than l. */
  lemma HeaderNil(nodes: seq<Node>, order: seq<nat>, l: nat)
    requires Addressable(nodes, order) && l < MAX_LEVEL && LinksOk(nodes, order, l)
    ensures nodes[HEADER].forward[l] == NIL <==> MaxHeight(Elements(nodes, order)) <= l
  {
    var es := Elements(nodes, order);
    assert LinkOk(nodes, order, l, -1);
    var q := SuccPos(es, l, 0);
    if q < |es| {
      assert l < es[q].height;
    }
    if MaxHeight(es) > l {
      var j :| 0 <= j < |es| && es[j].height == MaxHeight(es);
      assert q <= j;
    }
  }

  /**
   * Once the descent has reached level 0, the next node is the one at the stopping position m,
   * or NIL when m is the end.
   */
  lemma DescentEnd(nodes: seq<Node>, order: seq<nat>, m: nat)
    requires Addressable(nodes, order) && m <= |order| && LinksOk(nodes, order, 0)
    ensures var pred := IdOf(order, LastAt(Elements(nodes, order), 0, m));
            0 < |nodes[pred].forward| && nodes[pred].forward[0] == IdAt(order, m)
  {
    PredLink(nodes, order, m, 0);
  }
}
