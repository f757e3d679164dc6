/**
 * The skip list itself: a header node and a current level, with insert, search and remove
 * walking and relinking the forward pointers level by level.
 *
 * The nodes live in the arena `nodes`; a pointer is an arena slot, and NIL plays nullptr.
 * The ghost field `order` lists the slots of the real nodes in level-0 order, and every
 * method is proved against the abstract sequence `Contents()` those nodes spell out.
 */
module SkipLists {
  import opened Wrappers
  import opened Entries
  import opened Levels
  import opened Arena
  import opened Passes

  /** The number of heads at the front of a run of coin flips. */
  function LeadingHeads(flips: seq<bool>): (t: nat)
    ensures t <= |flips|
    ensures forall j :: 0 <= j < t ==> flips[j]
    ensures t < |flips| ==> !flips[t]
  {
    if flips == [] || !flips[0] then 0 else 1 + LeadingHeads(flips[1..])
  }

  /** The height drawn from a run of coin flips: one plus the leading heads, capped at MAX_LEVEL. */
  function CoinLevel(flips: seq<bool>): nat {
    if 1 + LeadingHeads(flips) < MAX_LEVEL then 1 + LeadingHeads(flips) else MAX_LEVEL
  }

  /** The descent at level i stops, from position p, one step further on exactly when p is not yet its last stop. */
  lemma DescentStep(es: seq<Entry>, key: int, i: nat, p: int)
    requires Sorted(es)
    requires -1 <= p <= LastAt(es, i, LowerBound(es, key)) && (p == -1 || i < es[p].height)
    ensures var q := SuccPos(es, i, p + 1);
            ((q < |es| && es[q].key < key) <==> p < LastAt(es, i, LowerBound(es, key))) &&
            (q < |es| && es[q].key < key ==> q <= LastAt(es, i, LowerBound(es, key)))
  {
    var m := LowerBound(es, key);
    var r := LastAt(es, i, m);
    var q := SuccPos(es, i, p + 1);
    if m < |es| && m <= q < |es| {
      assert es[m].key <= es[q].key;
    }
    if p < r {
      assert q <= r;
    }
  }

  class SkipList {
    /** The arena: slot HEADER is the header node, every other slot a node some insert created. */
    var nodes: seq<Node>
    /** The number of levels in use. */
    var level: nat
    /** The real nodes in level-0 order. */
    ghost var order: seq<nat>

    /** The structure invariant, Inv, of the current state. */
    ghost predicate Valid()
      reads this
    {
      Inv(nodes, order, level)
    }

    /** The entries of the list in level-0 order. */
    ghost function Contents(): seq<Entry>
      reads this
      requires Valid()
    {
      Elements(nodes, order)
    }

    /** An empty list: a header with MAX_LEVEL NIL links, and level 0. */
    constructor ()
      ensures Valid() && Contents() == [] && level == 0
    {
      var header := Node(-1, -1, seq(MAX_LEVEL, _ => NIL));
      EmptyInv(header);
      nodes := [header];
      level := 0;
      order := [];
    }

    /**
     * Draws a height: one, plus one for every head before the first tail, but never more than
     * MAX_LEVEL. A run of flips that ends before a tail counts as ending in a tail.
     */
    static method RandomLevel(flips: seq<bool>) returns (newLevel: nat)
      ensures 1 <= newLevel <= MAX_LEVEL
      ensures forall j :: 0 <= j < newLevel - 1 ==> j < |flips| && flips[j]
      ensures newLevel - 1 <= |flips|
      ensures newLevel < MAX_LEVEL && newLevel - 1 < |flips| ==> !flips[newLevel - 1]
      ensures newLevel == CoinLevel(flips)
    {
      newLevel := 1;
      var i := 0;
      while i < |flips| && flips[i] && newLevel < MAX_LEVEL
        invariant 1 <= newLevel <= MAX_LEVEL && i == newLevel - 1 && i <= |flips|
        invariant forall j :: 0 <= j < i ==> flips[j]
      {
        newLevel := newLevel + 1;
        i := i + 1;
      }
    }

    /**
     * The inner loop of the descent at level i: from the node at position p0, follow level-i
     * links while they lead to a key smaller than key. It stops at the last node of level i
     * before the first entry whose key is not smaller than key.
     */
    static method Advance(nodes: seq<Node>, ghost order: seq<nat>, i: nat, key: int, start: nat, ghost p0: int)
      returns (current: nat, ghost p: int)
      requires Addressable(nodes, order) && Sorted(Elements(nodes, order))
      requires i < MAX_LEVEL && LinksOk(nodes, order, i)
      requires -1 <= p0 < |order| && start == IdOf(order, p0)
      requires p0 <= LastAt(Elements(nodes, order), i, LowerBound(Elements(nodes, order), key))
      requires p0 == -1 || i < Elements(nodes, order)[p0].height
      ensures -1 <= p < |order| && current == IdOf(order, p)
      ensures p == LastAt(Elements(nodes, order), i, LowerBound(Elements(nodes, order), key))
      ensures current == IdOf(order, LastAt(Elements(nodes, order), i, LowerBound(Elements(nodes, order), key)))
    {
      ghost var es := Elements(nodes, order);
      current, p := start, p0;
      LinkAt(nodes, order, i, p);
      while nodes[current].forward[i] != NIL && nodes[nodes[current].forward[i]].key < key
        invariant -1 <= p <= LastAt(es, i, LowerBound(es, key)) && current == IdOf(order, p)
        invariant p == -1 || i < es[p].height
        invariant i < |nodes[current].forward|
        invariant nodes[current].forward[i] == IdAt(order, SuccPos(es, i, p + 1))
        decreases |es| - p
      {
        DescentStep(es, key, i, p);
        p := SuccPos(es, i, p + 1);
        current := nodes[current].forward[i];
        LinkAt(nodes, order, i, p);
      }
      DescentStep(es, key, i, p);
    }

    /**
     * The descent that insert and remove share: from the header, at each level in use from the
     * top down, advance while the next key is smaller than key and record in update[i] where
     * level i stopped. It ends at the last node before the first entry not smaller than key.
     */
    static method Descend(nodes: seq<Node>, ghost order: seq<nat>, level: nat, key: int, update: array<int>)
      returns (current: nat, ghost p: int)
      requires Inv(nodes, order, level) && update.Length == MAX_LEVEL
      modifies update
      ensures -1 <= p < |order| && current == IdOf(order, p)
      ensures p == LastAt(Elements(nodes, order), 0, LowerBound(Elements(nodes, order), key))
      ensures Recorded(update[..], order, Elements(nodes, order), LowerBound(Elements(nodes, order), key), 0, level)
    {
      ghost var es := Elements(nodes, order);
      ghost var m := LowerBound(es, key);
      current := HEADER;
      p := -1;
      var i := level;
      while i > 0
        invariant 0 <= i <= level
        invariant -1 <= p < |order| && current == IdOf(order, p)
        invariant p == LastAt(es, i, m)
        invariant Recorded(update[..], order, es, m, i, level)
      {
        i := i - 1;
        assert LinksOk(nodes, order, i);
        current, p := Advance(nodes, order, i, key, current, p);
        RecordStep(update[..], order, es, m, i, level, current);
        update[i] := current;
      }
    }

    /** A fresh update vector: MAX_LEVEL slots, all NIL. */
    static method NewUpdate() returns (update: array<int>)
      ensures fresh(update) && update.Length == MAX_LEVEL
      ensures forall j :: 0 <= j < MAX_LEVEL ==> update[j] == NIL
    {
      update := new int[MAX_LEVEL](_ => NIL);
    }

    /**
     * The search walk: descend to the last node before the key on every level, then look at the
     * next node on level 0. The result is the value of the first node with the key, or None.
     */
    method Find(key: int) returns (r: Option<int>)
      requires Valid()
      ensures r == Lookup(Contents(), key)
      ensures r.Some? <==> KeyCount(Contents(), key) > 0
    {
      ghost var es := Contents();
      ghost var m := LowerBound(es, key);
      var current: int := HEADER;
      ghost var p := -1;
      var i := level;
      while i > 0
        invariant 0 <= i <= level
        invariant -1 <= p < |order| && current == IdOf(order, p)
        invariant p == LastAt(es, i, m)
      {
        i := i - 1;
        assert LinksOk(nodes, order, i);
        current, p := Advance(nodes, order, i, key, current, p);
      }
      assert LinksOk(nodes, order, 0);
      DescentEnd(nodes, order, m);
      current := nodes[current].forward[0];
      LookupAtLowerBound(es, key);
      if current != NIL && nodes[current].key == key {
        r := Some(nodes[current].value);
      } else {
        r := None;
      }
      LookupFindsPresent(es, key);
    }

    /** Search as the C++ code returns it: the value found, or the sentinel -1 when there is none. */
    method Search(key: int) returns (r: int)
      requires Valid()
      ensures Lookup(Contents(), key).Some? ==> r == Lookup(Contents(), key).value
      ensures Lookup(Contents(), key).None? ==> r == -1
    {
      var found := Find(key);
      r := if found.Some? then found.value else -1;
    }

    /**
     * The splice loop of insert: at each level below the new node's height, the new node n takes
     * over the link of the node recorded in update, which then links to n. Afterwards every level
     * is linked correctly for the order with n spliced in at position m.
     */
    method LinkIn(n: nat, ghost m: nat, update: array<int>, ghost e: Entry)
      requires SpliceOk(nodes, order, m, n) && Linked(nodes, order, 0, MAX_LEVEL)
      requires e == Entry(nodes[n].key, nodes[n].value, |nodes[n].forward|)
      requires Recorded(update[..], order, Elements(nodes, order), m, 0, |nodes[n].forward|)
      modifies this`nodes
      ensures Addressable(nodes, Splice(order, m, n))
      ensures Elements(nodes, Splice(order, m, n)) == Splice(Elements(old(nodes), order), m, e)
      ensures Linked(nodes, Splice(order, m, n), 0, MAX_LEVEL)
    {
      ghost var start := nodes;
      ghost var es := Elements(nodes, order);
      ElementsSplice(nodes, order, m, n);
      var newLevel := |nodes[n].forward|;
      var i := 0;
      while i < newLevel
        invariant 0 <= i <= newLevel
        invariant SameShape(start, nodes) && Addressable(nodes, order) && Elements(nodes, order) == es
        invariant Addressable(nodes, Splice(order, m, n))
        invariant Linked(nodes, Splice(order, m, n), 0, i) && Linked(nodes, order, i, MAX_LEVEL)
      {
        ghost var before := nodes;
        var pred := update[i];
        nodes := WithLink(nodes, n, i, nodes[pred].forward[i]);
        nodes := WithLink(nodes, pred, i, n);
        LinkInLevel(before, order, m, n, i, pred, nodes);
        ShapeElements(start, nodes, order);
        i := i + 1;
      }
      ElementsSplice(start, order, m, n);
      ShapeElements(start, nodes, Splice(order, m, n));
      LinkInDone(nodes, order, m, n);
    }

    /**
     * The splice of insert: a new node of height newLevel goes into a fresh arena slot and is
     * linked in after the predecessors recorded in update, at position m of the order.
     */
    method Place(key: int, value: int, newLevel: nat, ghost m: nat, update: array<int>)
      requires Valid() && m == LowerBound(Contents(), key) && 1 <= newLevel <= MAX_LEVEL
      requires Recorded(update[..], order, Contents(), m, 0, newLevel)
      modifies this`nodes, this`order
      ensures Inv(nodes, order, Max(level, newLevel))
      ensures Elements(nodes, order) == InsertSorted(old(Contents()), Entry(key, value, newLevel))
    {
      ghost var oldNodes := nodes;
      ghost var e := Entry(key, value, newLevel);
      var n := |nodes|;
      var node := NewNode(key, value, newLevel);
      AppendNode(nodes, order, node, m);
      nodes := nodes + [node];
      LinkIn(n, m, update, e);
      InsertKeepsInv(oldNodes, order, level, nodes, m, n, e);
      order := Splice(order, m, n);
    }

    /**
     * Inserts a node of the height drawn from flips in front of the first node whose key is not
     * smaller, linking it into levels 0 to that height - 1, and raises level to that height.
     */
    method Insert(key: int, value: int, flips: seq<bool>)
      requires Valid()
      modifies this
      ensures Valid()
      ensures Contents() == InsertSorted(old(Contents()), Entry(key, value, CoinLevel(flips)))
      ensures level == Max(old(level), CoinLevel(flips)) && 1 <= level <= MAX_LEVEL
    {
      ghost var es := Contents();
      ghost var m := LowerBound(es, key);
      var update := NewUpdate();
      var current;
      ghost var p;
      current, p := Descend(nodes, order, level, key, update);
      var newLevel := RandomLevel(flips);
      if newLevel > level {
        var i := level;
        while i < newLevel
          invariant level <= i <= newLevel
          invariant Recorded(update[..], order, es, m, 0, i)
          modifies update
        {
          RecordHeader(update[..], order, es, m, i);
          update[i] := HEADER;
          i := i + 1;
        }
      } else {
        RecordedPrefix(update[..], order, es, m, level, newLevel);
      }
      Place(key, value, newLevel, m, update);
      if newLevel > level {
        level := newLevel;
      }
    }

    /**
     * The unlink loop of remove: from level 0 up, while the node recorded in update links to
     * the node at position m, make it link past that node. Afterwards every level is linked
     * correctly for the order without position m.
     */
    method Unlink(current: nat, ghost m: nat, update: array<int>)
      requires Addressable(nodes, order) && m < |order| && current == order[m]
      requires Linked(nodes, order, 0, MAX_LEVEL)
      requires |nodes[current].forward| <= level <= MAX_LEVEL
      requires Recorded(update[..], order, Elements(nodes, order), m, 0, level)
      modifies this`nodes
      ensures SameShape(old(nodes), nodes) && Addressable(nodes, Drop(order, m))
      ensures Elements(nodes, Drop(order, m)) == Drop(Elements(old(nodes), order), m)
      ensures Linked(nodes, Drop(order, m), 0, MAX_LEVEL)
    {
      ghost var start := nodes;
      ghost var es := Elements(nodes, order);
      ghost var base := Drop(order, m);
      DropAddressable(nodes, order, m);
      var i := 0;
      while i < level
        invariant Addressable(nodes, order) && Addressable(nodes, base)
        invariant 0 <= i <= |nodes[current].forward|
        invariant SameShape(start, nodes) && Elements(nodes, order) == es
        invariant Linked(nodes, base, 0, i) && Linked(nodes, order, i, MAX_LEVEL)
      {
        assert LinksOk(nodes, order, i);
        PredLinksTo(nodes, order, m, i);
        if nodes[update[i]].forward[i] != current {
          break;
        }
        ghost var before := nodes;
        nodes := WithLink(nodes, update[i], i, nodes[current].forward[i]);
        LinkOutLevel(before, order, m, i, update[i], nodes);
        ShapeElements(start, nodes, order);
        i := i + 1;
      }
      LinkOutDone(nodes, order, m, i);
      DropAddressable(start, order, m);
      ShapeElements(start, nodes, base);
    }

    /**
     * The shrink loop of remove: while more than one level is in use and the header's top link
     * is NIL, drop that level. It stops at the greatest height of the remaining nodes, or at 1.
     */
    method Shrink()
      requires Addressable(nodes, order) && Sorted(Elements(nodes, order)) && Linked(nodes, order, 0, MAX_LEVEL)
      requires 1 <= level <= MAX_LEVEL && MaxHeight(Elements(nodes, order)) <= level
      modifies this`level
      ensures Valid() && level == Max(1, MaxHeight(Contents())) && level <= old(level)
    {
      while 1 < level && nodes[HEADER].forward[level - 1] == NIL
        invariant 1 <= level <= old(level) && MaxHeight(Elements(nodes, order)) <= level
      {
        assert LinksOk(nodes, order, level - 1);
        HeaderNil(nodes, order, level - 1);
        level := level - 1;
      }
      if 1 < level {
        assert LinksOk(nodes, order, level - 1);
        HeaderNil(nodes, order, level - 1);
      }
    }

    /** The found branch of remove: unlink the node at position m, then lower level. */
    method Delete(current: nat, ghost m: nat, update: array<int>, ghost key: int)
      requires Valid() && m == LowerBound(Contents(), key) && m < |order| && current == order[m]
      requires Contents()[m].key == key
      requires Recorded(update[..], order, Contents(), m, 0, level)
      modifies this
      ensures Valid()
      ensures Contents() == RemoveFirst(old(Contents()), key)
      ensures level == Max(1, MaxHeight(Contents())) && level <= old(level)
    {
      ghost var oldNodes := nodes;
      Unlink(current, m, update);
      RemoveKeepsOrder(oldNodes, order, level, nodes, m, key);
      order := Drop(order, m);
      Shrink();
    }

    /**
     * Removes the first node with the given key from every level it occupies, then lowers level
     * while the header's top link is NIL, but not below 1. Nothing changes when the key is absent.
     */
    method Remove(key: int) returns (removed: bool)
      requires Valid()
      modifies this
      ensures Valid()
      ensures removed == Lookup(old(Contents()), key).Some?
      ensures Contents() == RemoveFirst(old(Contents()), key)
      ensures !removed ==> nodes == old(nodes) && order == old(order) && level == old(level)
      ensures removed ==> level == Max(1, MaxHeight(Contents()))
      ensures level <= old(level)
    {
      ghost var es := Contents();
      ghost var m := LowerBound(es, key);
      var update := NewUpdate();
      var current: int;
      ghost var p;
      current, p := Descend(nodes, order, level, key, update);
      assert LinksOk(nodes, order, 0);
      DescentEnd(nodes, order, m);
      current := nodes[current].forward[0];
      LookupAtLowerBound(es, key);
      if current != NIL && nodes[current].key == key {
        Delete(current, m, update, key);
        removed := true;
      } else {
        RemoveAtLowerBound(es, key);
        removed := false;
      }
    }
  }

  /**
   * The demonstration run: six inserts with keys 1 to 11 and values ten times the key, three
   * searches, the removal of key 3, a search for it, and the insert of key 6 and its search.
   * Whatever heights the coin flips give the nodes, the searches find 30 and 90, find nothing
   * for 6 and for the removed 3, then find 60.
   */
  method Scenario(draws: seq<seq<bool>>) returns (a: Option<int>, b: Option<int>, c: Option<int>, d: Option<int>, e: Option<int>)
    requires |draws| == 7
    ensures a == Some(30) && b == Some(90) && c == None && d == None && e == Some(60)
  {
    var list := new SkipList();
    ghost var c0 := list.Contents();
    list.Insert(1, 10, draws[0]);
    ghost var c1 := list.Contents();
    list.Insert(3, 30, draws[1]);
    ghost var c2 := list.Contents();
    list.Insert(5, 50, draws[2]);
    ghost var c3 := list.Contents();
    list.Insert(7, 70, draws[3]);
    ghost var c4 := list.Contents();
    list.Insert(9, 90, draws[4]);
    ghost var c5 := list.Contents();
    list.Insert(11, 110, draws[5]);
    ghost var c6 := list.Contents();
    FoundAfterInserts(c0, c1, c2, c3, c4, c5, c6, draws);
    a := list.Find(3);
    b := list.Find(9);
    c := list.Find(6);
    var removed := list.Remove(3);
    RemoveUnique(c6, 3);
    d := list.Find(3);
    ghost var c7 := list.Contents();
    list.Insert(6, 60, draws[6]);
    LookupAfterInsert(c7, Entry(6, 60, CoinLevel(draws[6])), 6);
    e := list.Find(6);
  }

  /** The keys of the demonstration run arrive in ascending order, so each insert appends its entry. */
  lemma AscendingInserts(c0: seq<Entry>, c1: seq<Entry>, c2: seq<Entry>, c3: seq<Entry>, c4: seq<Entry>, c5: seq<Entry>, c6: seq<Entry>, draws: seq<seq<bool>>)
    requires |draws| == 7 && c0 == []
    requires c1 == InsertSorted(c0, Entry(1, 10, CoinLevel(draws[0])))
    requires c2 == InsertSorted(c1, Entry(3, 30, CoinLevel(draws[1])))
    requires c3 == InsertSorted(c2, Entry(5, 50, CoinLevel(draws[2])))
    requires c4 == InsertSorted(c3, Entry(7, 70, CoinLevel(draws[3])))
    requires c5 == InsertSorted(c4, Entry(9, 90, CoinLevel(draws[4])))
    requires c6 == InsertSorted(c5, Entry(11, 110, CoinLevel(draws[5])))
    ensures c6 == [Entry(1, 10, CoinLevel(draws[0])), Entry(3, 30, CoinLevel(draws[1])),
                   Entry(5, 50, CoinLevel(draws[2])), Entry(7, 70, CoinLevel(draws[3])),
                   Entry(9, 90, CoinLevel(draws[4])), Entry(11, 110, CoinLevel(draws[5]))]
  {
    var e0, e1, e2 := Entry(1, 10, CoinLevel(draws[0])), Entry(3, 30, CoinLevel(draws[1])), Entry(5, 50, CoinLevel(draws[2]));
    var e3, e4, e5 := Entry(7, 70, CoinLevel(draws[3])), Entry(9, 90, CoinLevel(draws[4])), Entry(11, 110, CoinLevel(draws[5]));
    InsertLargest(c0, e0);
    assert c1 == [e0];
    InsertLargest(c1, e1);
    assert c2 == [e0, e1];
    InsertLargest(c2, e2);
    assert c3 == [e0, e1, e2];
    InsertLargest(c3, e3);
    assert c4 == [e0, e1, e2, e3];
    InsertLargest(c4, e4);
    assert c5 == [e0, e1, e2, e3, e4];
    InsertLargest(c5, e5);
  }

  /** What the six inserts of the demonstration run leave to be found. */
  lemma FoundAfterInserts(c0: seq<Entry>, c1: seq<Entry>, c2: seq<Entry>, c3: seq<Entry>, c4: seq<Entry>, c5: seq<Entry>, c6: seq<Entry>, draws: seq<seq<bool>>)
    requires |draws| == 7 && c0 == []
    requires c1 == InsertSorted(c0, Entry(1, 10, CoinLevel(draws[0])))
    requires c2 == InsertSorted(c1, Entry(3, 30, CoinLevel(draws[1])))
    requires c3 == InsertSorted(c2, Entry(5, 50, CoinLevel(draws[2])))
    requires c4 == InsertSorted(c3, Entry(7, 70, CoinLevel(draws[3])))
    requires c5 == InsertSorted(c4, Entry(9, 90, CoinLevel(draws[4])))
    requires c6 == InsertSorted(c5, Entry(11, 110, CoinLevel(draws[5])))
    ensures Lookup(c6, 3) == Some(30) && Lookup(c6, 9) == Some(90) && Lookup(c6, 6) == None
    ensures KeyCount(c6, 3) == 1
  {
    forall k | k in {3, 9, 6} ensures Lookup(c6, k) == (if k == 3 then Some(30) else if k == 9 then Some(90) else None) {
      LookupAfterInsert(c5, Entry(11, 110, CoinLevel(draws[5])), k);
      LookupAfterInsert(c4, Entry(9, 90, CoinLevel(draws[4])), k);
      LookupAfterInsert(c3, Entry(7, 70, CoinLevel(draws[3])), k);
      LookupAfterInsert(c2, Entry(5, 50, CoinLevel(draws[2])), k);
      LookupAfterInsert(c1, Entry(3, 30, CoinLevel(draws[1])), k);
      LookupAfterInsert(c0, Entry(1, 10, CoinLevel(draws[0])), k);
    }
    KeyCountAfterInsert(c5, Entry(11, 110, CoinLevel(draws[5])), 3);
    KeyCountAfterInsert(c4, Entry(9, 90, CoinLevel(draws[4])), 3);
    KeyCountAfterInsert(c3, Entry(7, 70, CoinLevel(draws[3])), 3);
    KeyCountAfterInsert(c2, Entry(5, 50, CoinLevel(draws[2])), 3);
    KeyCountAfterInsert(c1, Entry(3, 30, CoinLevel(draws[1])), 3);
    KeyCountAfterInsert(c0, Entry(1, 10, CoinLevel(draws[0])), 3);
  }
}
