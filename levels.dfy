/**
 * Positions in the level-0 order and how the chains of the higher levels thread through them.
 * Position -1 stands for the header, which precedes every node at every level.
 */
module Levels {
  import opened Entries

  /** The first position at or after s whose entry is linked at level l; |es| when there is none. */
  function SuccPos(es: seq<Entry>, l: nat, s: nat): (q: nat)
    requires s <= |es|
    ensures s <= q <= |es|
    ensures q < |es| ==> l < es[q].height
    ensures forall j :: s <= j < q ==> es[j].height <= l
    decreases |es| - s
  {
    if s == |es| || l < es[s].height then s else SuccPos(es, l, s + 1)
  }

  /** The last position before m whose entry is linked at level l; -1 (the header) when there is none. */
  function LastAt(es: seq<Entry>, l: nat, m: nat): (r: int)
    requires m <= |es|
    ensures -1 <= r < m
    ensures r >= 0 ==> l < es[r].height
    ensures forall j :: r < j < m ==> es[j].height <= l
  {
    if m == 0 then -1 else if l < es[m - 1].height then m - 1 else LastAt(es, l, m - 1)
  }

  /** s with x spliced in at position m. */
  function Splice<T>(s: seq<T>, m: nat, x: T): seq<T>
    requires m <= |s|
  {
    s[..m] + [x] + s[m..]
  }

  /** s without its entry at position m. */
  function Drop<T>(s: seq<T>, m: nat): seq<T>
    requires m < |s|
  {
    s[..m] + s[m + 1..]
  }

  /** Where a position of the list ends up once an entry is spliced in at m. */
  function Shift(m: nat, q: int): int {
    if q < m then q else q + 1
  }

  lemma SpliceIndex<T>(s: seq<T>, m: nat, x: T)
    requires m <= |s|
    ensures |Splice(s, m, x)| == |s| + 1 && Splice(s, m, x)[m] == x
    ensures forall j :: 0 <= j < |s| ==> Splice(s, m, x)[Shift(m, j)] == s[j]
  {
  }

  /** Position j of s without m holds the entry of s at j, or at j + 1 from m on; splicing s[m] back restores s. */
  lemma DropIndex<T>(s: seq<T>, m: nat)
    requires m < |s|
    ensures |Drop(s, m)| == |s| - 1 && s == Splice(Drop(s, m), m, s[m])
    ensures forall j :: 0 <= j < |s| - 1 ==> Drop(s, m)[j] == s[if j < m then j else j + 1]
  {
  }

  /** From a position after the splice point, the next linked position moves up by one. */
  lemma {:induction false} SuccPosAfterSplice(es: seq<Entry>, m: nat, e: Entry, l: nat, s: nat)
    requires m <= s <= |es|
    ensures SuccPos(Splice(es, m, e), l, s + 1) == SuccPos(es, l, s) + 1
    decreases |es| - s
  {
    SpliceIndex(es, m, e);
    if s < |es| && es[s].height <= l {
      SuccPosAfterSplice(es, m, e, l, s + 1);
    }
  }

  /**
   * From a position at or before the splice point, the next linked position is the spliced entry
   * when it is linked at level l and nothing linked comes before it; otherwise the old one, shifted.
   */
  lemma {:induction false} SuccPosBeforeSplice(es: seq<Entry>, m: nat, e: Entry, l: nat, s: nat)
    requires s <= m <= |es|
    ensures SuccPos(Splice(es, m, e), l, s) ==
            if l < e.height && m <= SuccPos(es, l, s) then m else Shift(m, SuccPos(es, l, s))
    decreases m - s
  {
    SpliceIndex(es, m, e);
    if s == m {
      if e.height <= l {
        SuccPosAfterSplice(es, m, e, l, m);
      }
    } else if es[s].height <= l {
      SuccPosBeforeSplice(es, m, e, l, s + 1);
    }
  }

  /** Nothing linked at level l lies strictly between LastAt(l, m) and m. */
  lemma SuccPosPastLast(es: seq<Entry>, l: nat, m: nat)
    requires m <= |es|
    ensures SuccPos(es, l, LastAt(es, l, m) + 1) == SuccPos(es, l, m)
  {
    SkipLow(es, l, LastAt(es, l, m) + 1, m);
  }

  /** Positions that are not linked at level l are skipped over. */
  lemma {:induction false} SkipLow(es: seq<Entry>, l: nat, s: nat, t: nat)
    requires s <= t <= |es|
    requires forall j :: s <= j < t ==> es[j].height <= l
    ensures SuccPos(es, l, s) == SuccPos(es, l, t)
    decreases t - s
  {
    if s < t {
      SkipLow(es, l, s + 1, t);
    }
  }

  /** The predecessor search before m only looks at positions before m. */
  lemma LastAtSplice(es: seq<Entry>, m: nat, e: Entry, l: nat)
    requires m <= |es|
    ensures LastAt(Splice(es, m, e), l, m) == LastAt(es, l, m)
  {
    var ins := Splice(es, m, e);
    SpliceIndex(es, m, e);
    assert forall j :: 0 <= j < m ==> ins[j] == es[j];
  }

  /**
   * The next linked position seen from the shifted position of p in the spliced list is the shifted
   * next linked position, unless the spliced entry itself intervenes.
   */
  lemma SuccPosShift(es: seq<Entry>, m: nat, e: Entry, l: nat, p: int)
    requires m <= |es| && -1 <= p < |es|
    requires l < e.height ==> m <= p || SuccPos(es, l, p + 1) < m
    ensures SuccPos(Splice(es, m, e), l, Shift(m, p) + 1) == Shift(m, SuccPos(es, l, p + 1))
  {
    if p < m {
      SuccPosBeforeSplice(es, m, e, l, p + 1);
    } else {
      SuccPosAfterSplice(es, m, e, l, p + 1);
    }
  }
}
