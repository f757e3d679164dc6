/** An optional result, used where the C++ code returns the sentinel -1 for "not found". */
module Wrappers {
  datatype Option<+T> = None | Some(value: T)
}

/**
 * The abstract view of a skip list: the sequence of its entries in level-0 order.
 * Every operation of the linked structure is specified by a function on that sequence,
 * and the properties the structure promises are proved here about those functions.
 */
module Entries {
  import opened Wrappers

  /** One node as a client sees it: key, value, and the height drawn for it at insertion. */
  datatype Entry = Entry(key: int, value: int, height: nat)

  /** Keys never decrease along the level-0 chain (duplicates are allowed). */
  ghost predicate Sorted(es: seq<Entry>) {
    forall i, j :: 0 <= i < j < |es| ==> es[i].key <= es[j].key
  }

  /** Position of the first entry whose key is not less than k: where the descent stops. */
  function LowerBound(es: seq<Entry>, k: int): (m: nat)
    ensures m <= |es|
    ensures forall j :: 0 <= j < m ==> es[j].key < k
    ensures m < |es| ==> k <= es[m].key
  {
    if es == [] || k <= es[0].key then 0 else 1 + LowerBound(es[1..], k)
  }

  /** The value of the first entry with key k, if there is one. */
  function Lookup(es: seq<Entry>, k: int): Option<int> {
    if es == [] then None
    else if es[0].key == k then Some(es[0].value)
    else Lookup(es[1..], k)
  }

  /** Inserts e in front of the first entry whose key is not less than e.key. */
  function InsertSorted(es: seq<Entry>, e: Entry): seq<Entry> {
    if es == [] || e.key <= es[0].key then [e] + es
    else [es[0]] + InsertSorted(es[1..], e)
  }

  /** Removes the first entry with key k; no change when there is none. */
  function RemoveFirst(es: seq<Entry>, k: int): seq<Entry> {
    if es == [] then []
    else if es[0].key == k then es[1..]
    else [es[0]] + RemoveFirst(es[1..], k)
  }

  /** How many entries carry key k. */
  function KeyCount(es: seq<Entry>, k: int): nat {
    if es == [] then 0 else (if es[0].key == k then 1 else 0) + KeyCount(es[1..], k)
  }

  /** The tallest height in es, 0 when es is empty. */
  function MaxHeight(es: seq<Entry>): (h: nat)
    ensures forall j :: 0 <= j < |es| ==> es[j].height <= h
    ensures es != [] ==> exists j :: 0 <= j < |es| && es[j].height == h
  {
    if es == [] then 0
    else
      var rest := MaxHeight(es[1..]);
      assert forall j :: 1 <= j < |es| ==> es[j] == es[1..][j - 1];
      if es[0].height >= rest then es[0].height else rest
  }

  /** The entries present at level l: those whose height exceeds l, in level-0 order. */
  function Chain(es: seq<Entry>, l: nat): seq<Entry> {
    if es == [] then []
    else (if l < es[0].height then [es[0]] else []) + Chain(es[1..], l)
  }

  /** The entries of ps inserted one after the other into an empty list. */
  function InsertAll(ps: seq<Entry>): seq<Entry> {
    if ps == [] then [] else InsertSorted(InsertAll(ps[..|ps| - 1]), ps[|ps| - 1])
  }

  // ---------------------------------------------------------------------------
  // The descent's stopping position explains every operation.
  // ---------------------------------------------------------------------------

  /** Insertion splices e in exactly at the position where the descent stops. */
  lemma {:induction false} InsertAtLowerBound(es: seq<Entry>, e: Entry)
    ensures InsertSorted(es, e) == es[..LowerBound(es, e.key)] + [e] + es[LowerBound(es, e.key)..]
  {
    if es != [] && es[0].key < e.key {
      InsertAtLowerBound(es[1..], e);
      assert es == [es[0]] + es[1..];
    }
  }

  /** On a sorted list, the first entry with key k (if any) is the one the descent stops at. */
  lemma {:induction false} LookupAtLowerBound(es: seq<Entry>, k: int)
    requires Sorted(es)
    ensures var m := LowerBound(es, k);
            Lookup(es, k) == if m < |es| && es[m].key == k then Some(es[m].value) else None
  {
    if es != [] {
      SortedTail(es);
      if es[0].key < k {
        LookupAtLowerBound(es[1..], k);
        var m := LowerBound(es[1..], k);
        assert m < |es[1..]| ==> es[1..][m] == es[m + 1];
      } else if k < es[0].key {
        forall j | 0 <= j < |es[1..]| ensures es[1..][j].key != k {
          assert es[1..][j] in es[1..];
        }
        LookupAbsent(es[1..], k);
      }
    }
  }

  /** On a sorted list, removal drops exactly the entry the descent stops at, when its key matches. */
  lemma RemoveAtLowerBound(es: seq<Entry>, k: int)
    requires Sorted(es)
    ensures var m := LowerBound(es, k);
            RemoveFirst(es, k) == if m < |es| && es[m].key == k then es[..m] + es[m + 1..] else es
  {
    var m := LowerBound(es, k);
    if m < |es| && es[m].key == k {
      RemoveAt(es, k, m);
    } else {
      AbsentAtLowerBound(es, k);
      RemoveAbsent(es, k);
    }
  }

  /** On a sorted list, a key that is not at its lower bound is nowhere. */
  lemma AbsentAtLowerBound(es: seq<Entry>, k: int)
    requires Sorted(es)
    requires LowerBound(es, k) == |es| || es[LowerBound(es, k)].key != k
    ensures forall j :: 0 <= j < |es| ==> es[j].key != k
  {
    var m := LowerBound(es, k);
    forall j | m <= j < |es| ensures es[j].key != k {
      assert es[m].key <= es[j].key;
    }
  }

  /** Removal drops the entry at the first position carrying key k. */
  lemma {:induction false} RemoveAt(es: seq<Entry>, k: int, m: nat)
    requires m < |es| && es[m].key == k
    requires forall j :: 0 <= j < m ==> es[j].key != k
    ensures RemoveFirst(es, k) == es[..m] + es[m + 1..]
  {
    if m > 0 {
      var t := es[1..];
      assert forall j :: 0 <= j < m - 1 ==> t[j] == es[j + 1];
      RemoveAt(t, k, m - 1);
      assert es[..m] == [es[0]] + t[..m - 1];
      assert es[m + 1..] == t[m..];
    }
  }

  // ---------------------------------------------------------------------------
  // Insertion
  // ---------------------------------------------------------------------------

  /** Insertion keeps the keys in non-decreasing order. */
  lemma {:induction false} InsertKeepsSorted(es: seq<Entry>, e: Entry)
    requires Sorted(es)
    ensures Sorted(InsertSorted(es, e))
  {
    InsertAtLowerBound(es, e);
    var m := LowerBound(es, e.key);
    var r := es[..m] + [e] + es[m..];
    forall i, j | 0 <= i < j < |r| ensures r[i].key <= r[j].key {
      if j < m {
        assert r[i] == es[i] && r[j] == es[j];
      } else if j == m {
        assert r[i] == es[i];
      } else if i > m {
        assert r[i] == es[i - 1] && r[j] == es[j - 1];
      } else if i == m {
        assert r[j] == es[j - 1];
      } else {
        assert r[i] == es[i] && r[j] == es[j - 1];
      }
    }
  }

  /** Keys strictly increasing: sorted, and no key twice. */
  ghost predicate StrictlySorted(es: seq<Entry>) {
    forall i, j :: 0 <= i < j < |es| ==> es[i].key < es[j].key
  }

  /** Inserting a key not yet present keeps the keys strictly increasing. */
  lemma InsertKeepsStrict(es: seq<Entry>, e: Entry)
    requires StrictlySorted(es) && forall j :: 0 <= j < |es| ==> es[j].key != e.key
    ensures StrictlySorted(InsertSorted(es, e))
  {
    InsertAtLowerBound(es, e);
    var m := LowerBound(es, e.key);
    var r := es[..m] + [e] + es[m..];
    forall i, j | 0 <= i < j < |r| ensures r[i].key < r[j].key {
      if j < m {
        assert r[i] == es[i] && r[j] == es[j];
      } else if j == m {
        assert r[i] == es[i];
      } else if i > m {
        assert r[i] == es[i - 1] && r[j] == es[j - 1];
      } else if i == m {
        assert r[j] == es[j - 1];
      } else {
        assert r[i] == es[i] && r[j] == es[j - 1];
      }
    }
  }

  /** Insertion adds exactly one entry and loses none. */
  lemma {:induction false} InsertAddsOne(es: seq<Entry>, e: Entry)
    ensures multiset(InsertSorted(es, e)) == multiset(es) + multiset{e}
  {
    if es != [] && es[0].key < e.key {
      InsertAddsOne(es[1..], e);
      assert es == [es[0]] + es[1..];
    }
  }

  /** After insertion, e is the first entry with its key; other keys are found as before. */
  lemma {:induction false} LookupAfterInsert(es: seq<Entry>, e: Entry, k: int)
    ensures Lookup(InsertSorted(es, e), k) == if k == e.key then Some(e.value) else Lookup(es, k)
  {
    if es != [] && es[0].key < e.key {
      LookupAfterInsert(es[1..], e, k);
    }
  }

  /** Insertion adds one entry with e's key and none with any other key. */
  lemma {:induction false} KeyCountAfterInsert(es: seq<Entry>, e: Entry, k: int)
    ensures KeyCount(InsertSorted(es, e), k) == KeyCount(es, k) + if e.key == k then 1 else 0
  {
    if es == [] || e.key <= es[0].key {
      assert ([e] + es)[1..] == es;
    } else {
      KeyCountAfterInsert(es[1..], e, k);
      assert ([es[0]] + InsertSorted(es[1..], e))[1..] == InsertSorted(es[1..], e);
    }
  }

  /** Removing e's key right after inserting e gives back the list, in the same order. */
  lemma {:induction false} RemoveAfterInsert(es: seq<Entry>, e: Entry)
    ensures RemoveFirst(InsertSorted(es, e), e.key) == es
  {
    if es != [] && es[0].key < e.key {
      RemoveAfterInsert(es[1..], e);
      assert es == [es[0]] + es[1..];
    }
  }

  /** The new entry is linked at level l exactly when its height exceeds l. */
  lemma {:induction false} ChainAfterInsert(es: seq<Entry>, e: Entry, l: nat)
    requires Sorted(es)
    ensures Chain(InsertSorted(es, e), l) == if l < e.height then InsertSorted(Chain(es, l), e) else Chain(es, l)
  {
    if es == [] {
    } else if e.key <= es[0].key {
      if l < e.height {
        ChainKeysAbove(es, l, e.key);
        assert Chain([e] + es, l) == [e] + Chain(es, l) by {
          assert ([e] + es)[1..] == es;
        }
      } else {
        assert ([e] + es)[1..] == es;
      }
    } else {
      SortedTail(es);
      ChainAfterInsert(es[1..], e, l);
      var tail := InsertSorted(es[1..], e);
      assert InsertSorted(es, e) == [es[0]] + tail;
      assert ([es[0]] + tail)[1..] == tail;
      var c := Chain(es[1..], l);
      if l < es[0].height {
        assert Chain(es, l) == [es[0]] + c;
        if l < e.height {
          assert ([es[0]] + c)[1..] == c;
          assert InsertSorted([es[0]] + c, e) == [es[0]] + InsertSorted(c, e);
        }
      } else {
        assert Chain(es, l) == c;
      }
    }
  }

  /** On a sorted list whose first key is at least k, every entry of any chain has key at least k. */
  lemma {:induction false} ChainKeysAbove(es: seq<Entry>, l: nat, k: int)
    requires Sorted(es) && (es != [] ==> k <= es[0].key)
    ensures Chain(es, l) == [] || k <= Chain(es, l)[0].key
  {
    if es != [] && es[0].height <= l {
      SortedTail(es);
      ChainKeysAbove(es[1..], l, k);
    }
  }

  /** Entries inserted in ascending key order end up one after the other. */
  lemma {:induction false} InsertLargest(es: seq<Entry>, e: Entry)
    requires forall j :: 0 <= j < |es| ==> es[j].key < e.key
    ensures InsertSorted(es, e) == es + [e]
  {
    if es != [] {
      InsertLargest(es[1..], e);
      assert es == [es[0]] + es[1..];
    }
  }

  /** With distinct keys, every inserted key is found with its own value, and no other key is found. */
  lemma {:induction false} InsertAllFinds(ps: seq<Entry>, k: int)
    requires forall i, j :: 0 <= i < j < |ps| ==> ps[i].key != ps[j].key
    ensures Lookup(InsertAll(ps), k) == if exists j :: 0 <= j < |ps| && ps[j].key == k
                                       then Some(ps[KeyIndex(ps, k)].value) else None
  {
    if ps != [] {
      var init := ps[..|ps| - 1];
      var last := ps[|ps| - 1];
      InsertAllFinds(init, k);
      LookupAfterInsert(InsertAll(init), last, k);
      if k == last.key {
        assert !exists j :: 0 <= j < |init| && init[j].key == k;
      } else if exists j :: 0 <= j < |ps| && ps[j].key == k {
        var j := KeyIndex(ps, k);
        assert init[j] == ps[j];
        assert init[KeyIndex(init, k)] == ps[KeyIndex(init, k)];
      } else {
        assert !exists j :: 0 <= j < |init| && init[j].key == k;
      }
    }
  }

  /** The (only) position at which ps carries key k, for key-distinct ps. */
  function KeyIndex(ps: seq<Entry>, k: int): (j: nat)
    requires forall i, j :: 0 <= i < j < |ps| ==> ps[i].key != ps[j].key
    requires exists j :: 0 <= j < |ps| && ps[j].key == k
    ensures j < |ps| && ps[j].key == k
  {
    var j :| 0 <= j < |ps| && ps[j].key == k; j
  }

  // ---------------------------------------------------------------------------
  // Removal
  // ---------------------------------------------------------------------------

  /** Removing a key that is not present changes nothing. */
  lemma {:induction false} RemoveAbsent(es: seq<Entry>, k: int)
    requires forall j :: 0 <= j < |es| ==> es[j].key != k
    ensures RemoveFirst(es, k) == es
  {
    if es != [] {
      assert es[0].key != k;
      RemoveAbsent(es[1..], k);
      assert es == [es[0]] + es[1..];
    }
  }

  /** Removal takes away one entry with key k when there is one, and nothing else. */
  lemma {:induction false} RemoveCount(es: seq<Entry>, k: int, k': int)
    ensures KeyCount(RemoveFirst(es, k), k') ==
            if k' == k && KeyCount(es, k) > 0 then KeyCount(es, k) - 1 else KeyCount(es, k')
  {
    if es != [] && es[0].key != k {
      RemoveCount(es[1..], k, k');
      assert ([es[0]] + RemoveFirst(es[1..], k))[1..] == RemoveFirst(es[1..], k);
    }
  }

  /** A key is found exactly when it is present. */
  lemma {:induction false} LookupFindsPresent(es: seq<Entry>, k: int)
    ensures Lookup(es, k).Some? <==> KeyCount(es, k) > 0
  {
    if es != [] && es[0].key != k {
      LookupFindsPresent(es[1..], k);
    }
  }

  /** After removing an entry whose key was not duplicated, the key is no longer found. */
  lemma RemoveUnique(es: seq<Entry>, k: int)
    requires KeyCount(es, k) <= 1
    ensures Lookup(RemoveFirst(es, k), k) == None
  {
    RemoveCount(es, k, k);
    LookupFindsPresent(RemoveFirst(es, k), k);
  }

  /** Removal of k does not affect lookups of any other key. */
  lemma {:induction false} LookupAfterRemove(es: seq<Entry>, k: int, k': int)
    requires k' != k
    ensures Lookup(RemoveFirst(es, k), k') == Lookup(es, k')
  {
    if es != [] && es[0].key != k {
      LookupAfterRemove(es[1..], k, k');
      assert ([es[0]] + RemoveFirst(es[1..], k))[1..] == RemoveFirst(es[1..], k);
    }
  }

  // ---------------------------------------------------------------------------
  // Levels
  // ---------------------------------------------------------------------------

  /** Every entry has height at least 1, so level 0 holds the whole list. */
  lemma {:induction false} ChainZero(es: seq<Entry>)
    requires forall j :: 0 <= j < |es| ==> 1 <= es[j].height
    ensures Chain(es, 0) == es
  {
    if es != [] {
      ChainZero(es[1..]);
      assert es == [es[0]] + es[1..];
    }
  }

  /** Level l + 1 is the level-l chain filtered once more: a sub-chain of level l. */
  lemma {:induction false} ChainNested(es: seq<Entry>, l: nat)
    ensures Chain(Chain(es, l), l + 1) == Chain(es, l + 1)
  {
    if es != [] {
      ChainNested(es[1..], l);
      var c := Chain(es[1..], l);
      if l < es[0].height {
        assert Chain(es, l) == [es[0]] + c;
        assert ([es[0]] + c)[1..] == c;
      } else {
        assert Chain(es, l) == c;
        assert Chain(es, l + 1) == Chain(es[1..], l + 1);
      }
    }
  }

  /**
   * Removing the first entry with key k, at position m, takes it off exactly the levels below
   * its height; the chains above are unchanged.
   */
  lemma {:induction false} ChainAfterRemove(es: seq<Entry>, k: int, m: nat, l: nat)
    requires m < |es| && es[m].key == k && forall j :: 0 <= j < m ==> es[j].key != k
    ensures Chain(RemoveFirst(es, k), l) == if l < es[m].height then RemoveFirst(Chain(es, l), k) else Chain(es, l)
    decreases m
  {
    var c := Chain(es[1..], l);
    if m == 0 {
      if l < es[0].height {
        assert Chain(es, l) == [es[0]] + c;
        assert ([es[0]] + c)[1..] == c;
      }
    } else {
      var t := es[1..];
      assert t[m - 1] == es[m];
      assert forall j :: 0 <= j < m - 1 ==> t[j] == es[j + 1];
      ChainAfterRemove(t, k, m - 1, l);
      var r := RemoveFirst(t, k);
      assert RemoveFirst(es, k) == [es[0]] + r;
      assert ([es[0]] + r)[1..] == r;
      assert es[0].key != k;
      if l < es[0].height {
        assert Chain(RemoveFirst(es, k), l) == [es[0]] + Chain(r, l);
        assert Chain(es, l) == [es[0]] + c;
        assert ([es[0]] + c)[1..] == c;
      } else {
        assert Chain(RemoveFirst(es, k), l) == Chain(r, l);
        assert Chain(es, l) == c;
      }
    }
  }

  /** Each chain holds only entries of the list that are taller than its level. */
  lemma {:induction false} ChainMembers(es: seq<Entry>, l: nat)
    ensures forall x :: x in Chain(es, l) ==> x in es && l < x.height
  {
    if es != [] {
      ChainMembers(es[1..], l);
      assert es == [es[0]] + es[1..];
    }
  }

  /** Each chain keeps the keys in non-decreasing order. */
  lemma {:induction false} ChainSorted(es: seq<Entry>, l: nat)
    requires Sorted(es)
    ensures Sorted(Chain(es, l))
  {
    if es != [] {
      SortedTail(es);
      ChainSorted(es[1..], l);
      var c := Chain(es[1..], l);
      if l < es[0].height {
        ChainMembers(es[1..], l);
        var r := [es[0]] + c;
        forall i, j | 0 <= i < j < |r| ensures r[i].key <= r[j].key {
          assert r[j] == c[j - 1] && r[j] in es[1..];
          if i > 0 {
            assert r[i] == c[i - 1];
          }
        }
        assert Chain(es, l) == r;
      } else {
        assert Chain(es, l) == c;
      }
    }
  }

  /** Dropping the first entry keeps a list sorted. */
  lemma SortedTail(es: seq<Entry>)
    requires Sorted(es) && es != []
    ensures Sorted(es[1..])
    ensures forall x :: x in es[1..] ==> es[0].key <= x.key
  {
    forall i, j | 0 <= i < j < |es[1..]| ensures es[1..][i].key <= es[1..][j].key {
      assert es[1..][i] == es[i + 1] && es[1..][j] == es[j + 1];
    }
    forall x | x in es[1..] ensures es[0].key <= x.key {
      var t :| 0 <= t < |es[1..]| && es[1..][t] == x;
      assert es[t + 1] == x;
    }
  }

  /** A key that no entry carries is not found. */
  lemma {:induction false} LookupAbsent(es: seq<Entry>, k: int)
    requires forall j :: 0 <= j < |es| ==> es[j].key != k
    ensures Lookup(es, k) == None
  {
    if es != [] {
      assert es[0].key != k;
      LookupAbsent(es[1..], k);
    }
  }

  // ---------------------------------------------------------------------------
  // Heights and order under insertion and removal
  // ---------------------------------------------------------------------------

  /** Inserting e makes the tallest height the larger of the old one and e's. */
  lemma {:induction false} MaxHeightInsert(es: seq<Entry>, e: Entry)
    ensures MaxHeight(InsertSorted(es, e)) == if MaxHeight(es) <= e.height then e.height else MaxHeight(es)
  {
    if es == [] || e.key <= es[0].key {
      assert ([e] + es)[1..] == es;
    } else {
      MaxHeightInsert(es[1..], e);
      assert ([es[0]] + InsertSorted(es[1..], e))[1..] == InsertSorted(es[1..], e);
    }
  }

  /** Removal only drops entries. */
  lemma {:induction false} RemoveMembers(es: seq<Entry>, k: int)
    ensures forall x :: x in RemoveFirst(es, k) ==> x in es
  {
    if es != [] && es[0].key != k {
      RemoveMembers(es[1..], k);
      assert forall x :: x in es[1..] ==> x in es;
    }
  }

  /** Removal keeps the list sorted. */
  lemma {:induction false} RemoveKeepsSorted(es: seq<Entry>, k: int)
    requires Sorted(es)
    ensures Sorted(RemoveFirst(es, k))
  {
    if es != [] {
      SortedTail(es);
      if es[0].key != k {
        RemoveKeepsSorted(es[1..], k);
        RemoveMembers(es[1..], k);
        SortedCons(es[0], RemoveFirst(es[1..], k));
      }
    }
  }

  /** An entry no larger than any in a sorted list can go in front of it. */
  lemma SortedCons(x: Entry, r: seq<Entry>)
    requires Sorted(r) && forall y :: y in r ==> x.key <= y.key
    ensures Sorted([x] + r)
  {
    var t := [x] + r;
    forall i, j | 0 <= i < j < |t| ensures t[i].key <= t[j].key {
      assert t[j] == r[j - 1] && r[j - 1] in r;
      if i > 0 {
        assert t[i] == r[i - 1];
      }
    }
  }

  /** Removal never makes the tallest height larger. */
  lemma MaxHeightRemove(es: seq<Entry>, k: int)
    ensures MaxHeight(RemoveFirst(es, k)) <= MaxHeight(es)
  {
    RemoveMembers(es, k);
    var r := RemoveFirst(es, k);
    if r != [] {
      var j :| 0 <= j < |r| && r[j].height == MaxHeight(r);
      assert r[j] in r;
    }
  }
}
