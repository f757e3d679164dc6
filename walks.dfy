/**
 * Reading a level off the links: following the level-l forward links from the header visits
 * the entries of height greater than l, in level-0 order. This is the shape a skip list
 * promises, stated on the arena itself rather than on the position-wise link invariant.
 */
module Walks {
  import opened Entries
  import opened Levels
  import opened Arena
  import opened Passes

  /** The entries met by following the level-l links out of slot x, at most fuel of them. */
  ghost function Follow(nodes: seq<Node>, l: nat, x: int, fuel: nat): seq<Entry>
    decreases fuel
  {
    if fuel == 0 || x < 0 || x >= |nodes| || l >= |nodes[x].forward| then []
    else
      var y := nodes[x].forward[l];
      if y < 0 || y >= |nodes| then []
      else [Entry(nodes[y].key, nodes[y].value, |nodes[y].forward|)] + Follow(nodes, l, y, fuel - 1)
  }

  /**
   * The chain of level l over the entries from position s on. It is Chain(es[s..], l) (see
   * ChainFromSuffix) written with an index instead of a slice, so that the walk's induction in
   * FollowFrom does not have to reason about slices of slices of Elements.
   */
  ghost function ChainFrom(es: seq<Entry>, l: nat, s: nat): seq<Entry>
    requires s <= |es|
    decreases |es| - s
  {
    if s == |es| then [] else (if l < es[s].height then [es[s]] else []) + ChainFrom(es, l, s + 1)
  }

  /** From position s on, the chain is that of the suffix of es starting at s. */
  lemma {:induction false} ChainFromSuffix(es: seq<Entry>, l: nat, s: nat)
    requires s <= |es|
    ensures ChainFrom(es, l, s) == Chain(es[s..], l)
    decreases |es| - s
  {
    if s < |es| {
      ChainFromSuffix(es, l, s + 1);
      assert es[s..][1..] == es[s + 1..];
    }
  }

  /** Entries that do not reach level l contribute nothing to its chain. */
  lemma {:induction false} ChainSkip(es: seq<Entry>, l: nat, s: nat, t: nat)
    requires s <= t <= |es|
    requires forall j :: s <= j < t ==> es[j].height <= l
    ensures ChainFrom(es, l, s) == ChainFrom(es, l, t)
    decreases t - s
  {
    if s < t {
      ChainSkip(es, l, s + 1, t);
    }
  }

  /**
   * From the node at position p of level l (the header for p = -1), the links visit the chain
   * of level l over the entries after p, given one unit of fuel per node still ahead.
   */
  lemma {:induction false} FollowFrom(nodes: seq<Node>, order: seq<nat>, l: nat, p: int, fuel: nat)
    requires Addressable(nodes, order) && l < MAX_LEVEL && LinksOk(nodes, order, l)
    requires -1 <= p < |order| && (p == -1 || l < Elements(nodes, order)[p].height)
    requires |order| - 1 - p <= fuel
    ensures Follow(nodes, l, IdOf(order, p), fuel) == ChainFrom(Elements(nodes, order), l, p + 1)
    decreases |order| - p
  {
    var es := Elements(nodes, order);
    var q := SuccPos(es, l, p + 1);
    FollowStep(nodes, order, l, p, fuel);
    ChainSkip(es, l, p + 1, q);
    if q < |es| {
      FollowFrom(nodes, order, l, q, fuel - 1);
      assert ChainFrom(es, l, q) == [es[q]] + ChainFrom(es, l, q + 1);
    }
  }

  /** One step of the walk: the link out of position p leads to the next position of level l. */
  lemma FollowStep(nodes: seq<Node>, order: seq<nat>, l: nat, p: int, fuel: nat)
    requires Addressable(nodes, order) && l < MAX_LEVEL && LinksOk(nodes, order, l)
    requires -1 <= p < |order| && (p == -1 || l < Elements(nodes, order)[p].height)
    requires |order| - 1 - p <= fuel
    ensures var q := SuccPos(Elements(nodes, order), l, p + 1);
            q < |order| ==> 0 < fuel && Follow(nodes, l, IdOf(order, p), fuel) ==
                            [Elements(nodes, order)[q]] + Follow(nodes, l, IdOf(order, q), fuel - 1)
    ensures SuccPos(Elements(nodes, order), l, p + 1) == |order| ==> Follow(nodes, l, IdOf(order, p), fuel) == []
  {
    var es := Elements(nodes, order);
    var q := SuccPos(es, l, p + 1);
    LinkAt(nodes, order, l, p);
    if q < |es| {
      assert Real(nodes, order[q]);
    }
  }

  /** In a list that keeps the invariant, following level l from the header gives its chain. */
  lemma ChainByLinks(nodes: seq<Node>, order: seq<nat>, level: nat, l: nat)
    requires Inv(nodes, order, level) && l < MAX_LEVEL
    ensures Follow(nodes, l, HEADER, |order|) == Chain(Elements(nodes, order), l)
  {
    assert LinksOk(nodes, order, l);
    FollowFrom(nodes, order, l, -1, |order|);
    ChainFromSuffix(Elements(nodes, order), l, 0);
    assert Elements(nodes, order)[0..] == Elements(nodes, order);
  }
}
