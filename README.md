# Skip list, modelled and verified in Dafny

This project models the skip list of `main.cpp`: the classes `Node` and `SkipList`. A
`SkipList` is an ordered multimap from `int` keys to `int` values. It has a header node with
`MAX_LEVEL` (32) forward slots and a field `level`, the number of levels in use. It offers
three operations:

- `insert` descends from the top level with a strict `<` scan and records one predecessor per
  level in `update`. It then draws a height, raises `level` if needed, and splices the new node
  in after its predecessor on every level below its height.
- `search` does the same descent and looks at the node after the last level-0 predecessor.
- `remove` does the same descent. It unlinks the first node with the key from each level it
  occupies, then lowers `level` while the top header slot is null, but never below 1.

## How the model is built

- **Nodes.** The datatype `Arena.Node` holds a key, a value and the forward links.
- **Arena.** Nodes live in an arena: `SkipList.nodes`, a `seq<Node>` field that the methods
  reassign.
  - A pointer is an arena slot, and `NIL` (-1) plays `nullptr`.
  - Slot `HEADER` (0) is the header, built as in the source with key and value -1 and
    `MAX_LEVEL` NIL links.
- **Order.** The ghost field `order` lists the slots of the real nodes in level-0 order.
  `Contents()` is the abstract list they spell out: `(key, value, height)` entries in that order.
- **Link invariant.** `Passes.Inv` is the structure invariant.
  - It says that every node, the header included, links on each level it occupies to the next
    node of the order that reaches that level.
  - Keys never decrease along the order.
  - `level` equals the greatest height, or 1 once removals have emptied the list, or 0 before
    the first insert.
  - `Walks.ChainByLinks` reads this off the links themselves: following the level-`l` forward
    pointers from the header visits exactly the entries of height greater than `l`.
- **Methods.** Every method of the source is a method of `SkipLists.SkipList`, with the same
  loops. The descent loops and the splice, unlink and shrink loops each carry their invariants.
  Their contracts are stated through the pure functions of `Entries`:
  - `LowerBound` gives the position where the descent stops;
  - `Lookup` gives the first entry with a key;
  - `InsertSorted` places an entry in front of the first entry whose key is not smaller;
  - `RemoveFirst` drops the first entry with a key;
  - `Chain` gives the entries present on one level.
- **Random heights.** The height of a new node comes from a run of coin flips passed in as a
  `seq<bool>`. `RandomLevel` runs the source's loop over it.

## Where the model follows the code

On these points the model does what the code does:

- **Duplicate keys.** Keys may repeat, so "sorted" means non-decreasing.
  - Inserting an existing key puts the new node in front of the old ones.
  - `search` and `remove` meet the first node with the key in level-0 order, so which
    duplicate they reach is determined.
  - Strictly increasing keys are kept only while keys are distinct (`Entries.InsertKeepsStrict`).
- **Level after removal.** `remove` never lowers `level` below 1. After the last node goes,
  `level` is 1, not 0.
- **Not-found sentinel.** `search` returns -1 when the key is absent, as the source does.
  The walk itself is `SkipList.Find`, which returns an `Option` equal to `Lookup`, so absence
  never collides with a stored value. `Search` is the C++ signature on top of it: it maps
  `None` to -1, so there a stored value equal to -1 gives the same result as absence.
- **Header key.** The header's key -1 is never compared. The scan only reads the keys of link
  targets, and the header is never a link target, so it cannot collide with a real key.

## Model

| member | source | states |
|---|---|---|
| SkipLists.SkipList.constructor | main.cpp:21 | a new list holds no entries, keeps the invariant and has level 0 |
| SkipLists.LeadingHeads | main.cpp:28-30 | the count of heads before the first tail: every flip before it is heads, the one at it is tails |
| SkipLists.SkipList.RandomLevel | main.cpp:23-32 | the height lies in [1, MAX_LEVEL]; the flips before the last increment were all heads; it stops at the first tail or at the cap; it equals CoinLevel of the flips |
| SkipLists.DescentStep | main.cpp:39 | on a sorted list the scan's condition holds exactly while the cursor is before its last stop on that level, and a step never overshoots it |
| SkipLists.SkipList.Advance | main.cpp:39-41 | the inner scan on level i stops at the last level-i node before the first entry whose key is not smaller than key |
| SkipLists.SkipList.Descend | main.cpp:37-43 | the descent ends at the last node before LowerBound(key), and update[i] holds the last node of level i before that position for every level in use |
| SkipLists.SkipList.NewUpdate | main.cpp:36 | a fresh predecessor vector of MAX_LEVEL NIL slots |
| SkipLists.SkipList.Find | main.cpp:58-70 | the search walk returns exactly `Lookup` of the contents: the value of the first entry with the key, or `None`, and `Some` exactly when some entry carries the key; nothing changes |
| SkipLists.SkipList.Search | main.cpp:58-70 | returns the value of the first entry with the key, and -1 when there is none; nothing changes |
| SkipLists.SkipList.LinkIn | main.cpp:52-55 | after the splice loop the new node sits at the descent's position in the order, every level is linked for that order, and all other entries are unchanged |
| SkipLists.SkipList.Place | main.cpp:51-55 | the contents become InsertSorted of the old contents and the new entry, and the invariant holds with level raised to the new height |
| SkipLists.SkipList.Insert | main.cpp:35-56 | keeps the invariant; the contents become InsertSorted(old contents, (key, value, height drawn)); level becomes max(old level, height) and lies in [1, MAX_LEVEL] |
| SkipLists.SkipList.Unlink | main.cpp:83-88 | after the unlink loop every level is linked for the order without the removed node; the other nodes keep keys, values and heights |
| SkipLists.SkipList.Shrink | main.cpp:89-91 | the loop leaves level at the greatest remaining height, or 1, never above the old level, with the invariant kept |
| SkipLists.SkipList.Delete | main.cpp:82-92 | removing a present key leaves RemoveFirst of the old contents, with level = max(1, greatest height) and no larger than before |
| SkipLists.SkipList.Remove | main.cpp:72-93 | keeps the invariant; reports whether the key was present; the contents become RemoveFirst(old contents, key); an absent key changes no field; a removal sets level to max(1, greatest height); level never grows |
| SkipLists.Scenario | main.cpp:146-167 | for any heights the flips give, the demonstration run's searches find 30 and 90, find nothing for key 6 and for the removed key 3, and find 60 after the last insert |
| SkipLists.AscendingInserts | main.cpp:149-154 | the six inserts come in ascending key order, so each appends and the list is exactly those six entries in key order |
| SkipLists.FoundAfterInserts | main.cpp:149-159 | after inserting keys 1 to 11 with values ten times the key, 3 maps to 30, 9 to 90, 6 is absent, and key 3 occurs once |
| Passes.EmptyInv | main.cpp:21 | the header alone, all links NIL, with level 0 keeps the invariant and holds no entries |
| Passes.RecordStep | main.cpp:42 | recording the stop of level i extends the predecessor record by that level |
| Passes.RecordHeader | main.cpp:45-48 | on a level above every node the recorded predecessor is the header |
| Passes.RecordedPrefix | main.cpp:52-53 | a record valid for the levels in use is valid for any lower height |
| Passes.AppendNode | main.cpp:51 | a fresh node in a new arena slot changes no entry and no link of the list, and can be spliced at any position |
| Passes.LinkInLevel | main.cpp:53-54 | one splice step makes level i correct for the new order and leaves the levels above linked as before |
| Passes.LinkInDone | main.cpp:52 | the levels at and above the new node's height need no change |
| Passes.LinkOutLevel | main.cpp:87 | one unlink step makes level i correct for the order without the node and leaves the levels above as before |
| Passes.LinkOutDone | main.cpp:84-86 | once the loop stops at the node's height the levels above need no change |
| Passes.InsertKeepsInv | main.cpp:44-55 | the spliced list keeps the invariant with level max(level, height), and its entries are InsertSorted of the old ones |
| Passes.RemoveKeepsOrder | main.cpp:81-88 | dropping the entry at the descent's position is RemoveFirst, keeps the keys sorted and no height exceeds level |
| Arena.NewNode | main.cpp:16 | a node built with key, value and height h has h NIL links |
| Arena.PredLinksTo | main.cpp:84-86 | the recorded predecessor on level i links to the removed node exactly on the levels that node occupies, which is when the loop breaks |
| Arena.DescentEnd | main.cpp:65 | the level-0 predecessor links to the entry at LowerBound(key), or NIL at the end |
| Arena.HeaderNil | main.cpp:89 | the header's level-l link is NIL exactly when no entry is taller than l |
| Walks.ChainByLinks | main.cpp:14 | following the level-l links from the header visits exactly Chain(contents, l): the entries taller than l, in level-0 order |
| Walks.FollowFrom | main.cpp:14 | the walk from any node of level l visits the chain of level l over the entries after it |
| Entries.LowerBound | main.cpp:39 | every entry before the result has a smaller key; the entry at the result, if any, does not |
| Entries.MaxHeight | main.cpp:89 | no entry is taller than the result, and some entry reaches it when there is one |
| Entries.InsertAtLowerBound | main.cpp:52-55 | InsertSorted puts the entry at the descent's stopping position, before every entry whose key is not smaller |
| Entries.LookupAtLowerBound | main.cpp:65-69 | on a sorted list the first entry with the key is the entry at LowerBound, when its key matches |
| Entries.RemoveAtLowerBound | main.cpp:81-88 | on a sorted list RemoveFirst drops the entry at LowerBound when its key matches, and nothing otherwise |
| Entries.AbsentAtLowerBound | main.cpp:82 | on a sorted list a key missing at LowerBound is missing everywhere |
| Entries.RemoveAt | main.cpp:87 | RemoveFirst drops exactly the first entry with the key |
| Entries.InsertKeepsSorted | main.cpp:39 | insertion keeps keys non-decreasing |
| Entries.InsertKeepsStrict | main.cpp:39 | inserting a key not yet present keeps keys strictly increasing |
| Entries.InsertAddsOne | main.cpp:51-55 | insertion adds exactly the new entry and loses none (as multisets) |
| Entries.LookupAfterInsert | main.cpp:35-70 | after insertion the new entry is what search finds for its key; every other key is found as before |
| Entries.KeyCountAfterInsert | main.cpp:51-55 | insertion adds one entry with the new key and none with any other key |
| Entries.RemoveAfterInsert | main.cpp:35-93 | removing the key just inserted gives the old list back |
| Entries.ChainAfterInsert | main.cpp:52-55 | the new entry joins level l exactly when its height exceeds l, at its sorted place; other levels are unchanged |
| Entries.ChainKeysAbove | main.cpp:39 | every chain of a sorted list starts at a key no smaller than the list's first |
| Entries.InsertLargest | main.cpp:149-154 | inserting a key larger than all present appends it |
| Entries.InsertAllFinds | main.cpp:35-70 | after inserting entries with distinct keys, each key finds its own value and any other key is absent |
| Entries.RemoveAbsent | main.cpp:82 | removing a key that is absent changes nothing |
| Entries.RemoveCount | main.cpp:82-88 | removal takes away one entry with the key if there is one, and no entry with another key |
| Entries.LookupFindsPresent | main.cpp:66 | a key is found exactly when some entry carries it |
| Entries.RemoveUnique | main.cpp:162-163 | after removing a key that occurs at most once, it is no longer found |
| Entries.LookupAfterRemove | main.cpp:72-93 | removal of one key does not change lookups of any other |
| Entries.ChainZero | main.cpp:52 | level 0 holds every entry, since each has height at least 1 |
| Entries.ChainNested | main.cpp:14 | level l + 1 is a sub-chain of level l |
| Entries.ChainAfterRemove | main.cpp:83-88 | removal takes the entry off exactly the levels below its height; other levels are unchanged |
| Entries.ChainMembers | main.cpp:14 | a level holds only entries of the list taller than that level: a node appears only below its height |
| Entries.ChainSorted | main.cpp:39 | every level's chain keeps keys non-decreasing |
| Entries.SortedTail | main.cpp:40 | the rest of a sorted list is sorted and no smaller than its first key |
| Entries.MaxHeightInsert | main.cpp:45-50 | after insertion the greatest height is the larger of the old one and the new entry's |
| Entries.RemoveKeepsSorted | main.cpp:83-88 | removal keeps keys non-decreasing |
| Entries.MaxHeightRemove | main.cpp:89-91 | removal never increases the greatest height |

## Left out

- The random engine of `randomLevel` (main.cpp:24-26): `std::random_device`, `mt19937` and
  `bernoulli_distribution` with the float `PROBABILITY`. The coin flips are a parameter instead,
  and the geometric distribution and expected costs are not modelled.
- `testSkipListPerformance` and the benchmark half of `main` (main.cpp:100-143, 169-170). These
  are timing with `std::chrono`, random keys and console output.
- The console output of `main` (main.cpp:157-167). `SkipLists.Scenario` returns the five search
  results instead, as `Option` values.
- `shared_ptr` ownership and reclamation. A removed node stays in its arena slot, unreachable,
  so the model does not free memory.
- 32-bit `int`. Keys and values are unbounded integers. The source never does arithmetic on
  them, so no wrap-around can arise.
- SkipLists.SkipList.Search: returns -1 for absence, as main.cpp:69 does, so a stored value of
  -1 is indistinguishable from absence in its result. `SkipList.Find` is the same walk with an
  `Option` result, and `Scenario` states its results through `Find`.
- Passes.Inv: the invariant describes the links through the ghost order, so the model says
  nothing about nodes left unreachable in the arena.
