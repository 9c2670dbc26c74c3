# Stream order of a river network

A Dafny model of the stream-order engine of `hydronetworks/streamorder.py`.
The engine labels each arc of a river network with an integer order. It walks
upstream from a given arc, reached at a given node. There are three engines:

- `strahler`, a recursive engine. A headwater arc gets 1. Elsewhere the order is
  the largest tributary order, plus one when two or more tributaries share it.
- `shreve`, a recursive engine. A headwater arc gets 1. Elsewhere the order is
  the sum of the two largest tributary orders, or the single tributary's order.
  With no tributary at all it fails, as `max` of an empty list does.
- `shreve_iterative`, a loop over an explicit stack of (arc, node) work items. It
  keeps a `visited` set and an `orders` memo.

The network is a sequence of arc records. Slot 0 of a record is the arc's own
index, slots 5 and 6 are its end nodes, and slot 7 is its order. The adjacency
index maps a node id to the list of its incident arcs. For `strahler` the list
is bare. For the two Shreve engines the list starts with four header entries.

Modules:

- `Network` (network.dfy) holds the records, the adjacency index and the
  tributary selection. A tributary is an arc listed past the header whose
  slot 0 differs from the current arc. The walk continues from its far end.
- `Merge` (merge.dfy) holds the merge rules at a confluence. Strahler's rule
  comes with the tally loop of the source. The Shreve rule is built on
  `heapq.nlargest(2, …)` and `max`.
- `Recursive` (recursive.dfy) holds one engine parameterised by the variant,
  Strahler or Shreve. The variants differ only in header width and merge rule.
  The engine threads the network through its calls, where the source mutates
  it in place. The engine is shown equal to a reference walk that reads only
  the topology. The confluence and monotonicity properties rest on that.
- `Iterative` (iterative.dfy) holds the `shreve_iterative` loop, modelled as
  written. One loop pass is the function `Step`, and the method
  `ShreveIterative` runs the `while` loop. The loop invariant covers the memo,
  the order slots, the visited set and a log of processed items.
- `Fork` (fork.dfy) is a worked three-arc network: a sink arc fed by two
  headwater arcs. There the recursive Shreve engine gives the sink order 2. The
  iterative engine never labels the sink and returns the 0 its slot held. A
  braided variant adds a loop of two arcs beside the fork; the recursive
  engine still labels the sink 2 there.

Two details of `shreve_iterative` decide what it computes. The memo is written
under the arc index (lines 65 and 86) but read under the far node id (lines
72-73). And an item is marked visited (line 60) before it is pushed again
(line 76), so its retry is dropped when popped (lines 57-58). The docstring
of `shreve_iterative` (lines 45-47) presents it as the Shreve order computed
iteratively instead of recursively, with a downstream river always higher, as
the docstring of `shreve` (lines 92-94) says of the recursive engine. The code
is not equivalent, and this model follows the code.
Likewise, headwaters are detected by the literal list lengths of the code, 1
for `strahler` and 5 for the Shreve engines, not by a semantic rule.

## Model

| member | source | states |
|---|---|---|
| Network.SetOrder | hydronetworks/streamorder.py:14 | writing the order slot of one arc changes nothing else: the topology is the same, the arc holds the new order, every other record is as before |
| Network.Far | hydronetworks/streamorder.py:18-25 | the walk continues at slot 5 unless slot 5 is the current node, then at slot 6; the result is an end of the arc, and it is the other end when the current node is an end of a non-loop arc |
| Network.TributariesFrom | hydronetworks/streamorder.py:101-103 | the tributaries gathered from a position on are arc indices whose slot 0 differs from the current arc |
| Network.TributariesRankedBelow | hydronetworks/streamorder.py:101-111 | every tributary of a call inside the bound is walked from its far end at a strictly lower rank, so the recursion on it stays inside the bound |
| Network.TributariesFromMembers | hydronetworks/streamorder.py:16-17 | an arc is a tributary exactly when it is listed at the node past the header and its slot 0 differs from the current arc |
| Merge.StrahlerMerge | hydronetworks/streamorder.py:26-37 | the merged order is at least every tributary order, is 0 with no tributaries, and is the maximum plus one exactly when two different tributaries hold the maximum, otherwise the maximum |
| Merge.StrahlerTally | hydronetworks/streamorder.py:26-37 | the running maximum and count loop yields Strahler's rule |
| Merge.StrahlerMergePermutation | hydronetworks/streamorder.py:28-33 | Strahler's rule does not depend on the order in which tributaries are listed |
| Merge.NLargest2 | hydronetworks/streamorder.py:113 | the two largest orders, or fewer when there are fewer: the first is a largest order, the second a largest of the rest |
| Merge.PyMax | hydronetworks/streamorder.py:117 | `max` fails exactly on an empty list and otherwise returns a largest element |
| Merge.ShreveMerge | hydronetworks/streamorder.py:113-117 | the merge fails exactly when there is no tributary; one tributary gives its own order; two or more give a largest order plus a largest of the rest |
| Merge.ShreveMergePermutation | hydronetworks/streamorder.py:113-117 | the Shreve merge does not depend on the order in which tributaries are listed |
| Merge.ShreveMergeBestPair | hydronetworks/streamorder.py:113-115 | with two or more tributaries the merge is the largest sum of the orders of two different tributaries |
| Merge.ShreveMergeGrows | hydronetworks/streamorder.py:113-118 | when every tributary order is at least 1 the merge is at least each of them, and strictly above each when there are two or more |
| Merge.StrahlerExamples | hydronetworks/streamorder.py:26-37 | worked merges: a tie at the top raises the order, a single maximum does not |
| Merge.ShreveExamples | hydronetworks/streamorder.py:113-117 | worked merges: the two largest of three orders are summed |
| Recursive.Order | hydronetworks/streamorder.py:6-39 | a headwater arc gets 1; the order returned is the one written into the arc's slot; only order slots change; Strahler never fails and gives 0 at a node without tributaries, where Shreve fails; Strahler orders are at least 0 and Shreve orders at least 1 |
| Recursive.Upstream | hydronetworks/streamorder.py:101-111 | the loop over the list gathers one order per tributary, each at least the floor of the variant, changes only order slots, and gathers nothing without tributaries |
| Recursive.MergeAtLeastFloor | hydronetworks/streamorder.py:113-118 | merging orders that are all at least 1 never gives less than 1; Strahler's merge never fails |
| Recursive.OrderFollowsTrace | hydronetworks/streamorder.py:91-120 | the engine returns the order of a reference walk over the topology alone, and leaves the input network overlaid with that walk's labels, whatever the slots held before |
| Recursive.UpstreamFollowsTraces | hydronetworks/streamorder.py:101-111 | the loop over tributaries gathers the orders of the reference walks and leaves their labels, later ones overriding earlier ones |
| Recursive.OrderIgnoresStoredOrders | hydronetworks/streamorder.py:6-39 | whether an engine fails, and the order it returns, depend only on the topology and not on the stored orders |
| Recursive.OrderIdempotent | hydronetworks/streamorder.py:91-120 | running an engine again on the network it produced returns the same order and changes nothing |
| Recursive.UpstreamOrdersAlong | hydronetworks/streamorder.py:101-111 | the orders gathered are, in list order, the orders of the tributaries, each as if labelled alone on the input network |
| Recursive.ConfluenceRule | hydronetworks/streamorder.py:113-118 | at a node that is not a headwater the order is the merge of the tributary orders; a failure of a tributary is the failure of the arc |
| Recursive.StrahlerAtLeastTributaries | hydronetworks/streamorder.py:34-37 | a Strahler order is at least the order of each tributary |
| Recursive.ShreveDownstreamHigher | hydronetworks/streamorder.py:93-94 | a Shreve order is at least the order of each tributary, and strictly higher where two or more tributaries meet |
| Recursive.ShreveOrdersPositive | hydronetworks/streamorder.py:98-99 | every order the Shreve engine gathers is at least 1 |
| Iterative.ScanFrom | hydronetworks/streamorder.py:68-77 | the scan keeps the stack below it, pushes only the item itself or valid items whose far node has no memo entry, and gathers only positive orders from a positive memo |
| Iterative.ScanOneOutcome | hydronetworks/streamorder.py:70-77 | one list position keeps the stack below it; the stack is unchanged exactly when the far node id is a memo key, and then that entry is gathered; otherwise the item and then the tributary's item are pushed and the item is unresolved |
| Iterative.ScanItem | hydronetworks/streamorder.py:67-77 | the whole scan resolves the item exactly when every tributary's far node id is a memo key, and then pushes nothing and gathers the entries in list order; otherwise it keeps the stack below and has pushed the item itself; it pushes only valid items and gathers only positive entries from a positive memo |
| Iterative.ScanResolves | hydronetworks/streamorder.py:67-77 | the item stays resolved exactly when the memo holds an entry under the far node id of every tributary |
| Iterative.ScanGathers | hydronetworks/streamorder.py:72-73 | when every far node id has a memo entry nothing is pushed and the entries are gathered in list order |
| Iterative.ScanPushesItem | hydronetworks/streamorder.py:74-77 | a tributary whose far node id has no memo entry makes the scan push the item itself |
| Iterative.Resolve | hydronetworks/streamorder.py:79-86 | the item fails exactly when it has no tributary; when all were found in the memo the arc gets the Shreve merge of the entries in both its slot and the memo; otherwise only the stack changes and the item is pushed again |
| Iterative.Label | hydronetworks/streamorder.py:80-86 | a resolved item fails exactly when no order was gathered; otherwise its arc gets the Shreve merge of the gathered orders in both its order slot and the memo, nothing else changes, and a memo of positive entries stays positive |
| Iterative.Step | hydronetworks/streamorder.py:55-65 | a visited item is dropped and nothing else changes; any other item joins the visited set; a headwater arc gets 1 in its slot and in the memo; any other item is resolved from its tributaries; the only failure is at a non-headwater item without tributaries |
| Iterative.RetrySkipped | hydronetworks/streamorder.py:57-76 | an item that cannot be resolved yet goes back on the stack already visited, with memo and network unchanged, so its retry is dropped |
| Iterative.Start | hydronetworks/streamorder.py:50-52 | the loop starts with the sink arc reached at its slot-5 node, nothing visited and an empty memo |
| Iterative.StepKeepsInv | hydronetworks/streamorder.py:54-86 | each pass keeps the invariant: memo entries match the slots and are at least 1, only arcs of processed items changed, and every item is processed at most once |
| Iterative.Drain | hydronetworks/streamorder.py:54-86 | any number of passes keeps the topology and never shrinks the visited set |
| Iterative.ShreveIterative | hydronetworks/streamorder.py:44-88 | the loop terminates on any well-formed input, cyclic or not; it returns the sink's slot after the loop, which is the slot's input value if the sink was never labelled; only labelled arcs changed; no item is processed twice; the only failure is a stuck item, the last processed; the run is the passes of `Step` |
| Fork.ForkFirstPass | hydronetworks/streamorder.py:68-77 | on the fork, the first scan at the sink finds neither far node in the memo and pushes the sink behind each tributary |
| Fork.IterativeNeverLabelsSink | hydronetworks/streamorder.py:54-86 | on the fork the loop labels both tributaries 1 and empties its stack without labelling the sink |
| Fork.IterativeOnFork | hydronetworks/streamorder.py:88 | the iterative engine on the fork returns 0, the value the sink's slot held |
| Fork.RecursiveLabelsSinkTwo | hydronetworks/streamorder.py:113-118 | the recursive Shreve engine on the same fork returns 2 |
| Fork.BraidedLoops | hydronetworks/streamorder.py:101-111 | in the braided network the walk from arc 3 at node 20 steps to arc 4 at node 21 and back, a walk that never ends |
| Fork.BraidedValid | hydronetworks/streamorder.py:101-111 | the braided network is a valid input of the recursive Shreve engine for a call at the sink, since the walk from there never enters the loop |
| Fork.BraidedLabelsSinkTwo | hydronetworks/streamorder.py:97-120 | on the braided network the recursive Shreve engine still returns 2 for the sink |

## Left out

- The scripts under `Test/` are not part of this model. They are spreadsheet, raster and file I/O around the engine.
- Record slots 1-4 and the contents of the four header entries are never read by the engines and are not modelled.
- Python's in-place mutation of the shared record lists is modelled by threading the network through the calls and returning it.
- Recursive.Order, `Recursive.Upstream` and `Iterative.ShreveIterative` require `WellFormed`: every end node is a key of the index and every listed entry past the header is an arc index, anywhere in the network, even where no walk goes. In the source a dangling reference raises `KeyError` or `IndexError` only when a walk reaches it, and a negative entry would wrap around. Networks with a dangling reference outside the walk are outside the model.
- Recursion depth is not modelled. The recursive engines take a caller-supplied `rank` and `bound` (`RankedBelow`): the first call is ranked at most `bound`, and every upstream step taken from a pair ranked at most `bound` lowers the rank. Such a rank exists exactly when the walk from the first call ends. Pairs the walk never reaches can be ranked above `bound`, so a loop elsewhere in the network does not matter (`Fork.BraidedLabelsSinkTwo`). A walk that enters a loop recurses until Python's recursion limit; that case is outside the model of the recursive engines.
- Recursive.Order: on a failure (`max` of an empty list) it returns only the error. The partially labelled network the source leaves behind is dropped. The iterative method does return its loop state on failure.
- Iterative.ShreveIterative: nothing is claimed about agreement with the recursive Shreve engine, because the code as written does not agree with it (see `Fork`).
- The code has no guard against cycles, so none is modelled; the iterative loop still ends on a cyclic network, because `visited` only grows.
