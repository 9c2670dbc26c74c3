/**
 The iterative Shreve engine, as written: a stack of work items
 (arc index, direction node id), a set of the items already processed and a
 memo of orders.

 Two details of the loop decide what it computes. The memo is written under
 the arc index of the resolved item but looked up under the far node id of a
 tributary. And an item that cannot be resolved yet is re-pushed after it has
 been marked visited, so when it comes back to the top of the stack it is
 popped and dropped. Nothing below assumes the loop agrees with the
 recursive Shreve engine; the lemmas state what the loop does.
 */
module Iterative {
  import opened Network
  import opened Merge

  /** Number of header entries before the arcs of an adjacency list. */
  const Header: nat := 4

  /** A work item: an arc index and the node the walk reached it at. */
  type Item = (int, int)

  /** The loop state: the stack (top last), the visited set, the memo and the network. */
  datatype Walk = Walk(stack: seq<Item>, visited: set<Item>, orders: map<int, int>, net: Net)

  /** The state of the scan over one adjacency list. */
  datatype Scan = Scan(stack: seq<Item>, resolved: bool, ups: seq<int>)

  /** The item refers to an arc of the network and to a node of the index. */
  predicate ValidItem(it: Item, n: nat, nodes: Nodes) {
    0 <= it.0 < n && it.1 in nodes
  }

  /** Every item of the sequence is valid. */
  predicate AllValid(items: seq<Item>, n: nat, nodes: Nodes) {
    forall k :: 0 <= k < |items| ==> ValidItem(items[k], n, nodes)
  }

  /** Every item the loop can ever hold. */
  function Universe(n: nat, nodes: Nodes): (u: set<Item>)
    ensures forall it :: it in u <==> ValidItem(it, n, nodes)
  {
    var u := set a, d | 0 <= a < n && d in nodes.Keys :: (a, d);
    assert forall it :: ValidItem(it, n, nodes) ==> it in u by {
      forall it | ValidItem(it, n, nodes) ensures it in u {
        var a, d := it.0, it.1;
        assert 0 <= a < n && d in nodes.Keys;
        assert (a, d) in u;
      }
    }
    u
  }

  /** The arcs of a set of items. */
  function ArcsOf(items: set<Item>): (arcs: set<int>) {
    set it | it in items :: it.0
  }

  /** The memo holds an entry under the far node id of every arc of `ts`. */
  predicate AllMemoized(ts: seq<int>, d: int, net: Net, orders: map<int, int>)
    requires forall k :: 0 <= k < |ts| ==> 0 <= ts[k] < |net|
  {
    forall k :: 0 <= k < |ts| ==> Far(net[ts[k]].ToLink(), d) in orders
  }

  /** The memo entries found under the far node ids of the arcs `ts`, in order. */
  function MemoLookups(ts: seq<int>, d: int, net: Net, orders: map<int, int>): (vs: seq<int>)
    requires forall k :: 0 <= k < |ts| ==> 0 <= ts[k] < |net|
    requires AllMemoized(ts, d, net, orders)
    ensures |vs| == |ts|
    ensures forall k :: 0 <= k < |ts| ==> vs[k] in orders.Values
  {
    if ts == [] then []
    else [orders[Far(net[ts[0]].ToLink(), d)]] + MemoLookups(ts[1..], d, net, orders)
  }

  /** Every memo entry is at least 1. */
  ghost predicate Positive(orders: map<int, int>) {
    forall i :: i in orders ==> orders[i] >= 1
  }

  lemma PositiveUpdate(orders: map<int, int>, a: int, o: int)
    requires Positive(orders) && o >= 1
    ensures Positive(orders[a := o])
  {
  }

  /**
   The scan of the adjacency list of `d` from position `j` on, for the item
   (`a`, `d`): each tributary whose far node id has a memo entry adds that
   entry to the gathered orders; any other one marks the item unresolved and
   pushes the item itself and then the tributary's own item.
   */
  function ScanFrom(a: int, d: int, j: nat, net: Net, nodes: Nodes, orders: map<int, int>, sc: Scan): (r: Scan)
    requires WellFormed(Links(net), nodes, Header) && d in nodes && Header <= j
    ensures |r.stack| >= |sc.stack| && r.stack[..|sc.stack|] == sc.stack
    ensures forall k :: |sc.stack| <= k < |r.stack| ==>
              r.stack[k] == (a, d) || (ValidItem(r.stack[k], |net|, nodes) && r.stack[k].1 !in orders)
    ensures Positive(orders) && (forall k :: 0 <= k < |sc.ups| ==> sc.ups[k] >= 1) ==>
              forall k :: 0 <= k < |r.ups| ==> r.ups[k] >= 1
    decreases |nodes[d]| - j
  {
    if j >= |nodes[d]| then sc
    else
      var b := nodes[d][j];
      if net[b].id == a then
        ScanFrom(a, d, j + 1, net, nodes, orders, sc)
      else
        ScanFrom(a, d, j + 1, net, nodes, orders, ScanOne(a, d, b, net, orders, sc))
  }

  /** One position of the scan: the item is pushed, or the far node's memo entry is gathered. */
  function ScanOne(a: int, d: int, b: int, net: Net, orders: map<int, int>, sc: Scan): (r: Scan)
    requires 0 <= b < |net|
  {
    var e := Far(net[b].ToLink(), d);
    if e in orders then sc.(ups := sc.ups + [orders[e]])
    else Scan(sc.stack + [(a, d), (b, e)], false, sc.ups)
  }

  /**
   One position of the scan keeps the stack below it. The stack is unchanged
   exactly when the far node id has a memo entry, and then that entry is
   gathered; otherwise the item and the tributary's own item are pushed, in
   that order, and the item is marked unresolved.
   */
  lemma ScanOneOutcome(a: int, d: int, b: int, net: Net, orders: map<int, int>, sc: Scan)
    requires 0 <= b < |net|
    ensures var r := ScanOne(a, d, b, net, orders, sc);
            && |r.stack| >= |sc.stack| && r.stack[..|sc.stack|] == sc.stack
            && (Far(net[b].ToLink(), d) in orders <==> r.stack == sc.stack)
            && (Far(net[b].ToLink(), d) in orders ==>
                  r.resolved == sc.resolved && r.ups == sc.ups + [orders[Far(net[b].ToLink(), d)]])
            && (Far(net[b].ToLink(), d) !in orders ==>
                  !r.resolved && r.ups == sc.ups && r.stack[|sc.stack|..] == [(a, d), (b, Far(net[b].ToLink(), d))])
  {
    var r := ScanOne(a, d, b, net, orders, sc);
    if Far(net[b].ToLink(), d) !in orders {
      assert |r.stack| == |sc.stack| + 2;
    }
  }

  /** The scan resolves the item exactly when the memo holds an entry under the far node id of every tributary. */
  lemma {:induction false} ScanResolves(a: int, d: int, j: nat, net: Net, nodes: Nodes, orders: map<int, int>, sc: Scan)
    requires WellFormed(Links(net), nodes, Header) && d in nodes && Header <= j
    ensures ScanFrom(a, d, j, net, nodes, orders, sc).resolved <==>
              sc.resolved && AllMemoized(TributariesFrom(Links(net), nodes, Header, a, d, j), d, net, orders)
    decreases |nodes[d]| - j
  {
    if j < |nodes[d]| {
      var b := nodes[d][j];
      var ts := TributariesFrom(Links(net), nodes, Header, a, d, j);
      var ts' := TributariesFrom(Links(net), nodes, Header, a, d, j + 1);
      assert Links(net)[b].id == net[b].id;
      if net[b].id == a {
        ScanResolves(a, d, j + 1, net, nodes, orders, sc);
      } else {
        ScanResolves(a, d, j + 1, net, nodes, orders, ScanOne(a, d, b, net, orders, sc));
        assert ts == [b] + ts';
        assert AllMemoized(ts, d, net, orders) <==>
                 Far(net[b].ToLink(), d) in orders && AllMemoized(ts', d, net, orders) by {
          assert ts[0] == b;
          assert forall k :: 0 <= k < |ts'| ==> ts'[k] == ts[k + 1];
          if Far(net[b].ToLink(), d) in orders && AllMemoized(ts', d, net, orders) {
            forall k | 0 <= k < |ts| ensures Far(net[ts[k]].ToLink(), d) in orders {
              if k > 0 {
                assert ts[k] == ts'[k - 1];
              }
            }
          }
        }
      }
    }
  }

  /** When every tributary's far node id has a memo entry, the scan pushes nothing and gathers those entries in list order. */
  lemma {:induction false} ScanGathers(a: int, d: int, j: nat, net: Net, nodes: Nodes, orders: map<int, int>, sc: Scan)
    requires WellFormed(Links(net), nodes, Header) && d in nodes && Header <= j
    requires AllMemoized(TributariesFrom(Links(net), nodes, Header, a, d, j), d, net, orders)
    ensures var r := ScanFrom(a, d, j, net, nodes, orders, sc);
            r.stack == sc.stack &&
            r.ups == sc.ups + MemoLookups(TributariesFrom(Links(net), nodes, Header, a, d, j), d, net, orders)
    decreases |nodes[d]| - j
  {
    if j < |nodes[d]| {
      var b := nodes[d][j];
      var ts := TributariesFrom(Links(net), nodes, Header, a, d, j);
      var ts' := TributariesFrom(Links(net), nodes, Header, a, d, j + 1);
      assert Links(net)[b].id == net[b].id;
      if net[b].id == a {
        ScanGathers(a, d, j + 1, net, nodes, orders, sc);
      } else {
        assert ts == [b] + ts';
        assert ts[1..] == ts';
        var e := Far(net[b].ToLink(), d);
        assert e in orders by {
          assert ts[0] == b;
        }
        ScanGathers(a, d, j + 1, net, nodes, orders, ScanOne(a, d, b, net, orders, sc));
        var rest := MemoLookups(ts', d, net, orders);
        assert MemoLookups(ts, d, net, orders) == [orders[e]] + rest;
        assert (sc.ups + [orders[e]]) + rest == sc.ups + ([orders[e]] + rest);
      }
    }
  }

  /** When some tributary's far node id has no memo entry, the scan has pushed the item itself. */
  lemma {:induction false} ScanPushesItem(a: int, d: int, j: nat, net: Net, nodes: Nodes, orders: map<int, int>, sc: Scan)
    requires WellFormed(Links(net), nodes, Header) && d in nodes && Header <= j
    requires !AllMemoized(TributariesFrom(Links(net), nodes, Header, a, d, j), d, net, orders)
    ensures var r := ScanFrom(a, d, j, net, nodes, orders, sc);
            (a, d) in r.stack[|sc.stack|..]
    decreases |nodes[d]| - j
  {
    var b := nodes[d][j];
    var ts := TributariesFrom(Links(net), nodes, Header, a, d, j);
    var ts' := TributariesFrom(Links(net), nodes, Header, a, d, j + 1);
    assert Links(net)[b].id == net[b].id;
    if net[b].id == a {
      ScanPushesItem(a, d, j + 1, net, nodes, orders, sc);
    } else {
      var sc' := ScanOne(a, d, b, net, orders, sc);
      var r := ScanFrom(a, d, j + 1, net, nodes, orders, sc');
      if Far(net[b].ToLink(), d) in orders {
        assert ts == [b] + ts';
        assert !AllMemoized(ts', d, net, orders) by {
          assert forall k :: 0 <= k < |ts'| ==> ts'[k] == ts[k + 1];
        }
        ScanPushesItem(a, d, j + 1, net, nodes, orders, sc');
        assert r.stack[|sc.stack|..] == r.stack[|sc'.stack|..];
      } else {
        assert r.stack[|sc.stack|] == (a, d);
      }
    }
  }

  /** The last item on the stack, the one the next pop returns. */
  function Top(stack: seq<Item>): (it: Item)
    requires stack != []
    ensures it == stack[|stack| - 1]
  {
    stack[|stack| - 1]
  }

  /** The stack without its last item. */
  function Pop(stack: seq<Item>): (rest: seq<Item>)
    requires stack != []
    ensures stack == rest + [Top(stack)]
  {
    stack[..|stack| - 1]
  }

  /** The memo and the order slots agree, and the memo only names arcs of the network. */
  ghost predicate Consistent(w: Walk) {
    forall i :: i in w.orders ==> 0 <= i < |w.net| && w.net[i].order == w.orders[i]
  }

  /** A node with no tributary that is not a headwater: resolving an item there fails. */
  ghost predicate Stuck(it: Item, net: Net, nodes: Nodes)
    requires WellFormed(Links(net), nodes, Header) && it.1 in nodes
  {
    !Headwater(nodes, Header, it.1) && Tributaries(Links(net), nodes, Header, it.0, it.1) == []
  }

  /**
   The whole scan of the adjacency list of `d` for the item (`a`, `d`), on
   the stack `stack`: it resolves the item exactly when the memo holds an
   entry under the far node id of every tributary, and then it pushes nothing
   and gathers those entries in list order; otherwise it has pushed the item
   itself, and only valid items.
   */
  function ScanItem(stack: seq<Item>, a: int, d: int, net: Net, nodes: Nodes, orders: map<int, int>): (sc: Scan)
    requires WellFormed(Links(net), nodes, Header) && d in nodes
    ensures var ts := Tributaries(Links(net), nodes, Header, a, d);
            && (sc.resolved <==> AllMemoized(ts, d, net, orders))
            && (AllMemoized(ts, d, net, orders) ==> sc.stack == stack && sc.ups == MemoLookups(ts, d, net, orders))
            && (!AllMemoized(ts, d, net, orders) ==>
                  |sc.stack| >= |stack| && sc.stack[..|stack|] == stack && (a, d) in sc.stack[|stack|..])
    ensures AllValid(stack, |net|, nodes) && ValidItem((a, d), |net|, nodes) ==> AllValid(sc.stack, |net|, nodes)
    ensures Positive(orders) ==> forall k :: 0 <= k < |sc.ups| ==> sc.ups[k] >= 1
  {
    var sc := ScanFrom(a, d, Header, net, nodes, orders, Scan(stack, true, []));
    var ts := Tributaries(Links(net), nodes, Header, a, d);
    ScanResolves(a, d, Header, net, nodes, orders, Scan(stack, true, []));
    assert AllValid(stack, |net|, nodes) && ValidItem((a, d), |net|, nodes) ==> AllValid(sc.stack, |net|, nodes) by {
      if AllValid(stack, |net|, nodes) && ValidItem((a, d), |net|, nodes) {
        forall k | 0 <= k < |sc.stack| ensures ValidItem(sc.stack[k], |net|, nodes) {
          if k < |stack| {
            assert sc.stack[k] == sc.stack[..|stack|][k];
          }
        }
      }
    }
    assert AllMemoized(ts, d, net, orders) ==> sc.stack == stack && sc.ups == MemoLookups(ts, d, net, orders) by {
      if AllMemoized(ts, d, net, orders) {
        ScanGathers(a, d, Header, net, nodes, orders, Scan(stack, true, []));
      }
    }
    assert !AllMemoized(ts, d, net, orders) ==> (a, d) in sc.stack[|stack|..] by {
      if !AllMemoized(ts, d, net, orders) {
        ScanPushesItem(a, d, Header, net, nodes, orders, Scan(stack, true, []));
      }
    }
    sc
  }

  /**
   The item (`a`, `d`), already popped and marked visited in `w`, at a node
   that is not a headwater: scan the tributaries; when the memo had an entry
   for each, label the arc with the Shreve merge of those entries, otherwise
   keep memo and network and only leave the pushes on the stack.
   */
  function Resolve(w: Walk, a: int, d: int, nodes: Nodes): (r: Result<Walk>)
    requires WellFormed(Links(w.net), nodes, Header)
    requires ValidItem((a, d), |w.net|, nodes) && !Headwater(nodes, Header, d)
    // `max` of no orders: the only failure
    ensures r.Err? <==> Tributaries(Links(w.net), nodes, Header, a, d) == []
    ensures r.Ok? ==> Links(r.value.net) == Links(w.net) && r.value.visited == w.visited
    ensures r.Ok? ==> |r.value.stack| >= |w.stack| && r.value.stack[..|w.stack|] == w.stack
    ensures var ts := Tributaries(Links(w.net), nodes, Header, a, d);
            AllMemoized(ts, d, w.net, w.orders) && ts != [] ==>
              var o := ShreveMerge(MemoLookups(ts, d, w.net, w.orders)).value;
              r == Ok(w.(orders := w.orders[a := o], net := SetOrder(w.net, a, o)))
    ensures var ts := Tributaries(Links(w.net), nodes, Header, a, d);
            !AllMemoized(ts, d, w.net, w.orders) ==>
              r.Ok? && r.value == w.(stack := r.value.stack) && (a, d) in r.value.stack[|w.stack|..]
    ensures r.Ok? && AllValid(w.stack, |w.net|, nodes) ==> AllValid(r.value.stack, |w.net|, nodes)
    ensures r.Ok? && Positive(w.orders) ==> Positive(r.value.orders)
  {
    var sc := ScanItem(w.stack, a, d, w.net, nodes, w.orders);
    if sc.resolved then Label(w, a, sc.ups) else Ok(w.(stack := sc.stack))
  }

  /**
   Lines 80-86 for a resolved item: label the arc `a` with the Shreve merge of
   the gathered orders `ups`, in its order slot and in the memo.
   */
  function Label(w: Walk, a: int, ups: seq<int>): (r: Result<Walk>)
    requires 0 <= a < |w.net|
    ensures r.Err? <==> ups == []
    ensures r.Ok? ==> a in r.value.orders && Ok(r.value.orders[a]) == ShreveMerge(ups)
    ensures r.Ok? ==> r.value == w.(orders := w.orders[a := r.value.orders[a]], net := SetOrder(w.net, a, r.value.orders[a]))
    ensures r.Ok? && Positive(w.orders) && (forall k :: 0 <= k < |ups| ==> ups[k] >= 1) ==> Positive(r.value.orders)
  {
    var o :- ShreveMerge(ups);
    MergeKeepsPositive(w.orders, ups, a);
    Ok(w.(orders := w.orders[a := o], net := SetOrder(w.net, a, o)))
  }

  /** Labelling an arc with the merge of positive entries keeps every memo entry at least 1. */
  lemma MergeKeepsPositive(orders: map<int, int>, ups: seq<int>, a: int)
    requires ShreveMerge(ups).Ok?
    ensures Positive(orders) && (forall k :: 0 <= k < |ups| ==> ups[k] >= 1) ==>
              Positive(orders[a := ShreveMerge(ups).value])
  {
    if Positive(orders) && (forall k :: 0 <= k < |ups| ==> ups[k] >= 1) {
      ShreveMergeGrows(ups);
      assert ups[0] <= ShreveMerge(ups).value;
      PositiveUpdate(orders, a, ShreveMerge(ups).value);
    }
  }

  /**
   One pass of the loop body: pop an item; drop it if it was visited;
   otherwise mark it visited and either label a headwater arc 1 or resolve
   the item from its tributaries.
   */
  function Step(w: Walk, nodes: Nodes): (r: Result<Walk>)
    requires WellFormed(Links(w.net), nodes, Header)
    requires w.stack != [] && AllValid(w.stack, |w.net|, nodes)
    requires ValidItem(Top(w.stack), |w.net|, nodes)
    // a visited item is dropped and nothing else happens
    ensures Top(w.stack) in w.visited ==> r == Ok(w.(stack := Pop(w.stack)))
    // any other item joins the visited set
    ensures r.Ok? ==> r.value.visited == w.visited + {Top(w.stack)}
    ensures r.Ok? ==> Links(r.value.net) == Links(w.net)
    ensures r.Ok? ==> |r.value.stack| >= |w.stack| - 1 && r.value.stack[..|w.stack| - 1] == Pop(w.stack)
    ensures r.Ok? ==> AllValid(r.value.stack, |w.net|, nodes)
    // a headwater arc gets 1 in its order slot and in the memo
    ensures Top(w.stack) !in w.visited && Headwater(nodes, Header, Top(w.stack).1) ==>
              r == Ok(Walk(Pop(w.stack), w.visited + {Top(w.stack)}, w.orders[Top(w.stack).0 := 1],
                           SetOrder(w.net, Top(w.stack).0, 1)))
    // any other unvisited item is resolved from its tributaries
    ensures Top(w.stack) !in w.visited && !Headwater(nodes, Header, Top(w.stack).1) ==>
              r == Resolve(w.(stack := Pop(w.stack), visited := w.visited + {Top(w.stack)}),
                           Top(w.stack).0, Top(w.stack).1, nodes)
    // the one failure: `max` of no orders at a stuck item
    ensures r.Err? <==> Top(w.stack) !in w.visited && Stuck(Top(w.stack), w.net, nodes)
  {
    var (a, d) := Top(w.stack);
    var popped := w.(stack := Pop(w.stack));
    if (a, d) in w.visited then
      Ok(popped)
    else
      var marked := popped.(visited := w.visited + {(a, d)});
      assert AllValid(marked.stack, |w.net|, nodes);
      if Headwater(nodes, Header, d) then
        Ok(marked.(orders := w.orders[a := 1], net := SetOrder(w.net, a, 1)))
      else
        Resolve(marked, a, d, nodes)
  }

  /**
   An item that cannot be resolved yet is pushed back on the stack already
   marked visited, so the pass that pops it again drops it.
   */
  lemma RetrySkipped(w: Walk, nodes: Nodes)
    requires WellFormed(Links(w.net), nodes, Header)
    requires w.stack != [] && AllValid(w.stack, |w.net|, nodes)
    requires ValidItem(Top(w.stack), |w.net|, nodes)
    requires Top(w.stack) !in w.visited && !Headwater(nodes, Header, Top(w.stack).1)
    requires !AllMemoized(Tributaries(Links(w.net), nodes, Header, Top(w.stack).0, Top(w.stack).1),
                          Top(w.stack).1, w.net, w.orders)
    ensures Step(w, nodes).Ok?
    ensures var v := Step(w, nodes).value;
            Top(w.stack) in v.stack[|w.stack| - 1..] && Top(w.stack) in v.visited
            && v.orders == w.orders && v.net == w.net
  {
    var p := Top(w.stack);
    var marked := w.(stack := Pop(w.stack), visited := w.visited + {p});
    assert |marked.stack| == |w.stack| - 1;
  }

  /** The loop state before the first pass: the sink arc, reached at its slot-5 node. */
  function Start(sink: int, net: Net, nodes: Nodes): (w: Walk)
    requires WellFormed(Links(net), nodes, Header) && 0 <= sink < |net|
    ensures w.stack == [(sink, net[sink].nodeA)] && w.visited == {} && w.orders == map[] && w.net == net
    ensures AllValid(w.stack, |net|, nodes)
  {
    assert Links(net)[sink] == net[sink].ToLink();
    Walk([(sink, net[sink].nodeA)], {}, map[], net)
  }

  /** The log lists valid items, each once, and exactly the visited ones. */
  ghost predicate LogInv(visited: set<Item>, log: seq<Item>, n: nat, nodes: Nodes) {
    && AllValid(log, n, nodes)
    && (forall i, j :: 0 <= i < j < |log| ==> log[i] != log[j])
    && (forall it :: it in visited <==> it in log)
  }

  /**
   The memo agrees with the order slots and holds orders of at least 1, only
   for arcs of processed items, and every arc without a memo entry is as in
   `net`.
   */
  ghost predicate MemoInv(w: Walk, net: Net) {
    && |w.net| == |net|
    && Consistent(w) && Positive(w.orders)
    && (forall i :: 0 <= i < |net| && i !in w.orders ==> w.net[i] == net[i])
    && w.orders.Keys <= ArcsOf(w.visited)
  }

  /**
   What every pass of the loop keeps, with `log` the items processed so far
   and `net` the network the loop started from.
   */
  ghost predicate Inv(w: Walk, log: seq<Item>, net: Net, nodes: Nodes) {
    && Links(w.net) == Links(net)
    && AllValid(w.stack, |net|, nodes)
    && LogInv(w.visited, log, |net|, nodes)
    && MemoInv(w, net)
  }

  /** Processing a new valid item and logging it keeps the log invariant. */
  lemma LogGrows(visited: set<Item>, log: seq<Item>, p: Item, n: nat, nodes: Nodes)
    requires LogInv(visited, log, n, nodes) && ValidItem(p, n, nodes) && p !in visited
    ensures LogInv(visited + {p}, log + [p], n, nodes)
  {
    var log' := log + [p];
    forall k | 0 <= k < |log'| ensures ValidItem(log'[k], n, nodes) {
      if k < |log| {
        assert log'[k] == log[k];
      }
    }
    forall i, j | 0 <= i < j < |log'| ensures log'[i] != log'[j] {
      assert log'[i] == log[i];
      if j < |log| {
        assert log'[j] == log[j];
      } else {
        assert log[i] in log;
      }
    }
    forall it ensures it in visited + {p} <==> it in log' {
      assert it in log' <==> it in log || it == p;
    }
  }

  /**
   Processing the item (`a`, `d`) keeps the memo invariant when it either
   leaves memo and network alone or labels arc `a` with an order of at least 1.
   */
  lemma MemoGrows(w: Walk, v: Walk, net: Net, a: int, d: int, labelled: bool, o: int)
    requires MemoInv(w, net) && |w.net| == |net| && 0 <= a < |net|
    requires v.visited == w.visited + {(a, d)}
    requires labelled ==> o >= 1 && v.orders == w.orders[a := o] && v.net == SetOrder(w.net, a, o)
    requires !labelled ==> v.orders == w.orders && v.net == w.net
    ensures MemoInv(v, net)
  {
    assert a in ArcsOf(v.visited) by {
      assert (a, d) in v.visited;
    }
    assert ArcsOf(w.visited) <= ArcsOf(v.visited);
  }

  /** Under the loop invariant the item on top of the stack is valid. */
  lemma TopValid(w: Walk, log: seq<Item>, net: Net, nodes: Nodes)
    requires Inv(w, log, net, nodes) && w.stack != []
    ensures ValidItem(Top(w.stack), |w.net|, nodes) && AllValid(Pop(w.stack), |net|, nodes)
  {
    assert ValidItem(w.stack[|w.stack| - 1], |net|, nodes);
    var rest := Pop(w.stack);
    forall k | 0 <= k < |rest| ensures ValidItem(rest[k], |net|, nodes) {
      assert rest[k] == w.stack[k];
    }
  }

  /**
   A pass of the loop that does not fail keeps the invariant: a visited item
   is dropped, any other item is processed once and joins the log.
   */
  lemma StepKeepsInv(w: Walk, log: seq<Item>, net: Net, nodes: Nodes)
    requires WellFormed(Links(net), nodes, Header)
    requires Inv(w, log, net, nodes) && w.stack != []
    requires ValidItem(Top(w.stack), |w.net|, nodes)
    requires Step(w, nodes).Ok?
    ensures var p := Top(w.stack);
            Inv(Step(w, nodes).value, if p in w.visited then log else log + [p], net, nodes)
  {
    TopValid(w, log, net, nodes);
    var p := Top(w.stack);
    var next := Step(w, nodes).value;
    var (a, d) := p;
    if p !in w.visited {
      LogGrows(w.visited, log, p, |net|, nodes);
      if Headwater(nodes, Header, d) {
        MemoGrows(w, next, net, a, d, true, 1);
      } else {
        var ts := Tributaries(Links(w.net), nodes, Header, a, d);
        if AllMemoized(ts, d, w.net, w.orders) {
          var o := ShreveMerge(MemoLookups(ts, d, w.net, w.orders)).value;
          assert next.orders[a] == o;
          MemoGrows(w, next, net, a, d, true, o);
        } else {
          MemoGrows(w, next, net, a, d, false, 0);
        }
      }
    }
  }

  /** A pass of the loop that fails still processes its item once, and changes nothing else. */
  lemma StepFailKeepsInv(w: Walk, log: seq<Item>, net: Net, nodes: Nodes)
    requires WellFormed(Links(net), nodes, Header)
    requires Inv(w, log, net, nodes) && w.stack != []
    requires ValidItem(Top(w.stack), |w.net|, nodes)
    requires Step(w, nodes).Err?
    ensures var p := Top(w.stack);
            Inv(w.(stack := Pop(w.stack), visited := w.visited + {p}), log + [p], net, nodes)
  {
    TopValid(w, log, net, nodes);
    var p := Top(w.stack);
    LogGrows(w.visited, log, p, |net|, nodes);
    MemoGrows(w, w.(stack := Pop(w.stack), visited := w.visited + {p}), net, p.0, p.1, false, 0);
  }

  /** Processing an item of the universe not yet visited leaves fewer items unvisited. */
  lemma VisitShrinks(u: set<Item>, visited: set<Item>, p: Item)
    requires p in u && p !in visited
    ensures |u - (visited + {p})| < |u - visited|
  {
    assert u - (visited + {p}) == (u - visited) - {p};
  }

  /**
   The iterative Shreve engine on the sink arc, started from slot 5 of the
   sink. Besides the result (the order slot of the sink after the loop, or
   the failure of `max`), it returns the final loop state and the items it
   processed, in the order it processed them.
   */
  method ShreveIterative(sink: int, net: Net, nodes: Nodes) returns (r: Result<int>, w: Walk, log: seq<Item>, ghost passes: nat)
    requires WellFormed(Links(net), nodes, Header)
    requires 0 <= sink < |net|
    ensures Links(w.net) == Links(net)
    // the result is the order slot of the sink once the stack is empty
    ensures r.Ok? ==> w.stack == [] && r.value == w.net[sink].order
    // a sink the memo never labelled keeps whatever its order slot held
    ensures r.Ok? && sink !in w.orders ==> r.value == net[sink].order
    // only arcs with a memo entry changed; their order slot holds that entry, at least 1
    ensures MemoInv(w, net)
    // every processed item is a valid one, none is processed twice, and the log is the visited set
    ensures LogInv(w.visited, log, |net|, nodes)
    // the one failure is `max` of no orders at a stuck item, the last one processed
    ensures r.Err? ==> log != [] && Stuck(log[|log| - 1], net, nodes)
    // the loop made `passes` passes, each one a `Step`
    ensures Drain(Start(sink, net, nodes), nodes, passes) == if r.Ok? then Ok(w) else Err(r.error)
  {
    w := Start(sink, net, nodes);
    log := [];
    passes := 0;
    while w.stack != []
      invariant Inv(w, log, net, nodes)
      invariant Drain(Start(sink, net, nodes), nodes, passes) == Ok(w)
      decreases |Universe(|net|, nodes) - w.visited|, |w.stack|
    {
      var p := Top(w.stack);
      TopValid(w, log, net, nodes);
      var next := Step(w, nodes);
      DrainThenStep(Start(sink, net, nodes), passes, w, nodes);
      passes := passes + 1;
      if next.Err? {
        StepFailKeepsInv(w, log, net, nodes);
        w := w.(stack := Pop(w.stack), visited := w.visited + {p});
        log := log + [p];
        r := Err(next.error);
        return;
      }
      StepKeepsInv(w, log, net, nodes);
      if p !in w.visited {
        ghost var u := Universe(|net|, nodes);
        VisitShrinks(u, w.visited, p);
        log := log + [p];
      }
      w := next.value;
    }
    r := Ok(w.net[sink].order);
  }

  /** At most `fuel` passes of the loop, stopping early once the stack is empty. */
  function Drain(w: Walk, nodes: Nodes, fuel: nat): (r: Result<Walk>)
    requires WellFormed(Links(w.net), nodes, Header) && AllValid(w.stack, |w.net|, nodes)
    ensures r.Ok? ==> Links(r.value.net) == Links(w.net) && w.visited <= r.value.visited
    ensures r.Ok? ==> AllValid(r.value.stack, |w.net|, nodes)
    decreases fuel
  {
    if fuel == 0 || w.stack == [] then Ok(w)
    else
      assert ValidItem(w.stack[|w.stack| - 1], |w.net|, nodes);
      var next :- Step(w, nodes);
      Drain(next, nodes, fuel - 1)
  }

  /** A run of passes is one pass followed by the rest. */
  lemma DrainStep(w: Walk, nodes: Nodes, fuel: nat)
    requires WellFormed(Links(w.net), nodes, Header) && AllValid(w.stack, |w.net|, nodes)
    requires fuel > 0 && w.stack != []
    ensures ValidItem(Top(w.stack), |w.net|, nodes)
    ensures Step(w, nodes).Err? ==> Drain(w, nodes, fuel) == Err(Step(w, nodes).error)
    ensures Step(w, nodes).Ok? ==> Drain(w, nodes, fuel) == Drain(Step(w, nodes).value, nodes, fuel - 1)
  {
    assert ValidItem(w.stack[|w.stack| - 1], |w.net|, nodes);
  }

  /** A run of passes that leaves work on the stack, followed by one more pass. */
  lemma {:induction false} DrainThenStep(w0: Walk, k: nat, w: Walk, nodes: Nodes)
    requires WellFormed(Links(w0.net), nodes, Header) && AllValid(w0.stack, |w0.net|, nodes)
    requires Drain(w0, nodes, k) == Ok(w) && w.stack != []
    ensures WellFormed(Links(w.net), nodes, Header) && AllValid(w.stack, |w.net|, nodes)
    ensures ValidItem(Top(w.stack), |w.net|, nodes)
    ensures Drain(w0, nodes, k + 1) == Step(w, nodes)
    decreases k
  {
    DrainStep(w0, nodes, k + 1);
    if k == 0 {
      assert w == w0;
      if Step(w0, nodes).Ok? {
        assert Drain(Step(w0, nodes).value, nodes, 0) == Step(w0, nodes);
      }
    } else {
      assert w0.stack != [];
      DrainStep(w0, nodes, k);
      DrainThenStep(Step(w0, nodes).value, k - 1, w, nodes);
    }
  }
}
