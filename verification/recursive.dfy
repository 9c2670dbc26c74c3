/**
 The two recursive engines, Strahler and Shreve. Both walk upstream from an
 arc `a` reached at node `d`: at a headwater they write 1, otherwise they
 label every tributary listed at `d` (continuing from its far end), merge the
 tributary orders and write the merged order into the order slot of `a`. They
 differ only in the header width of an adjacency list and in the merge.

 The engines mutate the network in place; here the network is threaded
 through the calls. A caller-supplied `rank` that drops on every upstream step
 taken from a pair ranked at most `bound` stands for a walk that ends; a loop
 the walk never enters may sit anywhere else in the network.
 */
module Recursive {
  import opened Network
  import opened Merge

  datatype Variant = Strahler | Shreve

  /** Number of header entries before the arcs of an adjacency list. */
  function Header(v: Variant): (h: nat) {
    match v
    case Strahler => 0
    case Shreve => 4
  }

  /** The least order each engine produces. */
  function Floor(v: Variant): (f: int) {
    match v
    case Strahler => 0
    case Shreve => 1
  }

  function MergeOf(v: Variant, os: seq<int>): (r: Result<int>) {
    match v
    case Strahler => Ok(StrahlerMerge(os))
    case Shreve => ShreveMerge(os)
  }

  /** Merging orders that respect the floor never yields one below it; Strahler's merge never fails. */
  lemma MergeAtLeastFloor(v: Variant, os: seq<int>)
    requires forall k :: 0 <= k < |os| ==> os[k] >= Floor(v)
    ensures v == Strahler ==> MergeOf(v, os).Ok?
    ensures MergeOf(v, os).Ok? ==> MergeOf(v, os).value >= Floor(v)
  {
    if v == Shreve && |os| >= 1 {
      ShreveMergeGrows(os);
      assert os[0] <= MergeOf(v, os).value;
    }
  }

  /** The input the engine `v` needs: every reference resolves and `rank` bounds every walk that starts at most at `bound`. */
  ghost predicate Valid(v: Variant, links: seq<Link>, nodes: Nodes, rank: (int, int) -> nat, bound: nat) {
    WellFormed(links, nodes, Header(v)) && RankedBelow(links, nodes, Header(v), rank, bound)
  }

  /** Every arc of `arcs`, walked from its far end at `d`, starts at a rank of at most `bound`. */
  ghost predicate WithinBound(arcs: seq<int>, d: int, net: Net, rank: (int, int) -> nat, bound: nat) {
    forall k :: 0 <= k < |arcs| ==> 0 <= arcs[k] < |net| && rank(arcs[k], Far(net[arcs[k]].ToLink(), d)) <= bound
  }

  /** The tributaries of a pair ranked at most `bound` start below it. */
  lemma TributariesWithinBound(v: Variant, a: int, d: int, j: nat, net: Net, nodes: Nodes, rank: (int, int) -> nat, bound: nat)
    requires Valid(v, Links(net), nodes, rank, bound)
    requires 0 <= a < |net| && d in nodes && !Headwater(nodes, Header(v), d) && Header(v) <= j && rank(a, d) <= bound
    ensures WithinBound(TributariesFrom(Links(net), nodes, Header(v), a, d, j), d, net, rank, bound)
  {
    var ts := TributariesFrom(Links(net), nodes, Header(v), a, d, j);
    TributariesRankedBelow(Links(net), nodes, Header(v), rank, bound, a, d, j);
    forall k | 0 <= k < |ts| ensures rank(ts[k], Far(net[ts[k]].ToLink(), d)) <= bound {
      assert Links(net)[ts[k]] == net[ts[k]].ToLink();
    }
  }

  /** The order an engine returns and the network it leaves behind. */
  datatype Labelled = Labelled(order: int, net: Net)

  /** The tributary orders gathered so far and the network they left behind. */
  datatype Gathered = Gathered(orders: seq<int>, net: Net)

  /**
   The engine `v` called on arc `a` and node `d`. It returns the order it
   writes into the order slot of `a`, or the failure of `max` on an empty
   list when a non-headwater node offers the Shreve engine no tributary.
   */
  function Order(v: Variant, a: int, d: int, net: Net, nodes: Nodes, rank: (int, int) -> nat, bound: nat): (r: Result<Labelled>)
    requires Valid(v, Links(net), nodes, rank, bound)
    requires 0 <= a < |net| && d in nodes && rank(a, d) <= bound
    ensures r.Ok? ==> Links(r.value.net) == Links(net)
    ensures r.Ok? ==> r.value.net[a].order == r.value.order
    ensures r.Ok? ==> r.value.order >= Floor(v)
    ensures v == Strahler ==> r.Ok?
    ensures Headwater(nodes, Header(v), d) ==> r == Ok(Labelled(1, SetOrder(net, a, 1)))
    ensures !Headwater(nodes, Header(v), d) && Tributaries(Links(net), nodes, Header(v), a, d) == [] ==>
              r == if v == Strahler then Ok(Labelled(0, SetOrder(net, a, 0))) else Err(EmptyMax)
    decreases rank(a, d), |nodes[d]| + 1
  {
    if Headwater(nodes, Header(v), d) then
      Ok(Labelled(1, SetOrder(net, a, 1)))
    else
      var up :- Upstream(v, a, d, Header(v), net, nodes, rank, bound);
      MergeAtLeastFloor(v, up.orders);
      var o :- MergeOf(v, up.orders);
      Ok(Labelled(o, SetOrder(up.net, a, o)))
  }

  /** The loop over the adjacency list of `d` from position `j` on, labelling each tributary. */
  function Upstream(v: Variant, a: int, d: int, j: nat, net: Net, nodes: Nodes, rank: (int, int) -> nat, bound: nat): (r: Result<Gathered>)
    requires Valid(v, Links(net), nodes, rank, bound)
    requires 0 <= a < |net| && d in nodes && !Headwater(nodes, Header(v), d) && Header(v) <= j && rank(a, d) <= bound
    ensures r.Ok? ==> Links(r.value.net) == Links(net)
    ensures r.Ok? ==> |r.value.orders| == |TributariesFrom(Links(net), nodes, Header(v), a, d, j)|
    ensures r.Ok? ==> forall k :: 0 <= k < |r.value.orders| ==> r.value.orders[k] >= Floor(v)
    ensures v == Strahler ==> r.Ok?
    ensures TributariesFrom(Links(net), nodes, Header(v), a, d, j) == [] ==> r == Ok(Gathered([], net))
    decreases rank(a, d), |nodes[d]| - j
  {
    if j >= |nodes[d]| then
      Ok(Gathered([], net))
    else
      var b := nodes[d][j];
      if net[b].id == a then
        Upstream(v, a, d, j + 1, net, nodes, rank, bound)
      else
        var t :- Order(v, b, Far(net[b].ToLink(), d), net, nodes, rank, bound);
        var rest :- Upstream(v, a, d, j + 1, t.net, nodes, rank, bound);
        Ok(Gathered([t.order] + rest.orders, rest.net))
  }

  // ---------------------------------------------------------------------------
  // Reference semantics: the same walk computed from the topology alone.
  // ---------------------------------------------------------------------------

  /** An order together with the final value left in the order slot of every arc labelled. */
  datatype Summary = Summary(order: int, writes: map<int, int>)

  datatype Summaries = Summaries(orders: seq<int>, writes: map<int, int>)

  /**
   The order of arc `a` reached at node `d` and the labels the walk leaves,
   from the topology alone, with later labels overriding earlier ones.
   */
  function Trace(v: Variant, a: int, d: int, links: seq<Link>, nodes: Nodes, rank: (int, int) -> nat, bound: nat): (r: Result<Summary>)
    requires Valid(v, links, nodes, rank, bound)
    requires 0 <= a < |links| && d in nodes && rank(a, d) <= bound
    ensures r.Ok? ==> a in r.value.writes && r.value.writes[a] == r.value.order
    ensures r.Ok? ==> forall i :: i in r.value.writes ==> 0 <= i < |links|
    decreases rank(a, d), |nodes[d]| + 1
  {
    if Headwater(nodes, Header(v), d) then
      Ok(Summary(1, map[a := 1]))
    else
      var s :- TracesFrom(v, a, d, Header(v), links, nodes, rank, bound);
      var o :- MergeOf(v, s.orders);
      Ok(Summary(o, s.writes[a := o]))
  }

  function TracesFrom(v: Variant, a: int, d: int, j: nat, links: seq<Link>, nodes: Nodes, rank: (int, int) -> nat, bound: nat): (r: Result<Summaries>)
    requires Valid(v, links, nodes, rank, bound)
    requires 0 <= a < |links| && d in nodes && !Headwater(nodes, Header(v), d) && Header(v) <= j && rank(a, d) <= bound
    ensures r.Ok? ==> forall i :: i in r.value.writes ==> 0 <= i < |links|
    decreases rank(a, d), |nodes[d]| - j
  {
    if j >= |nodes[d]| then
      Ok(Summaries([], map[]))
    else
      var b := nodes[d][j];
      if links[b].id == a then
        TracesFrom(v, a, d, j + 1, links, nodes, rank, bound)
      else
        var t :- Trace(v, b, Far(links[b], d), links, nodes, rank, bound);
        var rest :- TracesFrom(v, a, d, j + 1, links, nodes, rank, bound);
        Ok(Summaries([t.order] + rest.orders, t.writes + rest.writes))
  }

  /** The network with the labels `w` written into its order slots. */
  function Overlay(net: Net, w: map<int, int>): (r: Net)
    ensures |r| == |net|
    ensures forall i :: 0 <= i < |net| ==> r[i] == if i in w then net[i].(order := w[i]) else net[i]
  {
    seq(|net|, i requires 0 <= i < |net| => if i in w then net[i].(order := w[i]) else net[i])
  }

  lemma OverlayKeepsLinks(net: Net, w: map<int, int>)
    ensures Links(Overlay(net, w)) == Links(net)
  {
    assert forall i :: 0 <= i < |net| ==> Links(Overlay(net, w))[i] == Links(net)[i];
  }

  lemma OverlayEmpty(net: Net)
    ensures Overlay(net, map[]) == net
  {
  }

  /** Writing labels one after the other is writing their union, later ones winning. */
  lemma OverlayCompose(net: Net, w1: map<int, int>, w2: map<int, int>)
    ensures Overlay(Overlay(net, w1), w2) == Overlay(net, w1 + w2)
  {
  }

  lemma SetOrderOverlay(net: Net, w: map<int, int>, a: int, o: int)
    requires 0 <= a < |net|
    ensures SetOrder(Overlay(net, w), a, o) == Overlay(net, w[a := o])
  {
  }

  /** The result of a walk as its summary predicts it on the network `net`. */
  function Applied(r: Result<Summary>, net: Net): (l: Result<Labelled>) {
    match r
    case Ok(s) => Ok(Labelled(s.order, Overlay(net, s.writes)))
    case Err(e) => Err(e)
  }

  function AppliedAll(r: Result<Summaries>, net: Net): (g: Result<Gathered>) {
    match r
    case Ok(s) => Ok(Gathered(s.orders, Overlay(net, s.writes)))
    case Err(e) => Err(e)
  }

  /**
   The engine does what the reference predicts: it returns the reference
   order and leaves the network as the input overlaid with the reference
   labels, whatever the order slots held before.
   */
  lemma {:induction false} OrderFollowsTrace(v: Variant, a: int, d: int, net: Net, nodes: Nodes, rank: (int, int) -> nat, bound: nat)
    requires Valid(v, Links(net), nodes, rank, bound)
    requires 0 <= a < |net| && d in nodes && rank(a, d) <= bound
    ensures Order(v, a, d, net, nodes, rank, bound) == Applied(Trace(v, a, d, Links(net), nodes, rank, bound), net)
    decreases rank(a, d), |nodes[d]| + 1, 0
  {
    if Headwater(nodes, Header(v), d) {
      OverlayEmpty(net);
      SetOrderOverlay(net, map[], a, 1);
      assert map[][a := 1] == map[a := 1];
    } else {
      UpstreamFollowsTraces(v, a, d, Header(v), net, nodes, rank, bound);
      var s := TracesFrom(v, a, d, Header(v), Links(net), nodes, rank, bound);
      if s.Ok? {
        SetOrderOverlay(net, s.value.writes, a, 0);
        if MergeOf(v, s.value.orders).Ok? {
          SetOrderOverlay(net, s.value.writes, a, MergeOf(v, s.value.orders).value);
        }
      }
    }
  }

  lemma {:induction false} UpstreamFollowsTraces(v: Variant, a: int, d: int, j: nat, net: Net, nodes: Nodes, rank: (int, int) -> nat, bound: nat)
    requires Valid(v, Links(net), nodes, rank, bound)
    requires 0 <= a < |net| && d in nodes && !Headwater(nodes, Header(v), d) && Header(v) <= j && rank(a, d) <= bound
    ensures Upstream(v, a, d, j, net, nodes, rank, bound) == AppliedAll(TracesFrom(v, a, d, j, Links(net), nodes, rank, bound), net)
    decreases rank(a, d), |nodes[d]| - j, 1
  {
    if j >= |nodes[d]| {
      OverlayEmpty(net);
    } else if net[nodes[d][j]].id == a {
      assert Links(net)[nodes[d][j]] == net[nodes[d][j]].ToLink();
      UpstreamFollowsTraces(v, a, d, j + 1, net, nodes, rank, bound);
    } else {
      TributaryFollowsTrace(v, a, d, j, net, nodes, rank, bound);
    }
  }

  /** Puts the order of one more tributary in front of the ones gathered after it. */
  function Prepend(o: int, r: Result<Gathered>): (g: Result<Gathered>) {
    match r
    case Ok(g) => Ok(Gathered([o] + g.orders, g.net))
    case Err(e) => Err(e)
  }

  /** Puts the summary of one more tributary in front of the ones traced after it. */
  function PrependSummary(s: Summary, r: Result<Summaries>): (x: Result<Summaries>) {
    match r
    case Ok(x) => Ok(Summaries([s.order] + x.orders, s.writes + x.writes))
    case Err(e) => Err(e)
  }

  /** One pass of the loop over the adjacency list at a listed arc that is a tributary. */
  lemma UpstreamAtTributary(v: Variant, a: int, d: int, j: nat, net: Net, nodes: Nodes, rank: (int, int) -> nat, bound: nat)
    requires Valid(v, Links(net), nodes, rank, bound)
    requires 0 <= a < |net| && d in nodes && !Headwater(nodes, Header(v), d) && Header(v) <= j < |nodes[d]| && rank(a, d) <= bound
    requires net[nodes[d][j]].id != a
    ensures var t := Order(v, nodes[d][j], Far(net[nodes[d][j]].ToLink(), d), net, nodes, rank, bound);
            Upstream(v, a, d, j, net, nodes, rank, bound) ==
              if t.Err? then Err(t.error) else Prepend(t.value.order, Upstream(v, a, d, j + 1, t.value.net, nodes, rank, bound))
  {
  }

  /** The reference counterpart of `UpstreamAtTributary`. */
  lemma TracesAtTributary(v: Variant, a: int, d: int, j: nat, links: seq<Link>, nodes: Nodes, rank: (int, int) -> nat, bound: nat)
    requires Valid(v, links, nodes, rank, bound)
    requires 0 <= a < |links| && d in nodes && !Headwater(nodes, Header(v), d) && Header(v) <= j < |nodes[d]| && rank(a, d) <= bound
    requires links[nodes[d][j]].id != a
    ensures var t := Trace(v, nodes[d][j], Far(links[nodes[d][j]], d), links, nodes, rank, bound);
            TracesFrom(v, a, d, j, links, nodes, rank, bound) ==
              if t.Err? then Err(t.error) else PrependSummary(t.value, TracesFrom(v, a, d, j + 1, links, nodes, rank, bound))
  {
  }

  /** Applying a tributary's labels and then the later ones is applying both at once. */
  lemma PrependApplied(s: Summary, r: Result<Summaries>, net: Net)
    ensures AppliedAll(PrependSummary(s, r), net) == Prepend(s.order, AppliedAll(r, Overlay(net, s.writes)))
  {
    if r.Ok? {
      OverlayCompose(net, s.writes, r.value.writes);
    }
  }

  /** The step of `UpstreamFollowsTraces` at a listed arc that is a tributary. */
  lemma {:induction false} TributaryFollowsTrace(v: Variant, a: int, d: int, j: nat, net: Net, nodes: Nodes, rank: (int, int) -> nat, bound: nat)
    requires Valid(v, Links(net), nodes, rank, bound)
    requires 0 <= a < |net| && d in nodes && !Headwater(nodes, Header(v), d) && Header(v) <= j < |nodes[d]| && rank(a, d) <= bound
    requires net[nodes[d][j]].id != a
    ensures Upstream(v, a, d, j, net, nodes, rank, bound) == AppliedAll(TracesFrom(v, a, d, j, Links(net), nodes, rank, bound), net)
    decreases rank(a, d), |nodes[d]| - j, 0
  {
    var links := Links(net);
    var b := nodes[d][j];
    assert links[b] == net[b].ToLink();
    var e := Far(links[b], d);
    UpstreamAtTributary(v, a, d, j, net, nodes, rank, bound);
    TracesAtTributary(v, a, d, j, links, nodes, rank, bound);
    OrderFollowsTrace(v, b, e, net, nodes, rank, bound);
    var tr := Trace(v, b, e, links, nodes, rank, bound);
    if tr.Ok? {
      var mid := Overlay(net, tr.value.writes);
      OverlayKeepsLinks(net, tr.value.writes);
      UpstreamFollowsTraces(v, a, d, j + 1, mid, nodes, rank, bound);
      PrependApplied(tr.value, TracesFrom(v, a, d, j + 1, links, nodes, rank, bound), net);
    }
  }

  /**
   The order an engine returns, and whether it fails, depend only on the
   topology: never on what the order slots held before the call.
   */
  lemma OrderIgnoresStoredOrders(v: Variant, a: int, d: int, n1: Net, n2: Net, nodes: Nodes, rank: (int, int) -> nat, bound: nat)
    requires Links(n1) == Links(n2)
    requires Valid(v, Links(n1), nodes, rank, bound)
    requires 0 <= a < |n1| && d in nodes && rank(a, d) <= bound
    ensures Order(v, a, d, n1, nodes, rank, bound).Ok? <==> Order(v, a, d, n2, nodes, rank, bound).Ok?
    ensures Order(v, a, d, n1, nodes, rank, bound).Ok? ==>
              Order(v, a, d, n1, nodes, rank, bound).value.order == Order(v, a, d, n2, nodes, rank, bound).value.order
  {
    OrderFollowsTrace(v, a, d, n1, nodes, rank, bound);
    OrderFollowsTrace(v, a, d, n2, nodes, rank, bound);
  }

  /** Running an engine again on the network it produced changes nothing. */
  lemma OrderIdempotent(v: Variant, a: int, d: int, net: Net, nodes: Nodes, rank: (int, int) -> nat, bound: nat)
    requires Valid(v, Links(net), nodes, rank, bound)
    requires 0 <= a < |net| && d in nodes && rank(a, d) <= bound
    requires Order(v, a, d, net, nodes, rank, bound).Ok?
    ensures Order(v, a, d, Order(v, a, d, net, nodes, rank, bound).value.net, nodes, rank, bound) == Order(v, a, d, net, nodes, rank, bound)
  {
    var out := Order(v, a, d, net, nodes, rank, bound).value.net;
    OrderFollowsTrace(v, a, d, net, nodes, rank, bound);
    OrderFollowsTrace(v, a, d, out, nodes, rank, bound);
    var w := Trace(v, a, d, Links(net), nodes, rank, bound).value.writes;
    OverlayCompose(net, w, w);
    assert w + w == w;
  }

  // ---------------------------------------------------------------------------
  // The merge at a confluence, stated on the input network.
  // ---------------------------------------------------------------------------

  /** The orders of the arcs `arcs`, each reached from node `d` and labelled on `net`. */
  function OrdersAlong(v: Variant, arcs: seq<int>, d: int, net: Net, nodes: Nodes, rank: (int, int) -> nat, bound: nat): (r: Result<seq<int>>)
    requires Valid(v, Links(net), nodes, rank, bound)
    requires WithinBound(arcs, d, net, rank, bound)
    ensures r.Ok? ==> |r.value| == |arcs|
    ensures r.Ok? ==> forall k :: 0 <= k < |arcs| ==> OrderAt(v, arcs[k], d, net, nodes, rank, bound) == Ok(r.value[k])
    decreases |arcs|
  {
    if arcs == [] then Ok([])
    else
      var t :- Order(v, arcs[0], Far(net[arcs[0]].ToLink(), d), net, nodes, rank, bound);
      var rest :- OrdersAlong(v, arcs[1..], d, net, nodes, rank, bound);
      PrependResults(arcs, b => if 0 <= b < |net| && rank(b, Far(net[b].ToLink(), d)) <= bound then OrderAt(v, b, d, net, nodes, rank, bound) else Err(EmptyMax), t.order, rest);
      Ok([t.order] + rest)
  }

  /** The order of arc `b` labelled from its far end at node `d`. */
  function OrderAt(v: Variant, b: int, d: int, net: Net, nodes: Nodes, rank: (int, int) -> nat, bound: nat): (r: Result<int>)
    requires Valid(v, Links(net), nodes, rank, bound)
    requires 0 <= b < |net| && rank(b, Far(net[b].ToLink(), d)) <= bound
  {
    assert Links(net)[b] == net[b].ToLink();
    OrderOf(Order(v, b, Far(net[b].ToLink(), d), net, nodes, rank, bound))
  }

  /** A list of results of `f` along `xs`, one more put in front. */
  lemma PrependResults(xs: seq<int>, f: int -> Result<int>, o: int, rest: seq<int>)
    requires xs != [] && |rest| == |xs| - 1
    requires f(xs[0]) == Ok(o)
    requires forall k :: 0 <= k < |rest| ==> f(xs[1..][k]) == Ok(rest[k])
    ensures forall k :: 0 <= k < |xs| ==> f(xs[k]) == Ok(([o] + rest)[k])
  {
    forall k | 0 <= k < |xs|
      ensures f(xs[k]) == Ok(([o] + rest)[k])
    {
      if k > 0 {
        assert xs[k] == xs[1..][k - 1];
      }
    }
  }

  /** `OrdersAlong` reads only the topology. */
  lemma {:induction false} OrdersAlongIgnoresStoredOrders(v: Variant, arcs: seq<int>, d: int, n1: Net, n2: Net, nodes: Nodes, rank: (int, int) -> nat, bound: nat)
    requires Links(n1) == Links(n2)
    requires Valid(v, Links(n1), nodes, rank, bound)
    requires WithinBound(arcs, d, n1, rank, bound)
    ensures OrdersAlong(v, arcs, d, n1, nodes, rank, bound) == OrdersAlong(v, arcs, d, n2, nodes, rank, bound)
    decreases |arcs|
  {
    if arcs != [] {
      assert n1[arcs[0]].ToLink() == Links(n1)[arcs[0]] == n2[arcs[0]].ToLink();
      OrderIgnoresStoredOrders(v, arcs[0], Far(n1[arcs[0]].ToLink(), d), n1, n2, nodes, rank, bound);
      OrdersAlongIgnoresStoredOrders(v, arcs[1..], d, n1, n2, nodes, rank, bound);
    }
  }

  /** The order part of a labelling result. */
  function OrderOf(r: Result<Labelled>): (o: Result<int>) {
    match r
    case Ok(l) => Ok(l.order)
    case Err(e) => Err(e)
  }

  function OrdersOf(r: Result<Gathered>): (os: Result<seq<int>>) {
    match r
    case Ok(g) => Ok(g.orders)
    case Err(e) => Err(e)
  }

  lemma {:induction false} UpstreamOrdersAlong(v: Variant, a: int, d: int, j: nat, net: Net, nodes: Nodes, rank: (int, int) -> nat, bound: nat)
    requires Valid(v, Links(net), nodes, rank, bound)
    requires 0 <= a < |net| && d in nodes && !Headwater(nodes, Header(v), d) && Header(v) <= j && rank(a, d) <= bound
    ensures WithinBound(TributariesFrom(Links(net), nodes, Header(v), a, d, j), d, net, rank, bound)
    ensures OrdersOf(Upstream(v, a, d, j, net, nodes, rank, bound)) ==
            OrdersAlong(v, TributariesFrom(Links(net), nodes, Header(v), a, d, j), d, net, nodes, rank, bound)
    decreases |nodes[d]| - j, 1
  {
    TributariesWithinBound(v, a, d, j, net, nodes, rank, bound);
    if j < |nodes[d]| {
      if net[nodes[d][j]].id == a {
        UpstreamOrdersAlong(v, a, d, j + 1, net, nodes, rank, bound);
      } else {
        TributaryOrdersAlong(v, a, d, j, net, nodes, rank, bound);
      }
    }
  }

  /** The step of `UpstreamOrdersAlong` at a listed arc that is a tributary. */
  lemma {:induction false} TributaryOrdersAlong(v: Variant, a: int, d: int, j: nat, net: Net, nodes: Nodes, rank: (int, int) -> nat, bound: nat)
    requires Valid(v, Links(net), nodes, rank, bound)
    requires 0 <= a < |net| && d in nodes && !Headwater(nodes, Header(v), d) && Header(v) <= j < |nodes[d]| && rank(a, d) <= bound
    requires net[nodes[d][j]].id != a
    requires WithinBound(TributariesFrom(Links(net), nodes, Header(v), a, d, j), d, net, rank, bound)
    ensures OrdersOf(Upstream(v, a, d, j, net, nodes, rank, bound)) ==
            OrdersAlong(v, TributariesFrom(Links(net), nodes, Header(v), a, d, j), d, net, nodes, rank, bound)
    decreases |nodes[d]| - j, 0
  {
    var b := nodes[d][j];
    var ts := TributariesFrom(Links(net), nodes, Header(v), a, d, j);
    assert Links(net)[b] == net[b].ToLink();
    assert ts == [b] + TributariesFrom(Links(net), nodes, Header(v), a, d, j + 1);
    assert ts[1..] == TributariesFrom(Links(net), nodes, Header(v), a, d, j + 1);
    UpstreamAtTributary(v, a, d, j, net, nodes, rank, bound);
    var t := Order(v, b, Far(net[b].ToLink(), d), net, nodes, rank, bound);
    if t.Ok? {
      UpstreamOrdersAlong(v, a, d, j + 1, t.value.net, nodes, rank, bound);
      OrdersAlongIgnoresStoredOrders(v, ts[1..], d, t.value.net, net, nodes, rank, bound);
    }
  }

  /**
   At a node that is not a headwater, the order of `a` is the merge of the
   orders of its tributaries (the arcs listed at `d` past the header whose
   slot 0 differs from `a`, in list order), each labelled from its far end on
   the input network; a failure of any of them is the failure of `a`.
   */
  lemma ConfluenceRule(v: Variant, a: int, d: int, net: Net, nodes: Nodes, rank: (int, int) -> nat, bound: nat)
    requires Valid(v, Links(net), nodes, rank, bound)
    requires 0 <= a < |net| && d in nodes && !Headwater(nodes, Header(v), d) && rank(a, d) <= bound
    ensures WithinBound(Tributaries(Links(net), nodes, Header(v), a, d), d, net, rank, bound)
    ensures match OrdersAlong(v, Tributaries(Links(net), nodes, Header(v), a, d), d, net, nodes, rank, bound)
            case Ok(ups) => OrderOf(Order(v, a, d, net, nodes, rank, bound)) == MergeOf(v, ups)
            case Err(e) => OrderOf(Order(v, a, d, net, nodes, rank, bound)) == Err(e)
  {
    UpstreamOrdersAlong(v, a, d, Header(v), net, nodes, rank, bound);
  }

  /** Strahler: the order of an arc is at least the order of each of its tributaries. */
  lemma StrahlerAtLeastTributaries(a: int, d: int, b: int, net: Net, nodes: Nodes, rank: (int, int) -> nat, bound: nat)
    requires Valid(Strahler, Links(net), nodes, rank, bound)
    requires 0 <= a < |net| && d in nodes && !Headwater(nodes, Header(Strahler), d) && rank(a, d) <= bound
    requires b in Tributaries(Links(net), nodes, 0, a, d)
    ensures 0 <= b < |net|
    ensures rank(b, Far(net[b].ToLink(), d)) <= bound
    ensures Order(Strahler, b, Far(net[b].ToLink(), d), net, nodes, rank, bound).value.order <=
            Order(Strahler, a, d, net, nodes, rank, bound).value.order
  {
    var ts := Tributaries(Links(net), nodes, 0, a, d);
    var k :| 0 <= k < |ts| && ts[k] == b;
    var os := StrahlerConfluence(a, d, net, nodes, rank, bound);
    assert os[k] == Order(Strahler, b, Far(net[b].ToLink(), d), net, nodes, rank, bound).value.order;
  }

  /** Strahler at a confluence: the tributary orders are all gathered and their merge is the order. */
  lemma StrahlerConfluence(a: int, d: int, net: Net, nodes: Nodes, rank: (int, int) -> nat, bound: nat) returns (os: seq<int>)
    requires Valid(Strahler, Links(net), nodes, rank, bound)
    requires 0 <= a < |net| && d in nodes && !Headwater(nodes, Header(Strahler), d) && rank(a, d) <= bound
    ensures WithinBound(Tributaries(Links(net), nodes, 0, a, d), d, net, rank, bound)
    ensures OrdersAlong(Strahler, Tributaries(Links(net), nodes, 0, a, d), d, net, nodes, rank, bound) == Ok(os)
    ensures StrahlerMerge(os) == Order(Strahler, a, d, net, nodes, rank, bound).value.order
  {
    UpstreamOrdersAlong(Strahler, a, d, 0, net, nodes, rank, bound);
    ConfluenceRule(Strahler, a, d, net, nodes, rank, bound);
    var ups := OrdersAlong(Strahler, Tributaries(Links(net), nodes, 0, a, d), d, net, nodes, rank, bound);
    os := ups.value;
  }

  /**
   Shreve: the order of a labelled confluence is at least the order of each
   of its tributaries, and strictly higher when two or more tributaries meet
   there, so the downstream river is always higher.
   */
  lemma ShreveDownstreamHigher(a: int, d: int, b: int, net: Net, nodes: Nodes, rank: (int, int) -> nat, bound: nat)
    requires Valid(Shreve, Links(net), nodes, rank, bound)
    requires 0 <= a < |net| && d in nodes && !Headwater(nodes, Header(Shreve), d) && rank(a, d) <= bound
    requires Order(Shreve, a, d, net, nodes, rank, bound).Ok?
    requires b in Tributaries(Links(net), nodes, 4, a, d)
    ensures 0 <= b < |net|
    ensures rank(b, Far(net[b].ToLink(), d)) <= bound
    ensures var up := Order(Shreve, b, Far(net[b].ToLink(), d), net, nodes, rank, bound);
            var o := Order(Shreve, a, d, net, nodes, rank, bound).value.order;
            && up.Ok? && up.value.order <= o
            && (|Tributaries(Links(net), nodes, 4, a, d)| >= 2 ==> up.value.order < o)
  {
    var ts := Tributaries(Links(net), nodes, 4, a, d);
    var k :| 0 <= k < |ts| && ts[k] == b;
    var o := Order(Shreve, a, d, net, nodes, rank, bound).value.order;
    var os := ShreveConfluence(a, d, net, nodes, rank, bound);
    assert os[k] == Order(Shreve, b, Far(net[b].ToLink(), d), net, nodes, rank, bound).value.order;
    ShreveMergeAbove(os, k, o);
  }

  /**
   Shreve at a labelled confluence: the tributary orders were all gathered,
   there is at least one, each is at least 1, and their merge is the order.
   */
  lemma ShreveConfluence(a: int, d: int, net: Net, nodes: Nodes, rank: (int, int) -> nat, bound: nat) returns (os: seq<int>)
    requires Valid(Shreve, Links(net), nodes, rank, bound)
    requires 0 <= a < |net| && d in nodes && !Headwater(nodes, Header(Shreve), d) && rank(a, d) <= bound
    requires Order(Shreve, a, d, net, nodes, rank, bound).Ok?
    ensures WithinBound(Tributaries(Links(net), nodes, 4, a, d), d, net, rank, bound)
    ensures var ts := Tributaries(Links(net), nodes, 4, a, d);
            && OrdersAlong(Shreve, ts, d, net, nodes, rank, bound) == Ok(os) && |ts| >= 1
            && ShreveMerge(os) == Ok(Order(Shreve, a, d, net, nodes, rank, bound).value.order)
            && forall k :: 0 <= k < |ts| ==> os[k] >= 1
  {
    var ts := Tributaries(Links(net), nodes, 4, a, d);
    ConfluenceRule(Shreve, a, d, net, nodes, rank, bound);
    var ups := OrdersAlong(Shreve, ts, d, net, nodes, rank, bound);
    assert ups.Ok?;
    ShreveOrdersPositive(ts, d, net, nodes, rank, bound);
    os := ups.value;
  }

  /** Every order the Shreve engine gathers along a list of arcs is at least 1. */
  lemma ShreveOrdersPositive(arcs: seq<int>, d: int, net: Net, nodes: Nodes, rank: (int, int) -> nat, bound: nat)
    requires Valid(Shreve, Links(net), nodes, rank, bound)
    requires WithinBound(arcs, d, net, rank, bound)
    requires OrdersAlong(Shreve, arcs, d, net, nodes, rank, bound).Ok?
    ensures forall k :: 0 <= k < |arcs| ==> OrdersAlong(Shreve, arcs, d, net, nodes, rank, bound).value[k] >= 1
  {
    var os := OrdersAlong(Shreve, arcs, d, net, nodes, rank, bound).value;
    forall k | 0 <= k < |arcs| ensures os[k] >= 1 {
      assert os[k] == Order(Shreve, arcs[k], Far(net[arcs[k]].ToLink(), d), net, nodes, rank, bound).value.order;
    }
  }
}
