/**
 The river network shared by every stream-order engine: the arc records, the
 node adjacency index, and the failure a merge can raise.

 An arc record is a fixed-width list whose slot 0 is the arc's own index,
 slots 5 and 6 its two endpoint node ids and slot 7 its stream order; slots 1-4
 are never read by the engines and are not modelled. The adjacency index maps a
 node id to the list of incident arc indices, possibly preceded by a header
 that the engine skips (`header` below).
 */
module Network {

  /** The part of an arc record the engines only read: slots 0, 5 and 6. */
  datatype Link = Link(id: int, nodeA: int, nodeB: int)

  /** An arc record: slots 0, 5, 6 and the order slot 7, the only one written. */
  datatype Arc = Arc(id: int, nodeA: int, nodeB: int, order: int) {
    function ToLink(): (l: Link) {
      Link(id, nodeA, nodeB)
    }
  }

  type Net = seq<Arc>

  /** Node id to its adjacency list. */
  type Nodes = map<int, seq<int>>

  /** The failure `max` raises on an empty sequence (a ValueError). */
  datatype Error = EmptyMax

  datatype Result<+T> = Ok(value: T) | Err(error: Error) {
    predicate IsFailure() {
      Err?
    }

    function PropagateFailure<U>(): (r: Result<U>)
      requires Err?
    {
      Err(error)
    }

    function Extract(): (t: T)
      requires Ok?
    {
      value
    }
  }

  /** The topology of a network: everything but the order slots. */
  function Links(net: Net): (ls: seq<Link>)
    ensures |ls| == |net|
    ensures forall i :: 0 <= i < |net| ==> ls[i] == net[i].ToLink()
  {
    seq(|net|, i requires 0 <= i < |net| => net[i].ToLink())
  }

  /** Writes `v` into the order slot of arc `a`. */
  function SetOrder(net: Net, a: int, v: int): (r: Net)
    requires 0 <= a < |net|
    ensures Links(r) == Links(net)
    ensures r[a].order == v
    ensures forall i :: 0 <= i < |net| && i != a ==> r[i] == net[i]
  {
    var r := net[a := net[a].(order := v)];
    assert Links(r) == Links(net) by {
      forall i | 0 <= i < |net| ensures Links(r)[i] == Links(net)[i] { }
    }
    r
  }

  /**
   The node a traversal continues from after stepping from node `d` onto the
   arc `l`: slot 5 unless slot 5 is `d` itself, in which case slot 6.
   */
  function Far(l: Link, d: int): (e: int)
    ensures e == l.nodeA || e == l.nodeB
    ensures (d == l.nodeA || d == l.nodeB) && l.nodeA != l.nodeB ==> e != d
    ensures d != l.nodeA && d != l.nodeB ==> e == l.nodeA
  {
    if l.nodeA != d then l.nodeA else l.nodeB
  }

  /** A node is a headwater when its list holds exactly one entry past the header. */
  predicate Headwater(nodes: Nodes, header: nat, d: int)
    requires d in nodes
  {
    |nodes[d]| == header + 1
  }

  /**
   Every reference the engines follow resolves: both endpoints of every arc
   are keys of the adjacency index, and every list entry past the header is an
   arc index.
   */
  ghost predicate WellFormed(links: seq<Link>, nodes: Nodes, header: nat) {
    && (forall i :: 0 <= i < |links| ==> links[i].nodeA in nodes && links[i].nodeB in nodes)
    && (forall d, j :: d in nodes && header <= j < |nodes[d]| ==> 0 <= nodes[d][j] < |links|)
  }

  /**
   `rank` strictly drops along every upstream step the recursive engines can
   take from a pair ranked at most `bound`: from arc `a` at a node `d` that is
   not a headwater, onto an arc `b` listed at `d` past the header whose slot 0
   differs from `a`, continuing from the far end of `b`. With `bound` the rank
   of the first call, such a rank exists exactly when the traversal from that
   call ends; pairs the traversal never reaches can be ranked above `bound`,
   so a loop elsewhere in the network does not matter.
   */
  ghost predicate RankedBelow(links: seq<Link>, nodes: Nodes, header: nat, rank: (int, int) -> nat, bound: nat) {
    forall a, d, j {:trigger rank(a, d), rank(nodes[d][j], Far(links[nodes[d][j]], d))} ::
      && 0 <= a < |links|
      && d in nodes
      && |nodes[d]| != header + 1
      && header <= j < |nodes[d]|
      && 0 <= nodes[d][j] < |links|
      && links[nodes[d][j]].id != a
      && rank(a, d) <= bound
      ==> rank(nodes[d][j], Far(links[nodes[d][j]], d)) < rank(a, d)
  }

  /**
   The tributaries of arc `a` at node `d`, in list order, from position `j` on:
   the listed arcs whose slot 0 is not `a`.
   */
  function TributariesFrom(links: seq<Link>, nodes: Nodes, header: nat, a: int, d: int, j: nat): (ts: seq<int>)
    requires WellFormed(links, nodes, header) && d in nodes
    requires header <= j
    ensures forall k :: 0 <= k < |ts| ==> 0 <= ts[k] < |links| && links[ts[k]].id != a
    decreases |nodes[d]| - j
  {
    if j >= |nodes[d]| then []
    else
      var rest := TributariesFrom(links, nodes, header, a, d, j + 1);
      if links[nodes[d][j]].id == a then rest else [nodes[d][j]] + rest
  }

  /**
   The tributaries are exactly the arcs listed at `d` from position `j` on
   whose slot 0 differs from `a`.
   */
  lemma {:induction false} TributariesFromMembers(links: seq<Link>, nodes: Nodes, header: nat, a: int, d: int, j: nat)
    requires WellFormed(links, nodes, header) && d in nodes
    requires header <= j
    ensures forall b :: b in TributariesFrom(links, nodes, header, a, d, j) <==>
              exists i :: j <= i < |nodes[d]| && nodes[d][i] == b && links[b].id != a
    decreases |nodes[d]| - j
  {
    if j < |nodes[d]| {
      TributariesFromMembers(links, nodes, header, a, d, j + 1);
    }
  }

  /**
   Every tributary of a pair ranked at most `bound` is walked from its far end
   at a strictly lower rank.
   */
  lemma {:induction false} TributariesRankedBelow(links: seq<Link>, nodes: Nodes, header: nat, rank: (int, int) -> nat, bound: nat, a: int, d: int, j: nat)
    requires WellFormed(links, nodes, header) && RankedBelow(links, nodes, header, rank, bound)
    requires 0 <= a < |links| && d in nodes && |nodes[d]| != header + 1 && header <= j && rank(a, d) <= bound
    ensures forall k :: 0 <= k < |TributariesFrom(links, nodes, header, a, d, j)| ==>
              rank(TributariesFrom(links, nodes, header, a, d, j)[k], Far(links[TributariesFrom(links, nodes, header, a, d, j)[k]], d)) < rank(a, d)
    decreases |nodes[d]| - j
  {
    if j < |nodes[d]| {
      TributariesRankedBelow(links, nodes, header, rank, bound, a, d, j + 1);
      var b := nodes[d][j];
      var rest := TributariesFrom(links, nodes, header, a, d, j + 1);
      if links[b].id != a {
        assert rank(b, Far(links[b], d)) < rank(a, d);
        var ts := [b] + rest;
        forall k | 0 <= k < |ts| ensures rank(ts[k], Far(links[ts[k]], d)) < rank(a, d) {
          if k > 0 {
            assert ts[k] == rest[k - 1];
          }
        }
      }
    }
  }

  /** The tributaries of arc `a` at node `d`. */
  function Tributaries(links: seq<Link>, nodes: Nodes, header: nat, a: int, d: int): (ts: seq<int>)
    requires WellFormed(links, nodes, header) && d in nodes
  {
    TributariesFrom(links, nodes, header, a, d, header)
  }
}
