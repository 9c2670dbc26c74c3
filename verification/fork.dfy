/**
 A worked network on which the two Shreve engines part ways: a sink arc
 reached at the confluence of two headwater arcs. The recursive engine labels
 the sink 2; the iterative loop labels both tributaries 1 and empties its
 stack without ever labelling the sink. With a braided reach added beside the
 fork, the recursive engine still labels the sink 2.
 */
module Fork {
  import opened Network
  import opened Merge
  import Recursive
  import opened Iterative

  /**
   A sink reached at a confluence of two headwater arcs. Arc 0 runs from node
   11 to node 10, arcs 1 and 2 run from the headwater nodes 12 and 13 to node
   11; every list has the four header entries.
   */
  function ForkNet(): (net: Net) {
    [Arc(0, 11, 10, 0), Arc(1, 12, 11, 0), Arc(2, 13, 11, 0)]
  }

  function ForkNodes(): (nodes: Nodes) {
    map[10 := [0, 0, 0, 0, 0], 11 := [0, 0, 0, 0, 0, 1, 2], 12 := [0, 0, 0, 0, 1], 13 := [0, 0, 0, 0, 2]]
  }

  lemma ForkWellFormed()
    ensures Links(ForkNet()) == [Link(0, 11, 10), Link(1, 12, 11), Link(2, 13, 11)]
    ensures WellFormed(Links(ForkNet()), ForkNodes(), Header)
  {
    var links := Links(ForkNet());
    assert links == [Link(0, 11, 10), Link(1, 12, 11), Link(2, 13, 11)];
  }

  /** The first pass at the sink finds neither tributary in the memo and pushes both behind the sink. */
  lemma ForkFirstPass()
    ensures WellFormed(Links(ForkNet()), ForkNodes(), Header)
    ensures ScanFrom(0, 11, Header, ForkNet(), ForkNodes(), map[], Scan([], true, [])) ==
            Scan([(0, 11), (1, 12), (0, 11), (2, 13)], false, [])
  {
    ForkWellFormed();
    var net, nodes := ForkNet(), ForkNodes();
    assert nodes[11] == [0, 0, 0, 0, 0, 1, 2];
    var s2 := [(0, 11), (1, 12)];
    var s1 := s2 + [(0, 11), (2, 13)];
    assert ScanFrom(0, 11, 7, net, nodes, map[], Scan(s1, false, [])) == Scan(s1, false, []);
    assert ScanOne(0, 11, 2, net, map[], Scan(s2, false, [])) == Scan(s1, false, []);
    assert ScanFrom(0, 11, 6, net, nodes, map[], Scan(s2, false, [])) == Scan(s1, false, []);
    assert [] + s2 == s2;
    assert ScanOne(0, 11, 1, net, map[], Scan([], true, [])) == Scan(s2, false, []);
    assert nodes[11][5] == 1 && net[1].id == 1;
    assert ScanFrom(0, 11, 5, net, nodes, map[], Scan([], true, [])) ==
           ScanFrom(0, 11, 6, net, nodes, map[], ScanOne(0, 11, 1, net, map[], Scan([], true, [])));
  }

  /** The loop states on the fork, before pass `k + 1`. */
  function ForkWalk(k: nat): (w: Walk)
    requires k <= 5
  {
    var net := ForkNet();
    match k
    case 0 => ForkWellFormed(); Start(0, net, ForkNodes())
    case 1 => Walk([(0, 11), (1, 12), (0, 11), (2, 13)], {(0, 11)}, map[], net)
    case 2 => Walk([(0, 11), (1, 12), (0, 11)], {(0, 11), (2, 13)}, map[2 := 1], SetOrder(net, 2, 1))
    case 3 => Walk([(0, 11), (1, 12)], {(0, 11), (2, 13)}, map[2 := 1], SetOrder(net, 2, 1))
    case 4 => Walk([(0, 11)], {(0, 11), (1, 12), (2, 13)}, map[2 := 1, 1 := 1], SetOrder(SetOrder(net, 2, 1), 1, 1))
    case 5 => Walk([], {(0, 11), (1, 12), (2, 13)}, map[2 := 1, 1 := 1], SetOrder(SetOrder(net, 2, 1), 1, 1))
  }

  lemma ForkResolve()
    ensures WellFormed(Links(ForkNet()), ForkNodes(), Header)
    ensures Resolve(Walk([], {(0, 11)}, map[], ForkNet()), 0, 11, ForkNodes()) == Ok(ForkWalk(1))
  {
    ForkFirstPass();
    var w := Walk([], {(0, 11)}, map[], ForkNet());
    var sc := ScanItem([], 0, 11, ForkNet(), ForkNodes(), map[]);
    assert sc == Scan([(0, 11), (1, 12), (0, 11), (2, 13)], false, []);
    assert Resolve(w, 0, 11, ForkNodes()) == Ok(w.(stack := sc.stack));
    assert ForkWalk(1) == w.(stack := sc.stack);
  }

  /** Pass 1 scans the sink's node and pushes the sink and each tributary. */
  lemma ForkPass1()
    ensures WellFormed(Links(ForkNet()), ForkNodes(), Header) && AllValid(ForkWalk(0).stack, 3, ForkNodes())
    ensures Step(ForkWalk(0), ForkNodes()) == Ok(ForkWalk(1))
  {
    ForkResolve();
    var w0 := ForkWalk(0);
    assert w0.stack == [(0, 11)];
    assert AllValid(w0.stack, 3, ForkNodes());
    assert Top(w0.stack) == (0, 11) && Pop(w0.stack) == [];
    assert |ForkNodes()[11]| == 7;
    assert w0.(stack := Pop(w0.stack), visited := w0.visited + {(0, 11)}) == Walk([], {(0, 11)}, map[], ForkNet());
  }

  /** Passes 2 and 4 label the headwater tributaries; passes 3 and 5 drop the visited sink. */
  lemma ForkPass2()
    ensures WellFormed(Links(ForkNet()), ForkNodes(), Header) && AllValid(ForkWalk(1).stack, 3, ForkNodes())
    ensures Step(ForkWalk(1), ForkNodes()) == Ok(ForkWalk(2))
  {
    ForkWellFormed();
    var w1 := ForkWalk(1);
    assert Top(w1.stack) == (2, 13) && Pop(w1.stack) == [(0, 11), (1, 12), (0, 11)];
    assert w1.visited + {(2, 13)} == {(0, 11), (2, 13)};
    assert |ForkNodes()[13]| == 5;
  }

  lemma ForkPass3()
    ensures WellFormed(Links(ForkWalk(2).net), ForkNodes(), Header) && AllValid(ForkWalk(2).stack, 3, ForkNodes())
    ensures Step(ForkWalk(2), ForkNodes()) == Ok(ForkWalk(3))
  {
    ForkWellFormed();
    var w2 := ForkWalk(2);
    assert Top(w2.stack) == (0, 11) && Pop(w2.stack) == [(0, 11), (1, 12)];
    assert (0, 11) in w2.visited;
  }

  lemma ForkPass4()
    ensures WellFormed(Links(ForkWalk(3).net), ForkNodes(), Header) && AllValid(ForkWalk(3).stack, 3, ForkNodes())
    ensures Step(ForkWalk(3), ForkNodes()) == Ok(ForkWalk(4))
  {
    ForkWellFormed();
    var w3 := ForkWalk(3);
    assert Top(w3.stack) == (1, 12) && Pop(w3.stack) == [(0, 11)];
    assert w3.visited + {(1, 12)} == {(0, 11), (1, 12), (2, 13)};
    assert |ForkNodes()[12]| == 5;
  }

  lemma ForkPass5()
    ensures WellFormed(Links(ForkWalk(4).net), ForkNodes(), Header) && AllValid(ForkWalk(4).stack, 3, ForkNodes())
    ensures Step(ForkWalk(4), ForkNodes()) == Ok(ForkWalk(5))
  {
    ForkWellFormed();
    var w4 := ForkWalk(4);
    assert Top(w4.stack) == (0, 11) && Pop(w4.stack) == [];
  }

  /**
   On the fork the loop empties its stack after five passes having labelled
   both tributaries 1 but never the sink: the memo holds the tributaries under
   their arc indices 1 and 2, the scan at node 11 looks for the far node ids
   12 and 13, and the sink item, re-pushed after it was marked visited, is
   dropped when it comes back to the top. The sink keeps the order it held.
   */
  lemma IterativeNeverLabelsSink()
    ensures WellFormed(Links(ForkNet()), ForkNodes(), Header)
    ensures var r := Drain(Start(0, ForkNet(), ForkNodes()), ForkNodes(), 5);
            && r.Ok? && r.value.stack == []
            && r.value.orders == map[1 := 1, 2 := 1]
            && r.value.net[1].order == 1 && r.value.net[2].order == 1
            && r.value.net[0] == ForkNet()[0]
  {
    ForkDrainFrom(0);
    ForkFinal();
  }

  /** The last state: empty stack, both tributaries in the memo and in their slots, the sink untouched. */
  lemma ForkFinal()
    ensures var w := ForkWalk(5);
            && w.stack == []
            && w.orders == map[1 := 1, 2 := 1]
            && w.net[1].order == 1 && w.net[2].order == 1
            && w.net[0] == ForkNet()[0]
  {
    assert map[2 := 1, 1 := 1] == map[1 := 1, 2 := 1];
  }

  /** Pass `k + 1` takes state `k` to state `k + 1`. */
  lemma ForkPass(k: nat)
    requires k < 5
    ensures WellFormed(Links(ForkWalk(k).net), ForkNodes(), Header) && AllValid(ForkWalk(k).stack, 3, ForkNodes())
    ensures |ForkWalk(k).net| == 3 && ForkWalk(k).stack != [] && ValidItem(Top(ForkWalk(k).stack), 3, ForkNodes())
    ensures Step(ForkWalk(k), ForkNodes()) == Ok(ForkWalk(k + 1))
  {
    var w := ForkWalk(k);
    if k == 0 {
      ForkPass1();
    } else if k == 1 {
      ForkPass2();
    } else if k == 2 {
      ForkPass3();
    } else if k == 3 {
      ForkPass4();
    } else {
      ForkPass5();
    }
    assert ValidItem(w.stack[|w.stack| - 1], 3, ForkNodes());
  }

  /** From state `k` on, the remaining passes end in the final state. */
  lemma {:induction false} ForkDrainFrom(k: nat)
    requires k <= 5
    ensures WellFormed(Links(ForkWalk(k).net), ForkNodes(), Header) && AllValid(ForkWalk(k).stack, 3, ForkNodes())
    ensures Drain(ForkWalk(k), ForkNodes(), 5 - k) == Ok(ForkWalk(5))
    decreases 5 - k
  {
    if k == 5 {
      ForkWellFormed();
    } else {
      ForkDrainFrom(k + 1);
      ForkPass(k);
      DrainStep(ForkWalk(k), ForkNodes(), 5 - k);
    }
  }

  /** A run of passes from state `k` succeeds, and ends in the final state if it empties the stack. */
  ghost predicate ForkSettled(k: nat, n: nat)
    requires k <= 5
  {
    && WellFormed(Links(ForkWalk(k).net), ForkNodes(), Header)
    && AllValid(ForkWalk(k).stack, |ForkWalk(k).net|, ForkNodes())
    && var r := Drain(ForkWalk(k), ForkNodes(), n);
       r.Ok? && (r.value.stack == [] ==> r.value == ForkWalk(5))
  }

  /**
   From state `k`, any number of passes succeeds, and a run that empties the
   stack ends in the final state.
   */
  lemma {:induction false} ForkSettlesFrom(k: nat, n: nat)
    requires k <= 5
    ensures ForkSettled(k, n)
    decreases n
  {
    if k == 5 {
      ForkSettledAtEnd(n);
    } else if n == 0 {
      ForkSettledNoPass(k);
    } else {
      ForkSettlesFrom(k + 1, n - 1);
      ForkSettlesStep(k, n);
    }
  }

  /** The final state settles under any number of passes. */
  lemma ForkSettledAtEnd(n: nat)
    ensures ForkSettled(5, n)
  {
    ForkDrainDone(n);
  }

  /** No pass at all settles every state, since only the final one has an empty stack. */
  lemma ForkSettledNoPass(k: nat)
    requires k <= 5
    ensures ForkSettled(k, 0)
  {
    ForkPass(if k < 5 then k else 4);
    ForkStackEmpties(k);
  }

  /** One pass from state `k` carries the settling of state `k + 1` back to state `k`. */
  lemma ForkSettlesStep(k: nat, n: nat)
    requires k < 5 && n > 0
    requires ForkSettled(k + 1, n - 1)
    ensures ForkSettled(k, n)
  {
    ForkDrainPass(k, n);
  }

  /** A run of `n` passes from state `k` is pass `k + 1` followed by `n - 1` passes. */
  lemma ForkDrainPass(k: nat, n: nat)
    requires k < 5 && n > 0
    ensures WellFormed(Links(ForkWalk(k).net), ForkNodes(), Header) && AllValid(ForkWalk(k).stack, 3, ForkNodes())
    ensures WellFormed(Links(ForkWalk(k + 1).net), ForkNodes(), Header) && AllValid(ForkWalk(k + 1).stack, 3, ForkNodes())
    ensures Drain(ForkWalk(k), ForkNodes(), n) == Drain(ForkWalk(k + 1), ForkNodes(), n - 1)
  {
    ForkPass(k);
    ForkPass(if k + 1 < 5 then k + 1 else 4);
    if k + 1 == 5 {
      ForkDrainDone(0);
    }
    DrainStep(ForkWalk(k), ForkNodes(), n);
  }

  /** The final state, its stack empty, is left alone by any number of passes. */
  lemma ForkDrainDone(n: nat)
    ensures WellFormed(Links(ForkWalk(5).net), ForkNodes(), Header) && AllValid(ForkWalk(5).stack, 3, ForkNodes())
    ensures Drain(ForkWalk(5), ForkNodes(), n) == Ok(ForkWalk(5))
  {
    ForkWellFormed();
    ForkFinal();
  }

  /** The stack empties only in the final state. */
  lemma ForkStackEmpties(k: nat)
    requires k <= 5
    ensures ForkWalk(k).stack == [] <==> k == 5
  {
  }

  /** Any run of passes on the fork that empties the stack ends in the final state. */
  lemma ForkSettles(n: nat, w: Walk)
    requires WellFormed(Links(ForkNet()), ForkNodes(), Header)
    requires Drain(Start(0, ForkNet(), ForkNodes()), ForkNodes(), n) == Ok(w) && w.stack == []
    ensures w == ForkWalk(5)
  {
    ForkSettlesFrom(0, n);
  }

  /**
   The iterative engine run on the fork returns 0, the value the sink's order
   slot held, where the recursive Shreve engine returns 2.
   */
  method IterativeOnFork() returns (r: Result<int>)
    ensures r == Ok(0)
  {
    ForkWellFormed();
    var w, log;
    ghost var passes;
    r, w, log, passes := ShreveIterative(0, ForkNet(), ForkNodes());
    ForkSettlesFrom(0, passes);
    assert r.Ok?;
    ForkSettles(passes, w);
    ForkFinal();
  }

  /** At node 11 the sink has the two tributaries 1 and 2. */
  lemma ForkTributaries()
    ensures WellFormed(Links(ForkNet()), ForkNodes(), Header)
    ensures Tributaries(Links(ForkNet()), ForkNodes(), Header, 0, 11) == [1, 2]
  {
    ForkWellFormed();
    var links, nodes := Links(ForkNet()), ForkNodes();
    assert nodes[11] == [0, 0, 0, 0, 0, 1, 2];
    assert TributariesFrom(links, nodes, Header, 0, 11, 7) == [];
    assert TributariesFrom(links, nodes, Header, 0, 11, 6) == [2];
    assert TributariesFrom(links, nodes, Header, 0, 11, 5) == [1, 2];
  }

  /** The recursive engines' rank on the fork: only steps upstream from node 11 are taken. */
  function ForkRank(a: int, d: int): (r: nat) {
    if d == 11 then 1 else 0
  }

  lemma ForkValid()
    ensures Recursive.Valid(Recursive.Shreve, Links(ForkNet()), ForkNodes(), ForkRank, 1)
  {
    ForkWellFormed();
    var links, nodes := Links(ForkNet()), ForkNodes();
    forall a, d, j |
      && 0 <= a < |links| && d in nodes && |nodes[d]| != Header + 1
      && Header <= j < |nodes[d]| && 0 <= nodes[d][j] < |links| && links[nodes[d][j]].id != a
      ensures ForkRank(nodes[d][j], Far(links[nodes[d][j]], d)) < ForkRank(a, d)
    {
      assert d == 11;
      var l := links[nodes[d][j]];
      assert l.nodeA != l.nodeB && (l.nodeA == 11 || l.nodeB == 11);
    }
  }

  /**
   The recursive Shreve engine on the same call labels the sink 2, the sum of
   its two headwater tributaries.
   */
  lemma RecursiveLabelsSinkTwo()
    ensures Recursive.Valid(Recursive.Shreve, Links(ForkNet()), ForkNodes(), ForkRank, 1)
    ensures Recursive.OrderOf(Recursive.Order(Recursive.Shreve, 0, 11, ForkNet(), ForkNodes(), ForkRank, 1)) == Ok(2)
  {
    ForkValid();
    ForkTributaries();
    ForkRecursiveTributaries();
    Recursive.ConfluenceRule(Recursive.Shreve, 0, 11, ForkNet(), ForkNodes(), ForkRank, 1);
    ShreveExamples();
  }

  /** Both tributaries of the sink are headwater arcs, labelled 1 by the recursive Shreve engine. */
  lemma ForkRecursiveTributaries()
    ensures Recursive.Valid(Recursive.Shreve, Links(ForkNet()), ForkNodes(), ForkRank, 1)
    ensures Recursive.OrdersAlong(Recursive.Shreve, [1, 2], 11, ForkNet(), ForkNodes(), ForkRank, 1) == Ok([1, 1])
  {
    ForkValid();
    var net, nodes := ForkNet(), ForkNodes();
    assert Far(net[1].ToLink(), 11) == 12 && Far(net[2].ToLink(), 11) == 13;
    assert |nodes[12]| == 5 && |nodes[13]| == 5;
    assert Recursive.OrderOf(Recursive.Order(Recursive.Shreve, 1, 12, net, nodes, ForkRank, 1)) == Ok(1);
    assert Recursive.OrderOf(Recursive.Order(Recursive.Shreve, 2, 13, net, nodes, ForkRank, 1)) == Ok(1);
    assert [1, 2][1..] == [2] && [2][1..] == [] && [1] + [] == [1] && [1] + [1] == [1, 1];
    assert Recursive.OrdersAlong(Recursive.Shreve, [], 11, net, nodes, ForkRank, 1) == Ok([]);
    assert Recursive.OrdersAlong(Recursive.Shreve, [2], 11, net, nodes, ForkRank, 1) == Ok([1]);
  }

  /**
   The fork with a braided reach beside it: arcs 3 and 4 both join nodes 20
   and 21, a loop that no walk from the sink reaches.
   */
  function BraidedNet(): (net: Net) {
    ForkNet() + [Arc(3, 20, 21, 0), Arc(4, 21, 20, 0)]
  }

  function BraidedNodes(): (nodes: Nodes) {
    ForkNodes()[20 := [0, 0, 0, 0, 3, 4]][21 := [0, 0, 0, 0, 3, 4]]
  }

  /** Steps inside the braid never end, so its pairs are ranked above the bound 1. */
  function BraidedRank(a: int, d: int): (r: nat) {
    if d == 11 then 1 else if d == 20 || d == 21 then 2 else 0
  }

  /** Inside the braid the walk steps from arc 3 at node 20 to arc 4 at node 21 and back. */
  lemma BraidedLoops()
    ensures WellFormed(Links(BraidedNet()), BraidedNodes(), Header)
    ensures !Headwater(BraidedNodes(), Header, 20) && !Headwater(BraidedNodes(), Header, 21)
    ensures Tributaries(Links(BraidedNet()), BraidedNodes(), Header, 3, 20) == [4]
    ensures Far(Links(BraidedNet())[4], 20) == 21
    ensures Tributaries(Links(BraidedNet()), BraidedNodes(), Header, 4, 21) == [3]
    ensures Far(Links(BraidedNet())[3], 21) == 20
  {
    var links, nodes := Links(BraidedNet()), BraidedNodes();
    assert links == [Link(0, 11, 10), Link(1, 12, 11), Link(2, 13, 11), Link(3, 20, 21), Link(4, 21, 20)];
    assert nodes[20] == [0, 0, 0, 0, 3, 4] && nodes[21] == [0, 0, 0, 0, 3, 4];
    assert TributariesFrom(links, nodes, Header, 3, 20, 5) == [4];
    assert TributariesFrom(links, nodes, Header, 4, 21, 5) == [];
  }

  /** The braid does not stop the recursive engines from walking the sink's reach. */
  lemma BraidedValid()
    ensures Recursive.Valid(Recursive.Shreve, Links(BraidedNet()), BraidedNodes(), BraidedRank, 1)
  {
    BraidedLoops();
    var links, nodes := Links(BraidedNet()), BraidedNodes();
    assert links == [Link(0, 11, 10), Link(1, 12, 11), Link(2, 13, 11), Link(3, 20, 21), Link(4, 21, 20)];
    forall a, d, j {:trigger BraidedRank(a, d), nodes[d][j]} |
      && 0 <= a < |links| && d in nodes && |nodes[d]| != Header + 1
      && Header <= j < |nodes[d]| && 0 <= nodes[d][j] < |links| && links[nodes[d][j]].id != a
      && BraidedRank(a, d) <= 1
      ensures BraidedRank(nodes[d][j], Far(links[nodes[d][j]], d)) < BraidedRank(a, d)
    {
      assert d == 11;
    }
  }

  /** At node 11 the sink of the braided network has the tributaries 1 and 2, both headwater arcs. */
  lemma BraidedTributaries()
    ensures Recursive.Valid(Recursive.Shreve, Links(BraidedNet()), BraidedNodes(), BraidedRank, 1)
    ensures Tributaries(Links(BraidedNet()), BraidedNodes(), Header, 0, 11) == [1, 2]
    ensures Recursive.OrdersAlong(Recursive.Shreve, [1, 2], 11, BraidedNet(), BraidedNodes(), BraidedRank, 1) == Ok([1, 1])
  {
    BraidedValid();
    var net, nodes := BraidedNet(), BraidedNodes();
    var links := Links(net);
    assert links == [Link(0, 11, 10), Link(1, 12, 11), Link(2, 13, 11), Link(3, 20, 21), Link(4, 21, 20)];
    assert nodes[11] == [0, 0, 0, 0, 0, 1, 2] && |nodes[12]| == 5 && |nodes[13]| == 5;
    assert TributariesFrom(links, nodes, Header, 0, 11, 7) == [];
    assert TributariesFrom(links, nodes, Header, 0, 11, 6) == [2];
    assert TributariesFrom(links, nodes, Header, 0, 11, 5) == [1, 2];
    assert Far(net[1].ToLink(), 11) == 12 && Far(net[2].ToLink(), 11) == 13;
    assert Recursive.OrderOf(Recursive.Order(Recursive.Shreve, 1, 12, net, nodes, BraidedRank, 1)) == Ok(1);
    assert Recursive.OrderOf(Recursive.Order(Recursive.Shreve, 2, 13, net, nodes, BraidedRank, 1)) == Ok(1);
    assert [1, 2][1..] == [2] && [2][1..] == [] && [1] + [] == [1] && [1] + [1] == [1, 1];
    assert Recursive.OrdersAlong(Recursive.Shreve, [], 11, net, nodes, BraidedRank, 1) == Ok([]);
    assert Recursive.OrdersAlong(Recursive.Shreve, [2], 11, net, nodes, BraidedRank, 1) == Ok([1]);
  }

  /**
   On the braided network the recursive Shreve engine still labels the sink 2:
   the loop beside the sink's reach is never entered.
   */
  lemma BraidedLabelsSinkTwo()
    ensures Recursive.Valid(Recursive.Shreve, Links(BraidedNet()), BraidedNodes(), BraidedRank, 1)
    ensures Recursive.OrderOf(Recursive.Order(Recursive.Shreve, 0, 11, BraidedNet(), BraidedNodes(), BraidedRank, 1)) == Ok(2)
  {
    BraidedTributaries();
    assert |BraidedNodes()[11]| == 7;
    Recursive.ConfluenceRule(Recursive.Shreve, 0, 11, BraidedNet(), BraidedNodes(), BraidedRank, 1);
    ShreveExamples();
  }
}
