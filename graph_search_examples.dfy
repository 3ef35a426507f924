/**
  The inline scenarios of graph_search_test.py, stated about the model:
  each lemma pins the exact record, path or set the operations return.
  Nodes are single characters standing for the one-letter node names.
 */
module GraphSearchExamples {
  import opened Wrappers
  import opened GraphSearch

  /** A <-> B <-> C, as a graph with edges both ways. */
  function LinkedList(): Graph<char> {
    map['A' := ['B'], 'B' := ['A', 'C'], 'C' := ['B']]
  }

  /** A -> B -> C, edges one way only. */
  function OneWayList(): Graph<char> {
    map['A' := ['B'], 'B' := ['C'], 'C' := []]
  }

  lemma LinkedListClosed()
    ensures Closed(LinkedList())
  {
  }

  lemma OneWayListClosed()
    ensures Closed(OneWayList())
  {
  }

  /** A full traversal from A records B as found from A and C as found from B. */
  lemma TraverseLinkedList()
    ensures Closed(LinkedList()) && Traversal(LinkedList(), 'A') == map['A' := None, 'B' := Some('A'), 'C' := Some('B')]
  {
    LinkedListClosed();
    var g := LinkedList();
    var cf0: CameFrom<char> := map['A' := None];
    var cf1 := cf0['B' := Some('A')];
    var cf2 := cf1['C' := Some('B')];
    assert ['B'][1..] == [] && ['A', 'C'][1..] == ['C'] && ['C'][1..] == [];
    assert Discover('A', g['A'], [], cf0) == (['B'], cf1);
    assert Discover('B', g['B'], [], cf1) == (['C'], cf2);
    assert Discover('C', g['C'], [], cf2) == ([], cf2);
    calc {
      Bfs(g, None, ['A'], cf0);
      Bfs(g, None, ['B'], cf1);
      Bfs(g, None, ['C'], cf2);
      Bfs(g, None, [], cf2);
    }
    assert cf2 == map['A' := None, 'B' := Some('A'), 'C' := Some('B')];
  }

  /** A search from A for C finds C from B and returns the path A, B, C. */
  lemma SearchLinkedListAToC(cameFrom: CameFrom<char>, path: Option<seq<char>>)
    requires SearchOutcome(LinkedList(), 'A', 'C', cameFrom, path)
    ensures cameFrom == map['A' := None, 'B' := Some('A'), 'C' := Some('B')]
    ensures path == Some(['A', 'B', 'C'])
  {
    var g := LinkedList();
    var cf0: CameFrom<char> := map['A' := None];
    var cf1 := cf0['B' := Some('A')];
    var cf2 := cf1['C' := Some('B')];
    assert ['B'][1..] == [] && ['A', 'C'][1..] == ['C'];
    assert Discover('A', g['A'], [], cf0) == (['B'], cf1);
    assert Discover('B', g['B'], [], cf1) == (['C'], cf2);
    calc {
      Bfs(g, Some('C'), ['A'], cf0);
      Bfs(g, Some('C'), ['B'], cf1);
      Bfs(g, Some('C'), ['C'], cf2);
    }
    assert cameFrom == cf2;
    assert IsBacktrack(cameFrom, 'A', 'C', ['A', 'B', 'C']);
    BacktrackDetermined(cameFrom, 'A', 'C', path.value, ['A', 'B', 'C']);
  }

  /**
    A search from B for A discovers A first but still scans the rest of B's
    neighbours, so C is recorded too; the path is B, A.
   */
  lemma SearchLinkedListBToA(cameFrom: CameFrom<char>, path: Option<seq<char>>)
    requires SearchOutcome(LinkedList(), 'B', 'A', cameFrom, path)
    ensures cameFrom == map['B' := None, 'A' := Some('B'), 'C' := Some('B')]
    ensures path == Some(['B', 'A'])
  {
    var g := LinkedList();
    var cf0: CameFrom<char> := map['B' := None];
    var cf1 := cf0['A' := Some('B')];
    var cf2 := cf1['C' := Some('B')];
    assert ['B'][1..] == [] && ['A', 'C'][1..] == ['C'] && ['C'][1..] == [];
    assert [] + ['A'] == ['A'] && ['A'] + ['C'] == ['A', 'C'];
    assert Discover('B', ['C'], ['A'], cf1) == (['A', 'C'], cf2);
    assert Discover('B', g['B'], [], cf0) == (['A', 'C'], cf2);
    calc {
      Bfs(g, Some('A'), ['B'], cf0);
      Bfs(g, Some('A'), ['A', 'C'], cf2);
    }
    assert cameFrom == cf2;
    assert IsBacktrack(cameFrom, 'B', 'A', ['B', 'A']);
    BacktrackDetermined(cameFrom, 'B', 'A', path.value, ['B', 'A']);
  }

  /** A search whose start is its end records only the start and returns the one-node path. */
  lemma SearchLinkedListCToC(cameFrom: CameFrom<char>, path: Option<seq<char>>)
    requires SearchOutcome(LinkedList(), 'C', 'C', cameFrom, path)
    ensures cameFrom == map['C' := None]
    ensures path == Some(['C'])
  {
    assert IsBacktrack(cameFrom, 'C', 'C', ['C']);
    BacktrackDetermined(cameFrom, 'C', 'C', path.value, ['C']);
  }

  /** A and B form one component and C another: a search from A for C finds no path. */
  function TwoComponents(): Graph<char> {
    map['A' := ['B'], 'B' := ['A'], 'C' := []]
  }

  lemma SearchTwoComponents(cameFrom: CameFrom<char>, path: Option<seq<char>>)
    requires SearchOutcome(TwoComponents(), 'A', 'C', cameFrom, path)
    ensures cameFrom == map['A' := None, 'B' := Some('A')]
    ensures path == None
  {
    var g := TwoComponents();
    var cf0: CameFrom<char> := map['A' := None];
    var cf1 := cf0['B' := Some('A')];
    assert ['B'][1..] == [] && ['A'][1..] == [];
    assert Discover('A', g['A'], [], cf0) == (['B'], cf1);
    assert Discover('B', g['B'], [], cf1) == ([], cf1);
    calc {
      Bfs(g, Some('C'), ['A'], cf0);
      Bfs(g, Some('C'), ['B'], cf1);
      Bfs(g, Some('C'), [], cf1);
    }
  }

  /** The record from the path reconstruction scenario. */
  function BacktrackRecord(): CameFrom<char> {
    map['A' := None, 'B' := Some('A'), 'C' := Some('A'), 'D' := Some('C')]
  }

  /** Path reconstruction over the scenario record gives A,B for B, A,C,D for D and A for A. */
  lemma BacktrackScenario(toB: seq<char>, toD: seq<char>, toA: seq<char>)
    requires IsBacktrack(BacktrackRecord(), 'A', 'B', toB)
    requires IsBacktrack(BacktrackRecord(), 'A', 'D', toD)
    requires IsBacktrack(BacktrackRecord(), 'A', 'A', toA)
    ensures toB == ['A', 'B'] && toD == ['A', 'C', 'D'] && toA == ['A']
  {
    var cf := BacktrackRecord();
    assert IsBacktrack(cf, 'A', 'B', ['A', 'B']);
    assert IsBacktrack(cf, 'A', 'D', ['A', 'C', 'D']);
    assert IsBacktrack(cf, 'A', 'A', ['A']);
    BacktrackDetermined(cf, 'A', 'B', toB, ['A', 'B']);
    BacktrackDetermined(cf, 'A', 'D', toD, ['A', 'C', 'D']);
    BacktrackDetermined(cf, 'A', 'A', toA, ['A']);
  }

  /** Along A -> B -> C, the nodes reachable from B are B and C, and from C only C. */
  lemma ReachableOneWayList()
    ensures Closed(OneWayList())
    ensures Traversal(OneWayList(), 'A').Keys == {'A', 'B', 'C'}
    ensures Traversal(OneWayList(), 'B').Keys == {'B', 'C'}
    ensures Traversal(OneWayList(), 'C').Keys == {'C'}
  {
    OneWayListClosed();
    var g := OneWayList();
    assert ['B'][1..] == [] && ['C'][1..] == [];
    var a0: CameFrom<char> := map['A' := None];
    var a1 := a0['B' := Some('A')];
    var a2 := a1['C' := Some('B')];
    assert Discover('A', g['A'], [], a0) == (['B'], a1);
    assert Discover('B', g['B'], [], a1) == (['C'], a2);
    assert Discover('C', g['C'], [], a2) == ([], a2);
    calc {
      Bfs(g, None, ['A'], a0);
      Bfs(g, None, ['B'], a1);
      Bfs(g, None, ['C'], a2);
      Bfs(g, None, [], a2);
    }
    var b0: CameFrom<char> := map['B' := None];
    var b1 := b0['C' := Some('B')];
    assert Discover('B', g['B'], [], b0) == (['C'], b1);
    assert Discover('C', g['C'], [], b1) == ([], b1);
    calc {
      Bfs(g, None, ['B'], b0);
      Bfs(g, None, ['C'], b1);
      Bfs(g, None, [], b1);
    }
    var c0: CameFrom<char> := map['C' := None];
    assert Discover('C', g['C'], [], c0) == ([], c0);
    calc {
      Bfs(g, None, ['C'], c0);
      Bfs(g, None, [], c0);
    }
  }

  /** The nine-node directed graph of the reachability scenario. */
  function Digraph(): Graph<int> {
    map[1 := [2, 3, 4], 2 := [5, 6, 7], 3 := [4], 4 := [], 5 := [8], 6 := [], 7 := [9], 8 := [7], 9 := []]
  }

  lemma DigraphClosed()
    ensures Closed(Digraph())
  {
  }

  /** From 1 every node of the digraph is reachable. */
  lemma ReachableDigraphFrom1()
    ensures Traversal(Digraph(), 1).Keys == {1, 2, 3, 4, 5, 6, 7, 8, 9}
  {
    var g := Digraph();
    DigraphClosed();
    forall t | t in {1, 2, 3, 4, 5, 6, 7, 8, 9} ensures Reachable(g, 1, t) {
      if t == 1 { assert PathFromTo(g, [1], 1, 1); }
      else if t == 2 { assert PathFromTo(g, [1, 2], 1, 2); }
      else if t == 3 { assert PathFromTo(g, [1, 3], 1, 3); }
      else if t == 4 { assert PathFromTo(g, [1, 4], 1, 4); }
      else if t == 5 { assert PathFromTo(g, [1, 2, 5], 1, 5); }
      else if t == 6 { assert PathFromTo(g, [1, 2, 6], 1, 6); }
      else if t == 7 { assert PathFromTo(g, [1, 2, 7], 1, 7); }
      else if t == 8 { assert PathFromTo(g, [1, 2, 5, 8], 1, 8); }
      else { assert PathFromTo(g, [1, 2, 7, 9], 1, 9); }
    }
    TraversalKeysExactly(g, 1, {1, 2, 3, 4, 5, 6, 7, 8, 9});
  }

  /** From 2 the nodes 2, 5, 6, 7, 8 and 9 are reachable and no others. */
  lemma ReachableDigraphFrom2()
    ensures Traversal(Digraph(), 2).Keys == {2, 5, 6, 7, 8, 9}
  {
    var g := Digraph();
    DigraphClosed();
    forall t | t in {2, 5, 6, 7, 8, 9} ensures Reachable(g, 2, t) {
      if t == 2 { assert PathFromTo(g, [2], 2, 2); }
      else if t == 5 { assert PathFromTo(g, [2, 5], 2, 5); }
      else if t == 6 { assert PathFromTo(g, [2, 6], 2, 6); }
      else if t == 7 { assert PathFromTo(g, [2, 7], 2, 7); }
      else if t == 8 { assert PathFromTo(g, [2, 5, 8], 2, 8); }
      else { assert PathFromTo(g, [2, 7, 9], 2, 9); }
    }
    TraversalKeysExactly(g, 2, {2, 5, 6, 7, 8, 9});
  }

  /** From 5 the nodes 5, 7, 8 and 9 are reachable and no others. */
  lemma ReachableDigraphFrom5()
    ensures Traversal(Digraph(), 5).Keys == {5, 7, 8, 9}
  {
    var g := Digraph();
    DigraphClosed();
    forall t | t in {5, 7, 8, 9} ensures Reachable(g, 5, t) {
      if t == 5 { assert PathFromTo(g, [5], 5, 5); }
      else if t == 8 { assert PathFromTo(g, [5, 8], 5, 8); }
      else if t == 7 { assert PathFromTo(g, [5, 8, 7], 5, 7); }
      else { assert PathFromTo(g, [5, 8, 7, 9], 5, 9); }
    }
    TraversalKeysExactly(g, 5, {5, 7, 8, 9});
  }

  /** From 3 only 3 and 4 are reachable. */
  lemma ReachableDigraphFrom3()
    ensures Traversal(Digraph(), 3).Keys == {3, 4}
  {
    var g := Digraph();
    DigraphClosed();
    forall t | t in {3, 4} ensures Reachable(g, 3, t) {
      if t == 3 { assert PathFromTo(g, [3], 3, 3); }
      else { assert PathFromTo(g, [3, 4], 3, 4); }
    }
    TraversalKeysExactly(g, 3, {3, 4});
  }

  /** From 6, which has no out-edges, only 6 itself is reachable. */
  lemma ReachableDigraphFrom6()
    ensures Traversal(Digraph(), 6).Keys == {6}
  {
    var g := Digraph();
    DigraphClosed();
    assert PathFromTo(g, [6], 6, 6);
    TraversalKeysExactly(g, 6, {6});
  }
}
