/**
 * Worked scenarios for the graph: the five-edge example A->B, A->C, B->C,
 * C->A, C->D and a self-loop, first on states and then through the class.
 */
module Scenarios {
  import opened GraphModel
  import opened DirectedGraphs

  /** `agregarArista(u, w)` with two new, distinct endpoints. */
  lemma AddEdgeBothNew<V>(g: State<V>, u: V, w: V)
    requires WellFormed(g)
    requires u !in g.vertices && w !in g.vertices && u != w
    ensures AddEdgeTo(g, u, w) == State(g.vertices + [u, w], g.adj[u := [w]][w := []])
  {
    var t0 := AddVertexTo(g, u);
    assert t0 == State(g.vertices + [u], g.adj[u := []]);
    var t := AddVertexTo(t0, w);
    assert t == State(g.vertices + [u] + [w], g.adj[u := []][w := []]);
    assert g.vertices + [u] + [w] == g.vertices + [u, w];
    assert t.adj[u] + [w] == [w];
    assert t.adj[u := [w]] == g.adj[u := [w]][w := []];
  }

  /** `agregarArista(u, w)` from a listed vertex to a new one. */
  lemma AddEdgeToNewTarget<V>(g: State<V>, u: V, w: V)
    requires WellFormed(g)
    requires u in g.vertices && w !in g.vertices
    ensures AddEdgeTo(g, u, w) == State(g.vertices + [w], g.adj[w := []][u := g.adj[u] + [w]])
  {
  }

  /** `agregarArista(u, w)` between two listed vertices. */
  lemma AddEdgeBothListed<V>(g: State<V>, u: V, w: V)
    requires WellFormed(g)
    requires u in g.vertices && w in g.vertices
    ensures AddEdgeTo(g, u, w) == State(g.vertices, g.adj[u := g.adj[u] + [w]])
  {
  }

  /** The states after each of the edges A->B, A->C, B->C, C->A, C->D. */
  function AfterAB(): State<char> { State(['A', 'B'], map['A' := ['B'], 'B' := []]) }
  function AfterAC(): State<char> { State(['A', 'B', 'C'], map['A' := ['B', 'C'], 'B' := [], 'C' := []]) }
  function AfterBC(): State<char> { State(['A', 'B', 'C'], map['A' := ['B', 'C'], 'B' := ['C'], 'C' := []]) }
  function AfterCA(): State<char> { State(['A', 'B', 'C'], map['A' := ['B', 'C'], 'B' := ['C'], 'C' := ['A']]) }
  function ExampleState(): State<char>
  {
    State(['A', 'B', 'C', 'D'], map['A' := ['B', 'C'], 'B' := ['C'], 'C' := ['A', 'D'], 'D' := []])
  }

  /** Each of these states satisfies the object invariant. */
  lemma AfterABWellFormed() ensures WellFormed(AfterAB()) {}
  lemma AfterACWellFormed() ensures WellFormed(AfterAC()) {}
  lemma AfterBCWellFormed() ensures WellFormed(AfterBC()) {}
  lemma AfterCAWellFormed() ensures WellFormed(AfterCA()) {}
  lemma ExampleStateWellFormed() ensures WellFormed(ExampleState()) {}

  lemma StepAB()
    ensures AddEdgeTo(Empty<char>(), 'A', 'B') == AfterAB()
  {
    AddEdgeBothNew(Empty<char>(), 'A', 'B');
  }

  lemma AfterACUpdate()
    ensures State(AfterAB().vertices + ['C'], AfterAB().adj['C' := []]['A' := AfterAB().adj['A'] + ['C']]) == AfterAC()
  {
    assert AfterAB().adj['A'] + ['C'] == ['B', 'C'];
  }

  lemma StepAC()
    ensures WellFormed(AfterAB())
    ensures AddEdgeTo(AfterAB(), 'A', 'C') == AfterAC()
  {
    assert WellFormed(AfterAB()) by { AfterABWellFormed(); }
    AddEdgeToNewTarget(AfterAB(), 'A', 'C');
    AfterACUpdate();
  }

  lemma AfterBCUpdate()
    ensures State(AfterAC().vertices, AfterAC().adj['B' := AfterAC().adj['B'] + ['C']]) == AfterBC()
  {
    assert AfterAC().adj['B'] + ['C'] == ['C'];
  }

  lemma StepBC()
    ensures WellFormed(AfterAC())
    ensures AddEdgeTo(AfterAC(), 'B', 'C') == AfterBC()
  {
    assert WellFormed(AfterAC()) by { AfterACWellFormed(); }
    AddEdgeBothListed(AfterAC(), 'B', 'C');
    AfterBCUpdate();
  }

  lemma AfterCAUpdate()
    ensures State(AfterBC().vertices, AfterBC().adj['C' := AfterBC().adj['C'] + ['A']]) == AfterCA()
  {
    assert AfterBC().adj['C'] + ['A'] == ['A'];
  }

  lemma StepCA()
    ensures WellFormed(AfterBC())
    ensures AddEdgeTo(AfterBC(), 'C', 'A') == AfterCA()
  {
    assert WellFormed(AfterBC()) by { AfterBCWellFormed(); }
    AddEdgeBothListed(AfterBC(), 'C', 'A');
    AfterCAUpdate();
  }

  lemma ExampleStateUpdate()
    ensures State(AfterCA().vertices + ['D'], AfterCA().adj['D' := []]['C' := AfterCA().adj['C'] + ['D']]) == ExampleState()
  {
    assert AfterCA().adj['C'] + ['D'] == ['A', 'D'];
  }

  lemma StepCD()
    ensures WellFormed(AfterCA())
    ensures AddEdgeTo(AfterCA(), 'C', 'D') == ExampleState()
  {
    assert WellFormed(AfterCA()) by { AfterCAWellFormed(); }
    AddEdgeToNewTarget(AfterCA(), 'C', 'D');
    ExampleStateUpdate();
  }

  /** The edges A->B, A->C, B->C, C->A, C->D, added to an empty graph in that
      order, list the vertices A, B, C, D and give the successor lists
      {A: [B, C], B: [C], C: [A, D], D: []}. */
  lemma ExampleEdges()
    ensures WellFormed(ExampleState())
    ensures AddEdgeTo(AddEdgeTo(AddEdgeTo(AddEdgeTo(AddEdgeTo(
              Empty<char>(), 'A', 'B'), 'A', 'C'), 'B', 'C'), 'C', 'A'), 'C', 'D')
            == ExampleState()
  {
    StepAB();
    StepAC();
    StepBC();
    StepCA();
    StepCD();
  }

  /** The rows of the example matrix, one vertex at a time. */
  lemma ExampleRowA()
    ensures WellFormed(ExampleState())
    ensures Matrix(ExampleState())[0] == [0, 1, 1, 0]
  {
    assert WellFormed(ExampleState()) by { ExampleStateWellFormed(); }
    assert ExampleState().adj['A'] == ['B', 'C'];
  }

  lemma ExampleRowB()
    ensures WellFormed(ExampleState())
    ensures Matrix(ExampleState())[1] == [0, 0, 1, 0]
  {
    assert WellFormed(ExampleState()) by { ExampleStateWellFormed(); }
    assert ExampleState().adj['B'] == ['C'];
  }

  lemma ExampleRowC()
    ensures WellFormed(ExampleState())
    ensures Matrix(ExampleState())[2] == [1, 0, 0, 1]
  {
    assert WellFormed(ExampleState()) by { ExampleStateWellFormed(); }
    assert ExampleState().adj['C'] == ['A', 'D'];
  }

  lemma ExampleRowD()
    ensures WellFormed(ExampleState())
    ensures Matrix(ExampleState())[3] == [0, 0, 0, 0]
  {
    assert WellFormed(ExampleState()) by { ExampleStateWellFormed(); }
    assert ExampleState().adj['D'] == [];
  }

  /** The matrix of the example has exactly five ones: (A,B), (A,C), (B,C),
      (C,A) and (C,D). */
  lemma ExampleMatrix()
    ensures WellFormed(ExampleState())
    ensures Matrix(ExampleState()) == [[0, 1, 1, 0], [0, 0, 1, 0], [1, 0, 0, 1], [0, 0, 0, 0]]
  {
    ExampleRowA();
    ExampleRowB();
    ExampleRowC();
    ExampleRowD();
  }

  /** The same example through the class: after the five calls of
      `AddEdge`, `AdjacencyList` gives the successor lists above and
      `AdjacencyMatrix` the matrix above; a second call of `AdjacencyMatrix`
      on the unchanged graph gives another array with the same cells. */
  method FiveEdgeExample() returns (lists: map<char, seq<char>>, m: array2<int>, again: array2<int>)
    ensures lists == map['A' := ['B', 'C'], 'B' := ['C'], 'C' := ['A', 'D'], 'D' := []]
    ensures m.Length0 == 4 && m.Length1 == 4
    ensures forall i, j :: 0 <= i < 4 && 0 <= j < 4 ==>
              m[i, j] == [[0, 1, 1, 0], [0, 0, 1, 0], [1, 0, 0, 1], [0, 0, 0, 0]][i][j]
    ensures again.Length0 == 4 && again.Length1 == 4
    ensures again != m
    ensures forall i, j :: 0 <= i < 4 && 0 <= j < 4 ==> again[i, j] == m[i, j]
  {
    var g := new DirectedGraph<char>();
    g.AddEdge('A', 'B');
    g.AddEdge('A', 'C');
    g.AddEdge('B', 'C');
    g.AddEdge('C', 'A');
    g.AddEdge('C', 'D');
    ExampleEdges();
    ExampleMatrix();
    assert g.Current() == ExampleState();
    lists := g.AdjacencyList();
    m := g.AdjacencyMatrix();
    again := g.AdjacencyMatrix();
  }

  /** A self-loop D->D on an empty graph lists D once, with itself as its
      only successor, and puts a 1 on the diagonal. */
  lemma SelfLoopState()
    ensures AddEdgeTo(Empty<char>(), 'D', 'D') == State(['D'], map['D' := ['D']])
    ensures Matrix(AddEdgeTo(Empty<char>(), 'D', 'D')) == [[1]]
  {
    var e := Empty<char>();
    assert AddVertexTo(e, 'D') == State(['D'], map['D' := []]);
    assert [] + ['D'] == ['D'];
    var g := AddEdgeTo(e, 'D', 'D');
    assert g == State(['D'], map['D' := ['D']]);
    AddEdgeSetsCell(e, 'D', 'D');
    assert IndexOf(g.vertices, 'D') == 0;
    assert Matrix(g)[0] == [1];
  }

  /** The self-loop through the class. */
  method SelfLoopExample() returns (m: array2<int>)
    ensures m.Length0 == 1 && m.Length1 == 1
    ensures m[0, 0] == 1
  {
    var g := new DirectedGraph<char>();
    g.AddEdge('D', 'D');
    SelfLoopState();
    m := g.AdjacencyMatrix();
  }
}
