/**
 * Value-level model of the directed graph `Grafo` (grafos.js): its two pieces
 * of state, the object invariant, the effect of each operation as a function
 * on states, the adjacency matrix as a reference definition, and the lemmas
 * that relate them.
 */
module GraphModel {

  /** The state of a graph: the insertion-ordered vertex list and the map
      from each vertex to the array of its successors. */
  datatype State<V> = State(vertices: seq<V>, adj: map<V, seq<V>>)

  /** The state right after construction. */
  function Empty<V>(): State<V>
  {
    State([], map[])
  }

  predicate NoDuplicates<V(==)>(s: seq<V>)
  {
    forall i, j :: 0 <= i < j < |s| ==> s[i] != s[j]
  }

  /** The object invariant: no vertex is listed twice, the listed vertices are
      exactly the keys of the successor map, and every successor is a vertex. */
  ghost predicate WellFormed<V>(g: State<V>)
  {
    && NoDuplicates(g.vertices)
    && (forall x :: x in g.adj ==> x in g.vertices)
    && (forall x :: x in g.vertices ==> x in g.adj)
    && (forall u, w :: u in g.adj && w in g.adj[u] ==> w in g.vertices)
  }

  /** The successor list of `u`, or the empty list for a vertex not yet seen. */
  function SuccessorsOf<V(==)>(g: State<V>, u: V): seq<V>
  {
    if u in g.adj then g.adj[u] else []
  }

  /** The column lookup `indexOf`: the first position of `x` in `s`, or -1
      when `x` does not occur, under the same equality as membership. */
  function IndexOf<V(==)>(s: seq<V>, x: V): (k: int)
    ensures -1 <= k < |s|
    ensures k == -1 <==> x !in s
    ensures 0 <= k ==> s[k] == x && x !in s[..k]
  {
    if |s| == 0 then -1
    else if s[0] == x then 0
    else
      var k := IndexOf(s[1..], x);
      if k == -1 then -1
      else
        assert s[..k + 1] == [s[0]] + s[1..][..k];
        k + 1
  }

  /** In a list without duplicates, the position of an element is the index
      it is stored at. */
  lemma IndexOfDistinct<V>(s: seq<V>, i: int)
    requires NoDuplicates(s)
    requires 0 <= i < |s|
    ensures IndexOf(s, s[i]) == i
  {
  }

  // ---------------------------------------------------------------------
  // agregarVertice

  /** The state after `agregarVertice(v)`: a vertex that is not yet listed is
      appended and given an empty successor list; otherwise nothing changes. */
  function AddVertexTo<V(==)>(g: State<V>, v: V): (r: State<V>)
    ensures v in r.vertices
    ensures |g.vertices| <= |r.vertices| <= |g.vertices| + 1
    ensures r.vertices[..|g.vertices|] == g.vertices
  {
    if v in g.vertices then g
    else State(g.vertices + [v], g.adj[v := []])
  }

  lemma AddVertexPreservesWellFormed<V>(g: State<V>, v: V)
    requires WellFormed(g)
    ensures WellFormed(AddVertexTo(g, v))
  {
  }

  /** An absent vertex goes at the end of the list with no successors, and
      every existing successor list is kept. */
  lemma AddVertexAbsent<V>(g: State<V>, v: V)
    requires WellFormed(g)
    requires v !in g.vertices
    ensures AddVertexTo(g, v).vertices == g.vertices + [v]
    ensures AddVertexTo(g, v).adj.Keys == g.adj.Keys + {v}
    ensures AddVertexTo(g, v).adj[v] == []
    ensures forall x :: x in g.adj ==> AddVertexTo(g, v).adj[x] == g.adj[x]
  {
  }

  /** Adding a vertex that is already listed changes nothing, including its
      own successor list; hence adding the same vertex twice equals adding it
      once. */
  lemma AddVertexPresentIsNoOp<V>(g: State<V>, v: V)
    requires v in g.vertices
    ensures AddVertexTo(g, v) == g
  {
  }

  lemma AddVertexIdempotent<V>(g: State<V>, v: V)
    ensures AddVertexTo(AddVertexTo(g, v), v) == AddVertexTo(g, v)
  {
  }

  // ---------------------------------------------------------------------
  // agregarArista

  /** The state after `agregarArista(u, w)`: both endpoints are added as
      vertices (u first), then `w` is appended to the successor list of `u`. */
  function AddEdgeTo<V(==)>(g: State<V>, u: V, w: V): (r: State<V>)
    requires WellFormed(g)
    ensures WellFormed(r)
    ensures u in r.vertices && w in r.vertices
    ensures forall x :: x in g.vertices ==> x in r.vertices
  {
    AddVertexPreservesWellFormed(g, u);
    var t0 := AddVertexTo(g, u);
    AddVertexPreservesWellFormed(t0, w);
    var t := AddVertexTo(t0, w);
    State(t.vertices, t.adj[u := t.adj[u] + [w]])
  }

  /** The successor list of `u` grows by exactly one element, `w`, at its end;
      every other successor list is the one `u` and `w` had before (empty for
      a newly created endpoint), and the vertex list grows by the endpoints
      that were missing, `u` before `w`. */
  lemma AddEdgeEffect<V>(g: State<V>, u: V, w: V)
    requires WellFormed(g)
    ensures AddEdgeTo(g, u, w).adj[u] == SuccessorsOf(g, u) + [w]
    ensures forall x :: x in AddEdgeTo(g, u, w).adj && x != u ==>
              AddEdgeTo(g, u, w).adj[x] == SuccessorsOf(g, x)
    ensures AddEdgeTo(g, u, w).vertices ==
              g.vertices
              + (if u in g.vertices then [] else [u])
              + (if w in g.vertices || w == u then [] else [w])
  {
    var t0 := AddVertexTo(g, u);
    var t := AddVertexTo(t0, w);
    assert t0.vertices == g.vertices + (if u in g.vertices then [] else [u]);
    assert w in t0.vertices <==> w in g.vertices || w == u;
    assert t.vertices == t0.vertices + (if w in g.vertices || w == u then [] else [w]);
    assert forall x :: x in t.adj ==> t.adj[x] == SuccessorsOf(g, x);
  }

  // ---------------------------------------------------------------------
  // obtenerMatrizAdyacencia

  /** Cell (i, j) of the adjacency matrix: 1 when vertex j is among the
      successors of vertex i, 0 otherwise. */
  function Cell<V(==)>(g: State<V>, i: int, j: int): int
    requires WellFormed(g)
    requires 0 <= i < |g.vertices| && 0 <= j < |g.vertices|
  {
    if g.vertices[j] in g.adj[g.vertices[i]] then 1 else 0
  }

  /** The adjacency matrix of a graph, rows and columns in insertion order. */
  function Matrix<V(==)>(g: State<V>): (m: seq<seq<int>>)
    requires WellFormed(g)
    ensures |m| == |g.vertices|
    ensures forall i :: 0 <= i < |m| ==> |m[i]| == |m|
    ensures forall i, j :: 0 <= i < |m| && 0 <= j < |m| ==>
              (m[i][j] == 1 <==> g.vertices[j] in g.adj[g.vertices[i]]) &&
              (m[i][j] == 0 <==> g.vertices[j] !in g.adj[g.vertices[i]])
  {
    var n := |g.vertices|;
    seq(n, i requires 0 <= i < n => seq(n, j requires 0 <= j < n => Cell(g, i, j)))
  }

  /** After `agregarArista(u, w)` the cell of (u, w) is 1; a self-loop
      (u == w) lands on the diagonal. */
  lemma AddEdgeSetsCell<V>(g: State<V>, u: V, w: V)
    requires WellFormed(g)
    ensures 0 <= IndexOf(AddEdgeTo(g, u, w).vertices, u) < |Matrix(AddEdgeTo(g, u, w))|
    ensures 0 <= IndexOf(AddEdgeTo(g, u, w).vertices, w) < |Matrix(AddEdgeTo(g, u, w))|
    ensures Matrix(AddEdgeTo(g, u, w))
              [IndexOf(AddEdgeTo(g, u, w).vertices, u)]
              [IndexOf(AddEdgeTo(g, u, w).vertices, w)] == 1
  {
  }

  /** Seen through membership, `agregarArista(u, w)` adds the pair (u, w) to
      the successor relation and nothing else. */
  lemma AddEdgeSuccessors<V>(g: State<V>, u: V, w: V, x: V)
    requires WellFormed(g)
    ensures forall y :: y in SuccessorsOf(AddEdgeTo(g, u, w), x) <==>
              y in SuccessorsOf(g, x) || (x == u && y == w)
  {
  }

  /** `agregarArista(u, w)` keeps the old vertex list as a prefix and appends
      only vertices that were not listed. */
  lemma AddEdgeVertices<V>(g: State<V>, u: V, w: V)
    requires WellFormed(g)
    ensures |g.vertices| <= |AddEdgeTo(g, u, w).vertices|
    ensures AddEdgeTo(g, u, w).vertices[..|g.vertices|] == g.vertices
    ensures forall k :: |g.vertices| <= k < |AddEdgeTo(g, u, w).vertices| ==>
              AddEdgeTo(g, u, w).vertices[k] !in g.vertices
  {
    var n := |g.vertices|;
    var t0 := AddVertexTo(g, u);
    var t := AddVertexTo(t0, w);
    assert forall k :: n <= k < |t0.vertices| ==> t0.vertices[k] == u && u !in g.vertices;
    assert forall k :: |t0.vertices| <= k < |t.vertices| ==> t.vertices[k] == w && w !in t0.vertices;
    assert t.vertices[..|t0.vertices|] == t0.vertices;
    assert forall k :: 0 <= k < |t0.vertices| ==> t.vertices[k] == t0.vertices[k];
  }

  /** Cell (i, j) after `agregarArista(u, w)`, for a cell other than that of
      (u, w). */
  lemma CellAfterEdge<V>(g: State<V>, u: V, w: V, i: int, j: int)
    requires WellFormed(g)
    requires 0 <= i < |AddEdgeTo(g, u, w).vertices| && 0 <= j < |AddEdgeTo(g, u, w).vertices|
    requires AddEdgeTo(g, u, w).vertices[i] != u || AddEdgeTo(g, u, w).vertices[j] != w
    ensures Cell(AddEdgeTo(g, u, w), i, j) ==
              if i < |g.vertices| && j < |g.vertices| then Cell(g, i, j) else 0
  {
    var r := AddEdgeTo(g, u, w);
    var n := |g.vertices|;
    var x, y := r.vertices[i], r.vertices[j];
    AddEdgeVertices(g, u, w);
    AddEdgeSuccessors(g, u, w, x);
    assert y in r.adj[x] <==> y in SuccessorsOf(g, x);
    if i < n && j < n {
      assert x == g.vertices[i] && y == g.vertices[j];
    } else if i < n {
      assert y !in g.vertices;
    } else {
      assert x !in g.adj;
    }
  }

  /** `agregarArista(u, w)` changes the matrix in the cell of (u, w) only:
      every other cell of the old rows and columns keeps its value, and the
      rows and columns of a newly created endpoint are 0 elsewhere. */
  lemma AddEdgeMatrixFrame<V>(g: State<V>, u: V, w: V, i: int, j: int)
    requires WellFormed(g)
    requires 0 <= i < |AddEdgeTo(g, u, w).vertices| && 0 <= j < |AddEdgeTo(g, u, w).vertices|
    requires i != IndexOf(AddEdgeTo(g, u, w).vertices, u) || j != IndexOf(AddEdgeTo(g, u, w).vertices, w)
    ensures Matrix(AddEdgeTo(g, u, w))[i][j] ==
              if i < |g.vertices| && j < |g.vertices| then Matrix(g)[i][j] else 0
  {
    var r := AddEdgeTo(g, u, w);
    IndexOfDistinct(r.vertices, i);
    IndexOfDistinct(r.vertices, j);
    CellAfterEdge(g, u, w, i, j);
  }

  /** Two states with the same vertex list and the same successor relation
      have the same matrix. */
  lemma SameSuccessorsSameMatrix<V>(g: State<V>, h: State<V>)
    requires WellFormed(g) && WellFormed(h)
    requires h.vertices == g.vertices
    requires forall x, y :: x in g.vertices ==> (y in h.adj[x] <==> y in g.adj[x])
    ensures Matrix(h) == Matrix(g)
  {
    var n := |g.vertices|;
    forall i | 0 <= i < n
      ensures Matrix(h)[i] == Matrix(g)[i]
    {
      var x := g.vertices[i];
      assert x in g.vertices;
      SameSuccessorsSameRow(g, h, i);
    }
  }

  lemma SameSuccessorsSameRow<V>(g: State<V>, h: State<V>, i: int)
    requires WellFormed(g) && WellFormed(h)
    requires h.vertices == g.vertices
    requires 0 <= i < |g.vertices|
    requires forall y :: y in h.adj[g.vertices[i]] <==> y in g.adj[g.vertices[i]]
    ensures Matrix(h)[i] == Matrix(g)[i]
  {
    var n := |g.vertices|;
    var x := g.vertices[i];
    forall j | 0 <= j < n
      ensures Matrix(h)[i][j] == Matrix(g)[i][j]
    {
      var y := g.vertices[j];
      assert y in h.adj[x] <==> y in g.adj[x];
      assert Matrix(h)[i][j] == Cell(h, i, j);
      assert Matrix(g)[i][j] == Cell(g, i, j);
    }
  }

  /** Appending an edge that is already stored leaves every vertex and
      every cell of the matrix as they were. */
  lemma ExistingEdgeKeepsMatrix<V>(g: State<V>, u: V, w: V)
    requires WellFormed(g)
    requires u in g.adj && w in g.adj[u]
    ensures AddEdgeTo(g, u, w).vertices == g.vertices
    ensures Matrix(AddEdgeTo(g, u, w)) == Matrix(g)
  {
    var r := AddEdgeTo(g, u, w);
    AddEdgeEffect(g, u, w);
    forall x, y | x in g.vertices
      ensures y in r.adj[x] <==> y in g.adj[x]
    {
      AddEdgeSuccessors(g, u, w, x);
    }
    SameSuccessorsSameMatrix(g, r);
  }

  /** An edge added a second time lengthens the successor list of `u` again
      but leaves the adjacency matrix as it was. */
  lemma DuplicateEdgeKeepsMatrix<V>(g: State<V>, u: V, w: V)
    requires WellFormed(g)
    ensures |AddEdgeTo(AddEdgeTo(g, u, w), u, w).adj[u]| == |AddEdgeTo(g, u, w).adj[u]| + 1
    ensures Matrix(AddEdgeTo(AddEdgeTo(g, u, w), u, w)) == Matrix(AddEdgeTo(g, u, w))
  {
    var g1 := AddEdgeTo(g, u, w);
    AddEdgeEffect(g, u, w);
    AddEdgeEffect(g1, u, w);
    ExistingEdgeKeepsMatrix(g1, u, w);
  }

  // ---------------------------------------------------------------------
  // Any sequence of operations

  /** One call of `agregarVertice` or `agregarArista`. */
  datatype Op<V> = AddVertexOp(v: V) | AddEdgeOp(from: V, to: V)

  /** The vertices an operation names. */
  function Endpoints<V>(op: Op<V>): seq<V>
  {
    match op
    case AddVertexOp(v) => [v]
    case AddEdgeOp(u, w) => [u, w]
  }

  function Apply<V(==)>(g: State<V>, op: Op<V>): (r: State<V>)
    requires WellFormed(g)
    ensures WellFormed(r)
    ensures forall x :: x in g.vertices ==> x in r.vertices
    ensures forall x :: x in Endpoints(op) ==> x in r.vertices
  {
    match op
    case AddVertexOp(v) =>
      AddVertexPreservesWellFormed(g, v);
      AddVertexTo(g, v)
    case AddEdgeOp(u, w) => AddEdgeTo(g, u, w)
  }

  /** The state a freshly constructed graph reaches after the calls `ops`, in
      order.  Whatever the calls, the invariant holds and every vertex any
      call named is listed, so no successor list names an unknown vertex. */
  function Replay<V(==)>(ops: seq<Op<V>>): (g: State<V>)
    ensures WellFormed(g)
    ensures forall op, x :: op in ops && x in Endpoints(op) ==> x in g.vertices
  {
    if ops == [] then
      assert WellFormed(Empty<V>());
      Empty()
    else
      var prefix := ops[..|ops| - 1];
      assert ops == prefix + [ops[|ops| - 1]];
      Apply(Replay(prefix), ops[|ops| - 1])
  }
}
