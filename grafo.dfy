/**
 * The class `Grafo` of grafos.js as a Dafny class: the vertex list and the
 * successor lists are fields that the methods update in place, and the
 * adjacency matrix is filled into a new two-dimensional array by the same
 * nested loops as `obtenerMatrizAdyacencia`.
 */
module DirectedGraphs {
  import opened GraphModel

  class DirectedGraph<V(==)> {
    /** The vertices in insertion order (`vertices`). */
    var vertices: seq<V>
    /** The successor array of each vertex (`listaAdyacencia`). */
    var adj: map<V, seq<V>>

    /** The current state as a value. */
    function Current(): State<V>
      reads this
    {
      State(vertices, adj)
    }

    ghost predicate Valid()
      reads this
    {
      WellFormed(Current())
    }

    constructor ()
      ensures Valid()
      ensures vertices == [] && adj == map[]
      ensures Current() == Empty()
    {
      vertices := [];
      adj := map[];
    }

    /** `agregarVertice(v)`. */
    method AddVertex(v: V)
      requires Valid()
      modifies this
      ensures Valid()
      ensures Current() == AddVertexTo(old(Current()), v)
    {
      if v !in vertices {
        vertices := vertices + [v];
        adj := adj[v := []];
      }
    }

    /** `agregarArista(u, w)`: both endpoints are added first, so the lookup
        of `u`'s successor list always succeeds. */
    method AddEdge(u: V, w: V)
      requires Valid()
      modifies this
      ensures Valid()
      ensures Current() == AddEdgeTo(old(Current()), u, w)
    {
      AddVertex(u);
      AddVertex(w);
      adj := adj[u := adj[u] + [w]];
    }

    /** `obtenerListaAdyacencia()`: the successor map itself.  Its keys are
        exactly the vertices and every successor it lists is a vertex. */
    function AdjacencyList(): (r: map<V, seq<V>>)
      reads this
      requires Valid()
      ensures r == adj
      ensures forall x :: x in r ==> x in vertices
      ensures forall x :: x in vertices ==> x in r
      ensures forall x, y :: x in r && y in r[x] ==> y in vertices
    {
      adj
    }

    /** `obtenerMatrizAdyacencia()`: an n-by-n matrix, n the number of
        vertices, whose cell (i, j) is 1 exactly when `vertices[j]` occurs in
        the successor list of `vertices[i]` and 0 otherwise.  The array is
        new on every call.  With one equality for vertices, the object
        invariant makes the column lookup find every successor. */
    method AdjacencyMatrix() returns (m: array2<int>)
      requires Valid()
      ensures fresh(m)
      ensures m.Length0 == |vertices| && m.Length1 == |vertices|
      ensures forall i, j :: 0 <= i < m.Length0 && 0 <= j < m.Length1 ==>
                m[i, j] == Matrix(Current())[i][j]
    {
      var n := |vertices|;
      m := new int[n, n]((_, _) => 0);
      var i := 0;
      while i < n
        invariant 0 <= i <= n
        invariant m.Length0 == n && m.Length1 == n
        invariant forall r, c :: 0 <= r < n && 0 <= c < n ==>
                    m[r, c] == if r < i then Cell(Current(), r, c) else 0
      {
        var u := vertices[i];
        var j := 0;
        while j < |adj[u]|
          invariant 0 <= j <= |adj[u]|
          invariant forall r, c :: 0 <= r < n && 0 <= c < n ==>
                      m[r, c] == if r < i then Cell(Current(), r, c)
                                 else if r == i && vertices[c] in adj[u][..j] then 1
                                 else 0
        {
          var w := adj[u][j];
          var col := IndexOf(vertices, w);
          m[i, col] := 1;
          forall c | 0 <= c < n
            ensures vertices[c] in adj[u][..j + 1] <==> vertices[c] in adj[u][..j] || c == col
          {
            assert adj[u][..j + 1] == adj[u][..j] + [w];
            IndexOfDistinct(vertices, c);
          }
          j := j + 1;
        }
        assert adj[u][..j] == adj[u];
        i := i + 1;
      }
    }
  }

}
