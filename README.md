# Directed graph `Grafo` in Dafny

This project models the class `Grafo` of `grafos.js`, a small container for a
directed graph. The class keeps two pieces of state:

- `vertices`: the vertices in insertion order, with no vertex listed twice;
- `listaAdyacencia`: a dictionary from each vertex to the array of its
  successors.

It has four operations:

- `agregarVertice(v)` adds `v` when it is not yet listed. It appends `v` to
  `vertices` and gives it an empty successor array.
- `agregarArista(u, v)` first adds both endpoints as vertices, then appends
  `v` to the successor array of `u`.
- `obtenerListaAdyacencia()` returns the dictionary.
- `obtenerMatrizAdyacencia()` builds an n-by-n matrix of zeros and fills it
  with nested loops. For every successor it looks up the column with
  `indexOf` and writes a 1 at (row of `u`, column of `v`).

The model has three modules.

- `GraphModel` (`graph_model.dfy`) holds the value view. `State` is the pair
  (vertex list, successor map), and `WellFormed` is the object invariant: no
  duplicates, the vertex list and the map keys hold the same vertices, and
  every successor is a vertex. `AddVertexTo` and `AddEdgeTo` give the effect
  of each operation on a state. `Matrix` is the reference definition of the
  adjacency matrix. `IndexOf` is the column lookup `indexOf`, under the same
  equality as membership. `Replay` runs any sequence of calls from the empty
  graph. Next to these are the lemmas about them.
- `DirectedGraphs` (`grafo.dfy`) holds the class `DirectedGraph`. Its fields
  `vertices: seq<V>` and `adj: map<V, seq<V>>` are updated in place. Every
  method keeps `Valid()` (the invariant) and ties the new state to the
  functions above. `AdjacencyMatrix` fills a new `array2<int>` with the same
  two nested loops as `obtenerMatrizAdyacencia`. With one equality for
  vertices, the invariant shows that `indexOf` finds every successor.
- `Scenarios` (`scenarios.dfy`) works through the five-edge example
  A->B, A->C, B->C, C->A, C->D and a self-loop. Each is done once on states
  and once through the class.

The vertex type is a type parameter `V` with equality. The scenarios use
`char`.

The model follows grafos.js as written:

- Successor lists are arrays, not sets. Adding the same edge twice stores the
  successor twice. The matrix does not change (`DuplicateEdgeKeepsMatrix`).
- Matrix rows and columns follow insertion order, not a natural sort.
- Vertex labels are not validated.

## Model

| member | source | states |
|---|---|---|
| `GraphModel.IndexOf` | grafos.js:38 | `indexOf` returns -1 exactly when the element is absent; otherwise it returns the first position holding the element |
| `GraphModel.IndexOfDistinct` | grafos.js:38 | in a vertex list without duplicates, `indexOf` of the element at position i is i, so each successor gets the column of that vertex |
| `GraphModel.AddVertexTo` | grafos.js:9-14 | after `agregarVertice(v)`, `v` is listed; the vertex list either stays the same or grows by one at its end, and the old list is kept as a prefix |
| `GraphModel.AddVertexPreservesWellFormed` | grafos.js:10-12 | `agregarVertice` keeps the invariant: no duplicates, vertices equal the map keys, successors are vertices |
| `GraphModel.AddVertexAbsent` | grafos.js:10-13 | an absent vertex is appended at the end with an empty successor list; the key set grows by that vertex only; every other successor list is unchanged |
| `GraphModel.AddVertexPresentIsNoOp` | grafos.js:10 | `agregarVertice` on a vertex already listed changes nothing, including that vertex's own successor list |
| `GraphModel.AddVertexIdempotent` | grafos.js:10-13 | calling `agregarVertice(v)` twice equals calling it once |
| `GraphModel.AddEdgeTo` | grafos.js:17-21 | `agregarArista(u, w)` keeps the invariant, lists both `u` and `w`, and keeps every vertex that was already listed |
| `GraphModel.AddEdgeEffect` | grafos.js:17-20 | the successor list of `u` gains exactly one element, `w`, at its end; every other list is unchanged (empty for a new endpoint); the vertex list grows by the missing endpoints, `u` before `w` |
| `GraphModel.AddEdgeVertices` | grafos.js:17-18 | `agregarArista(u, w)` keeps the old vertex list as a prefix, and every vertex it appends was not listed before |
| `GraphModel.AddEdgeSuccessors` | grafos.js:18-20 | as a relation, adding an edge adds the pair (u, w) to the successors and nothing else |
| `GraphModel.Matrix` | grafos.js:29-44 | the matrix is n-by-n, n the number of vertices; cell (i, j) is 1 exactly when `vertices[j]` is in the successor list of `vertices[i]`, and 0 exactly when it is not |
| `GraphModel.AddEdgeSetsCell` | grafos.js:17-20 | after `agregarArista(u, w)` the matrix cell (position of u, position of w) is 1; for a self-loop this cell is on the diagonal |
| `GraphModel.AddEdgeMatrixFrame` | grafos.js:17-20 | `agregarArista(u, w)` changes no matrix cell except that of (u, w); the old cells keep their values, and the new rows and columns are 0 |
| `GraphModel.ExistingEdgeKeepsMatrix` | grafos.js:20 | appending an edge that is already stored leaves the vertex list and the matrix unchanged |
| `GraphModel.DuplicateEdgeKeepsMatrix` | grafos.js:17-20 | adding the same edge twice makes `u`'s list one element longer again but leaves the matrix as it was |
| `GraphModel.Apply` | grafos.js:9-21 | one call of either operation keeps the invariant, keeps every vertex already listed, and lists every vertex the call names |
| `GraphModel.Replay` | grafos.js:3-21 | after any sequence of calls on a new graph, the invariant holds and every vertex named by any call is listed: no successor names an unknown vertex |
| `DirectedGraphs.DirectedGraph.constructor` | grafos.js:3-6 | a new graph has no vertices and an empty successor map, and it satisfies the invariant |
| `DirectedGraphs.DirectedGraph.AddVertex` | grafos.js:9-14 | the method keeps the invariant, and its new state is `AddVertexTo` of the old state |
| `DirectedGraphs.DirectedGraph.AddEdge` | grafos.js:17-21 | the method keeps the invariant, and its new state is `AddEdgeTo` of the old state; the lookup of `u`'s list cannot fail |
| `DirectedGraphs.DirectedGraph.AdjacencyList` | grafos.js:24-26 | returns the successor map; its keys are exactly the vertices and every successor in it is a vertex |
| `DirectedGraphs.DirectedGraph.AdjacencyMatrix` | grafos.js:29-44 | the nested loops return a new n-by-n array equal cell by cell to `Matrix` of the current state; the graph is unchanged and `indexOf` never returns -1 |
| `Scenarios.ExampleEdges` | grafos.js:17-21 | the edges A->B, A->C, B->C, C->A, C->D on a new graph give vertices [A, B, C, D] and lists {A: [B, C], B: [C], C: [A, D], D: []} |
| `Scenarios.ExampleMatrix` | grafos.js:29-44 | that graph satisfies the invariant, and its matrix has ones exactly at (A,B), (A,C), (B,C), (C,A) and (C,D) |
| `Scenarios.FiveEdgeExample` | grafos.js:17-44 | the same example through the class returns those lists and that matrix; a second matrix call on the unchanged graph gives a different array with the same cells |
| `Scenarios.SelfLoopState` | grafos.js:17-44 | adding D->D to a new graph lists D once with the successor list [D], and its matrix is [[1]] |
| `Scenarios.SelfLoopExample` | grafos.js:17-44 | adding D->D to a new graph gives a 1-by-1 matrix whose single cell is 1 |

## Left out

- JavaScript key coercion in `listaAdyacencia[v]`: `1` and `"1"` are different to `includes` but share one dictionary key. The model uses one vertex type, in which list equality and key equality are the same.
- The dictionary is a plain object, so the vertex `"__proto__"` does not become a key of it: `listaAdyacencia["__proto__"] = []` replaces the dictionary's prototype, and `Object.keys` of the returned dictionary then omits that vertex. The model treats `"__proto__"` as an ordinary key, so `WellFormed` and `AdjacencyList`'s ensures (keys are exactly the vertices) do not hold for it in the source. The matrix is the same, because the lookup reads the prototype array.
- Aliasing: `obtenerListaAdyacencia` returns the internal dictionary itself. The model returns the current value of the map. It does not model a caller changing the graph through that reference.
- Two equalities: `agregarVertice` tests membership with `includes` (SameValueZero equality), and `obtenerMatrizAdyacencia` finds columns with `indexOf` (strict equality). The model uses one reflexive equality for both. JavaScript breaks this for `NaN`: `agregarArista(NaN, NaN)` stores `[NaN]`, but `indexOf(NaN)` is -1, so the source writes to a stray `"-1"` property and returns `[[0]]` where the model gives `[[1]]`.
- The matrix is an `array2<int>`. The source builds an array of row arrays. Rows never share storage, so the values are the same.
- JavaScript numbers and array lengths are unbounded integers here; no graph is large enough for the difference to matter.
