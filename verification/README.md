# Discrete-structures graph playground and logic-gate puzzle, in Dafny

This project models the computational core of a small browser application
with two parts.

**The graph playground** (`discretestructures/graph.js` and the
representation builders in `discretestructures/script.js`):
- A `Graph` holds a list of vertices and flags saying whether it is directed and weighted.
- Each vertex has a list of adjacency records (`{ vertex, weight }`).
- On an undirected graph, adding an edge appends a record to both ends.
- The graph offers:
  - hit-testing a click position against the vertices;
  - breadth-first and depth-first traversal;
  - Dijkstra's shortest distances;
  - Hierholzer's Eulerian-path construction;
  - a backtracking Hamiltonian-cycle search.
- The page renders the graph as an adjacency matrix, an adjacency list keyed by label, or an incidence matrix.

**The logic-gate puzzle** (`main.js`):
- Each level has named inputs, a desired output and the gate types on offer.
- The player drops gates on a workspace.
- "Run" works like this:
  - the level's inputs go to the first gate;
  - each gate's output becomes the only input of the next gate;
  - the last gate's output is compared with the desired output;
  - on a match, the game advances to the next level.

How the model is built:
- Vertices are identified by their index in the vertex list. An adjacency record is `Edge(target, weight)`, where `target` is such an index.
- The graph is a class whose `vertices` field is reassigned by `AddVertex` and `AddEdge`.
- The algorithms are methods with loops and invariants. Each is proved against a specification module:
  - `Reachability`: hop-bounded reachability, and reachability that avoids a set;
  - `Paths`: weighted walks and tentative distances;
  - `EulerSpec`: odd vertices, the working copy and the loop state of Hierholzer's algorithm;
  - `HamiltonSpec`: Hamiltonian cycles and the prefixes no cycle extends.
- A traversal's visit callback becomes the returned visit order.
- In the gate puzzle, gates are objects whose `inputs` and `output` fields change. The global game state is a `Game` object.

## Model

| member | source | states |
|---|---|---|
| Graphs.Graph.constructor | discretestructures/graph.js:27-31 | A new graph has no vertices and keeps the two flags it was given; it satisfies the graph invariant (records target existing vertices, and undirected records come in pairs). |
| Graphs.Graph.AddVertex | discretestructures/graph.js:33-35 | The vertex is appended at the end of the vertex list, and the invariant is kept. |
| Graphs.Graph.AddEdge | discretestructures/graph.js:37-42 | `v1` gains the record `(v2, weight)` at the end of its list. Undirected, `v2` also gains `(v1, weight)` (a self-loop gets both records). No other vertex changes. Records stay paired on undirected graphs. |
| GraphModel.AddPairKeepsPaired | discretestructures/graph.js:38-41 | Appending a record and its reverse keeps every vertex pair's record counts equal in both directions. |
| GraphModel.PairedAdjSymmetric | discretestructures/graph.js:39-41 | On an undirected graph, `u` has a record to `v` exactly when `v` has one to `u`. |
| Graphs.Graph.GetVertexAt | discretestructures/graph.js:44-53 | The result is the first vertex whose squared distance to the point is below 15², or none when no vertex is that close. |
| Graphs.Graph.Bfs | discretestructures/graph.js:112-128 | The visit order starts at the start vertex, repeats no vertex, and contains exactly the vertices reachable from it. A vertex visited later is never fewer hops away than one visited earlier. |
| Graphs.EnqueueUnvisited | discretestructures/graph.js:121-126 | The queued vertices are distinct, previously unvisited targets of the list, queued in the order of their first records in the list. Afterwards every target of the list is visited, and the visited set grows by exactly the queued vertices. |
| Reachability.BfsDone | discretestructures/graph.js:117-127 | Once the queue is empty, the seen vertices are exactly the reachable ones, in non-decreasing hop distance. |
| Reachability.BfsStep | discretestructures/graph.js:117-127 | One dequeue-and-enqueue step keeps the traversal invariant. |
| Graphs.Graph.Dfs | discretestructures/graph.js:131-146 | The visit order starts at the start vertex, repeats no vertex, and contains exactly the reachable vertices. Every vertex after the first is the target of a record of a vertex visited before it. Depth-first layout: what a vertex reaches without passing through earlier-visited vertices comes right after it, as one contiguous block. |
| Graphs.Graph.DfsVisit | discretestructures/graph.js:134-143 | `dfsRecursive(u)` visits `u` first, then exactly the vertices `u` reaches without passing through an already-visited vertex, each once. Every record of a vertex it visits lands in the new visited set. Within the new block, each vertex is followed by the contiguous block of what it reaches without passing through vertices visited before it. |
| Reachability.DfsFinish | discretestructures/graph.js:138-142 | Once the record loop of `u` ends, the visited block equals the set of vertices `u` reaches while avoiding the earlier-visited ones. |
| Reachability.DfsDescend | discretestructures/graph.js:139-141 | A recursive descent into an unvisited target appends its block and keeps the loop state. |
| Reachability.SubtreesAppend | discretestructures/graph.js:138-142 | Appending the block of a recursive call keeps the depth-first layout of the block after its first vertex. |
| Reachability.SubtreesFromStart | discretestructures/graph.js:134-143 | When the layout holds after the first vertex of a block and the block is closed, it holds from the first vertex too. |
| Reachability.AvoidingNothing | discretestructures/graph.js:145 | Reachability avoiding the empty set is plain reachability, so the top call covers every reachable vertex. |
| Graphs.Graph.Dijkstra | discretestructures/graph.js:149-181 | See the list below this table. |
| Graphs.ExtractMin | discretestructures/graph.js:162-167 | The chosen remaining vertex has the smallest tentative distance, and it is the first such one in iteration order. |
| Graphs.Graph.RelaxEdges | discretestructures/graph.js:171-177 | The extracted vertex keeps its own distance, and every one of its records is relaxed. Each other entry either stays or drops strictly to a value tight through that vertex, which then becomes its predecessor. |
| Paths.RelaxedIsLowerBound | discretestructures/graph.js:171-177 | When no record can lower a distance, the tentative distances bound the weight of every walk from below. |
| Paths.DijkstraStep | discretestructures/graph.js:160-178 | Extracting a minimal vertex and relaxing its records keeps the loop invariant. |
| Paths.DijkstraDone | discretestructures/graph.js:160-180 | When no vertex remains, every walk from the start ends at a vertex whose distance is finite and at most the walk's weight. |
| EulerSpec.OddVertices | discretestructures/graph.js:186 | Exactly the vertices whose adjacency lists have odd length, in increasing order. |
| EulerSpec.EulerStart | discretestructures/graph.js:200 | With exactly two odd vertices, the start is the first odd vertex; otherwise it is vertex 0. |
| EulerSpec.FirstIndexTo | discretestructures/graph.js:212 | The index of the first record targeting `t`, or none exactly when no record targets `t`. |
| EulerSpec.Unlink | discretestructures/graph.js:211-215 | With no record of `x` targeting `t`, the copy is unchanged. Otherwise `x`'s list becomes the old list without its first record to `t`: the records before and after keep their order. It holds one record to `t` fewer and the same number to every other vertex. Every other list is unchanged. |
| Graphs.Graph.FindEulerianPath | discretestructures/graph.js:184-224 | See the list below this table. |
| Graphs.TakeRecord | discretestructures/graph.js:207-216 | The returned vertex is the target of the top vertex's last record. The new copy is exactly the old one with that record popped and, undirected, the first record of the target that points back removed (`Take`). |
| Graphs.Hierholzer | discretestructures/graph.js:191-223 | Started from a copy of every list, a stack holding the start vertex and an empty path, the loop ends. The reversed path then has every property listed for `EulerSpec.EulerDone`. |
| Graphs.EulerStep | discretestructures/graph.js:204-220 | One round of the loop keeps the loop invariant. It lowers the measure twice the records left in the copy plus the stack height, so the loop ends. |
| EulerSpec.EulerInit | discretestructures/graph.js:196-201 | The initial state (an exact copy of the lists, the start on the stack, an empty path) satisfies the loop invariant. |
| EulerSpec.StepKeeps | discretestructures/graph.js:204-220 | A push when the top vertex still has records in the copy, a pop otherwise: either keeps the loop invariant and lowers the measure. |
| EulerSpec.PushStep | discretestructures/graph.js:207-217 | Pushing the target of the popped record, after its partner record is removed when undirected, keeps the loop invariant and strictly shrinks the copy. |
| EulerSpec.PopStep | discretestructures/graph.js:218-220 | Moving the top of a stack whose copy list is empty onto the path keeps the loop invariant. |
| EulerSpec.PushUndirected | discretestructures/graph.js:208-217 | Undirected: removing the popped record and the first reverse record at its target, then pushing the target, keeps the loop invariant. The copy stays paired, and odd lists stay only at the ends of the walk. |
| EulerSpec.TakenPush | discretestructures/graph.js:208-217 | Undirected: a push that removes one record from the top to the target and one back keeps the account of records taken, which is that every record missing from the copy was taken by exactly one step of the walk. |
| EulerSpec.TakenPop | discretestructures/graph.js:219 | Moving the top of the stack onto the path keeps the account of records taken, provided that vertex is the anchor the path hangs from. |
| EulerSpec.PopAtAnchor | discretestructures/graph.js:218-219 | Undirected: a vertex whose copy list is empty on top of the stack is the vertex the path hangs from, once the path has started. |
| EulerSpec.EulerDone | discretestructures/graph.js:203-223 | See the list below this table. |
| EulerSpec.WalkedOnce | discretestructures/graph.js:223 | Once every record taken lies on the path, the reversed path steps between any two vertices, in either direction, at most as often as there are records between them. |
| Graphs.Graph.FindHamiltonianCycle | discretestructures/graph.js:226-267 | A returned path is a Hamiltonian cycle: `n` distinct vertices, each with a record to the next, closed by repeating the first. `null` means the graph has no Hamiltonian cycle, which includes the empty graph. |
| Graphs.Graph.HamDfs | discretestructures/graph.js:231-258 | Extending a simple path by `v` either finds a Hamiltonian cycle that starts with that path, or returns `false`. On `false` the path and the visited set are unchanged, and no Hamiltonian cycle starts with the path plus `v`. |
| HamiltonSpec.ClosingCycle | discretestructures/graph.js:235-239 | A simple path through all vertices whose last vertex has a record back to the first becomes a Hamiltonian cycle when the first vertex is appended. |
| HamiltonSpec.DeadEnd | discretestructures/graph.js:240-244 | A full-length path whose last vertex has no record back to the first is extended by no cycle. |
| HamiltonSpec.AllNeighboursFail | discretestructures/graph.js:247-257 | When every record target fails, no cycle extends the current path. |
| HamiltonSpec.RepeatExtendsNothing | discretestructures/graph.js:248 | An already-visited vertex cannot be the next vertex of a cycle. |
| HamiltonSpec.NoStartSucceeds | discretestructures/graph.js:260-266 | When every start vertex fails, the graph has no Hamiltonian cycle. |
| HamiltonSpec.HamCycleCovers | discretestructures/graph.js:226-267 | A Hamiltonian cycle passes through every vertex. |
| Representations.AdjacencyMatrix | discretestructures/script.js:345-357 | The matrix is `n × n`, and each cell is 1 exactly when `i` has a record to `j`, 0 otherwise. On an undirected graph the matrix is symmetric. |
| Representations.AdjacencySymmetric | discretestructures/script.js:345-357 | For records in pairs, the cell at `(i, j)` equals the cell at `(j, i)`. |
| Representations.AdjacencyList | discretestructures/script.js:359-365 | The keys are exactly the vertex labels. Each key maps to the target labels of the last vertex with that label, in record order. |
| Representations.TargetLabels | discretestructures/script.js:362 | One label per record, in record order: the label of the record's target. |
| Representations.LabelMap | discretestructures/script.js:360-363 | After the first `i` vertices have stored their entries, the keys are exactly their labels. |
| Representations.LabelMapLast | discretestructures/script.js:361-363 | A label maps to the target labels of the last of the first `i` vertices carrying it. |
| Representations.RecordsMembers | discretestructures/script.js:371-372 | A pair `(from, to)` is among the records in traversal order exactly when `from` has a record to `to`. |
| Representations.CollectEdges | discretestructures/script.js:371-381 | The collected edge list is the fold of the collection rule over all records, in traversal order. |
| Representations.CollectLinks | discretestructures/script.js:372-380 | After one vertex's records, the collected list is the collection rule applied to those records in order, continuing from the list before them. |
| Representations.Collect | discretestructures/script.js:373-379 | One step of the collection keeps the collected list as a prefix. Afterwards the record or its reverse is among the collected edges. Undirected, no collected edge reverses an earlier one if none did before. |
| Representations.Collected | discretestructures/script.js:371-381 | The collected edges are records of the given sequence, and there are never more of them than records. |
| Representations.CollectedDirected | discretestructures/script.js:377-379 | Directed, every record is collected, in order. |
| Representations.CollectedUndirected | discretestructures/script.js:373-376 | See the list below this table. |
| Representations.IncidenceEntry | discretestructures/script.js:388-393 | Undirected, an entry is 1 exactly when the vertex is an end of the edge, and 0 otherwise. Directed, it is 1 at the source and -1 at the target, where a self-loop shows -1. |
| Representations.IncidenceMatrix | discretestructures/script.js:367-397 | The edge list is the collected one; the matrix has `n` rows and one column per collected edge; each entry is the incidence entry of that edge and vertex. |
| Circuit.GateOutput | main.js:137-151 | See the list below this table. |
| Circuit.AllOne | main.js:141 | True exactly when every input is 1. |
| Circuit.AnyOne | main.js:144 | True exactly when some input is 1. |
| Circuit.LogicGate.constructor | main.js:126-135 | A new gate has its id, type and position, no inputs, a `null` output, and is not the output gate. |
| Circuit.LogicGate.ComputeOutput | main.js:137-151 | The output becomes the gate output of the type and inputs, given the old output. Nothing else changes. |
| Circuit.ChainAt | main.js:194-201 | Gate `i` of the chain computes its output from the level inputs when it is first, and otherwise from the single output of gate `i - 1`. |
| Circuit.ChainBinary | main.js:194-201 | When every gate type is known, every output of the chain is 0 or 1. |
| Circuit.ChainOutputs | main.js:194-201 | One output per gate of the chain (what each output is, `ChainAt` states). |
| Circuit.ChainStep | main.js:195-200 | Gate `i` takes its chained output, and when a next gate exists that gate gets the output as its only input; the chain advances by one gate and no output-gate flag changes. |
| Circuit.EvaluateChain | main.js:194-201 | Afterwards gate `i` holds the `i`-th chained output. Its inputs are the first gate's inputs when it is first, and otherwise the previous gate's output. No gate's output-gate flag changes. |
| Circuit.RunGates | main.js:186-201 | The last gate is flagged as the output gate and no other gate's flag changes. The first gate gets the given inputs, and every gate then holds its chained output and chained inputs. |
| Circuit.InputValues | main.js:191 | The values of the level inputs, in declaration order. |
| Circuit.Game.constructor | main.js:20-34 | The game starts at level index 0, with the first level's inputs, no gates and no output gate. |
| Circuit.Game.LoadLevel | main.js:37-54 | The level's inputs are taken, the gates are cleared, the output gate is cleared, and the level index is unchanged. |
| Circuit.Game.AddGate | main.js:118-122 | A fresh gate with the given type, numbered by the old gate count, is appended. It has no inputs and a `null` output. Nothing else changes. |
| Circuit.Game.CheckOutput | main.js:204-220 | See the list below this table. |
| Circuit.Game.RunCircuit | main.js:176-221 | See the list below this table. |

Longer statements for the rows above:

- **Graphs.Graph.Dijkstra**:
  - the start has distance 0;
  - every walk from the start reaches a vertex whose distance is finite and no greater than the walk's weight;
  - every finite distance is the weight of some walk;
  - a vertex lacks a predecessor exactly when it is the start or stays at infinity;
  - a predecessor has a record to the vertex that accounts for the vertex's distance.
- **Graphs.Graph.FindEulerianPath**:
  - the result is `null` exactly when the number of odd vertices is neither 0 nor 2;
  - otherwise the path starts at the start rule's vertex, and every element is a vertex of the graph;
  - it uses at most as many steps as there are records (counted per pair when undirected);
  - undirected, consecutive vertices are adjacent and the path ends at the other odd vertex, or at the start when no vertex is odd;
  - undirected, no edge is walked twice: the path steps between two vertices, in either direction, at most as often as there are records between them;
  - the graph is not changed.
- **EulerSpec.EulerDone**:
  - when the stack is empty, the reversed path starts at the start vertex;
  - undirected, its consecutive elements are adjacent and it ends at the end vertex;
  - its length is bounded by the number of records taken;
  - undirected, it steps between two vertices, in either direction, at most as often as there are records between them.
- **Representations.CollectedUndirected**:
  - undirected, only records are collected;
  - every record, or its reverse, is collected;
  - no collected edge is the reverse of an earlier one.
- **Circuit.GateOutput**:
  - AND gives 1 exactly when every input is 1;
  - OR gives 1 exactly when some input is 1;
  - NOT gives 0 exactly when the first input exists and is 1;
  - these types always give 0 or 1;
  - any other type leaves the output as it was.
- **Circuit.Game.CheckOutput**: see the three cases after this list.
- **Circuit.Game.RunCircuit**:
  - with no gates, the outcome is "no gates" and nothing changes;
  - otherwise:
    - the last gate is flagged as the output gate, and no other gate's flag changes;
    - the first gate gets the level's input values;
    - every gate holds its chained output and chained inputs;
    - the level check then follows the three cases below.

The three cases of the level check:
- When the output equals the level's desired output, the level index rises by one. Then either:
  - the next level is loaded (outcome "solved"), or
  - the last level is completed (outcome "completed").
- When the output differs, nothing changes (outcome "incorrect").

## Left out

**Outside the model**
- Drawing, the DOM, canvas rendering, drag-and-drop, alerts and event wiring are not modelled. The visit callbacks of `bfs` and `dfs` become the returned visit order. `renderInputs`, `renderGateList`, `renderCanvas` and `matrixToHTML` produce only display output.

**Numbers and identity**
- Graphs.Graph.GetVertexAt: compares the squared distance with 15² over integer coordinates instead of taking a floating-point square root.
- Edge weights are natural numbers. Negative or fractional weights, and floating-point sums, are not modelled.
- Graphs.Graph.AddEdge: the default weight 1 of `addEdge(v1, v2, weight = 1)` is not modelled. Callers pass the weight explicitly, 1 where the source omits it.
- Vertices are compared by list index, which stands in for object identity. A vertex object added twice is not modelled.
- Graphs.Graph.AddVertex: requires the new vertex to have no records yet. A vertex arriving with records to vertices outside the graph would break the index model.

**Traversals**
- Graphs.Graph.Dfs: states the visit set, distinctness, the tree-parent property and the depth-first block layout, but not that sibling blocks follow adjacency-record order.
- Graphs.Graph.DfsVisit: states the same block layout for one call, but not that the blocks of the children follow adjacency-record order.
- Graphs.Graph.Bfs: states the visit set and the non-decreasing hop distance, but not the exact order among vertices at equal distance.
- Graphs.EnqueueUnvisited: states the order of the vertices queued from one list, but Bfs does not carry this order across lists.

**Eulerian path**
- Graphs.Graph.FindEulerianPath:
  - requires at least one vertex; on an empty graph the source reads a property of `undefined`;
  - its length is stated as an upper bound, not as exactly one step per edge, because connectivity is never checked;
  - on directed graphs, the adjacency of consecutive path elements is not claimed. The raw list-length parity test admits graphs on which the returned order is not a walk. For example, with records A→B and A→C, the start is A and the result is [A, B, C], where B has no record to C.
  - in an undirected graph, the reverse record is always found, so the branch where `findIndex` returns -1 is shown unreachable.
- The undirected degree counts a self-loop's two records, as the source does.

**Gate puzzle**
- Circuit.Game.RunCircuit: requires the current level index to denote a level. Once all levels are completed the source reads `levels[levels.length].desiredOutput` and throws.
- Gate connections are not modelled, because `runCircuit` ignores them.
- The gate id string `gate<n>` is modelled by the number `n`, and the gate's width and height (fixed display sizes) are not modelled.
- Circuit.Game.LoadLevel: the level number and desired output written to the page are display only.

**Adjacency list**
- Representations.AdjacencyList: a label that JavaScript object keys treat specially, such as `__proto__`, is treated as an ordinary key.
