# ArbolesYGrafos in Dafny

A model of the two data structures behind the Innovatec technology-park application:

- **The building graph.** It is undirected and weighted. Each building name maps to its list of (neighbour, distance) entries. It offers:
  - node and connection insertion;
  - a breadth-first connectivity test;
  - a linear-scan Dijkstra that reports a route and its total distance.
- **The organisational tree.** It is a rooted general tree of named nodes. It offers:
  - child insertion;
  - depth-first search by name;
  - node count and level;
  - the indented pre-order listing the form displays.

The repository keeps two copies of each class, and each copy is its own module:

| module (file) | source |
|---|---|
| `EstructuraGraph` (`estructura_graph.dfy`) | `ArbolesYGrafos/Estructura/Graph.cs` |
| `Graph` (`graph.dfy`) | `ArbolesYGrafos/Graph.cs` |
| `EstructuraOrgTree` (`estructura_orgtree.dfy`) | `ArbolesYGrafos/Estructura/OrgTree.cs` |
| `OrgTree` (`orgtree.dfy`) | `ArbolesYGrafos/OrgTree.cs` |

The two graph copies differ only in Dijkstra:
- The `Estructura` copy rejects unknown endpoints. It never relaxes an entry that leads back to a visited building. It reports an unreachable destination as an empty route at infinity.
- The root copy has no guard. For an unreachable destination it returns the one-node route `[fin]` at infinity.

Both copies keep the same state:
- the adjacency `Ady`, a `map`;
- `Orden`, the order in which the `Dictionary` is enumerated. The .NET documentation leaves that order unspecified. The model fixes it as insertion order, which is reasonable because no key is ever removed.

Shared code lives in two modules:
- `GraphTheory` (`graph_theory.dfy`) holds:
  - walks (a start building followed by the adjacency entries taken) and their cost;
  - reachability, `Route` and `Shortest`;
  - the loop invariant of the Dijkstra main loop, with its lemmas.
- `GraphAlgorithms` (`graph_algorithms.dfy`) holds:
  - the loops both copies run, as methods proved against those definitions: the BFS, the initialisation, the linear scan, the relaxation passes and the walk back along the predecessors;
  - the value-level effect of each update.

`int.MaxValue`, the "no distance yet" sentinel, is the constructor `Infinite` of `Distance`. A tentative distance `d` is `Finite(d)`.

The tree is a value, `Node(nombre, hijos)`:
- `Buscar`, `ContarNodos` and `Nivel` are recursive functions over it, as in the source.
- The `OrgTree` object is a class whose `Raiz` field `AgregarNodo` updates. A TreeNode reference that the caller holds is modelled as the path of child positions from the root to that node.
- The reference every tree operation is measured against is `Recorrido`, the pre-order sequence of (subtree, level) pairs.
- The root copy's tree functions are textually the same as the `Estructura` copy's, so `OrgTree` reuses them and adds `PreOrdenJerarquico`. The rows below for `Buscar`, `BuscarEnHijos`, `ContarNodos`, `ContarHijos`, `Nivel` and `NivelEnHijos`, and for the lemmas about them, therefore also describe `ArbolesYGrafos/OrgTree.cs` lines 34-45, 47-54 and 56-67.

## Model

| member | source | states |
|---|---|---|
| GraphTheory.LessComoEntero | ArbolesYGrafos/Estructura/Graph.cs:169 | `Less` is the integer `<` of the source, with `Infinite` written as any bound above the finite distances compared, as `int.MaxValue` is |
| GraphTheory.AddNodeKeeps | ArbolesYGrafos/Estructura/Graph.cs:53-58 | adding a new building with an empty list keeps every entry pointing inside the graph and the graph undirected |
| GraphTheory.ConnectKeeps | ArbolesYGrafos/Estructura/Graph.cs:73-74 | appending (d, w) to the list of o and (o, w) to the list of d keeps the graph undirected, counting multiplicities, and keeps every entry inside the graph |
| GraphTheory.ConnectSymmetric | ArbolesYGrafos/Estructura/Graph.cs:73-74 | the two appended entries keep every entry matched by as many entries back |
| GraphTheory.ConnectInside | ArbolesYGrafos/Estructura/Graph.cs:73-74 | the two appended entries keep every entry pointing at a building of the graph |
| GraphTheory.Reciprocal | ArbolesYGrafos/Estructura/Graph.cs:72-74 | in an undirected graph each entry (b, w) of a's list has an entry (a, w) in b's list, as many times as it occurs |
| GraphTheory.WalkReverse | ArbolesYGrafos/Estructura/Graph.cs:72-74 | in an undirected graph every walk from a to b has a reverse walk from b to a |
| GraphTheory.ConnectedFromFirst | ArbolesYGrafos/Estructura/Graph.cs:105-129 | in an undirected graph, reaching every building from the first key is the same as every building reaching every other |
| GraphTheory.RouteAdjacent | ArbolesYGrafos/Estructura/Graph.cs:200-216 | a reported route starts at the start, ends at the destination, and each building on it is connected to the next (the same holds for the root copy's route, `ArbolesYGrafos/Graph.cs` lines 115-125) |
| GraphTheory.RouteReachable | ArbolesYGrafos/Estructura/Graph.cs:216 | a reported route witnesses that the destination is reachable |
| GraphTheory.DijkstraInit | ArbolesYGrafos/Estructura/Graph.cs:150-158 | after initialisation, with the start at 0 and nothing visited, the loop invariant holds |
| GraphTheory.PasoRelajacion | ArbolesYGrafos/Estructura/Graph.cs:182-196 | one pass of the relaxation body over the next entry lowers a distance only to the new sum through the picked building, recording it as predecessor, and leaves that entry covered |
| GraphTheory.PickedOptimal | ArbolesYGrafos/Estructura/Graph.cs:164-177 | with no negative weight, the unvisited building of least finite distance already has the shortest distance from the start |
| GraphTheory.Visit | ArbolesYGrafos/Estructura/Graph.cs:161-197 | choosing the unvisited building of least finite distance, marking it and relaxing its entries keeps the invariant: the settled buildings' shortest distances (when no weight is negative) and their visiting order, relaxed frontier and predecessor walks |
| GraphTheory.RelaxedAllSkipsSettled | ArbolesYGrafos/Graph.cs:105-113 | with non-negative weights, relaxing also towards visited buildings changes none of them, so the guarded invariant still applies |
| GraphTheory.Unreached | ArbolesYGrafos/Estructura/Graph.cs:176-177 | once every unvisited building is still at infinity, a building at infinity cannot be reached from the start |
| GraphAlgorithms.ConNodo | ArbolesYGrafos/Estructura/Graph.cs:53-58 | adding a building adds its key with an empty list, unless it is already present, and leaves all other lists alone |
| GraphAlgorithms.OrdenConNodo | ArbolesYGrafos/Estructura/Graph.cs:56-57 | the enumeration only grows at its end, by at most one key, and only by the new building, which comes last when it was absent |
| GraphAlgorithms.KeyOrderAdd | ArbolesYGrafos/Estructura/Graph.cs:56-57 | a new key appended last keeps the key enumeration exact and without repetition |
| GraphAlgorithms.ConArista | ArbolesYGrafos/Estructura/Graph.cs:73-74 | appending both entries keeps the key set and changes no list other than the two endpoints' |
| GraphAlgorithms.ConexionValida | ArbolesYGrafos/Estructura/Graph.cs:66-75 | adding both endpoints and then the two entries keeps a valid graph valid: exact key enumeration, every entry inside the graph, undirected |
| GraphAlgorithms.ConexionEfecto | ArbolesYGrafos/Estructura/Graph.cs:66-75 | connecting adds both endpoints, appends the two entries to their lists (and both entries to one list for a self-connection), and changes no other list |
| GraphAlgorithms.Conexo | ArbolesYGrafos/Estructura/Graph.cs:96-129 | the BFS returns true exactly when the graph is empty or every building is reachable from the first key |
| GraphAlgorithms.VisitarVecinos | ArbolesYGrafos/Estructura/Graph.cs:118-125 | every unvisited neighbour is marked and queued, each visited building keeps a walk from the start, and afterwards every neighbour is visited |
| GraphAlgorithms.VisitadosTodos | ArbolesYGrafos/Estructura/Graph.cs:129 | with the queue empty, the visited count equals the building count exactly when every building is reachable |
| GraphAlgorithms.FueraNoAlcanzable | ArbolesYGrafos/Estructura/Graph.cs:113-126 | no building outside a closed visited set can be reached from the start |
| GraphAlgorithms.Inicializar | ArbolesYGrafos/Estructura/Graph.cs:151-155 | every key at infinity and without predecessor, and no other key |
| GraphAlgorithms.MenorNoVisitado | ArbolesYGrafos/Estructura/Graph.cs:164-177 | the scan returns None exactly when every unvisited key is at infinity; otherwise it returns the first unvisited key in enumeration order whose distance is least and finite |
| GraphAlgorithms.RelajarNoVisitados | ArbolesYGrafos/Estructura/Graph.cs:182-196 | every entry of the picked building leading to an unvisited one lowers that building's distance to the new sum, with the picked building as its predecessor, when the sum is smaller; nothing else changes |
| GraphAlgorithms.RelajarTodos | ArbolesYGrafos/Graph.cs:105-113 | the same relaxation without the visited check, leaving the picked building's own distance unchanged |
| GraphAlgorithms.Reconstruir | ArbolesYGrafos/Estructura/Graph.cs:200-208 | the walk back along predecessors ends at fin; it is [fin] at infinity or when fin is the start, and otherwise the node list of a walk from the start whose cost is fin's distance |
| GraphAlgorithms.PasoAtras | ArbolesYGrafos/Estructura/Graph.cs:203-207 | one step back to a predecessor extends the walk to fin by an entry whose weight is exactly the distance gained |
| EstructuraGraph.Graph.constructor | ArbolesYGrafos/Estructura/Graph.cs:46-47 | an empty graph |
| EstructuraGraph.Graph.AgregarNodo | ArbolesYGrafos/Estructura/Graph.cs:53-58 | the adjacency and key order become those of ConNodo and OrdenConNodo, and the graph stays valid |
| EstructuraGraph.Graph.AgregarConexion | ArbolesYGrafos/Estructura/Graph.cs:66-75 | the new state is both endpoints added (ConNodo, OrdenConNodo) and then both entries appended (ConArista), so ConexionEfecto gives each list; the graph stays valid |
| EstructuraGraph.Graph.ObtenerConexiones | ArbolesYGrafos/Estructura/Graph.cs:82-89 | an empty list for an unknown building, its own list otherwise, and each entry is matched by an entry back |
| EstructuraGraph.Graph.EsConexo | ArbolesYGrafos/Estructura/Graph.cs:96-130 | true exactly when every building reaches every other, and exactly when every building is reachable from the first key; the empty graph counts as connected |
| EstructuraGraph.Graph.Dijkstra | ArbolesYGrafos/Estructura/Graph.cs:139-217 | for an unknown endpoint, ([], Infinite); for known ones, finite exactly when fin is reachable, an empty route at infinity, a route that is a walk whose cost is the distance, the least over all walks when no weight is negative, and ([inicio], 0) from a building to itself |
| EstructuraGraph.Graph.ObtenerTodosLosNodos | ArbolesYGrafos/Estructura/Graph.cs:223-226 | every building exactly once |
| EstructuraGraph.Graph.ExisteNodo | ArbolesYGrafos/Estructura/Graph.cs:233-236 | true exactly when the building is among all the buildings |
| Graph.Graph.constructor | ArbolesYGrafos/Graph.cs:23-24 | an empty graph |
| Graph.Graph.AgregarNodo | ArbolesYGrafos/Graph.cs:26-30 | the adjacency and key order become those of ConNodo and OrdenConNodo, and the graph stays valid |
| Graph.Graph.AgregarConexion | ArbolesYGrafos/Graph.cs:32-39 | the new state is both endpoints added (ConNodo, OrdenConNodo) and then both entries appended (ConArista), so ConexionEfecto gives each list; the graph stays valid |
| Graph.Graph.ObtenerConexiones | ArbolesYGrafos/Graph.cs:41-46 | an empty list for an unknown building, its own list otherwise, and each entry is matched by an entry back |
| Graph.Graph.EsConexo | ArbolesYGrafos/Graph.cs:47-72 | true exactly when every building reaches every other, and exactly when every building is reachable from the first key; the empty graph counts as connected |
| Graph.Graph.Dijkstra | ArbolesYGrafos/Graph.cs:74-126 | finite exactly when fin is reachable; at infinity the route is [fin]; otherwise the route is a walk whose cost is the distance and is least over all walks; ([fin], 0) from a building to itself |
| Graph.Graph.ObtenerTodosLosNodos | ArbolesYGrafos/Graph.cs:127-130 | every building exactly once |
| Graph.Graph.ExisteNodo | ArbolesYGrafos/Graph.cs:132-135 | true exactly when the building is among all the buildings |
| EstructuraOrgTree.OrgTree.constructor | ArbolesYGrafos/Estructura/OrgTree.cs:51-54 | a lone root: one node, found by its name, at level 0 |
| EstructuraOrgTree.OrgTree.AgregarNodo | ArbolesYGrafos/Estructura/OrgTree.cs:61-65 | the node at the given path becomes that node with a childless node appended after its last child; every node off the path is as it was; the nodes on the path keep their names; the tree has one node more |
| EstructuraOrgTree.Anexar | ArbolesYGrafos/Estructura/OrgTree.cs:64 | the new child comes last among the children, the count grows by one, and in pre-order the new leaf, one level deeper, follows all old descendants |
| EstructuraOrgTree.AnexarEn | ArbolesYGrafos/Estructura/OrgTree.cs:61-65 | the whole tree after the append: same root name, the same path leads to the extended node, one node more |
| EstructuraOrgTree.AnexarEnFuera | ArbolesYGrafos/Estructura/OrgTree.cs:64 | every node off the path is untouched: a path that leaves the parent's path leads to the same subtree as before |
| EstructuraOrgTree.AnexarEnCamino | ArbolesYGrafos/Estructura/OrgTree.cs:64 | the nodes on the path keep their names, and those above the parent keep their number of children |
| EstructuraOrgTree.Buscar | ArbolesYGrafos/Estructura/OrgTree.cs:73-87 | a node it returns has the name searched for |
| EstructuraOrgTree.BuscarEnHijos | ArbolesYGrafos/Estructura/OrgTree.cs:79-83 | a node the scan over the children returns has the name searched for |
| EstructuraOrgTree.BuscarPrimero | ArbolesYGrafos/Estructura/OrgTree.cs:73-87 | the search returns the first node of the pre-order sequence with that name, and None exactly when no node has it |
| EstructuraOrgTree.BuscarNombres | ArbolesYGrafos/Estructura/OrgTree.cs:73-87 | the search finds a node exactly when the name is among the subtree's names |
| EstructuraOrgTree.RutaBuscar | ArbolesYGrafos/Estructura/OrgTree.cs:73-87 | the path to the node the search returns, None exactly when it returns none |
| EstructuraOrgTree.ContarNodos | ArbolesYGrafos/Estructura/OrgTree.cs:94-104 | at least one: the node itself |
| EstructuraOrgTree.ContarHijos | ArbolesYGrafos/Estructura/OrgTree.cs:100-101 | the children's subtrees hold at least one node each |
| EstructuraOrgTree.ContarRecorrido | ArbolesYGrafos/Estructura/OrgTree.cs:94-104 | the count is the length of the pre-order sequence |
| EstructuraOrgTree.Nivel | ArbolesYGrafos/Estructura/OrgTree.cs:114-128 | -1 or at least the starting level, and the starting level itself when the node has the name |
| EstructuraOrgTree.NivelEnHijos | ArbolesYGrafos/Estructura/OrgTree.cs:120-127 | -1 or at least the given level, and -1 when there are no children |
| EstructuraOrgTree.NivelPrimero | ArbolesYGrafos/Estructura/OrgTree.cs:114-128 | from a non-negative start, the level is that of the first pre-order match, or -1 when none exists |
| EstructuraOrgTree.NivelBuscar | ArbolesYGrafos/Estructura/OrgTree.cs:114-128 | the level is -1 exactly when the search finds nothing; otherwise it is at least the start and is the level of the very node the search returns |
| EstructuraOrgTree.Profundidad | ArbolesYGrafos/Estructura/OrgTree.cs:114-128 | from any non-negative start the level is the start plus the depth found from level 0, and -1 in the same cases |
| EstructuraOrgTree.NivelesDesde | ArbolesYGrafos/Estructura/OrgTree.cs:120-123 | every level in the pre-order sequence is at least the starting level |
| EstructuraOrgTree.NombresRecorrido | ArbolesYGrafos/Estructura/OrgTree.cs:76-83 | the name list follows the pre-order sequence at any starting level |
| EstructuraOrgTree.AgregarEnArbol | ArbolesYGrafos/Form1.cs:132-137 | the whole tree after the form's search-then-insert keeps its root name (its full effect is in the lemmas below) |
| EstructuraOrgTree.AgregarEnHijos | ArbolesYGrafos/Form1.cs:132-137 | the children after the insert, as many as before |
| EstructuraOrgTree.Insercion | ArbolesYGrafos/Form1.cs:132-137 | inserting under a missing parent changes nothing; otherwise the tree gains one node and exactly one name, and the search for the parent returns it with the new child appended |
| EstructuraOrgTree.InsercionHoja | ArbolesYGrafos/Form1.cs:132-137 | a name new to the tree, inserted under an existing parent, is then found as a leaf one level below the parent |
| EstructuraOrgTree.InsercionEnRuta | ArbolesYGrafos/Form1.cs:132-137 | the form's search-then-insert is AgregarNodo at the path of the node the search returns |
| OrgTree.OrgTree.constructor | ArbolesYGrafos/OrgTree.cs:24-27 | a lone root: one node, found by its name, at level 0 |
| OrgTree.OrgTree.AgregarNodo | ArbolesYGrafos/OrgTree.cs:29-32 | the node at the given path becomes that node with a childless node appended after its last child; every node off the path is as it was; the nodes on the path keep their names; the tree has one node more |
| OrgTree.Sangria | ArbolesYGrafos/OrgTree.cs:72 | n characters |
| OrgTree.SangriaEspacios | ArbolesYGrafos/OrgTree.cs:72 | every one of them a space |
| OrgTree.Linea | ArbolesYGrafos/OrgTree.cs:72-73 | the line is three spaces per level followed by the name itself |
| OrgTree.PreOrdenJerarquico | ArbolesYGrafos/OrgTree.cs:69-81 | one line per node of the subtree, its own indented line first |
| OrgTree.PreOrdenHijos | ArbolesYGrafos/OrgTree.cs:75-78 | the children's listings together hold one line per node of their subtrees |
| OrgTree.PreOrdenRecorrido | ArbolesYGrafos/OrgTree.cs:69-81 | the i-th line is the name of the i-th node in pre-order, indented three spaces per level |
| OrgTree.QuitarSangria | ArbolesYGrafos/OrgTree.cs:72-73 | the line with its leading spaces removed: no longer than the line and not starting with a space |
| OrgTree.QuitarSangriaSufijo | ArbolesYGrafos/OrgTree.cs:72-73 | what remains is a suffix of the line and everything removed was a space |
| OrgTree.QuitarSangriaLinea | ArbolesYGrafos/OrgTree.cs:72-73 | removing the indentation from a line gives back the name, for a name that does not start with a space |
| OrgTree.ListadoNombres | ArbolesYGrafos/OrgTree.cs:69-81 | with the indentation removed, the listing is the list of names in pre-order |
| OrgTree.ListadoBuscar | ArbolesYGrafos/Form1.cs:53 | a name appears in the displayed listing exactly when the search finds it |

## Left out

- `Form1.cs`, the Windows Forms user interface, is not part of this model. Its search-then-insert is modelled as the function `AgregarEnArbol`. `Form1.cs` calls `Nivel` from the root at level 0 and lists `PreOrdenJerarquico` from level 0; both are covered by the lemmas above.
- Integer width: distances are unbounded integers. In C#, `dist + distancia` can overflow, and a genuine distance of `int.MaxValue` would read as "no distance". Neither is modelled.
- Reference aliasing in the graph: `ObtenerConexiones` returns the live list, so a caller could change the graph through it. The model returns a value.
- Dictionary enumeration order is not specified by .NET. The model fixes it as insertion order. The source never removes a key. `MenorNoVisitado`'s tie-break and the BFS's starting building depend on this choice.
- The two copies declare the same class names in one namespace, so they cannot be built together. Each copy is its own module here.
- Null arguments and the exceptions they raise are not modelled, because strings and nodes are never null in the model.
- Graph.Graph.Dijkstra: requires `fin` to be a building and no weight to be negative.
  - For an unknown `fin`, the source throws in `prev[fin]`.
  - With a negative weight, the relaxation without the visited check can make two buildings each other's predecessor. For example, take A and B connected with weight -1 and call `Dijkstra("A", "A")`: the main loop leaves `prev[A] = B` and `prev[B] = A`. The walk back at `ArbolesYGrafos/Graph.cs` lines 119-123 then keeps inserting into the route until memory runs out. The form only accepts positive weights, so the model requires that no weight is negative.
  - The start need not be a building.
- GraphAlgorithms.RelajarTodos: requires non-negative weights. With a negative self-connection, the picked building's own distance would drop. Its only caller, the root Dijkstra, has that precondition anyway.
- EstructuraGraph.Graph.Dijkstra: the least-distance property is stated only when no weight is negative, where the algorithm guarantees it. For any weights the route is still a walk of the reported cost.
- EstructuraOrgTree.OrgTree.AgregarNodo: the parent is given as a path into the tree. A TreeNode that is not part of the tree, or null, cannot be passed, and sharing of node objects between trees is not modelled.
- OrgTree.OrgTree.AgregarNodo: the same limits as in the other copy.
- EstructuraOrgTree.NivelPrimero: the lemmas about `Nivel` take a non-negative start. From a negative start the returned level can coincide with the sentinel -1.
- OrgTree.PreOrdenJerarquico: the level is a natural number. A negative level makes `new string(' ', nivel * 3)` throw, and that error path is not modelled.
