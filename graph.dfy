/**
 * The undirected, weighted graph of the technology-park buildings as the copy at
 * the root of the project keeps it. Everything but Dijkstra is the same as in the
 * `Estructura` copy; this Dijkstra does not check its endpoints, relaxes every
 * entry of the visited node (visited neighbours included), and returns the
 * one-node route [fin] with the sentinel distance when `fin` cannot be reached.
 */
module Graph {
  import opened Options
  import opened GraphTheory
  import opened GraphAlgorithms

  class Graph {
    /** Building name to its (neighbour, distance) entries. */
    var Ady: Adjacency
    /** The order in which the Dictionary enumerates its keys: insertion order. */
    var Orden: seq<string>

    /** The keys are enumerated once each, every entry names a building, and every
        connection is recorded at both ends. */
    ghost predicate Valid()
      reads this
    {
      KeyOrder(Ady, Orden) && EdgesInside(Ady) && Symmetric(Ady)
    }

    constructor()
      ensures Valid() && Ady == map[] && Orden == []
    {
      Ady := map[];
      Orden := [];
    }

    /** Adds a building with no connections, unless it is already there. */
    method AgregarNodo(nombre: string)
      requires Valid()
      modifies this
      ensures Valid()
      ensures Ady == ConNodo(old(Ady), nombre) && Orden == OrdenConNodo(old(Ady), old(Orden), nombre)
    {
      if nombre !in Ady {
        AddNodeKeeps(Ady, nombre);
        KeyOrderAdd(Ady, Orden, nombre);
        Ady := Ady[nombre := []];
        Orden := Orden + [nombre];
      }
    }

    /** Adds both endpoints if needed, then the entry (destino, distancia) to the list of
        `origen` and the entry (origen, distancia) to the list of `destino`; a connection
        from a building to itself puts both entries in its own list. */
    method AgregarConexion(origen: string, destino: string, distancia: int)
      requires Valid()
      modifies this
      ensures Valid()
      ensures Ady == ConArista(ConNodo(ConNodo(old(Ady), origen), destino), origen, destino, distancia)
      ensures Orden == OrdenConNodo(ConNodo(old(Ady), origen), OrdenConNodo(old(Ady), old(Orden), origen), destino)
    {
      ghost var a0, o0 := Ady, Orden;
      AgregarNodo(origen);
      AgregarNodo(destino);
      Ady := ConArista(Ady, origen, destino, distancia);
      ConexionValida(a0, o0, origen, destino, distancia);
    }

    /** The entries of `nodo`, or none for an unknown building; in a valid graph each
        entry leads to a building that has the matching entry back. */
    function ObtenerConexiones(nodo: string): (r: seq<(string, int)>)
      reads this
      requires Valid()
      ensures nodo !in Ady ==> r == []
      ensures nodo in Ady ==> r == Ady[nodo]
      ensures forall e :: e in r ==> e.0 in Ady && multiset(Ady[e.0])[(nodo, e.1)] == multiset(r)[e]
    {
      if nodo !in Ady then [] else Reciprocal(Ady, nodo); Ady[nodo]
    }

    /** Every building once, in enumeration order. */
    function ObtenerTodosLosNodos(): (r: seq<string>)
      reads this
      requires Valid()
      ensures (forall k :: k in r <==> k in Ady) && Distinct(r) && |r| == |Ady|
    {
      DistinctCard(Orden);
      assert (set x | x in Orden) == Ady.Keys;
      Orden
    }

    /** Whether the building is in the graph, that is, among all of its buildings. */
    function ExisteNodo(nombre: string): (r: bool)
      reads this
      requires Valid()
      ensures r <==> nombre in ObtenerTodosLosNodos()
    {
      nombre in Ady
    }

    /** BFS from the first building: the graph is connected (the empty graph counts as
        connected) exactly when every building can be reached from every other. */
    method EsConexo() returns (r: bool)
      requires Valid()
      ensures r <==> forall a, b :: a in Ady && b in Ady ==> Reachable(Ady, a, b)
      ensures r <==> Orden == [] || forall k :: k in Ady ==> Reachable(Ady, Orden[0], k)
    {
      r := Conexo(Ady, Orden);
      ConnectedFromFirst(Ady, Orden);
    }

    /** The linear-scan Dijkstra without guards. `fin` must be a building (the walk back
        looks up its predecessor) and no weight may be negative (otherwise the walk back
        along the predecessors may cycle); `inicio` need not be a building, in which case
        nothing is reached. The distance is finite exactly when `fin` can be reached; the
        route is then a least-weight walk from `inicio`, and otherwise it is [fin] alone. */
    method Dijkstra(inicio: string, fin: string) returns (r: DijkstraResult)
      requires Valid() && fin in Ady && NonNegative(Ady)
      ensures r.distanciaTotal.Finite? <==> Reachable(Ady, inicio, fin)
      ensures r.distanciaTotal.Infinite? ==> r.ruta == [fin]
      ensures r.distanciaTotal.Finite? ==>
        Route(Ady, r.ruta, inicio, fin, r.distanciaTotal.value) &&
        Shortest(Ady, inicio, fin, r.distanciaTotal.value)
      ensures inicio == fin ==> r == DijkstraResult([fin], Finite(0))
    {
      var dist, prev := Inicializar(Orden);
      DijkstraInit(Ady, inicio, dist, prev, true);
      dist := dist[inicio := Finite(0)];
      var visitados: set<string> := {};
      ghost var rank: map<string, nat> := map[];
      while |visitados| < |Ady|
        invariant DijkstraInv(Ady, inicio, visitados, dist, prev, rank, true)
        decreases Ady.Keys - visitados
      {
        var actual := MenorNoVisitado(Orden, visitados, dist);
        if actual.None? {
          break;
        }
        var x := actual.value;
        ghost var S0, D0, P0 := visitados, dist, prev;
        visitados := visitados + {x};
        dist, prev := RelajarTodos(Ady, x, dist, prev);
        RelaxedAllSkipsSettled(Ady, S0, D0, P0, x, dist, prev);
        Visit(Ady, inicio, S0, D0, P0, rank, true, x, dist, prev);
        rank := rank[x := |S0|];
      }
      if |visitados| >= |Ady| {
        SubsetCard(visitados, Ady.Keys);
      }
      assert forall k :: k in Ady && k !in visitados ==> dist[k].Infinite?;
      var ruta := Reconstruir(Ady, inicio, visitados, dist, prev, rank, fin);
      r := DijkstraResult(ruta, dist[fin]);
      if dist[fin].Infinite? {
        Unreached(Ady, inicio, visitados, dist, prev, rank, fin);
      } else {
        RouteReachable(Ady, ruta, inicio, fin, dist[fin].value);
      }
    }
  }
}
