/**
 * The undirected, weighted graph of the technology-park buildings as the
 * `Estructura` copy of the program keeps it: a map from building name to its list
 * of (neighbour, distance) entries, connections added in both directions, a
 * breadth-first connectivity test and a linear-scan Dijkstra that checks both
 * endpoints first and never relaxes an entry towards an already visited node.
 */
module EstructuraGraph {
  import opened Options
  import opened GraphTheory
  import opened GraphAlgorithms

  class Graph {
    /** Building name to its (neighbour, distance) entries. */
    var Ady: Adjacency
    /** The order in which the Dictionary enumerates its keys: insertion order. */
    var Orden: seq<string>

    /** The keys are enumerated once each, every entry names a building, and every
        connection is recorded at both ends. */
    ghost predicate Valid()
      reads this
    {
      KeyOrder(Ady, Orden) && EdgesInside(Ady) && Symmetric(Ady)
    }

    constructor()
      ensures Valid() && Ady == map[] && Orden == []
    {
      Ady := map[];
      Orden := [];
    }

    /** Adds a building with no connections, unless it is already there. */
    method AgregarNodo(nombre: string)
      requires Valid()
      modifies this
      ensures Valid()
      ensures Ady == ConNodo(old(Ady), nombre) && Orden == OrdenConNodo(old(Ady), old(Orden), nombre)
    {
      if nombre !in Ady {
        AddNodeKeeps(Ady, nombre);
        KeyOrderAdd(Ady, Orden, nombre);
        Ady := Ady[nombre := []];
        Orden := Orden + [nombre];
      }
    }

    /** Adds both endpoints if needed, then the entry (destino, distancia) to the list of
        `origen` and the entry (origen, distancia) to the list of `destino`; a connection
        from a building to itself puts both entries in its own list. */
    method AgregarConexion(origen: string, destino: string, distancia: int)
      requires Valid()
      modifies this
      ensures Valid()
      ensures Ady == ConArista(ConNodo(ConNodo(old(Ady), origen), destino), origen, destino, distancia)
      ensures Orden == OrdenConNodo(ConNodo(old(Ady), origen), OrdenConNodo(old(Ady), old(Orden), origen), destino)
    {
      ghost var a0, o0 := Ady, Orden;
      AgregarNodo(origen);
      AgregarNodo(destino);
      Ady := ConArista(Ady, origen, destino, distancia);
      ConexionValida(a0, o0, origen, destino, distancia);
    }

    /** The entries of `nodo`, or none for an unknown building; in a valid graph each
        entry leads to a building that has the matching entry back. */
    function ObtenerConexiones(nodo: string): (r: seq<(string, int)>)
      reads this
      requires Valid()
      ensures nodo !in Ady ==> r == []
      ensures nodo in Ady ==> r == Ady[nodo]
      ensures forall e :: e in r ==> e.0 in Ady && multiset(Ady[e.0])[(nodo, e.1)] == multiset(r)[e]
    {
      if nodo !in Ady then [] else Reciprocal(Ady, nodo); Ady[nodo]
    }

    /** Every building once, in enumeration order. */
    function ObtenerTodosLosNodos(): (r: seq<string>)
      reads this
      requires Valid()
      ensures (forall k :: k in r <==> k in Ady) && Distinct(r) && |r| == |Ady|
    {
      DistinctCard(Orden);
      assert (set x | x in Orden) == Ady.Keys;
      Orden
    }

    /** Whether the building is in the graph, that is, among all of its buildings. */
    function ExisteNodo(nombre: string): (r: bool)
      reads this
      requires Valid()
      ensures r <==> nombre in ObtenerTodosLosNodos()
    {
      nombre in Ady
    }

    /** BFS from the first building: the graph is connected (the empty graph counts as
        connected) exactly when every building can be reached from every other. */
    method EsConexo() returns (r: bool)
      requires Valid()
      ensures r <==> forall a, b :: a in Ady && b in Ady ==> Reachable(Ady, a, b)
      ensures r <==> Orden == [] || forall k :: k in Ady ==> Reachable(Ady, Orden[0], k)
    {
      r := Conexo(Ady, Orden);
      ConnectedFromFirst(Ady, Orden);
    }

    /** The linear-scan Dijkstra with both guards. An unknown endpoint, or a destination
        that cannot be reached, yields an empty route at Infinite. Otherwise the route is
        a walk from `inicio` to `fin` whose weights add up to the reported distance, and
        when no weight is negative that distance is the least over all walks. */
    method Dijkstra(inicio: string, fin: string) returns (r: DijkstraResult)
      requires Valid()
      ensures inicio !in Ady || fin !in Ady ==> r == DijkstraResult([], Infinite)
      ensures inicio in Ady && fin in Ady ==> (r.distanciaTotal.Finite? <==> Reachable(Ady, inicio, fin))
      ensures r.distanciaTotal.Infinite? ==> r.ruta == []
      ensures r.distanciaTotal.Finite? ==> Route(Ady, r.ruta, inicio, fin, r.distanciaTotal.value)
      ensures r.distanciaTotal.Finite? && NonNegative(Ady) ==> Shortest(Ady, inicio, fin, r.distanciaTotal.value)
      ensures inicio == fin && inicio in Ady ==> r == DijkstraResult([inicio], Finite(0))
    {
      if inicio !in Ady || fin !in Ady {
        return DijkstraResult([], Infinite);
      }
      var dist, prev := Inicializar(Orden);
      ghost var nn := NonNegative(Ady);
      DijkstraInit(Ady, inicio, dist, prev, nn);
      dist := dist[inicio := Finite(0)];
      var visitados: set<string> := {};
      ghost var rank: map<string, nat> := map[];
      while |visitados| < |Ady|
        invariant DijkstraInv(Ady, inicio, visitados, dist, prev, rank, nn)
        decreases Ady.Keys - visitados
      {
        var actual := MenorNoVisitado(Orden, visitados, dist);
        if actual.None? {
          break;
        }
        var x := actual.value;
        ghost var S0, D0, P0 := visitados, dist, prev;
        visitados := visitados + {x};
        dist, prev := RelajarNoVisitados(Ady, x, visitados, dist, prev);
        Visit(Ady, inicio, S0, D0, P0, rank, nn, x, dist, prev);
        rank := rank[x := |S0|];
      }
      if |visitados| >= |Ady| {
        SubsetCard(visitados, Ady.Keys);
      }
      assert forall k :: k in Ady && k !in visitados ==> dist[k].Infinite?;
      var ruta := Reconstruir(Ady, inicio, visitados, dist, prev, rank, fin);
      if |ruta| == 0 || dist[fin].Infinite? {
        r := DijkstraResult([], Infinite);
        Unreached(Ady, inicio, visitados, dist, prev, rank, fin);
      } else {
        r := DijkstraResult(ruta, dist[fin]);
        RouteReachable(Ady, ruta, inicio, fin, dist[fin].value);
      }
    }
  }
}
