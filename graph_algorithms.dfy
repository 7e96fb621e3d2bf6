/**
 * The loops that both copies of the building graph run in the same way: the
 * breadth-first connectivity test, the initialisation and the linear scan of the
 * Dijkstra loop, the two variants of its relaxation pass (with and without the
 * "skip visited neighbours" guard), and the walk back along the predecessors.
 *
 * The adjacency map is passed by value together with `orden`, the order in which
 * the C# Dictionary enumerates its keys (insertion order, since nodes are never removed).
 */
module GraphAlgorithms {
  import opened Options
  import opened GraphTheory

  /** The keys of `ady`, enumerated in the order `orden` without repetition. */
  ghost predicate KeyOrder(ady: Adjacency, orden: seq<string>) {
    (forall k :: k in ady <==> k in orden) && Distinct(orden)
  }

  /** A new key appended to the enumeration keeps it exact and without repetitions. */
  lemma KeyOrderAdd(ady: Adjacency, orden: seq<string>, n: string)
    requires KeyOrder(ady, orden) && n !in ady
    ensures KeyOrder(ady[n := []], orden + [n])
  {
    var o2 := orden + [n];
    forall i, j | 0 <= i < j < |o2|
      ensures o2[i] != o2[j]
    {
      if j == |orden| {
        assert o2[i] == orden[i];
      }
    }
  }

  /** The adjacency once building `n` is present: unchanged if it already was. */
  function ConNodo(ady: Adjacency, n: string): (r: Adjacency)
    ensures r.Keys == ady.Keys + {n}
    ensures forall k :: k in ady ==> r[k] == ady[k]
    ensures n !in ady ==> r[n] == []
  {
    if n in ady then ady else ady[n := []]
  }

  /** The enumeration order once building `n` is present: a new key comes last. */
  function OrdenConNodo(ady: Adjacency, orden: seq<string>, n: string): (r: seq<string>)
    ensures orden <= r && |r| <= |orden| + 1
    ensures forall k :: k in r ==> k in orden || k == n
    ensures n !in ady ==> |r| == |orden| + 1 && r[|orden|] == n
  {
    if n in ady then orden else orden + [n]
  }

  /** The adjacency once (d, w) is appended to the list of `o` and then (o, w) to the list of `d`. */
  function ConArista(ady: Adjacency, o: string, d: string, w: int): (r: Adjacency)
    requires o in ady && d in ady
    ensures r.Keys == ady.Keys
    ensures forall k :: k in ady && k != o && k != d ==> r[k] == ady[k]
  {
    var r1 := ady[o := ady[o] + [(d, w)]];
    r1[d := r1[d] + [(o, w)]]
  }

  /** What connecting `o` and `d` does to the graph as a whole: the keys gain both
      endpoints, each endpoint's list gains the entry towards the other (a loop gains
      both entries), the enumeration gains the new endpoints in order, and every other
      list is as it was. */
  lemma ConexionEfecto(ady: Adjacency, orden: seq<string>, o: string, d: string, w: int)
    ensures var a2 := ConNodo(ConNodo(ady, o), d);
            var r := ConArista(a2, o, d, w);
            && r.Keys == ady.Keys + {o, d}
            && OrdenConNodo(ConNodo(ady, o), OrdenConNodo(ady, orden, o), d)
               == orden + (if o in ady then [] else [o]) + (if d in ady || d == o then [] else [d])
            && (o != d ==> r[o] == (if o in ady then ady[o] else []) + [(d, w)] &&
                           r[d] == (if d in ady then ady[d] else []) + [(o, w)])
            && (o == d ==> r[o] == (if o in ady then ady[o] else []) + [(d, w), (o, w)])
            && (forall k :: k in ady && k != o && k != d ==> r[k] == ady[k])
  {
    var a1 := ConNodo(ady, o);
    var a2 := ConNodo(a1, d);
    ConexionOrden(ady, orden, o, d);
    assert a2[o] == (if o in ady then ady[o] else []);
    assert a2[d] == (if d in ady then ady[d] else []);
    ConexionListas(a2, o, d, w);
  }

  /** Connecting two buildings keeps a valid graph valid: the enumeration exact, every
      entry inside the graph and the graph undirected. */
  lemma ConexionValida(ady: Adjacency, orden: seq<string>, o: string, d: string, w: int)
    requires KeyOrder(ady, orden) && EdgesInside(ady) && Symmetric(ady)
    ensures var a1 := ConNodo(ady, o);
            var a2 := ConNodo(a1, d);
            var r := ConArista(a2, o, d, w);
            var orden2 := OrdenConNodo(a1, OrdenConNodo(ady, orden, o), d);
            KeyOrder(r, orden2) && EdgesInside(r) && Symmetric(r)
  {
    var a1 := ConNodo(ady, o);
    var o1 := OrdenConNodo(ady, orden, o);
    if o !in ady {
      AddNodeKeeps(ady, o);
      KeyOrderAdd(ady, orden, o);
    }
    assert EdgesInside(a1) && Symmetric(a1) && KeyOrder(a1, o1);
    var a2 := ConNodo(a1, d);
    var o2 := OrdenConNodo(a1, o1, d);
    if d !in a1 {
      AddNodeKeeps(a1, d);
      KeyOrderAdd(a1, o1, d);
    }
    assert EdgesInside(a2) && Symmetric(a2) && KeyOrder(a2, o2);
    var r := ConArista(a2, o, d, w);
    ConnectKeeps(a2, o, d, w, r);
    assert r.Keys == a2.Keys;
  }

  lemma ConexionOrden(ady: Adjacency, orden: seq<string>, o: string, d: string)
    ensures OrdenConNodo(ConNodo(ady, o), OrdenConNodo(ady, orden, o), d)
            == orden + (if o in ady then [] else [o]) + (if d in ady || d == o then [] else [d])
  {
  }

  lemma ConexionListas(a2: Adjacency, o: string, d: string, w: int)
    requires o in a2 && d in a2
    ensures var r := ConArista(a2, o, d, w);
            && r.Keys == a2.Keys
            && (o != d ==> r[o] == a2[o] + [(d, w)] && r[d] == a2[d] + [(o, w)])
            && (o == d ==> r[o] == a2[o] + [(d, w), (o, w)])
            && (forall k :: k in a2 && k != o && k != d ==> r[k] == a2[k])
  {
    var r := ConArista(a2, o, d, w);
    if o == d {
      assert r[o] == a2[o] + [(d, w)] + [(o, w)];
      assert a2[o] + [(d, w)] + [(o, w)] == a2[o] + [(d, w), (o, w)];
    }
  }

  /** Breadth-first search from the first key: true exactly when every key is visited,
      that is when every node can be reached from the first one. */
  method Conexo(ady: Adjacency, orden: seq<string>) returns (r: bool)
    requires KeyOrder(ady, orden) && EdgesInside(ady)
    ensures r <==> (orden == [] || forall k :: k in ady ==> Reachable(ady, orden[0], k))
  {
    if |ady| == 0 {
      return true;
    }
    assert orden[0] in ady;
    var inicio := orden[0];
    var visitados: set<string> := {inicio};
    var cola: seq<string> := [inicio];
    ghost var camino: map<string, seq<(string, int)>> := map[inicio := []];
    while |cola| > 0
      invariant visitados <= ady.Keys
      invariant forall v :: v in cola ==> v in visitados
      invariant forall v :: v in visitados ==> v in camino && Walk(ady, inicio, camino[v], v)
      invariant forall v, e :: v in visitados && v !in cola && e in ady[v] ==> e.0 in visitados
      decreases ady.Keys - visitados, |cola|
    {
      var actual := cola[0];
      cola := cola[1..];
      visitados, cola, camino := VisitarVecinos(ady, inicio, actual, visitados, cola, camino);
    }
    r := |visitados| == |ady|;
    VisitadosTodos(ady, inicio, visitados, camino);
  }

  /** The inner loop of the search: every neighbour of `actual` not yet visited is
      marked visited and queued, with a walk to it through `actual`. */
  method VisitarVecinos(ady: Adjacency, ghost inicio: string, actual: string,
                        visitados: set<string>, cola: seq<string>,
                        ghost camino: map<string, seq<(string, int)>>)
    returns (visitados2: set<string>, cola2: seq<string>, ghost camino2: map<string, seq<(string, int)>>)
    requires EdgesInside(ady) && actual in visitados && visitados <= ady.Keys
    requires forall v :: v in cola ==> v in visitados
    requires forall v :: v in visitados ==> v in camino && Walk(ady, inicio, camino[v], v)
    ensures visitados <= visitados2 <= ady.Keys
    ensures visitados2 == visitados ==> cola2 == cola
    ensures forall v :: v in cola ==> v in cola2
    ensures forall v :: v in cola2 ==> v in visitados2
    ensures forall v :: v in visitados2 ==> v in camino2 && Walk(ady, inicio, camino2[v], v)
    ensures forall v :: v in visitados2 && v !in visitados ==> v in cola2
    ensures forall e :: e in ady[actual] ==> e.0 in visitados2
  {
    visitados2, cola2, camino2 := visitados, cola, camino;
    var vecinos := ady[actual];
    for i := 0 to |vecinos|
      invariant visitados <= visitados2 <= ady.Keys
      invariant visitados2 == visitados ==> cola2 == cola
      invariant forall v :: v in cola ==> v in cola2
      invariant forall v :: v in cola2 ==> v in visitados2
      invariant forall v :: v in visitados2 ==> v in camino2 && Walk(ady, inicio, camino2[v], v)
      invariant forall v :: v in visitados2 && v !in visitados ==> v in cola2
      invariant forall j :: 0 <= j < i ==> vecinos[j].0 in visitados2
    {
      var vecino := vecinos[i];
      if vecino.0 !in visitados2 {
        WalkSnoc(ady, inicio, camino2[actual], vecino);
        camino2 := camino2[vecino.0 := camino2[actual] + [vecino]];
        visitados2 := visitados2 + {vecino.0};
        cola2 := cola2 + [vecino.0];
      }
    }
  }

  /** Once the queue is empty the visited set is closed under adjacency, so it holds
      every node reachable from the start; it is the whole graph exactly when it is as
      large as the graph. */
  lemma VisitadosTodos(ady: Adjacency, inicio: string, visitados: set<string>,
                       camino: map<string, seq<(string, int)>>)
    requires inicio in visitados && visitados <= ady.Keys && Closed(ady, visitados)
    requires forall v :: v in visitados ==> v in camino && Walk(ady, inicio, camino[v], v)
    ensures (|visitados| == |ady|) <==> forall k :: k in ady ==> Reachable(ady, inicio, k)
  {
    assert |ady| == |ady.Keys|;
    if |visitados| == |ady| {
      SubsetCard(visitados, ady.Keys);
      forall k | k in ady
        ensures Reachable(ady, inicio, k)
      {
        assert Walk(ady, inicio, camino[k], k);
      }
    } else {
      assert visitados != ady.Keys;
      assert visitados < ady.Keys;
      var k :| k in ady && k !in visitados;
      FueraNoAlcanzable(ady, inicio, visitados, k);
    }
  }

  /** A node outside a closed set holding the start cannot be reached from it. */
  lemma FueraNoAlcanzable(ady: Adjacency, inicio: string, C: set<string>, k: string)
    requires inicio in C && Closed(ady, C) && k !in C
    ensures !Reachable(ady, inicio, k)
  {
    forall steps | IsWalk(ady, inicio, steps)
      ensures End(inicio, steps) != k
    {
      ClosedContainsWalks(ady, C, inicio, steps);
    }
  }

  /** The initialisation loop: every key at Infinite, without predecessor. */
  method Inicializar(orden: seq<string>) returns (dist: map<string, Distance>, prev: map<string, Option<string>>)
    ensures forall k :: k in dist <==> k in orden
    ensures forall k :: k in prev <==> k in orden
    ensures forall k :: k in dist ==> dist[k] == Infinite && prev[k] == None
  {
    dist, prev := map[], map[];
    for i := 0 to |orden|
      invariant forall k :: k in dist <==> k in orden[..i]
      invariant forall k :: k in prev <==> k in orden[..i]
      invariant forall k :: k in dist ==> dist[k] == Infinite && prev[k] == None
    {
      dist := dist[orden[i] := Infinite];
      prev := prev[orden[i] := None];
    }
    assert orden[..|orden|] == orden;
  }

  /** The linear scan for the unvisited node of least tentative distance. A node at
      Infinite is never chosen (the comparison with the sentinel is strict), and among
      equally distant nodes the first one in enumeration order wins. */
  method MenorNoVisitado(orden: seq<string>, visitados: set<string>, dist: map<string, Distance>)
    returns (actual: Option<string>)
    requires forall k :: k in orden ==> k in dist
    ensures actual.None? <==> forall k :: k in orden && k !in visitados ==> dist[k].Infinite?
    ensures actual.Some? ==>
      && actual.value in orden && actual.value !in visitados && dist[actual.value].Finite?
      && (forall k :: k in orden && k !in visitados ==> !Less(dist[k], dist[actual.value]))
    ensures actual.Some? ==>
      exists j :: 0 <= j < |orden| && orden[j] == actual.value &&
        forall i :: 0 <= i < j && orden[i] !in visitados ==> Less(dist[actual.value], dist[orden[i]])
  {
    actual := None;
    var menor := Infinite;
    ghost var at := 0;
    for i := 0 to |orden|
      invariant actual.None? ==> menor == Infinite
      invariant actual.None? ==> forall k :: 0 <= k < i && orden[k] !in visitados ==> dist[orden[k]].Infinite?
      invariant actual.Some? ==>
        && 0 <= at < i && orden[at] == actual.value && actual.value !in visitados
        && dist[actual.value] == menor && menor.Finite?
      invariant actual.Some? ==> forall k :: 0 <= k < i && orden[k] !in visitados ==> !Less(dist[orden[k]], menor)
      invariant actual.Some? ==> forall k :: 0 <= k < at && orden[k] !in visitados ==> Less(menor, dist[orden[k]])
    {
      var nodo := orden[i];
      if nodo !in visitados && Less(dist[nodo], menor) {
        menor := dist[nodo];
        actual := Some(nodo);
        at := i;
      }
    }
  }

  /** The relaxation pass that skips visited neighbours: `visitados` already holds `x`. */
  method RelajarNoVisitados(ady: Adjacency, x: string, visitados: set<string>,
                            dist: map<string, Distance>, prev: map<string, Option<string>>)
    returns (dist2: map<string, Distance>, prev2: map<string, Option<string>>)
    requires EdgesInside(ady) && x in ady && x in visitados
    requires forall k :: k in ady ==> k in dist && k in prev
    requires dist[x].Finite?
    ensures Relaxed(ady, x, visitados, dist, prev, dist2, prev2)
  {
    dist2, prev2 := dist, prev;
    var vecinos := ady[x];
    for i := 0 to |vecinos|
      invariant Cambios(ady, x, visitados, dist, prev, dist2, prev2) && dist2[x] == dist[x]
      invariant Cubiertos(x, visitados, dist, dist2, vecinos[..i])
    {
      var vecino := vecinos[i];
      ghost var d0, p0 := dist2, prev2;
      if vecino.0 !in visitados {
        var nuevaDist := Finite(dist2[x].value + vecino.1);
        if Less(nuevaDist, dist2[vecino.0]) {
          dist2 := dist2[vecino.0 := nuevaDist];
          prev2 := prev2[vecino.0 := Some(x)];
        }
      }
      PasoRelajacion(ady, x, visitados, dist, prev, d0, p0, vecinos, i, dist2, prev2);
    }
    CubiertosTodos(ady, x, visitados, dist, dist2);
  }

  /** The relaxation pass without the guard, which also reconsiders visited neighbours. */
  method RelajarTodos(ady: Adjacency, x: string,
                      dist: map<string, Distance>, prev: map<string, Option<string>>)
    returns (dist2: map<string, Distance>, prev2: map<string, Option<string>>)
    requires EdgesInside(ady) && NonNegative(ady) && x in ady
    requires forall k :: k in ady ==> k in dist && k in prev
    requires dist[x].Finite?
    ensures RelaxedAll(ady, x, dist, prev, dist2, prev2)
  {
    dist2, prev2 := dist, prev;
    var vecinos := ady[x];
    for i := 0 to |vecinos|
      invariant Cambios(ady, x, {}, dist, prev, dist2, prev2) && dist2[x] == dist[x]
      invariant Cubiertos(x, {}, dist, dist2, vecinos[..i])
    {
      var vecino := vecinos[i];
      ghost var d0, p0 := dist2, prev2;
      var nuevaDist := Finite(dist2[x].value + vecino.1);
      if Less(nuevaDist, dist2[vecino.0]) {
        dist2 := dist2[vecino.0 := nuevaDist];
        prev2 := prev2[vecino.0 := Some(x)];
      }
      PasoRelajacion(ady, x, {}, dist, prev, d0, p0, vecinos, i, dist2, prev2);
    }
    CubiertosTodos(ady, x, {}, dist, dist2);
  }

  /** The walk back from `fin` along the predecessors, inserting each node in front.
      A node at Infinite has no predecessor, so it comes back alone; otherwise the nodes
      form a route from the source whose weights add up to the distance of `fin`. */
  method Reconstruir(ady: Adjacency, s: string, S: set<string>, dist: map<string, Distance>,
                     prev: map<string, Option<string>>, ghost rank: map<string, nat>, fin: string)
    returns (ruta: seq<string>)
    requires forall k :: k in prev <==> k in ady
    requires forall k :: k in ady ==> k in dist
    requires s in dist && dist[s] == Finite(0) && (s in ady ==> prev[s] == None)
    requires Ranked(S, rank) && Forest(ady, S, dist, prev, rank) && Reached(ady, s, dist, prev)
    requires fin in ady
    ensures |ruta| >= 1 && ruta[|ruta| - 1] == fin
    ensures dist[fin].Infinite? ==> ruta == [fin]
    ensures fin == s ==> ruta == [fin]
    ensures dist[fin].Finite? ==> Route(ady, ruta, s, fin, dist[fin].value)
  {
    ruta := [];
    var temp := Some(fin);
    ghost var cur := fin;
    ghost var pasos: seq<(string, int)> := [];
    while temp.Some?
      invariant temp.Some? ==> temp.value in prev
      invariant ruta == [] ==> temp == Some(fin) && pasos == []
      invariant ruta != [] ==> cur in ady && temp == prev[cur]
      invariant ruta != [] ==> Walk(ady, cur, pasos, fin) && Nodes(cur, pasos) == ruta
      invariant ruta != [] && dist[fin].Finite? ==>
        dist[cur].Finite? && Cost(pasos) == dist[fin].value - dist[cur].value
      invariant ruta != [] && (dist[fin].Infinite? || fin == s) ==> ruta == [fin] && cur == fin
      decreases if temp.Some? then Rango(rank, S, temp.value) + 1 else 0
    {
      var v := temp.value;
      if ruta == [] {
        assert IsWalk(ady, v, []) && End(v, []) == v;
        ruta := [v];
        assert Nodes(v, pasos) == ruta;
        assert Walk(ady, v, pasos, fin);
      } else {
        var e := (cur, dist[cur].value - dist[v].value);
        PasoAtras(ady, S, dist, rank, cur, v, pasos, fin);
        pasos := [e] + pasos;
        ruta := [v] + ruta;
      }
      cur := v;
      temp := prev[v];
      if temp.Some? {
        assert PredOk(ady, S, dist, rank, v, temp.value);
      }
    }
    NodesEnd(cur, pasos);
  }

  /** One step back along a predecessor: the entry from `v` to `cur` extends the walk
      from `cur` to `fin` into one from `v`, by exactly the distance gained. */
  lemma PasoAtras(ady: Adjacency, S: set<string>, dist: map<string, Distance>, rank: map<string, nat>,
                  cur: string, v: string, pasos: seq<(string, int)>, fin: string)
    requires PredOk(ady, S, dist, rank, cur, v)
    requires Walk(ady, cur, pasos, fin) && fin in dist
    requires dist[fin].Finite? ==> Cost(pasos) == dist[fin].value - dist[cur].value
    ensures var e := (cur, dist[cur].value - dist[v].value);
            Walk(ady, v, [e] + pasos, fin) && Nodes(v, [e] + pasos) == [v] + Nodes(cur, pasos) &&
            (dist[fin].Finite? ==> Cost([e] + pasos) == dist[fin].value - dist[v].value)
  {
    var e := (cur, dist[cur].value - dist[v].value);
    assert e in ady[v] && e.0 == cur;
    WalkCons(ady, v, e, pasos, fin);
  }
}
