/**
 * Walks, their costs and reachability over the adjacency map kept by both copies of
 * the building graph, and the invariant of their linear-scan Dijkstra loop.
 *
 * A walk is a start node followed by the adjacency entries (neighbour, weight) taken
 * one after the other; because the graph may hold parallel edges between the same two
 * buildings, the entries (and not only the node names) fix what a route weighs.
 */
module GraphTheory {
  import opened Options

  /** Node name to its adjacency list of (neighbour, weight) entries. */
  type Adjacency = map<string, seq<(string, int)>>

  /** A tentative distance; `Infinite` stands for the source's int.MaxValue sentinel. */
  datatype Distance = Finite(value: int) | Infinite

  /** The source's `<` on distances, with Infinite above every finite value. */
  predicate Less(a: Distance, b: Distance) {
    a.Finite? && (b.Infinite? || a.value < b.value)
  }

  /** `Less` is the source's integer `<` once `Infinite` is written as any bound `m`
      above every finite distance compared, as `int.MaxValue` is. */
  lemma LessComoEntero(a: Distance, b: Distance, m: int)
    requires a.Finite? ==> a.value < m
    requires b.Finite? ==> b.value < m
    ensures Less(a, b) <==> (if a.Finite? then a.value else m) < (if b.Finite? then b.value else m)
  {
  }

  // ----- Properties of an adjacency map

  /** Every adjacency entry names a node of the graph. */
  predicate EdgesInside(ady: Adjacency) {
    forall a, e :: a in ady && e in ady[a] ==> e.0 in ady
  }

  /** Undirected, counting multiplicity: `(b, w)` occurs in the list of `a` as often as
      `(a, w)` occurs in the list of `b`. */
  ghost predicate Symmetric(ady: Adjacency) {
    forall a, b, w :: a in ady && b in ady ==> multiset(ady[a])[(b, w)] == multiset(ady[b])[(a, w)]
  }

  predicate NonNegative(ady: Adjacency) {
    forall a, e :: a in ady && e in ady[a] ==> e.1 >= 0
  }

  /** No adjacency entry leads out of `S`. */
  predicate Closed(ady: Adjacency, S: set<string>) {
    forall a, e :: a in S && a in ady && e in ady[a] ==> e.0 in S
  }

  /** No name occurs twice. */
  predicate Distinct(s: seq<string>) {
    forall i, j :: 0 <= i < j < |s| ==> s[i] != s[j]
  }

  /** The route and the total distance Dijkstra reports; `Infinite` is the source's int.MaxValue. */
  datatype DijkstraResult = DijkstraResult(ruta: seq<string>, distanciaTotal: Distance)

  /** A new node with an empty list keeps the adjacency well formed and undirected. */
  lemma AddNodeKeeps(ady: Adjacency, n: string)
    requires n !in ady && EdgesInside(ady) && Symmetric(ady)
    ensures EdgesInside(ady[n := []]) && Symmetric(ady[n := []])
  {
    var r := ady[n := []];
    forall a, b, w | a in r && b in r
      ensures multiset(r[a])[(b, w)] == multiset(r[b])[(a, w)]
    {
      if a != n && b == n {
        assert (b, w) !in ady[a];
      } else if a == n && b != n {
        assert (a, w) !in ady[b];
      }
    }
  }

  /** How many times entry `p` occurs in the list of `a` once `(d, w)` has been appended
      to the list of `o` and then `(o, w)` to the list of `d`. */
  lemma ConnectCount(ady: Adjacency, o: string, d: string, w: int, r: Adjacency, a: string, p: (string, int))
    requires o in ady && d in ady && a in ady
    requires r == ady[o := ady[o] + [(d, w)]][d := ady[o := ady[o] + [(d, w)]][d] + [(o, w)]]
    ensures multiset(r[a])[p] == multiset(ady[a])[p]
                                 + (if a == o && p == (d, w) then 1 else 0)
                                 + (if a == d && p == (o, w) then 1 else 0)
  {
    var r1 := ady[o := ady[o] + [(d, w)]];
    assert multiset(r1[a])[p] == multiset(ady[a])[p] + (if a == o && p == (d, w) then 1 else 0) by {
      if a == o {
        assert multiset(r1[a]) == multiset(ady[a]) + multiset{(d, w)};
      }
    }
    if a == d {
      assert multiset(r[a]) == multiset(r1[a]) + multiset{(o, w)};
    }
  }

  /** Appending the two entries of an undirected connection keeps the adjacency well
      formed and undirected. */
  lemma ConnectKeeps(ady: Adjacency, o: string, d: string, w: int, r: Adjacency)
    requires o in ady && d in ady && EdgesInside(ady) && Symmetric(ady)
    requires r == ady[o := ady[o] + [(d, w)]][d := ady[o := ady[o] + [(d, w)]][d] + [(o, w)]]
    ensures EdgesInside(r) && Symmetric(r)
  {
    ConnectSymmetric(ady, o, d, w, r);
    ConnectInside(ady, o, d, w, r);
  }

  lemma ConnectSymmetric(ady: Adjacency, o: string, d: string, w: int, r: Adjacency)
    requires o in ady && d in ady && Symmetric(ady)
    requires r == ady[o := ady[o] + [(d, w)]][d := ady[o := ady[o] + [(d, w)]][d] + [(o, w)]]
    ensures Symmetric(r)
  {
    forall a, b, w' | a in r && b in r
      ensures multiset(r[a])[(b, w')] == multiset(r[b])[(a, w')]
    {
      ConnectCount(ady, o, d, w, r, a, (b, w'));
      ConnectCount(ady, o, d, w, r, b, (a, w'));
      assert multiset(ady[a])[(b, w')] == multiset(ady[b])[(a, w')];
    }
  }

  lemma ConnectInside(ady: Adjacency, o: string, d: string, w: int, r: Adjacency)
    requires o in ady && d in ady && EdgesInside(ady)
    requires r == ady[o := ady[o] + [(d, w)]][d := ady[o := ady[o] + [(d, w)]][d] + [(o, w)]]
    ensures EdgesInside(r)
  {
    forall a, e | a in r && e in r[a]
      ensures e.0 in r
    {
      ConnectCount(ady, o, d, w, r, a, e);
      assert multiset(r[a])[e] > 0;
    }
  }

  // ----- Walks

  /** The node a walk from `s` stands on before it takes step `i`. */
  function Before(s: string, steps: seq<(string, int)>, i: nat): string
    requires i <= |steps|
  {
    if i == 0 then s else steps[i - 1].0
  }

  function End(s: string, steps: seq<(string, int)>): string {
    Before(s, steps, |steps|)
  }

  /** Each step is an entry of the adjacency list of the node the walk stands on. */
  ghost predicate IsWalk(ady: Adjacency, s: string, steps: seq<(string, int)>) {
    forall i {:trigger Before(s, steps, i)} :: 0 <= i < |steps| ==> Before(s, steps, i) in ady && steps[i] in ady[Before(s, steps, i)]
  }

  ghost predicate Walk(ady: Adjacency, s: string, steps: seq<(string, int)>, t: string) {
    IsWalk(ady, s, steps) && End(s, steps) == t
  }

  /** The sum of the weights of the steps. */
  function Cost(steps: seq<(string, int)>): int {
    if steps == [] then 0 else Cost(steps[..|steps| - 1]) + steps[|steps| - 1].1
  }

  /** The node names a walk visits, starting node included. */
  function Nodes(s: string, steps: seq<(string, int)>): (r: seq<string>)
    ensures |r| == |steps| + 1 && r[0] == s
    ensures forall i :: 0 <= i < |steps| ==> r[i + 1] == steps[i].0
  {
    [s] + seq(|steps|, i requires 0 <= i < |steps| => steps[i].0)
  }

  /** The last node a walk visits is where it ends. */
  lemma NodesEnd(s: string, steps: seq<(string, int)>)
    ensures Nodes(s, steps)[|steps|] == End(s, steps)
  {
  }

  /** In a well formed undirected graph, each entry of the list of `a` is matched, as
      often as it occurs, by the entry back to `a` in the list of its neighbour. */
  lemma Reciprocal(ady: Adjacency, a: string)
    requires EdgesInside(ady) && Symmetric(ady) && a in ady
    ensures forall e :: e in ady[a] ==> e.0 in ady && multiset(ady[e.0])[(a, e.1)] == multiset(ady[a])[e]
  {
    forall e | e in ady[a]
      ensures e.0 in ady && multiset(ady[e.0])[(a, e.1)] == multiset(ady[a])[e]
    {
      SymmetricAt(ady, a, e.0, e.1);
    }
  }

  ghost predicate Reachable(ady: Adjacency, s: string, t: string) {
    exists steps :: Walk(ady, s, steps, t)
  }

  /** `d` is at most the cost of every walk from `s` to `t`. */
  ghost predicate Shortest(ady: Adjacency, s: string, t: string, d: int) {
    forall steps :: Walk(ady, s, steps, t) ==> d <= Cost(steps)
  }

  /** `ruta` lists the nodes of some walk from `s` to `t` whose weights add up to `d`. */
  ghost predicate Route(ady: Adjacency, ruta: seq<string>, s: string, t: string, d: int) {
    exists steps :: Walk(ady, s, steps, t) && Nodes(s, steps) == ruta && Cost(steps) == d
  }

  ghost predicate Adjacent(ady: Adjacency, a: string, b: string) {
    a in ady && exists e :: e in ady[a] && e.0 == b
  }

  lemma {:induction false} CostCons(e: (string, int), steps: seq<(string, int)>)
    ensures Cost([e] + steps) == e.1 + Cost(steps)
    decreases |steps|
  {
    if steps != [] {
      var n := |steps|;
      assert ([e] + steps)[..n] == [e] + steps[..n - 1];
      CostCons(e, steps[..n - 1]);
    }
  }

  /** The nodes of a walk with one more step in front. */
  lemma NodesCons(u: string, e: (string, int), steps: seq<(string, int)>)
    ensures Nodes(u, [e] + steps) == [u] + Nodes(e.0, steps)
  {
    var w := [e] + steps;
    var n, m := Nodes(u, w), [u] + Nodes(e.0, steps);
    forall i | 0 <= i < |n|
      ensures n[i] == m[i]
    {
      if i > 1 {
        assert w[i - 1] == steps[i - 2];
      }
    }
  }

  /** Prepending an adjacency entry of `u` to a walk from its neighbour. */
  lemma WalkCons(ady: Adjacency, u: string, e: (string, int), steps: seq<(string, int)>, t: string)
    requires u in ady && e in ady[u] && Walk(ady, e.0, steps, t)
    ensures Walk(ady, u, [e] + steps, t)
    ensures Cost([e] + steps) == e.1 + Cost(steps)
    ensures Nodes(u, [e] + steps) == [u] + Nodes(e.0, steps)
  {
    var w := [e] + steps;
    forall i | 0 <= i < |w|
      ensures Before(u, w, i) in ady && w[i] in ady[Before(u, w, i)]
    {
      if i > 0 {
        assert w[i] == steps[i - 1];
        assert Before(u, w, i) == Before(e.0, steps, i - 1);
      }
    }
    assert End(u, w) == End(e.0, steps);
    NodesCons(u, e, steps);
    CostCons(e, steps);
  }

  /** Dropping the last step of a walk leaves a walk from which that step was taken. */
  lemma WalkInit(ady: Adjacency, s: string, steps: seq<(string, int)>)
    requires IsWalk(ady, s, steps) && steps != []
    ensures IsWalk(ady, s, steps[..|steps| - 1])
    ensures End(s, steps[..|steps| - 1]) in ady
    ensures steps[|steps| - 1] in ady[End(s, steps[..|steps| - 1])]
  {
    var p := steps[..|steps| - 1];
    forall i | 0 <= i < |p|
      ensures Before(s, p, i) in ady && p[i] in ady[Before(s, p, i)]
    {
      assert Before(s, p, i) == Before(s, steps, i);
    }
    assert End(s, p) == Before(s, steps, |steps| - 1);
  }

  /** Extending a walk by an adjacency entry of the node it ends on. */
  lemma WalkSnoc(ady: Adjacency, s: string, steps: seq<(string, int)>, e: (string, int))
    requires IsWalk(ady, s, steps) && End(s, steps) in ady && e in ady[End(s, steps)]
    ensures Walk(ady, s, steps + [e], e.0)
  {
    var w := steps + [e];
    forall i | 0 <= i < |w|
      ensures Before(s, w, i) in ady && w[i] in ady[Before(s, w, i)]
    {
      assert Before(s, w, i) == Before(s, steps, i);
      if i < |steps| {
        assert w[i] == steps[i];
      }
    }
  }

  /** A walk that starts inside a closed set never leaves it. */
  lemma {:induction false} ClosedContainsWalks(ady: Adjacency, S: set<string>, s: string, steps: seq<(string, int)>)
    requires s in S && Closed(ady, S) && IsWalk(ady, s, steps)
    ensures End(s, steps) in S
    decreases |steps|
  {
    if steps != [] {
      WalkInit(ady, s, steps);
      ClosedContainsWalks(ady, S, s, steps[..|steps| - 1]);
    }
  }

  /** A route starts at `s`, ends at `t`, and each of its nodes is adjacent to the next. */
  lemma RouteAdjacent(ady: Adjacency, ruta: seq<string>, s: string, t: string, d: int)
    requires Route(ady, ruta, s, t, d)
    ensures |ruta| >= 1 && ruta[0] == s && ruta[|ruta| - 1] == t
    ensures forall i :: 0 <= i < |ruta| - 1 ==> Adjacent(ady, ruta[i], ruta[i + 1])
  {
    var steps: seq<(string, int)> :| Walk(ady, s, steps, t) && Nodes(s, steps) == ruta && Cost(steps) == d;
    forall i | 0 <= i < |ruta| - 1
      ensures Adjacent(ady, ruta[i], ruta[i + 1])
    {
      assert ruta[i] == Before(s, steps, i);
      assert steps[i] in ady[ruta[i]] && steps[i].0 == ruta[i + 1];
    }
  }

  /** Walking `p` and then `q` from where `p` ends. */
  lemma {:induction false} WalkAppend(ady: Adjacency, s: string, p: seq<(string, int)>, m: string,
                                      q: seq<(string, int)>, t: string)
    requires Walk(ady, s, p, m) && Walk(ady, m, q, t)
    ensures Walk(ady, s, p + q, t)
    decreases |q|
  {
    if q == [] {
      assert p + q == p;
    } else {
      var q1, e := q[..|q| - 1], q[|q| - 1];
      WalkInit(ady, m, q);
      WalkAppend(ady, s, p, m, q1, End(m, q1));
      assert (p + q1) + [e] == p + q;
      WalkSnoc(ady, s, p + q1, e);
    }
  }

  /** In an undirected graph every walk can be taken backwards. */
  lemma {:induction false} WalkReverse(ady: Adjacency, s: string, steps: seq<(string, int)>)
    returns (back: seq<(string, int)>)
    requires EdgesInside(ady) && Symmetric(ady) && s in ady && IsWalk(ady, s, steps)
    ensures Walk(ady, End(s, steps), back, s)
    decreases |steps|
  {
    if steps == [] {
      back := [];
      assert IsWalk(ady, s, back);
    } else {
      var p, e := steps[..|steps| - 1], steps[|steps| - 1];
      WalkInit(ady, s, steps);
      var u := End(s, p);
      var backP := WalkReverse(ady, s, p);
      assert multiset(ady[u])[(e.0, e.1)] > 0;
      assert e.0 in ady;
      SymmetricAt(ady, u, e.0, e.1);
      WalkCons(ady, e.0, (u, e.1), backP, s);
      back := [(u, e.1)] + backP;
    }
  }

  lemma SymmetricAt(ady: Adjacency, a: string, b: string, w: int)
    requires Symmetric(ady) && a in ady && b in ady
    ensures multiset(ady[a])[(b, w)] == multiset(ady[b])[(a, w)]
  {
  }

  /** When every node can be reached from one node `r0`, each of two nodes is reached
      from the other through `r0`. */
  lemma ReachableThrough(ady: Adjacency, r0: string, a: string, b: string)
    requires EdgesInside(ady) && Symmetric(ady) && r0 in ady
    requires Reachable(ady, r0, a) && Reachable(ady, r0, b)
    ensures Reachable(ady, a, b)
  {
    var pa: seq<(string, int)> :| Walk(ady, r0, pa, a);
    var pb: seq<(string, int)> :| Walk(ady, r0, pb, b);
    var back := WalkReverse(ady, r0, pa);
    WalkAppend(ady, a, back, r0, pb, b);
  }

  /** A sequence without repetitions has as many distinct elements as positions. */
  lemma {:induction false} DistinctCard(s: seq<string>)
    requires Distinct(s)
    ensures |set x | x in s| == |s|
    decreases |s|
  {
    if s != [] {
      var t := s[..|s| - 1];
      assert Distinct(t);
      DistinctCard(t);
      assert (set x | x in s) == (set x | x in t) + {s[|s| - 1]};
      assert s[|s| - 1] !in t;
    }
  }

  lemma RouteReachable(ady: Adjacency, ruta: seq<string>, s: string, t: string, d: int)
    requires Route(ady, ruta, s, t, d)
    ensures Reachable(ady, s, t)
  {
  }

  /** In an undirected graph, every node reachable from the first one is the same as
      every node reachable from every other. */
  lemma ConnectedFromFirst(ady: Adjacency, orden: seq<string>)
    requires EdgesInside(ady) && Symmetric(ady)
    requires forall k :: k in ady <==> k in orden
    ensures (orden == [] || forall k :: k in ady ==> Reachable(ady, orden[0], k)) <==>
            (forall a, b :: a in ady && b in ady ==> Reachable(ady, a, b))
  {
    if orden != [] && forall k :: k in ady ==> Reachable(ady, orden[0], k) {
      forall a, b | a in ady && b in ady
        ensures Reachable(ady, a, b)
      {
        ReachableThrough(ady, orden[0], a, b);
      }
    }
  }

  /** A subset at least as large as its superset is the superset. */
  lemma SubsetCard(A: set<string>, B: set<string>)
    requires A <= B && |B| <= |A|
    ensures A == B
  {
    if A != B {
      var x :| x in B && x !in A;
      assert A <= B - {x};
      assert B == (B - {x}) + {x};
      SubsetCardLe(A, B - {x});
    }
  }

  lemma {:induction false} SubsetCardLe(A: set<string>, B: set<string>)
    requires A <= B
    ensures |A| <= |B|
    decreases B
  {
    if A != {} {
      var x :| x in A;
      SubsetCardLe(A - {x}, B - {x});
    }
  }

  // ----- The invariant of the Dijkstra main loop
  //
  //   S     the settled set (visitados)       D     the dist map
  //   P     the prev map, None for null       rank  the order in which S was settled

  /** Every settled node carries a distance that no walk from `s` undercuts. */
  ghost predicate SettledOptimal(ady: Adjacency, s: string, S: set<string>, D: map<string, Distance>) {
    forall v :: v in S ==> v in D && D[v].Finite? && Shortest(ady, s, v, D[v].value)
  }

  /** Every adjacency entry leading out of the settled set has been relaxed. */
  predicate FrontierRelaxed(ady: Adjacency, S: set<string>, D: map<string, Distance>) {
    forall u, e :: u in S && u in ady && e in ady[u] && e.0 !in S ==>
      u in D && e.0 in D && D[u].Finite? && D[e.0].Finite? && D[e.0].value <= D[u].value + e.1
  }

  /** No settled distance exceeds the tentative distance of an unsettled node. */
  predicate SettledFirst(ady: Adjacency, S: set<string>, D: map<string, Distance>) {
    forall u, v :: u in S && u in D && v in ady && v !in S && v in D && D[u].Finite? && D[v].Finite? ==>
      D[u].value <= D[v].value
  }

  /** `u`, the predecessor of `v`, is settled, was settled before `v`, and an entry
      from `u` to `v` weighs exactly the distance gained. */
  ghost predicate PredOk(ady: Adjacency, S: set<string>, D: map<string, Distance>, rank: map<string, nat>, v: string, u: string) {
    && u in S && u in ady && u in D && v in D
    && D[u].Finite? && D[v].Finite?
    && (v, D[v].value - D[u].value) in ady[u]
    && (v in S ==> v in rank && u in rank && rank[u] < rank[v])
  }

  /** The position of `v` in the settling order; unsettled nodes come after every settled one. */
  function Rango(rank: map<string, nat>, S: set<string>, v: string): nat {
    if v in rank then rank[v] else |S|
  }

  /** The key sets, the source's entry, and the settled nodes' finite distances. */
  ghost predicate Domains(ady: Adjacency, s: string, S: set<string>, D: map<string, Distance>,
                          P: map<string, Option<string>>)
  {
    && (forall k :: k in D <==> k in ady || k == s)
    && (forall k :: k in P <==> k in ady)
    && (forall v :: v in S ==> v in ady)
    && D[s] == Finite(0)
    && (s in ady ==> P[s] == None)
    && (forall v :: v in S ==> D[v].Finite?)
    && (S == {} || s in S)
  }

  /** `rank` numbers the settled nodes below |S|. */
  ghost predicate Ranked(S: set<string>, rank: map<string, nat>) {
    && (forall v :: v in rank <==> v in S)
    && (forall v :: v in rank ==> rank[v] < |S|)
  }

  /** Every recorded predecessor is a valid one. */
  ghost predicate Forest(ady: Adjacency, S: set<string>, D: map<string, Distance>,
                         P: map<string, Option<string>>, rank: map<string, nat>)
  {
    forall v :: v in P && P[v].Some? ==> PredOk(ady, S, D, rank, v, P[v].value)
  }

  /** Every node other than the source with a finite distance has a predecessor. */
  ghost predicate Reached(ady: Adjacency, s: string, D: map<string, Distance>, P: map<string, Option<string>>) {
    forall v :: v in ady && v in D && v in P && v != s && D[v].Finite? ==> P[v].Some?
  }

  /** The domains, the source's entry, and the predecessor forest rooted at the source. */
  ghost predicate InvShape(ady: Adjacency, s: string, S: set<string>, D: map<string, Distance>,
                           P: map<string, Option<string>>, rank: map<string, nat>)
  {
    Domains(ady, s, S, D, P) && Ranked(S, rank) && Forest(ady, S, D, P, rank) && Reached(ady, s, D, P)
  }

  /** `nn` says the weights are nonnegative; only the optimality part depends on it. */
  ghost predicate DijkstraInv(ady: Adjacency, s: string, S: set<string>, D: map<string, Distance>,
                              P: map<string, Option<string>>, rank: map<string, nat>, nn: bool)
  {
    && InvShape(ady, s, S, D, P, rank)
    && FrontierRelaxed(ady, S, D)
    && (nn ==> SettledOptimal(ady, s, S, D) && SettledFirst(ady, S, D))
  }

  /** The state the initialisation loop leaves: every key at Infinite without predecessor,
      then the source at distance 0. */
  lemma DijkstraInit(ady: Adjacency, s: string, D: map<string, Distance>, P: map<string, Option<string>>, nn: bool)
    requires forall k :: k in D <==> k in ady
    requires forall k :: k in P <==> k in ady
    requires forall k :: k in D ==> D[k] == Infinite && P[k] == None
    ensures DijkstraInv(ady, s, {}, D[s := Finite(0)], P, map[], nn)
  {
  }

  /** What relaxing entries of `x` may do, skipping the nodes in `S`: every distance
      either stays as it was, with its predecessor, or drops strictly to the weight of an
      entry of `x` on top of the distance of `x`, with `x` as its new predecessor. */
  ghost predicate Cambios(ady: Adjacency, x: string, S: set<string>,
                          D: map<string, Distance>, P: map<string, Option<string>>,
                          D2: map<string, Distance>, P2: map<string, Option<string>>)
  {
    && x in ady && x in D && D[x].Finite?
    && D2.Keys == D.Keys && P2.Keys == P.Keys
    && (forall v :: v in D ==>
          (D2[v] == D[v] && (v in P ==> P2[v] == P[v])) ||
          (v !in S && v in P && P2[v] == Some(x) && D2[v].Finite? && Less(D2[v], D[v]) &&
           (v, D2[v].value - D[x].value) in ady[x]))
  }

  /** No entry among `es` towards a node outside `S` can lower anything further. */
  ghost predicate Cubiertos(x: string, S: set<string>, D: map<string, Distance>,
                            D2: map<string, Distance>, es: seq<(string, int)>)
  {
    x in D && D[x].Finite? &&
    forall j :: 0 <= j < |es| && es[j].0 !in S ==>
      es[j].0 in D2 && D2[es[j].0].Finite? && D2[es[j].0].value <= D[x].value + es[j].1
  }

  /** One pass of the relaxation loop over the entries of `x` that skips the neighbours in
      `S` (which already holds `x`): only the changes above, and afterwards no entry of `x`
      towards an unsettled node can lower anything further. */
  ghost predicate Relaxed(ady: Adjacency, x: string, S: set<string>,
                          D: map<string, Distance>, P: map<string, Option<string>>,
                          D2: map<string, Distance>, P2: map<string, Option<string>>)
  {
    && Cambios(ady, x, S, D, P, D2, P2)
    && (forall e :: e in ady[x] && e.0 !in S ==>
          e.0 in D2 && D2[e.0].Finite? && D2[e.0].value <= D[x].value + e.1)
  }

  /** The same pass when it does not skip settled neighbours. */
  ghost predicate RelaxedAll(ady: Adjacency, x: string,
                             D: map<string, Distance>, P: map<string, Option<string>>,
                             D2: map<string, Distance>, P2: map<string, Option<string>>)
  {
    && Cambios(ady, x, {}, D, P, D2, P2)
    && (forall e :: e in ady[x] ==>
          e.0 in D2 && D2[e.0].Finite? && D2[e.0].value <= D[x].value + e.1)
  }

  /** One iteration of a relaxation loop over the entries `es` of `x`: the entry at `i`
      is skipped when it leads into `S`, and otherwise lowers the distance of its node to
      the new sum, with `x` as predecessor, when the sum is smaller. */
  lemma PasoRelajacion(ady: Adjacency, x: string, S: set<string>,
                       D: map<string, Distance>, P: map<string, Option<string>>,
                       D2: map<string, Distance>, P2: map<string, Option<string>>,
                       es: seq<(string, int)>, i: nat,
                       D3: map<string, Distance>, P3: map<string, Option<string>>)
    requires EdgesInside(ady) && (forall k :: k in ady ==> k in D && k in P)
    requires x in S || NonNegative(ady)
    requires Cambios(ady, x, S, D, P, D2, P2) && D2[x] == D[x]
    requires es == ady[x] && i < |es| && Cubiertos(x, S, D, D2, es[..i])
    requires var e := es[i];
             var nueva := Finite(D2[x].value + e.1);
             if e.0 !in S && Less(nueva, D2[e.0]) then D3 == D2[e.0 := nueva] && P3 == P2[e.0 := Some(x)]
             else D3 == D2 && P3 == P2
    ensures Cambios(ady, x, S, D, P, D3, P3) && D3[x] == D[x]
    ensures Cubiertos(x, S, D, D3, es[..i + 1])
  {
    var e := es[i];
    assert e in ady[x];
    var nueva := Finite(D2[x].value + e.1);
    if e.0 == x && x !in S {
      assert e.1 >= 0;
      assert !Less(nueva, D2[e.0]);
    }
    if e.0 !in S && Less(nueva, D2[e.0]) {
      forall v | v in D
        ensures (D3[v] == D[v] && (v in P ==> P3[v] == P[v])) ||
                (v !in S && v in P && P3[v] == Some(x) && D3[v].Finite? && Less(D3[v], D[v]) &&
                 (v, D3[v].value - D[x].value) in ady[x])
      {
        if v == e.0 {
          assert (v, D3[v].value - D[x].value) == e;
        }
      }
    }
    var hechos := es[..i + 1];
    forall j | 0 <= j < |hechos| && hechos[j].0 !in S
      ensures hechos[j].0 in D3 && D3[hechos[j].0].Finite? && D3[hechos[j].0].value <= D[x].value + hechos[j].1
    {
      if j < i {
        assert hechos[j] == es[..i][j];
      }
    }
  }

  /** A finished loop has covered every entry of `x`. */
  lemma CubiertosTodos(ady: Adjacency, x: string, S: set<string>, D: map<string, Distance>,
                       D2: map<string, Distance>)
    requires x in ady && Cubiertos(x, S, D, D2, ady[x][..|ady[x]|])
    ensures forall e :: e in ady[x] && e.0 !in S ==>
              e.0 in D2 && D2[e.0].Finite? && D2[e.0].value <= D[x].value + e.1
  {
    assert ady[x][..|ady[x]|] == ady[x];
  }

  /** The node the linear scan picks: unsettled, finite, and no unsettled node is closer. */
  ghost predicate Picked(ady: Adjacency, S: set<string>, D: map<string, Distance>, x: string) {
    x in ady && x !in S && x in D && D[x].Finite? &&
    forall y :: y in ady && y !in S && y in D ==> !Less(D[y], D[x])
  }

  /** Any walk from `s` to an unsettled node costs at least `m`, the least tentative
      distance of an unsettled node: the first unsettled node on it is already that far. */
  lemma {:induction false} Exit(ady: Adjacency, s: string, S: set<string>, D: map<string, Distance>, m: int, steps: seq<(string, int)>)
    requires EdgesInside(ady) && NonNegative(ady)
    requires SettledOptimal(ady, s, S, D) && FrontierRelaxed(ady, S, D)
    requires s in S || (s in ady && s in D && D[s] == Finite(0))
    requires forall y :: y in ady && y !in S && y in D && D[y].Finite? ==> m <= D[y].value
    requires IsWalk(ady, s, steps) && End(s, steps) !in S
    ensures m <= Cost(steps)
    decreases |steps|
  {
    if steps != [] {
      var p := steps[..|steps| - 1];
      var e := steps[|steps| - 1];
      WalkInit(ady, s, steps);
      var u := End(s, p);
      if u in S {
        assert Walk(ady, s, p, u);
        assert D[u].value <= Cost(p);
        assert D[e.0].value <= D[u].value + e.1;
      } else {
        Exit(ady, s, S, D, m, p);
      }
    }
  }

  /** The first node the main loop settles is the source. */
  lemma PickedFirst(ady: Adjacency, s: string, D: map<string, Distance>, P: map<string, Option<string>>,
                    rank: map<string, nat>, x: string)
    requires InvShape(ady, s, {}, D, P, rank) && Picked(ady, {}, D, x)
    ensures x == s
  {
  }

  /** Settling `x` keeps every settled entry as it was. */
  lemma SettledKept(ady: Adjacency, x: string, S: set<string>, D: map<string, Distance>, P: map<string, Option<string>>,
                    D2: map<string, Distance>, P2: map<string, Option<string>>)
    requires Relaxed(ady, x, S, D, P, D2, P2)
    requires forall v :: v in S ==> v in D
    ensures forall v :: v in S && v in D ==> D2[v] == D[v]
    ensures forall v :: v in S && v in P ==> P2[v] == P[v]
  {
  }

  /** Settling `x` keeps every recorded predecessor a settled node reached by an entry
      of the weight gained, settled earlier than the node it precedes. */
  lemma VisitPreds(ady: Adjacency, s: string, S: set<string>, D: map<string, Distance>,
                   P: map<string, Option<string>>, rank: map<string, nat>,
                   x: string, D2: map<string, Distance>, P2: map<string, Option<string>>)
    requires Domains(ady, s, S, D, P) && Ranked(S, rank) && Forest(ady, S, D, P, rank)
    requires x !in S
    requires Relaxed(ady, x, S + {x}, D, P, D2, P2)
    ensures Forest(ady, S + {x}, D2, P2, rank[x := |S|])
  {
    var S2, rank2 := S + {x}, rank[x := |S|];
    SettledKept(ady, x, S2, D, P, D2, P2);
    forall v | v in P2 && P2[v].Some?
      ensures PredOk(ady, S2, D2, rank2, v, P2[v].value)
    {
      assert v in D;
      if D2[v] == D[v] && P2[v] == P[v] {
        var u := P[v].value;
        assert PredOk(ady, S, D, rank, v, u);
        PredUnchanged(ady, S, D, rank, x, D2, rank2, v, u);
      } else {
        PredNew(ady, S, D, x, D2, rank2, v);
      }
    }
  }

  /** A predecessor link that settling `x` leaves alone stays valid. */
  lemma PredUnchanged(ady: Adjacency, S: set<string>, D: map<string, Distance>, rank: map<string, nat>,
                      x: string, D2: map<string, Distance>, rank2: map<string, nat>, v: string, u: string)
    requires PredOk(ady, S, D, rank, v, u)
    requires x !in S && rank2 == rank[x := |S|] && Ranked(S, rank)
    requires v in D2 && D2[v] == D[v] && u in D2 && D2[u] == D[u]
    ensures PredOk(ady, S + {x}, D2, rank2, v, u)
  {
  }

  /** A predecessor link that settling `x` has just set, towards a node still unsettled, is valid. */
  lemma PredNew(ady: Adjacency, S: set<string>, D: map<string, Distance>,
                x: string, D2: map<string, Distance>, rank2: map<string, nat>, v: string)
    requires x in ady && x in D && D[x].Finite? && x in D2 && D2[x] == D[x]
    requires v !in S + {x} && v in D2 && D2[v].Finite? && (v, D2[v].value - D[x].value) in ady[x]
    ensures PredOk(ady, S + {x}, D2, rank2, v, x)
  {
  }

  /** Settling the picked node keeps the domains, the source's entry and the predecessor forest. */
  lemma VisitShape(ady: Adjacency, s: string, S: set<string>, D: map<string, Distance>,
                   P: map<string, Option<string>>, rank: map<string, nat>,
                   x: string, D2: map<string, Distance>, P2: map<string, Option<string>>)
    requires InvShape(ady, s, S, D, P, rank)
    requires Picked(ady, S, D, x)
    requires Relaxed(ady, x, S + {x}, D, P, D2, P2)
    ensures InvShape(ady, s, S + {x}, D2, P2, rank[x := |S|])
  {
    SourceReady(ady, s, S, D, P, rank, x);
    VisitDomains(ady, s, S, D, P, x, D2, P2);
    VisitPreds(ady, s, S, D, P, rank, x, D2, P2);
    VisitRanks(S, rank, x, rank[x := |S|]);
    VisitReached(ady, s, S, D, P, x, D2, P2);
  }

  /** Settling the picked node keeps the key sets, the source's entry and the finiteness
      of settled distances. */
  lemma VisitDomains(ady: Adjacency, s: string, S: set<string>, D: map<string, Distance>,
                     P: map<string, Option<string>>,
                     x: string, D2: map<string, Distance>, P2: map<string, Option<string>>)
    requires Domains(ady, s, S, D, P)
    requires s in S || x == s
    requires Relaxed(ady, x, S + {x}, D, P, D2, P2)
    ensures Domains(ady, s, S + {x}, D2, P2)
  {
    SettledKept(ady, x, S + {x}, D, P, D2, P2);
  }

  /** After settling, every node other than the source with a finite distance has a predecessor. */
  lemma VisitReached(ady: Adjacency, s: string, S: set<string>, D: map<string, Distance>,
                     P: map<string, Option<string>>,
                     x: string, D2: map<string, Distance>, P2: map<string, Option<string>>)
    requires Reached(ady, s, D, P)
    requires Relaxed(ady, x, S + {x}, D, P, D2, P2)
    ensures Reached(ady, s, D2, P2)
  {
    forall v | v in ady && v in D2 && v in P2 && v != s && D2[v].Finite?
      ensures P2[v].Some?
    {
      if D2[v] == D[v] {
        assert P[v].Some?;
      }
    }
  }

  /** Giving the newly settled node the next position keeps the settling order a numbering of the settled set. */
  lemma VisitRanks(S: set<string>, rank: map<string, nat>, x: string, rank2: map<string, nat>)
    requires Ranked(S, rank)
    requires x !in S && rank2 == rank[x := |S|]
    ensures Ranked(S + {x}, rank2)
  {
  }

  /** Settling the picked node and relaxing its entries keeps the frontier relaxed. */
  lemma VisitFrontier(ady: Adjacency, S: set<string>, D: map<string, Distance>,
                      P: map<string, Option<string>>,
                      x: string, D2: map<string, Distance>, P2: map<string, Option<string>>)
    requires forall v :: v in S ==> v in D
    requires FrontierRelaxed(ady, S, D)
    requires Relaxed(ady, x, S + {x}, D, P, D2, P2)
    ensures FrontierRelaxed(ady, S + {x}, D2)
  {
    SettledKept(ady, x, S + {x}, D, P, D2, P2);
    forall u, e | u in S + {x} && u in ady && e in ady[u] && e.0 !in S + {x}
      ensures u in D2 && e.0 in D2 && D2[u].Finite? && D2[e.0].Finite? && D2[e.0].value <= D2[u].value + e.1
    {
      if u != x {
        assert D[e.0].Finite? && D[e.0].value <= D[u].value + e.1;
      }
    }
  }

  /** The picked node's tentative distance is already the least over all walks. */
  lemma PickedOptimal(ady: Adjacency, s: string, S: set<string>, D: map<string, Distance>, x: string)
    requires EdgesInside(ady) && NonNegative(ady)
    requires SettledOptimal(ady, s, S, D) && FrontierRelaxed(ady, S, D)
    requires s in S || (s in ady && s in D && D[s] == Finite(0))
    requires Picked(ady, S, D, x)
    ensures Shortest(ady, s, x, D[x].value)
  {
    forall steps | Walk(ady, s, steps, x)
      ensures D[x].value <= Cost(steps)
    {
      Exit(ady, s, S, D, D[x].value, steps);
    }
  }

  /** When the loop picks a node, the source is settled or about to be. */
  lemma SourceReady(ady: Adjacency, s: string, S: set<string>, D: map<string, Distance>,
                    P: map<string, Option<string>>, rank: map<string, nat>, x: string)
    requires InvShape(ady, s, S, D, P, rank) && Picked(ady, S, D, x)
    ensures s in S || x == s
    ensures s in D && D[s] == Finite(0)
  {
    if S == {} {
      PickedFirst(ady, s, D, P, rank, x);
    }
  }

  /** Settling the picked node keeps every settled node optimal. */
  lemma VisitOptimal(ady: Adjacency, s: string, S: set<string>, D: map<string, Distance>,
                     P: map<string, Option<string>>,
                     x: string, D2: map<string, Distance>, P2: map<string, Option<string>>)
    requires EdgesInside(ady) && NonNegative(ady)
    requires (s in S || x == s) && s in D && D[s] == Finite(0)
    requires FrontierRelaxed(ady, S, D) && SettledOptimal(ady, s, S, D)
    requires Picked(ady, S, D, x)
    requires Relaxed(ady, x, S + {x}, D, P, D2, P2)
    ensures SettledOptimal(ady, s, S + {x}, D2)
  {
    PickedOptimal(ady, s, S, D, x);
    SettledKept(ady, x, S + {x}, D, P, D2, P2);
    forall v | v in S + {x}
      ensures v in D2 && D2[v].Finite? && Shortest(ady, s, v, D2[v].value)
    {
      assert D2[v] == D[v];
    }
  }

  /** Settling the picked node keeps settled distances below unsettled ones. */
  lemma VisitFirst(ady: Adjacency, S: set<string>, D: map<string, Distance>,
                   P: map<string, Option<string>>,
                   x: string, D2: map<string, Distance>, P2: map<string, Option<string>>)
    requires NonNegative(ady)
    requires forall v :: v in S ==> v in D && D[v].Finite?
    requires SettledFirst(ady, S, D)
    requires Picked(ady, S, D, x)
    requires Relaxed(ady, x, S + {x}, D, P, D2, P2)
    ensures SettledFirst(ady, S + {x}, D2)
  {
    SettledKept(ady, x, S + {x}, D, P, D2, P2);
    forall u, v | u in S + {x} && u in D2 && v in ady && v !in S + {x} && v in D2 && D2[u].Finite? && D2[v].Finite?
      ensures D2[u].value <= D2[v].value
    {
      assert D[u].value <= D[x].value;
      if D2[v] != D[v] {
        assert (v, D2[v].value - D[x].value) in ady[x];
      }
    }
  }

  /** Settling the picked node `x` and relaxing its entries keeps the invariant. */
  lemma Visit(ady: Adjacency, s: string, S: set<string>, D: map<string, Distance>,
              P: map<string, Option<string>>, rank: map<string, nat>, nn: bool,
              x: string, D2: map<string, Distance>, P2: map<string, Option<string>>)
    requires EdgesInside(ady) && (nn ==> NonNegative(ady))
    requires DijkstraInv(ady, s, S, D, P, rank, nn)
    requires Picked(ady, S, D, x)
    requires Relaxed(ady, x, S + {x}, D, P, D2, P2)
    ensures DijkstraInv(ady, s, S + {x}, D2, P2, rank[x := |S|], nn)
  {
    VisitShape(ady, s, S, D, P, rank, x, D2, P2);
    VisitFrontier(ady, S, D, P, x, D2, P2);
    if nn {
      SourceReady(ady, s, S, D, P, rank, x);
      VisitOptimal(ady, s, S, D, P, x, D2, P2);
      VisitFirst(ady, S, D, P, x, D2, P2);
    }
  }

  /** Under nonnegative weights a relaxation pass that does not skip settled neighbours
      changes none of them, so it is a pass that skips them. */
  lemma RelaxedAllSkipsSettled(ady: Adjacency, S: set<string>, D: map<string, Distance>,
                               P: map<string, Option<string>>,
                               x: string, D2: map<string, Distance>, P2: map<string, Option<string>>)
    requires NonNegative(ady)
    requires forall v :: v in S ==> v in ady && v in D && D[v].Finite?
    requires SettledFirst(ady, S, D)
    requires Picked(ady, S, D, x)
    requires RelaxedAll(ady, x, D, P, D2, P2)
    ensures Relaxed(ady, x, S + {x}, D, P, D2, P2)
  {
    forall v | v in S + {x}
      ensures D2[v] == D[v] && (v in P ==> P2[v] == P[v])
    {
      assert D[v].Finite? && D[v].value <= D[x].value;
      assert forall w :: (v, w) in ady[x] ==> w >= 0;
    }
  }

  /** After the main loop has stopped with every unsettled key at Infinite, a key at
      Infinite cannot be reached from the source. */
  lemma Unreached(ady: Adjacency, s: string, S: set<string>, D: map<string, Distance>,
                  P: map<string, Option<string>>, rank: map<string, nat>, t: string)
    requires EdgesInside(ady) && InvShape(ady, s, S, D, P, rank) && FrontierRelaxed(ady, S, D)
    requires forall k :: k in ady && k !in S ==> D[k].Infinite?
    requires t in ady && D[t].Infinite?
    ensures !Reachable(ady, s, t)
  {
    var C := S + {s};
    assert Closed(ady, C);
    forall steps | IsWalk(ady, s, steps)
      ensures End(s, steps) != t
    {
      ClosedContainsWalks(ady, C, s, steps);
    }
  }
}
