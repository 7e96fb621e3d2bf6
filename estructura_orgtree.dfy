/**
 * The organisational tree of the technology park: a rooted general tree of named
 * nodes, each with its children in insertion order. The tree is an immutable value
 * here; appending a child yields the new tree.
 *
 * `Recorrido` is the reference the operations are measured against: the pre-order
 * sequence of (subtree, level) pairs, the node itself first, then its children's
 * subtrees from left to right.
 */
module EstructuraOrgTree {
  import opened Options

  /** A TreeNode: its name and its children in order. */
  datatype Node = Node(nombre: string, hijos: seq<Node>)

  /** A TreeNode reference into a tree: the child positions leading to it from the root. */
  type Ruta = seq<nat>

  /** The OrgTree object: its root, whose subtrees `AgregarNodo` extends in place. A TreeNode
      reference the caller holds is the path at which that node sits. */
  class OrgTree {
    var Raiz: Node

    /** A lone root: one node, found by its name at level 0. */
    constructor(nombreRaiz: string)
      ensures Raiz == Node(nombreRaiz, [])
      ensures ContarNodos(Raiz) == 1 && Buscar(Raiz, nombreRaiz) == Some(Raiz) && Nivel(Raiz, nombreRaiz, 0) == 0
    {
      Raiz := Node(nombreRaiz, []);
    }

    /** Appends a childless node named `nombreHijo` after the last child of the node at
        `padre`; the rest of the tree stays as it was. */
    method AgregarNodo(padre: Ruta, nombreHijo: string)
      requires EsRuta(Raiz, padre)
      modifies this
      ensures Raiz == AnexarEn(old(Raiz), padre, nombreHijo)
      ensures EsRuta(Raiz, padre) && Subarbol(Raiz, padre) == Anexar(old(Subarbol(Raiz, padre)), nombreHijo)
      ensures ContarNodos(Raiz) == old(ContarNodos(Raiz)) + 1
      ensures forall q :: EsRuta(old(Raiz), q) && Aparte(padre, q) ==>
                EsRuta(Raiz, q) && Subarbol(Raiz, q) == Subarbol(old(Raiz), q)
      ensures forall j :: 0 <= j <= |padre| ==>
                EsRuta(old(Raiz), padre[..j]) && EsRuta(Raiz, padre[..j]) &&
                Subarbol(Raiz, padre[..j]).nombre == Subarbol(old(Raiz), padre[..j]).nombre
    {
      ghost var t := Raiz;
      Raiz := AnexarEn(Raiz, padre, nombreHijo);
      forall q | EsRuta(t, q) && Aparte(padre, q)
        ensures EsRuta(Raiz, q) && Subarbol(Raiz, q) == Subarbol(t, q)
      {
        AnexarEnFuera(t, padre, nombreHijo, q);
      }
      forall j | 0 <= j <= |padre|
        ensures EsRuta(t, padre[..j]) && EsRuta(Raiz, padre[..j]) &&
                Subarbol(Raiz, padre[..j]).nombre == Subarbol(t, padre[..j]).nombre
      {
        AnexarEnCamino(t, padre, nombreHijo, j);
      }
    }
  }

  /** `ruta` leads from `t` to one of its nodes. */
  predicate EsRuta(t: Node, ruta: Ruta)
    decreases |ruta|
  {
    ruta == [] || (ruta[0] < |t.hijos| && EsRuta(t.hijos[ruta[0]], ruta[1..]))
  }

  /** The node `ruta` leads to. */
  function Subarbol(t: Node, ruta: Ruta): Node
    requires EsRuta(t, ruta)
    decreases |ruta|
  {
    if ruta == [] then t else Subarbol(t.hijos[ruta[0]], ruta[1..])
  }

  // ----- The pre-order reference

  /** The subtrees of `t` in pre-order, each with its level, `t` itself at `nivel`. */
  function Recorrido(t: Node, nivel: nat): (r: seq<(Node, nat)>)
    ensures |r| >= 1 && r[0] == (t, nivel)
    decreases t
  {
    [(t, nivel)] + RecorridoHijos(t.hijos, nivel + 1)
  }

  function RecorridoHijos(hs: seq<Node>, nivel: nat): seq<(Node, nat)>
    decreases hs
  {
    if hs == [] then [] else Recorrido(hs[0], nivel) + RecorridoHijos(hs[1..], nivel)
  }

  /** The names in pre-order. */
  function Nombres(t: Node): seq<string>
    decreases t
  {
    [t.nombre] + NombresHijos(t.hijos)
  }

  function NombresHijos(hs: seq<Node>): seq<string>
    decreases hs
  {
    if hs == [] then [] else Nombres(hs[0]) + NombresHijos(hs[1..])
  }

  /** The position of the first pair whose node is named `nombre`, or |R| if none is. */
  function Primero(R: seq<(Node, nat)>, nombre: string): (i: nat)
    ensures i <= |R|
    ensures forall j :: 0 <= j < i ==> R[j].0.nombre != nombre
    ensures i < |R| ==> R[i].0.nombre == nombre
  {
    if R == [] then 0 else if R[0].0.nombre == nombre then 0 else 1 + Primero(R[1..], nombre)
  }

  lemma {:induction false} PrimeroConcat(A: seq<(Node, nat)>, B: seq<(Node, nat)>, nombre: string)
    ensures Primero(A + B, nombre) ==
            if Primero(A, nombre) < |A| then Primero(A, nombre) else |A| + Primero(B, nombre)
    decreases |A|
  {
    if A == [] {
      assert A + B == B;
    } else if A[0].0.nombre != nombre {
      assert (A + B)[1..] == A[1..] + B;
      PrimeroConcat(A[1..], B, nombre);
    }
  }

  // ----- The operations

  /** `padre` once a childless node named `nombreHijo` is appended after its last child:
      one node more, and in pre-order the new leaf comes right after the old descendants. */
  function Anexar(padre: Node, nombreHijo: string): (r: Node)
    ensures r.nombre == padre.nombre && r.hijos == padre.hijos + [Node(nombreHijo, [])]
    ensures ContarNodos(r) == ContarNodos(padre) + 1
    ensures forall k: nat :: Recorrido(r, k)[1..] == Recorrido(padre, k)[1..] + [(Node(nombreHijo, []), k + 1)]
  {
    var hoja := Node(nombreHijo, []);
    var r := Node(padre.nombre, padre.hijos + [hoja]);
    ContarHijosSnoc(padre.hijos, hoja);
    forall k: nat ensures Recorrido(r, k)[1..] == Recorrido(padre, k)[1..] + [(hoja, k + 1)] {
      RecorridoHijosSnoc(padre.hijos, hoja, k + 1);
    }
    r
  }

  /** The tree `t` once a childless node named `nombreHijo` is appended under the node at
      `ruta`: the same path now leads to that node with the new child, one node more. */
  function AnexarEn(t: Node, ruta: Ruta, nombreHijo: string): (r: Node)
    requires EsRuta(t, ruta)
    ensures r.nombre == t.nombre && EsRuta(r, ruta)
    ensures Subarbol(r, ruta) == Anexar(Subarbol(t, ruta), nombreHijo)
    ensures ContarNodos(r) == ContarNodos(t) + 1
    decreases |ruta|
  {
    if ruta == [] then Anexar(t, nombreHijo)
    else
      var i := ruta[0];
      var nuevo := AnexarEn(t.hijos[i], ruta[1..], nombreHijo);
      var r := Node(t.nombre, t.hijos[i := nuevo]);
      ContarHijosUpdate(t.hijos, i, nuevo);
      assert r.hijos[i] == nuevo;
      r
  }

  /** `q` leaves `ruta` at some position: they agree up to it and then take different children. */
  predicate Aparte(ruta: Ruta, q: Ruta)
    decreases |ruta|
  {
    ruta != [] && q != [] && (ruta[0] != q[0] || Aparte(ruta[1..], q[1..]))
  }

  /** Appending under `ruta` leaves every node off that path as it was: a path that
      leaves `ruta` still leads to the same subtree. */
  lemma {:induction false} AnexarEnFuera(t: Node, ruta: Ruta, nombreHijo: string, q: Ruta)
    requires EsRuta(t, ruta) && EsRuta(t, q) && Aparte(ruta, q)
    ensures EsRuta(AnexarEn(t, ruta, nombreHijo), q)
    ensures Subarbol(AnexarEn(t, ruta, nombreHijo), q) == Subarbol(t, q)
    decreases |ruta|
  {
    var i := ruta[0];
    var r := AnexarEn(t, ruta, nombreHijo);
    assert r.hijos == t.hijos[i := AnexarEn(t.hijos[i], ruta[1..], nombreHijo)];
    if q[0] != i {
      assert r.hijos[q[0]] == t.hijos[q[0]];
    } else {
      AnexarEnFuera(t.hijos[i], ruta[1..], nombreHijo, q[1..]);
    }
  }

  /** Appending under `ruta` keeps the nodes along the path itself: each prefix of the path
      still leads to a node of the same name, and above the insertion point to a node with
      as many children. */
  lemma {:induction false} AnexarEnCamino(t: Node, ruta: Ruta, nombreHijo: string, j: nat)
    requires EsRuta(t, ruta) && j <= |ruta|
    ensures var r := AnexarEn(t, ruta, nombreHijo);
            EsRuta(t, ruta[..j]) && EsRuta(r, ruta[..j]) &&
            Subarbol(r, ruta[..j]).nombre == Subarbol(t, ruta[..j]).nombre &&
            (j < |ruta| ==> |Subarbol(r, ruta[..j]).hijos| == |Subarbol(t, ruta[..j]).hijos|)
    decreases |ruta|
  {
    var r := AnexarEn(t, ruta, nombreHijo);
    if j > 0 {
      var i := ruta[0];
      assert r.hijos == t.hijos[i := AnexarEn(t.hijos[i], ruta[1..], nombreHijo)];
      AnexarEnCamino(t.hijos[i], ruta[1..], nombreHijo, j - 1);
      assert ruta[..j][0] == i && ruta[..j][1..] == ruta[1..][..j - 1];
    } else {
      assert ruta[..j] == [];
    }
  }

  /** Depth-first search: the node itself if its name matches, otherwise the first
      match in the children's subtrees from left to right, or None. */
  function Buscar(actual: Node, nombre: string): (r: Option<Node>)
    ensures r.Some? ==> r.value.nombre == nombre
    decreases actual
  {
    if actual.nombre == nombre then Some(actual) else BuscarEnHijos(actual.hijos, nombre)
  }

  function BuscarEnHijos(hs: seq<Node>, nombre: string): (r: Option<Node>)
    ensures r.Some? ==> r.value.nombre == nombre
    decreases hs
  {
    if hs == [] then None
    else
      var encontrado := Buscar(hs[0], nombre);
      if encontrado.Some? then encontrado else BuscarEnHijos(hs[1..], nombre)
  }

  /** The node itself plus the counts of its children's subtrees. */
  function ContarNodos(actual: Node): (r: nat)
    ensures r >= 1
    decreases actual
  {
    1 + ContarHijos(actual.hijos)
  }

  function ContarHijos(hs: seq<Node>): (r: nat)
    ensures r >= |hs|
    decreases hs
  {
    if hs == [] then 0 else ContarNodos(hs[0]) + ContarHijos(hs[1..])
  }

  /** The level of the first match, `nivel` for the node itself and one more per
      generation, or the sentinel -1 when no node has that name. */
  function Nivel(actual: Node, nombre: string, nivel: int): (r: int)
    ensures r == -1 || r >= nivel
    ensures actual.nombre == nombre ==> r == nivel
    decreases actual
  {
    if actual.nombre == nombre then nivel else NivelEnHijos(actual.hijos, nombre, nivel + 1)
  }

  function NivelEnHijos(hs: seq<Node>, nombre: string, nivel: int): (r: int)
    ensures r == -1 || r >= nivel
    ensures hs == [] ==> r == -1
    decreases hs
  {
    if hs == [] then -1
    else
      var encontrado := Nivel(hs[0], nombre, nivel);
      if encontrado != -1 then encontrado else NivelEnHijos(hs[1..], nombre, nivel)
  }

  /** The form's insertion: the child goes under the node `Buscar` finds for `padre`, the
      first pre-order match, and the tree is unchanged when there is none. */
  function AgregarEnArbol(t: Node, padre: string, nombreHijo: string): (r: Node)
    ensures r.nombre == t.nombre
    decreases t
  {
    if t.nombre == padre then Anexar(t, nombreHijo)
    else Node(t.nombre, AgregarEnHijos(t.hijos, padre, nombreHijo))
  }

  function AgregarEnHijos(hs: seq<Node>, padre: string, nombreHijo: string): (r: seq<Node>)
    ensures |r| == |hs|
    decreases hs
  {
    if hs == [] then []
    else if Buscar(hs[0], padre).Some? then [AgregarEnArbol(hs[0], padre, nombreHijo)] + hs[1..]
    else [hs[0]] + AgregarEnHijos(hs[1..], padre, nombreHijo)
  }

  // ----- Lemmas about the operations and the pre-order reference

  lemma {:induction false} ContarHijosSnoc(hs: seq<Node>, h: Node)
    ensures ContarHijos(hs + [h]) == ContarHijos(hs) + ContarNodos(h)
    decreases hs
  {
    if hs != [] {
      assert (hs + [h])[1..] == hs[1..] + [h];
      ContarHijosSnoc(hs[1..], h);
    }
  }

  lemma {:induction false} RecorridoHijosSnoc(hs: seq<Node>, h: Node, nivel: nat)
    ensures RecorridoHijos(hs + [h], nivel) == RecorridoHijos(hs, nivel) + Recorrido(h, nivel)
    decreases hs
  {
    if hs == [] {
      assert RecorridoHijos([h], nivel) == Recorrido(h, nivel) + RecorridoHijos([], nivel);
    } else {
      assert (hs + [h])[1..] == hs[1..] + [h];
      RecorridoHijosSnoc(hs[1..], h, nivel);
    }
  }

  lemma {:induction false} ContarHijosUpdate(hs: seq<Node>, i: nat, h: Node)
    requires i < |hs|
    ensures ContarHijos(hs[i := h]) == ContarHijos(hs) - ContarNodos(hs[i]) + ContarNodos(h)
    decreases hs
  {
    if i > 0 {
      assert hs[i := h][1..] == hs[1..][i - 1 := h];
      ContarHijosUpdate(hs[1..], i - 1, h);
    } else {
      assert hs[i := h][1..] == hs[1..];
    }
  }

  /** The count is the length of the pre-order sequence. */
  lemma {:induction false} ContarRecorrido(t: Node, nivel: nat)
    ensures ContarNodos(t) == |Recorrido(t, nivel)|
    decreases t
  {
    ContarRecorridoHijos(t.hijos, nivel + 1);
  }

  lemma {:induction false} ContarRecorridoHijos(hs: seq<Node>, nivel: nat)
    ensures ContarHijos(hs) == |RecorridoHijos(hs, nivel)|
    decreases hs
  {
    if hs != [] {
      ContarRecorrido(hs[0], nivel);
      ContarRecorridoHijos(hs[1..], nivel);
    }
  }

  /** Every level in the pre-order sequence is at least the starting level. */
  lemma {:induction false} NivelesDesde(t: Node, nivel: nat)
    ensures forall j :: 0 <= j < |Recorrido(t, nivel)| ==> Recorrido(t, nivel)[j].1 >= nivel
    decreases t
  {
    NivelesDesdeHijos(t.hijos, nivel + 1);
  }

  lemma {:induction false} NivelesDesdeHijos(hs: seq<Node>, nivel: nat)
    ensures forall j :: 0 <= j < |RecorridoHijos(hs, nivel)| ==> RecorridoHijos(hs, nivel)[j].1 >= nivel
    decreases hs
  {
    if hs != [] {
      NivelesDesde(hs[0], nivel);
      NivelesDesdeHijos(hs[1..], nivel);
    }
  }

  /** `Buscar` returns the first node of the pre-order sequence with that name, and None
      exactly when no node of the subtree has it. */
  lemma {:induction false} BuscarPrimero(t: Node, nombre: string, nivel: nat)
    ensures var R := Recorrido(t, nivel);
            var i := Primero(R, nombre);
            Buscar(t, nombre) == (if i < |R| then Some(R[i].0) else None)
    ensures Buscar(t, nombre).None? <==>
            forall j :: 0 <= j < |Recorrido(t, nivel)| ==> Recorrido(t, nivel)[j].0.nombre != nombre
    decreases t
  {
    var R := Recorrido(t, nivel);
    if t.nombre != nombre {
      var RH := RecorridoHijos(t.hijos, nivel + 1);
      assert R == [(t, nivel)] + RH;
      PrimeroConcat([(t, nivel)], RH, nombre);
      BuscarPrimeroHijos(t.hijos, nombre, nivel + 1);
      if Primero(RH, nombre) < |RH| {
        assert R[Primero(R, nombre)] == RH[Primero(RH, nombre)];
      }
    }
  }

  lemma {:induction false} BuscarPrimeroHijos(hs: seq<Node>, nombre: string, nivel: nat)
    ensures var R := RecorridoHijos(hs, nivel);
            var i := Primero(R, nombre);
            BuscarEnHijos(hs, nombre) == (if i < |R| then Some(R[i].0) else None)
    decreases hs
  {
    if hs != [] {
      var A, B := Recorrido(hs[0], nivel), RecorridoHijos(hs[1..], nivel);
      PrimeroConcat(A, B, nombre);
      BuscarPrimero(hs[0], nombre, nivel);
      BuscarPrimeroHijos(hs[1..], nombre, nivel);
      var i := Primero(A + B, nombre);
      if i < |A| {
        assert (A + B)[i] == A[i];
      } else if i < |A + B| {
        assert (A + B)[i] == B[i - |A|];
      }
    }
  }

  /** From a nonnegative starting level (the sentinel -1 is then no level), `Nivel`
      returns the level of the first pre-order match, or -1 when there is none. */
  lemma {:induction false} NivelPrimero(t: Node, nombre: string, nivel: nat)
    ensures var R := Recorrido(t, nivel);
            var i := Primero(R, nombre);
            Nivel(t, nombre, nivel) == (if i < |R| then R[i].1 else -1)
    decreases t
  {
    var R := Recorrido(t, nivel);
    if t.nombre != nombre {
      var RH := RecorridoHijos(t.hijos, nivel + 1);
      assert R == [(t, nivel)] + RH;
      PrimeroConcat([(t, nivel)], RH, nombre);
      NivelPrimeroHijos(t.hijos, nombre, nivel + 1);
      if Primero(RH, nombre) < |RH| {
        assert R[Primero(R, nombre)] == RH[Primero(RH, nombre)];
      }
    }
  }

  lemma {:induction false} NivelPrimeroHijos(hs: seq<Node>, nombre: string, nivel: nat)
    ensures var R := RecorridoHijos(hs, nivel);
            var i := Primero(R, nombre);
            NivelEnHijos(hs, nombre, nivel) == (if i < |R| then R[i].1 else -1)
    decreases hs
  {
    if hs != [] {
      var A, B := Recorrido(hs[0], nivel), RecorridoHijos(hs[1..], nivel);
      PrimeroConcat(A, B, nombre);
      NivelPrimero(hs[0], nombre, nivel);
      NivelesDesde(hs[0], nivel);
      NivelPrimeroHijos(hs[1..], nombre, nivel);
      var i := Primero(A + B, nombre);
      if i < |A| {
        assert (A + B)[i] == A[i];
      } else if i < |A + B| {
        assert (A + B)[i] == B[i - |A|];
      }
    }
  }

  /** `Nivel` is -1 exactly when `Buscar` finds nothing; otherwise it is at least the
      starting level, and it is the level of the very node `Buscar` returns. */
  lemma NivelBuscar(t: Node, nombre: string, nivel: nat)
    ensures Nivel(t, nombre, nivel) == -1 <==> Buscar(t, nombre).None?
    ensures Buscar(t, nombre).Some? ==>
            Nivel(t, nombre, nivel) >= nivel &&
            (Buscar(t, nombre).value, Nivel(t, nombre, nivel)) in Recorrido(t, nivel)
  {
    NivelPrimero(t, nombre, nivel);
    BuscarPrimero(t, nombre, nivel);
    NivelesDesde(t, nivel);
  }

  // ----- Levels relative to the starting level

  /** The starting level only shifts the answer: from two nonnegative starting levels
      `Nivel` finds a match in both or in neither, at the same depth below the start. */
  lemma {:induction false} NivelDesplazado(t: Node, nombre: string, a: nat, b: nat)
    ensures Nivel(t, nombre, a) == -1 <==> Nivel(t, nombre, b) == -1
    ensures Nivel(t, nombre, a) != -1 ==> Nivel(t, nombre, a) - a == Nivel(t, nombre, b) - b
    decreases t
  {
    if t.nombre != nombre {
      NivelDesplazadoHijos(t.hijos, nombre, a + 1, b + 1);
    }
  }

  lemma {:induction false} NivelDesplazadoHijos(hs: seq<Node>, nombre: string, a: nat, b: nat)
    ensures NivelEnHijos(hs, nombre, a) == -1 <==> NivelEnHijos(hs, nombre, b) == -1
    ensures NivelEnHijos(hs, nombre, a) != -1 ==>
            NivelEnHijos(hs, nombre, a) - a == NivelEnHijos(hs, nombre, b) - b
    decreases hs
  {
    if hs != [] {
      NivelDesplazado(hs[0], nombre, a, b);
      NivelDesplazadoHijos(hs[1..], nombre, a, b);
    }
  }

  /** Called from the root at level 0, as the form does, `Nivel` is the depth of the
      first match; from any other nonnegative level it is that level plus the depth. */
  lemma Profundidad(t: Node, nombre: string, nivel: nat)
    ensures Nivel(t, nombre, 0) == -1 ==> Nivel(t, nombre, nivel) == -1
    ensures Nivel(t, nombre, 0) != -1 ==> Nivel(t, nombre, nivel) == nivel + Nivel(t, nombre, 0)
  {
    NivelDesplazado(t, nombre, nivel, 0);
  }

  // ----- Names

  /** The name list follows the pre-order sequence, whatever the starting level. */
  lemma {:induction false} NombresRecorrido(t: Node, nivel: nat)
    ensures |Nombres(t)| == |Recorrido(t, nivel)|
    ensures forall i :: 0 <= i < |Nombres(t)| ==> Nombres(t)[i] == Recorrido(t, nivel)[i].0.nombre
    decreases t
  {
    NombresRecorridoHijos(t.hijos, nivel + 1);
  }

  lemma {:induction false} NombresRecorridoHijos(hs: seq<Node>, nivel: nat)
    ensures |NombresHijos(hs)| == |RecorridoHijos(hs, nivel)|
    ensures forall i :: 0 <= i < |NombresHijos(hs)| ==>
            NombresHijos(hs)[i] == RecorridoHijos(hs, nivel)[i].0.nombre
    decreases hs
  {
    if hs != [] {
      NombresRecorrido(hs[0], nivel);
      NombresRecorridoHijos(hs[1..], nivel);
    }
  }

  /** `Buscar` finds a node exactly when its name is among the subtree's names. */
  lemma BuscarNombres(t: Node, nombre: string)
    ensures Buscar(t, nombre).Some? <==> nombre in Nombres(t)
  {
    BuscarPrimero(t, nombre, 0);
    NombresRecorrido(t, 0);
    if nombre in Nombres(t) {
      var i :| 0 <= i < |Nombres(t)| && Nombres(t)[i] == nombre;
      assert Recorrido(t, 0)[i].0.nombre == nombre;
    }
  }

  lemma {:induction false} NombresHijosSnoc(hs: seq<Node>, h: Node)
    ensures NombresHijos(hs + [h]) == NombresHijos(hs) + Nombres(h)
    decreases hs
  {
    if hs == [] {
      assert NombresHijos([h]) == Nombres(h) + NombresHijos([]);
    } else {
      assert (hs + [h])[1..] == hs[1..] + [h];
      NombresHijosSnoc(hs[1..], h);
    }
  }

  // ----- The form's insertion

  lemma {:induction false} BuscarEnHijosSnoc(hs: seq<Node>, h: Node, nombre: string)
    ensures BuscarEnHijos(hs + [h], nombre) ==
            if BuscarEnHijos(hs, nombre).Some? then BuscarEnHijos(hs, nombre) else Buscar(h, nombre)
    decreases hs
  {
    if hs != [] {
      assert (hs + [h])[1..] == hs[1..] + [h];
      BuscarEnHijosSnoc(hs[1..], h, nombre);
    }
  }

  lemma {:induction false} NivelEnHijosSnoc(hs: seq<Node>, h: Node, nombre: string, nivel: int)
    ensures NivelEnHijos(hs + [h], nombre, nivel) ==
            if NivelEnHijos(hs, nombre, nivel) != -1 then NivelEnHijos(hs, nombre, nivel) else Nivel(h, nombre, nivel)
    decreases hs
  {
    if hs != [] {
      assert (hs + [h])[1..] == hs[1..] + [h];
      NivelEnHijosSnoc(hs[1..], h, nombre, nivel);
    } else {
      assert NivelEnHijos([h], nombre, nivel) == (if Nivel(h, nombre, nivel) != -1 then Nivel(h, nombre, nivel) else -1);
    }
  }

  /** Inserting under a name nobody has changes nothing; otherwise the tree gains exactly
      one node, one name, and the node `Buscar` finds for the parent is that parent with
      the new child appended. */
  lemma Insercion(t: Node, padre: string, nombreHijo: string)
    ensures Buscar(t, padre).None? ==> AgregarEnArbol(t, padre, nombreHijo) == t
    ensures Buscar(t, padre).Some? ==>
            var r := AgregarEnArbol(t, padre, nombreHijo);
            ContarNodos(r) == ContarNodos(t) + 1 &&
            multiset(Nombres(r)) == multiset(Nombres(t)) + multiset{nombreHijo} &&
            Buscar(r, padre) == Some(Anexar(Buscar(t, padre).value, nombreHijo))
  {
    SinPadre(t, padre, nombreHijo);
    if Buscar(t, padre).Some? {
      InsercionCuenta(t, padre, nombreHijo);
      InsercionBusca(t, padre, nombreHijo);
    }
  }

  lemma {:induction false} SinPadre(t: Node, padre: string, nombreHijo: string)
    ensures Buscar(t, padre).None? ==> AgregarEnArbol(t, padre, nombreHijo) == t
    decreases t
  {
    if t.nombre != padre {
      SinPadreHijos(t.hijos, padre, nombreHijo);
    }
  }

  lemma {:induction false} SinPadreHijos(hs: seq<Node>, padre: string, nombreHijo: string)
    ensures BuscarEnHijos(hs, padre).None? ==> AgregarEnHijos(hs, padre, nombreHijo) == hs
    decreases hs
  {
    if hs != [] {
      SinPadre(hs[0], padre, nombreHijo);
      SinPadreHijos(hs[1..], padre, nombreHijo);
    }
  }

  lemma {:induction false} InsercionCuenta(t: Node, padre: string, nombreHijo: string)
    requires Buscar(t, padre).Some?
    ensures var r := AgregarEnArbol(t, padre, nombreHijo);
            ContarNodos(r) == ContarNodos(t) + 1 &&
            multiset(Nombres(r)) == multiset(Nombres(t)) + multiset{nombreHijo}
    decreases t
  {
    if t.nombre == padre {
      NombresHijosSnoc(t.hijos, Node(nombreHijo, []));
    } else {
      InsercionCuentaHijos(t.hijos, padre, nombreHijo);
    }
  }

  lemma {:induction false} InsercionCuentaHijos(hs: seq<Node>, padre: string, nombreHijo: string)
    requires BuscarEnHijos(hs, padre).Some?
    ensures var r := AgregarEnHijos(hs, padre, nombreHijo);
            ContarHijos(r) == ContarHijos(hs) + 1 &&
            multiset(NombresHijos(r)) == multiset(NombresHijos(hs)) + multiset{nombreHijo}
    decreases hs
  {
    var r := AgregarEnHijos(hs, padre, nombreHijo);
    if Buscar(hs[0], padre).Some? {
      var r0 := AgregarEnArbol(hs[0], padre, nombreHijo);
      InsercionCuenta(hs[0], padre, nombreHijo);
      assert r == [r0] + hs[1..];
      assert r[0] == r0 && r[1..] == hs[1..];
      assert NombresHijos(r) == Nombres(r0) + NombresHijos(hs[1..]);
      assert ContarHijos(r) == ContarNodos(r0) + ContarHijos(hs[1..]);
    } else {
      var resto := AgregarEnHijos(hs[1..], padre, nombreHijo);
      InsercionCuentaHijos(hs[1..], padre, nombreHijo);
      assert r == [hs[0]] + resto;
      assert r[0] == hs[0] && r[1..] == resto;
      assert NombresHijos(r) == Nombres(hs[0]) + NombresHijos(resto);
      assert ContarHijos(r) == ContarNodos(hs[0]) + ContarHijos(resto);
    }
  }

  lemma {:induction false} InsercionBusca(t: Node, padre: string, nombreHijo: string)
    requires Buscar(t, padre).Some?
    ensures Buscar(AgregarEnArbol(t, padre, nombreHijo), padre) == Some(Anexar(Buscar(t, padre).value, nombreHijo))
    decreases t
  {
    if t.nombre != padre {
      InsercionBuscaHijos(t.hijos, padre, nombreHijo);
    }
  }

  lemma {:induction false} InsercionBuscaHijos(hs: seq<Node>, padre: string, nombreHijo: string)
    requires BuscarEnHijos(hs, padre).Some?
    ensures BuscarEnHijos(AgregarEnHijos(hs, padre, nombreHijo), padre) ==
            Some(Anexar(BuscarEnHijos(hs, padre).value, nombreHijo))
    decreases hs
  {
    var r := AgregarEnHijos(hs, padre, nombreHijo);
    if Buscar(hs[0], padre).Some? {
      InsercionBusca(hs[0], padre, nombreHijo);
      assert r[0] == AgregarEnArbol(hs[0], padre, nombreHijo);
    } else {
      InsercionBuscaHijos(hs[1..], padre, nombreHijo);
      assert r[0] == hs[0] && r[1..] == AgregarEnHijos(hs[1..], padre, nombreHijo);
    }
  }

  /** A name not yet in the tree, inserted under an existing parent, is then found as a
      childless node one level below the parent. */
  lemma {:induction false} InsercionHoja(t: Node, padre: string, nombreHijo: string, nivel: nat)
    requires Buscar(t, padre).Some? && Buscar(t, nombreHijo).None?
    ensures var r := AgregarEnArbol(t, padre, nombreHijo);
            Buscar(r, nombreHijo) == Some(Node(nombreHijo, [])) &&
            Nivel(r, nombreHijo, nivel) == Nivel(t, padre, nivel) + 1
    decreases t
  {
    if t.nombre == padre {
      var hoja := Node(nombreHijo, []);
      BuscarEnHijosSnoc(t.hijos, hoja, nombreHijo);
      NivelEnHijosSnoc(t.hijos, hoja, nombreHijo, nivel + 1);
      NivelBuscar(t, nombreHijo, nivel);
    } else {
      InsercionHojaHijos(t.hijos, padre, nombreHijo, nivel + 1);
    }
  }

  lemma {:induction false} InsercionHojaHijos(hs: seq<Node>, padre: string, nombreHijo: string, nivel: nat)
    requires BuscarEnHijos(hs, padre).Some? && BuscarEnHijos(hs, nombreHijo).None?
    ensures var r := AgregarEnHijos(hs, padre, nombreHijo);
            BuscarEnHijos(r, nombreHijo) == Some(Node(nombreHijo, [])) &&
            NivelEnHijos(r, nombreHijo, nivel) == NivelEnHijos(hs, padre, nivel) + 1
    decreases hs
  {
    var r := AgregarEnHijos(hs, padre, nombreHijo);
    NivelBuscar(hs[0], nombreHijo, nivel);
    NivelBuscar(hs[0], padre, nivel);
    if Buscar(hs[0], padre).Some? {
      InsercionHoja(hs[0], padre, nombreHijo, nivel);
      assert r[0] == AgregarEnArbol(hs[0], padre, nombreHijo);
    } else {
      InsercionHojaHijos(hs[1..], padre, nombreHijo, nivel);
      assert r[0] == hs[0] && r[1..] == AgregarEnHijos(hs[1..], padre, nombreHijo);
    }
  }

  // ----- Where `Buscar` finds its node

  /** The path to the node `Buscar` returns, None when it returns none. */
  function RutaBuscar(t: Node, nombre: string): (r: Option<Ruta>)
    ensures r.None? <==> Buscar(t, nombre).None?
    ensures r.Some? ==> EsRuta(t, r.value) && Subarbol(t, r.value) == Buscar(t, nombre).value
    decreases t
  {
    if t.nombre == nombre then Some([]) else RutaEnHijos(t.hijos, nombre)
  }

  function RutaEnHijos(hs: seq<Node>, nombre: string): (r: Option<Ruta>)
    ensures r.None? <==> BuscarEnHijos(hs, nombre).None?
    ensures r.Some? ==> |r.value| >= 1 && r.value[0] < |hs| && EsRuta(hs[r.value[0]], r.value[1..]) &&
                        Subarbol(hs[r.value[0]], r.value[1..]) == BuscarEnHijos(hs, nombre).value
    decreases hs
  {
    if hs == [] then None
    else
      var enPrimero := RutaBuscar(hs[0], nombre);
      if enPrimero.Some? then Some([0] + enPrimero.value)
      else
        var resto := RutaEnHijos(hs[1..], nombre);
        if resto.None? then None
        else
          var q := resto.value;
          assert hs[q[0] + 1] == hs[1..][q[0]];
          Some([q[0] + 1] + q[1..])
  }

  /** The form's insertion is `AgregarNodo` applied to the node `Buscar` finds. */
  lemma {:induction false} InsercionEnRuta(t: Node, padre: string, nombreHijo: string)
    requires Buscar(t, padre).Some?
    ensures var ruta := RutaBuscar(t, padre).value;
            EsRuta(t, ruta) && AgregarEnArbol(t, padre, nombreHijo) == AnexarEn(t, ruta, nombreHijo)
    decreases t
  {
    var ruta := RutaBuscar(t, padre).value;
    if t.nombre != padre {
      InsercionEnRutaHijos(t.hijos, padre, nombreHijo);
      assert ruta[1..] == RutaEnHijos(t.hijos, padre).value[1..];
    }
  }

  lemma {:induction false} InsercionEnRutaHijos(hs: seq<Node>, padre: string, nombreHijo: string)
    requires BuscarEnHijos(hs, padre).Some?
    ensures var ruta := RutaEnHijos(hs, padre).value;
            AgregarEnHijos(hs, padre, nombreHijo) == hs[ruta[0] := AnexarEn(hs[ruta[0]], ruta[1..], nombreHijo)]
    decreases hs
  {
    var ruta := RutaEnHijos(hs, padre).value;
    if Buscar(hs[0], padre).Some? {
      InsercionEnRuta(hs[0], padre, nombreHijo);
      assert ruta[1..] == RutaBuscar(hs[0], padre).value;
    } else {
      InsercionEnRutaHijos(hs[1..], padre, nombreHijo);
      var q := RutaEnHijos(hs[1..], padre).value;
      assert ruta == [q[0] + 1] + q[1..];
      assert ruta[1..] == q[1..];
      var nuevo := AnexarEn(hs[ruta[0]], ruta[1..], nombreHijo);
      assert hs[ruta[0] := nuevo] == [hs[0]] + hs[1..][q[0] := nuevo];
    }
  }
}
