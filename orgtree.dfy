/**
 * The organisational tree as the root copy of the program keeps it. Its TreeNode,
 * constructor, `AgregarNodo`, `Buscar`, `ContarNodos` and `Nivel` are the same as in the
 * `Estructura` copy, whose definitions are reused here; what this copy adds is
 * `PreOrdenJerarquico`, the indented pre-order listing the form displays.
 */
module OrgTree {
  import opened Options
  import T = EstructuraOrgTree

  /** The OrgTree object of this copy, by its root. */
  class OrgTree {
    var Raiz: T.Node

    /** A lone root: one node, found by its name at level 0. */
    constructor(nombreRaiz: string)
      ensures Raiz == T.Node(nombreRaiz, [])
      ensures T.ContarNodos(Raiz) == 1 && T.Buscar(Raiz, nombreRaiz) == Some(Raiz) &&
              T.Nivel(Raiz, nombreRaiz, 0) == 0
    {
      Raiz := T.Node(nombreRaiz, []);
    }

    /** Appends a childless node named `nombreHijo` after the last child of the node at
        `padre`; the rest of the tree stays as it was. */
    method AgregarNodo(padre: T.Ruta, nombreHijo: string)
      requires T.EsRuta(Raiz, padre)
      modifies this
      ensures Raiz == T.AnexarEn(old(Raiz), padre, nombreHijo)
      ensures T.EsRuta(Raiz, padre) && T.Subarbol(Raiz, padre) == T.Anexar(old(T.Subarbol(Raiz, padre)), nombreHijo)
      ensures T.ContarNodos(Raiz) == old(T.ContarNodos(Raiz)) + 1
      ensures forall q :: T.EsRuta(old(Raiz), q) && T.Aparte(padre, q) ==>
                T.EsRuta(Raiz, q) && T.Subarbol(Raiz, q) == T.Subarbol(old(Raiz), q)
      ensures forall j :: 0 <= j <= |padre| ==>
                T.EsRuta(old(Raiz), padre[..j]) && T.EsRuta(Raiz, padre[..j]) &&
                T.Subarbol(Raiz, padre[..j]).nombre == T.Subarbol(old(Raiz), padre[..j]).nombre
    {
      ghost var t := Raiz;
      Raiz := T.AnexarEn(Raiz, padre, nombreHijo);
      forall q | T.EsRuta(t, q) && T.Aparte(padre, q)
        ensures T.EsRuta(Raiz, q) && T.Subarbol(Raiz, q) == T.Subarbol(t, q)
      {
        T.AnexarEnFuera(t, padre, nombreHijo, q);
      }
      forall j | 0 <= j <= |padre|
        ensures T.EsRuta(t, padre[..j]) && T.EsRuta(Raiz, padre[..j]) &&
                T.Subarbol(Raiz, padre[..j]).nombre == T.Subarbol(t, padre[..j]).nombre
      {
        T.AnexarEnCamino(t, padre, nombreHijo, j);
      }
    }
  }

  /** `n` spaces. */
  function Sangria(n: nat): (s: string)
    ensures |s| == n
  {
    if n == 0 then "" else " " + Sangria(n - 1)
  }

  /** Every character of the indentation is a space. */
  lemma {:induction false} SangriaEspacios(n: nat)
    ensures forall i :: 0 <= i < n ==> Sangria(n)[i] == ' '
  {
    if n > 0 {
      SangriaEspacios(n - 1);
      assert Sangria(n) == " " + Sangria(n - 1);
    }
  }

  /** One line of the listing: the name indented by three spaces per level. */
  function Linea(nombre: string, nivel: nat): (r: string)
    ensures |r| == nivel * 3 + |nombre| && r[nivel * 3..] == nombre
  {
    Sangria(nivel * 3) + nombre
  }

  /** The node's own line at `nivel`, then the listings of its children one level
      deeper, left to right: one line per node of the subtree. */
  function PreOrdenJerarquico(actual: T.Node, nivel: nat): (r: seq<string>)
    ensures |r| == T.ContarNodos(actual)
    ensures r[0] == Linea(actual.nombre, nivel)
    decreases actual
  {
    [Linea(actual.nombre, nivel)] + PreOrdenHijos(actual.hijos, nivel + 1)
  }

  function PreOrdenHijos(hs: seq<T.Node>, nivel: nat): (r: seq<string>)
    ensures |r| == T.ContarHijos(hs)
    decreases hs
  {
    if hs == [] then [] else PreOrdenJerarquico(hs[0], nivel) + PreOrdenHijos(hs[1..], nivel)
  }

  /** The lines of a pre-order sequence of (subtree, level) pairs. */
  function Lineas(R: seq<(T.Node, nat)>): (r: seq<string>)
    ensures |r| == |R|
    ensures forall i :: 0 <= i < |R| ==> r[i] == Linea(R[i].0.nombre, R[i].1)
  {
    if R == [] then [] else [Linea(R[0].0.nombre, R[0].1)] + Lineas(R[1..])
  }

  lemma {:induction false} LineasConcat(A: seq<(T.Node, nat)>, B: seq<(T.Node, nat)>)
    ensures Lineas(A + B) == Lineas(A) + Lineas(B)
  {
    assert |Lineas(A + B)| == |Lineas(A) + Lineas(B)|;
    forall i | 0 <= i < |A + B|
      ensures Lineas(A + B)[i] == (Lineas(A) + Lineas(B))[i]
    {
      if i < |A| {
        assert (A + B)[i] == A[i];
      } else {
        assert (A + B)[i] == B[i - |A|];
      }
    }
  }

  /** The listing is the pre-order sequence written out: its i-th line is the name of the
      i-th node in pre-order, indented by three spaces for each level of that node. */
  lemma {:induction false} PreOrdenRecorrido(t: T.Node, nivel: nat)
    ensures PreOrdenJerarquico(t, nivel) == Lineas(T.Recorrido(t, nivel))
    decreases t
  {
    PreOrdenRecorridoHijos(t.hijos, nivel + 1);
    LineasConcat([(t, nivel)], T.RecorridoHijos(t.hijos, nivel + 1));
  }

  lemma {:induction false} PreOrdenRecorridoHijos(hs: seq<T.Node>, nivel: nat)
    ensures PreOrdenHijos(hs, nivel) == Lineas(T.RecorridoHijos(hs, nivel))
    decreases hs
  {
    if hs != [] {
      PreOrdenRecorrido(hs[0], nivel);
      PreOrdenRecorridoHijos(hs[1..], nivel);
      LineasConcat(T.Recorrido(hs[0], nivel), T.RecorridoHijos(hs[1..], nivel));
    }
  }

  /** A line with its leading spaces removed. */
  function QuitarSangria(s: string): (r: string)
    ensures |r| <= |s|
    ensures r == [] || r[0] != ' '
  {
    if s != [] && s[0] == ' ' then QuitarSangria(s[1..]) else s
  }

  /** What is removed is a run of spaces at the front: the result is a suffix of the line
      and everything before it is a space. */
  lemma {:induction false} QuitarSangriaSufijo(s: string)
    ensures var r := QuitarSangria(s);
            r == s[|s| - |r|..] && forall i :: 0 <= i < |s| - |r| ==> s[i] == ' '
  {
    if s != [] && s[0] == ' ' {
      QuitarSangriaSufijo(s[1..]);
      var r := QuitarSangria(s);
      assert r == s[1..][|s[1..]| - |r|..];
      forall i | 0 < i < |s| - |r|
        ensures s[i] == ' '
      {
        assert s[i] == s[1..][i - 1];
      }
    }
  }

  lemma {:induction false} QuitarSangriaLinea(nombre: string, nivel: nat)
    requires nombre == [] || nombre[0] != ' '
    ensures QuitarSangria(Linea(nombre, nivel)) == nombre
  {
    QuitarEspacios(nivel * 3, nombre);
  }

  lemma {:induction false} QuitarEspacios(n: nat, x: string)
    requires x == [] || x[0] != ' '
    ensures QuitarSangria(Sangria(n) + x) == x
  {
    if n > 0 {
      assert Sangria(n) + x == [' '] + (Sangria(n - 1) + x);
      QuitarUno(Sangria(n - 1) + x);
      QuitarEspacios(n - 1, x);
    } else {
      assert Sangria(n) + x == x;
    }
  }

  /** One leading space more makes no difference once spaces are removed. */
  lemma QuitarUno(z: string)
    ensures QuitarSangria([' '] + z) == QuitarSangria(z)
  {
    assert ([' '] + z)[1..] == z;
  }

  /** For names that do not start with a space, the listing with its indentation
      removed is the list of names in pre-order, and it mentions a name exactly when
      `Buscar` finds a node with it. */
  lemma ListadoNombres(t: T.Node, nivel: nat)
    requires forall n :: n in T.Nombres(t) ==> n == [] || n[0] != ' '
    ensures var L := PreOrdenJerarquico(t, nivel);
            |L| == |T.Nombres(t)| &&
            forall i :: 0 <= i < |L| ==> QuitarSangria(L[i]) == T.Nombres(t)[i]
  {
    var L := PreOrdenJerarquico(t, nivel);
    var R := T.Recorrido(t, nivel);
    PreOrdenRecorrido(t, nivel);
    T.NombresRecorrido(t, nivel);
    forall i | 0 <= i < |L|
      ensures QuitarSangria(L[i]) == T.Nombres(t)[i]
    {
      assert T.Nombres(t)[i] in T.Nombres(t);
      QuitarSangriaLinea(R[i].0.nombre, R[i].1);
    }
  }

  lemma ListadoBuscar(t: T.Node, nivel: nat, nombre: string)
    requires forall n :: n in T.Nombres(t) ==> n == [] || n[0] != ' '
    ensures T.Buscar(t, nombre).Some? <==>
            exists i :: 0 <= i < |PreOrdenJerarquico(t, nivel)| && QuitarSangria(PreOrdenJerarquico(t, nivel)[i]) == nombre
  {
    ListadoNombres(t, nivel);
    T.BuscarNombres(t, nombre);
    var L := PreOrdenJerarquico(t, nivel);
    if nombre in T.Nombres(t) {
      var i :| 0 <= i < |T.Nombres(t)| && T.Nombres(t)[i] == nombre;
      assert QuitarSangria(L[i]) == nombre;
    }
  }
}
