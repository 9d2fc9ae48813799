/** `LibroDBManager`: the record store. The `libros` table is a finite map from
    `id` to `Libro`; each method does to the map what the corresponding ORM
    requests (`add`, `setattr`, `delete`, then `commit`) ask of the database. */
module Store {
  import opened Wrappers
  import opened Text
  import opened Libros

  /** The database's answer to a `commit`: accepted, or rejected with the text of
      the exception it raised (after which the session is rolled back). */
  datatype Commit = Committed | Rejected(detail: string)

  const LIBRO_NO_ENCONTRADO: string := "Libro no encontrado."
  const ERROR_AL_ACTUALIZAR: string := "Error al actualizar: "

  // ---------------------------------------------------------------------------
  // ORDER BY titulo

  /** The order of `ORDER BY titulo`: titles compared after lower-casing, code
      point by code point, standing for the column's case-insensitive collation. */
  predicate TituloLe(a: string, b: string) {
    StrLe(Lower(a), Lower(b))
  }

  lemma TituloLeTotal(a: string, b: string)
    ensures TituloLe(a, b) || TituloLe(b, a)
  {
    StrLeTotal(Lower(a), Lower(b));
  }

  lemma TituloLeTransitive(a: string, b: string, c: string)
    requires TituloLe(a, b) && TituloLe(b, c)
    ensures TituloLe(a, c)
  {
    StrLeTransitive(Lower(a), Lower(b), Lower(c));
  }

  ghost predicate OrdenadoPorTitulo(r: seq<LibroDict>) {
    forall i, j :: 0 <= i < j < |r| ==> TituloLe(r[i].titulo, r[j].titulo)
  }

  /** Places x in front of the first row whose title it does not follow. */
  function InsertarOrdenado(x: LibroDict, s: seq<LibroDict>): (r: seq<LibroDict>)
    ensures multiset(r) == multiset(s) + multiset{x}
  {
    if s == [] then [x]
    else if TituloLe(x.titulo, s[0].titulo) then [x] + s
    else
      assert s == [s[0]] + s[1..];
      [s[0]] + InsertarOrdenado(x, s[1..])
  }

  /** Every title in the listing sorts at or after `a`. */
  ghost predicate CotaInferior(a: string, s: seq<LibroDict>) {
    forall k :: 0 <= k < |s| ==> TituloLe(a, s[k].titulo)
  }

  /** Inserting a row that sorts after `a` keeps `a` a lower bound. */
  lemma {:induction false} InsertarOrdenadoCota(a: string, x: LibroDict, s: seq<LibroDict>)
    requires CotaInferior(a, s) && TituloLe(a, x.titulo)
    ensures CotaInferior(a, InsertarOrdenado(x, s))
    decreases |s|
  {
    if s != [] && !TituloLe(x.titulo, s[0].titulo) {
      InsertarOrdenadoCota(a, x, s[1..]);
      var t := InsertarOrdenado(x, s[1..]);
      forall k | 0 <= k < |[s[0]] + t| ensures TituloLe(a, ([s[0]] + t)[k].titulo) {
        if k > 0 {
          assert ([s[0]] + t)[k] == t[k - 1];
        }
      }
    }
  }

  lemma {:induction false} InsertarOrdenadoOrdena(x: LibroDict, s: seq<LibroDict>)
    requires OrdenadoPorTitulo(s)
    ensures OrdenadoPorTitulo(InsertarOrdenado(x, s))
    decreases |s|
  {
    if s == [] {
    } else if TituloLe(x.titulo, s[0].titulo) {
      var r := [x] + s;
      forall i, j | 0 <= i < j < |r| ensures TituloLe(r[i].titulo, r[j].titulo) {
        if i == 0 && j > 1 {
          TituloLeTransitive(x.titulo, s[0].titulo, s[j - 1].titulo);
        }
      }
    } else {
      TituloLeTotal(x.titulo, s[0].titulo);
      var cola := s[1..];
      assert OrdenadoPorTitulo(cola) by {
        forall i, j | 0 <= i < j < |cola| ensures TituloLe(cola[i].titulo, cola[j].titulo) {
          assert cola[i] == s[i + 1] && cola[j] == s[j + 1];
        }
      }
      assert CotaInferior(s[0].titulo, cola) by {
        forall k | 0 <= k < |cola| ensures TituloLe(s[0].titulo, cola[k].titulo) {
          assert cola[k] == s[k + 1];
        }
      }
      InsertarOrdenadoOrdena(x, cola);
      InsertarOrdenadoCota(s[0].titulo, x, cola);
      var t := InsertarOrdenado(x, cola);
      var r := [s[0]] + t;
      forall i, j | 0 <= i < j < |r| ensures TituloLe(r[i].titulo, r[j].titulo) {
        assert r[j] == t[j - 1];
        if i > 0 {
          assert r[i] == t[i - 1];
        }
      }
    }
  }

  /** `ORDER BY titulo` over a set of rows: every row exactly once, sorted by title. */
  method OrdenarPorTitulo(filas: set<LibroDict>) returns (r: seq<LibroDict>)
    ensures OrdenadoPorTitulo(r)
    ensures multiset(r) == multiset(filas)
  {
    r := [];
    var resto := filas;
    while resto != {}
      invariant OrdenadoPorTitulo(r)
      invariant multiset(r) + multiset(resto) == multiset(filas)
      decreases |resto|
    {
      var x :| x in resto;
      InsertarOrdenadoOrdena(x, r);
      r := InsertarOrdenado(x, r);
      assert multiset(resto) == multiset(resto - {x}) + multiset{x};
      resto := resto - {x};
    }
  }

  /** The lower-cased titles of a listing, in listing order: what ORDER BY sorts on. */
  function ClavesTitulo(r: seq<LibroDict>): (k: seq<string>)
    ensures |k| == |r| && forall i :: 0 <= i < |r| ==> k[i] == Lower(r[i].titulo)
  {
    seq(|r|, i requires 0 <= i < |r| => Lower(r[i].titulo))
  }

  ghost predicate StrOrdenada(k: seq<string>) {
    forall i, j :: 0 <= i < j < |k| ==> StrLe(k[i], k[j])
  }

  /** Two sorted sequences holding the same strings start with the same one. */
  lemma StrOrdenadaCabeza(x: seq<string>, y: seq<string>)
    requires StrOrdenada(x) && StrOrdenada(y) && multiset(x) == multiset(y) && x != []
    ensures y != [] && x[0] == y[0]
  {
    assert x[0] in multiset(y);
    var i :| 0 <= i < |y| && y[i] == x[0];
    assert y[0] in multiset(x);
    var j :| 0 <= j < |x| && x[j] == y[0];
    assert StrLe(y[0], x[0]) by {
      if i == 0 { StrLeTotal(y[0], y[0]); }
    }
    assert StrLe(x[0], y[0]) by {
      if j == 0 { StrLeTotal(x[0], x[0]); }
    }
    StrLeAntisymmetric(x[0], y[0]);
  }

  lemma MultisetSinPosicion<T>(s: seq<T>, k: nat)
    requires k < |s|
    ensures multiset(s[..k] + s[k + 1..]) == multiset(s) - multiset{s[k]}
  {
    assert s == s[..k] + [s[k]] + s[k + 1..];
  }

  lemma ColaIgualMultiset<T>(x: seq<T>, y: seq<T>)
    requires x != [] && y != [] && x[0] == y[0] && multiset(x) == multiset(y)
    ensures multiset(x[1..]) == multiset(y[1..])
  {
    assert x == [x[0]] + x[1..] && y == [y[0]] + y[1..];
    assert multiset(x) == multiset{x[0]} + multiset(x[1..]);
    assert multiset(y) == multiset{y[0]} + multiset(y[1..]);
    assert multiset(x[1..]) == multiset(x) - multiset{x[0]};
    assert multiset(y[1..]) == multiset(y) - multiset{y[0]};
  }

  lemma StrOrdenadaCola(x: seq<string>)
    requires StrOrdenada(x) && x != []
    ensures StrOrdenada(x[1..])
  {
    forall i, j | 0 <= i < j < |x| - 1 ensures StrLe(x[1..][i], x[1..][j]) {
      assert x[1..][i] == x[i + 1] && x[1..][j] == x[j + 1];
    }
  }

  lemma {:induction false} StrOrdenadaUnica(x: seq<string>, y: seq<string>)
    requires StrOrdenada(x) && StrOrdenada(y) && multiset(x) == multiset(y)
    ensures x == y
    decreases |x|
  {
    if x == [] {
      assert |y| == |multiset(y)| == 0;
    } else {
      StrOrdenadaCabeza(x, y);
      ColaIgualMultiset(x, y);
      StrOrdenadaCola(x);
      StrOrdenadaCola(y);
      StrOrdenadaUnica(x[1..], y[1..]);
      assert x == [x[0]] + x[1..] && y == [y[0]] + y[1..];
    }
  }

  lemma QuitarCoincidente<T>(a: seq<T>, b: seq<T>, k: nat)
    requires a != [] && k < |b| && b[k] == a[0] && multiset(a) == multiset(b)
    ensures multiset(a[1..]) == multiset(b[..k] + b[k + 1..])
  {
    MultisetSinPosicion(a, 0);
    MultisetSinPosicion(b, k);
    assert a[..0] + a[1..] == a[1..];
  }

  lemma ClavesTituloConcat(u: seq<LibroDict>, v: seq<LibroDict>)
    ensures ClavesTitulo(u + v) == ClavesTitulo(u) + ClavesTitulo(v)
  {
    var w := u + v;
    forall i | 0 <= i < |w| ensures ClavesTitulo(w)[i] == (ClavesTitulo(u) + ClavesTitulo(v))[i] {
      if i < |u| {
        assert w[i] == u[i];
      } else {
        assert w[i] == v[i - |u|];
      }
    }
  }

  lemma ClavesTituloTramo(b: seq<LibroDict>, i: nat, j: nat)
    requires i <= j <= |b|
    ensures ClavesTitulo(b[i..j]) == ClavesTitulo(b)[i..j]
  {
    var t := b[i..j];
    forall n | 0 <= n < |t| ensures ClavesTitulo(t)[n] == ClavesTitulo(b)[i..j][n] {
      assert t[n] == b[i + n];
    }
  }

  lemma ClavesTituloSinPosicion(b: seq<LibroDict>, k: nat)
    requires k < |b|
    ensures multiset(ClavesTitulo(b)) ==
              multiset(ClavesTitulo(b[..k] + b[k + 1..])) + multiset{Lower(b[k].titulo)}
  {
    var c := ClavesTitulo(b);
    ClavesTituloConcat(b[..k], b[k + 1..]);
    ClavesTituloTramo(b, 0, k);
    ClavesTituloTramo(b, k + 1, |b|);
    assert b[..k] == b[0..k] && b[k + 1..] == b[k + 1..|b|];
    assert c[..k] == c[0..k] && c[k + 1..] == c[k + 1..|c|];
    MultisetSinPosicion(c, k);
  }

  lemma ClavesTituloCabeza(a: seq<LibroDict>)
    requires a != []
    ensures multiset(ClavesTitulo(a)) == multiset(ClavesTitulo(a[1..])) + multiset{Lower(a[0].titulo)}
  {
    assert ClavesTitulo(a) == [Lower(a[0].titulo)] + ClavesTitulo(a[1..]);
  }

  lemma {:induction false} ClavesTituloMultiset(a: seq<LibroDict>, b: seq<LibroDict>)
    requires multiset(a) == multiset(b)
    ensures multiset(ClavesTitulo(a)) == multiset(ClavesTitulo(b))
    decreases |a|
  {
    if a == [] {
      assert |b| == |multiset(b)| == 0;
    } else {
      assert a[0] in multiset(b);
      var k :| 0 <= k < |b| && b[k] == a[0];
      QuitarCoincidente(a, b, k);
      ClavesTituloMultiset(a[1..], b[..k] + b[k + 1..]);
      ClavesTituloCabeza(a);
      ClavesTituloSinPosicion(b, k);
    }
  }

  /** Any two title-ordered listings of the same rows agree on the title at every
      position: the order does not depend on how the rows came to be in the table.
      Only rows whose titles coincide up to case may appear in either order. */
  lemma ListadoUnico(a: seq<LibroDict>, b: seq<LibroDict>)
    requires OrdenadoPorTitulo(a) && OrdenadoPorTitulo(b) && multiset(a) == multiset(b)
    ensures ClavesTitulo(a) == ClavesTitulo(b)
  {
    ClavesTituloMultiset(a, b);
    StrOrdenadaUnica(ClavesTitulo(a), ClavesTitulo(b));
  }

  // ---------------------------------------------------------------------------
  // Rows and the search filter

  /** The rows `select(Libro)` yields, each in its `to_dict` form. */
  function Filas(m: map<int, Libro>): (r: set<LibroDict>)
    ensures forall d :: d in r <==> d.id in m && d == ToDict(d.id, m[d.id])
  {
    set id | id in m :: ToDict(id, m[id])
  }

  /** `col.ilike('%t%')`, which the ORM issues as `lower(col) LIKE lower('%t%')`:
      the term is put between '%' wildcards without escaping. */
  predicate Ilike(col: string, termino: string) {
    Like(Lower(col), Lower("%" + termino + "%"))
  }

  /** The WHERE clause of `buscar_libros`: the term matches title, author or genre. */
  predicate Coincide(d: LibroDict, termino: string) {
    Ilike(d.titulo, termino) || Ilike(d.autor, termino) || Ilike(d.genero, termino)
  }

  /** The rows the search query selects. */
  function Seleccion(m: map<int, Libro>, termino: string): set<LibroDict> {
    set d | d in Filas(m) && Coincide(d, termino)
  }

  /** For a term without LIKE wildcards, `ilike('%t%')` is exactly case-insensitive
      substring search. */
  lemma IlikeEsSubcadena(col: string, termino: string)
    requires Literal(termino)
    ensures Ilike(col, termino) <==> IsSubstring(Lower(termino), Lower(col))
  {
    LowerAppend("%" + termino, "%");
    LowerAppend("%", termino);
    assert Lower("%") == "%";
    assert Literal(Lower(termino));
    LikeSubstring(Lower(col), Lower(termino));
  }

  /** The search returns exactly the rows in which the term occurs, ignoring case,
      in the title, the author or the genre (for a term without wildcards). */
  lemma SeleccionEsSubcadena(m: map<int, Libro>, termino: string, d: LibroDict)
    requires Literal(termino)
    ensures d in Seleccion(m, termino) <==>
              d in Filas(m) &&
              (IsSubstring(Lower(termino), Lower(d.titulo)) ||
               IsSubstring(Lower(termino), Lower(d.autor)) ||
               IsSubstring(Lower(termino), Lower(d.genero)))
  {
    IlikeEsSubcadena(d.titulo, termino);
    IlikeEsSubcadena(d.autor, termino);
    IlikeEsSubcadena(d.genero, termino);
  }

  /** The term is not escaped: searching for "%" selects every row. */
  lemma BuscarPorcentajeSeleccionaTodo(m: map<int, Libro>)
    ensures Seleccion(m, "%") == Filas(m)
  {
    assert "%" + "%" + "%" == "%%%" && Lower("%%%") == "%%%";
    forall d | d in Filas(m) ensures Coincide(d, "%") {
      LikePercentTermMatchesAll(Lower(d.titulo));
    }
  }

  /** The term is not escaped: searching for "_" selects every row whose title is not empty. */
  lemma BuscarGuionBajoSeleccionaNoVacios(m: map<int, Libro>, d: LibroDict)
    requires d in Filas(m) && d.titulo != ""
    ensures d in Seleccion(m, "_")
  {
    assert "%" + "_" + "%" == "%_%" && Lower("%_%") == "%_%";
    LikeUnderscoreTermMatchesNonEmpty(Lower(d.titulo));
  }

  // ---------------------------------------------------------------------------
  // The manager

  class LibroDBManager {
    /** The `libros` table as the session sees it. */
    var libros: map<int, Libro>
    /** The table's next AUTO_INCREMENT value. */
    var siguienteId: int

    /** Every key is a positive id the auto-increment counter has already handed out. */
    ghost predicate Valid()
      reads this
    {
      1 <= siguienteId && forall id :: id in libros ==> 1 <= id < siguienteId
    }

    /** A session on an existing table: its rows and its next AUTO_INCREMENT value. */
    constructor (filas: map<int, Libro>, siguiente: int)
      requires 1 <= siguiente && forall id :: id in filas ==> 1 <= id < siguiente
      ensures Valid() && libros == filas && siguienteId == siguiente
    {
      libros := filas;
      siguienteId := siguiente;
    }

    /** `insertar_libro`: `add` a new row and `commit`. On success the row gets the
        next auto-increment id, which no row has, and nothing else changes; on an
        integrity error the session is rolled back and the table is untouched,
        while the id handed to the failed row may be used up. */
    method InsertarLibro(titulo: string, autor: string, genero: string, estado: string, commit: Commit)
      returns (ok: bool)
      requires Valid()
      modifies this
      ensures Valid()
      ensures ok <==> commit.Committed?
      ensures ok ==> old(siguienteId) !in old(libros)
      ensures ok ==> libros == old(libros)[old(siguienteId) := Libro(titulo, autor, genero, estado)]
      ensures ok ==> |libros| == |old(libros)| + 1 && siguienteId == old(siguienteId) + 1
      ensures !ok ==> libros == old(libros) && siguienteId >= old(siguienteId)
    {
      if commit.Committed? {
        libros := libros[siguienteId := Libro(titulo, autor, genero, estado)];
        ok := true;
      } else {
        ok := false;
      }
      siguienteId := siguienteId + 1;
    }

    /** `obtener_todos_los_libros`: every row exactly once, ordered by title. */
    method ObtenerTodosLosLibros() returns (r: seq<LibroDict>)
      ensures OrdenadoPorTitulo(r)
      ensures multiset(r) == multiset(Filas(libros))
    {
      r := OrdenarPorTitulo(Filas(libros));
    }

    /** `obtener_libro_por_id`: `session.get`, the row under that key or nothing. */
    method ObtenerLibroPorId(id: int) returns (r: Option<Libro>)
      ensures r.Some? <==> id in libros
      ensures r.Some? ==> r.value == libros[id]
    {
      if id in libros {
        r := Some(libros[id]);
      } else {
        r := None;
      }
    }

    /** `actualizar_libro`: look the row up, `setattr` one field and `commit`.
        An absent id yields (False, "Libro no encontrado."), a rejected commit
        (False, "Error al actualizar: ..."), both with the table untouched; a
        success yields (True, None) and changes only that field of that row. */
    method ActualizarLibro(id: int, campo: Campo, valor: string, commit: Commit)
      returns (exito: bool, error: Option<string>)
      requires Valid()
      modifies this
      ensures Valid() && siguienteId == old(siguienteId)
      ensures exito <==> error == None
      ensures id !in old(libros) ==> !exito && error == Some(LIBRO_NO_ENCONTRADO) && libros == old(libros)
      ensures id in old(libros) && commit.Committed? ==>
                exito && libros == old(libros)[id := ConCampo(old(libros)[id], campo, valor)]
      ensures id in old(libros) && commit.Rejected? ==>
                !exito && error == Some(ERROR_AL_ACTUALIZAR + commit.detail) && libros == old(libros)
    {
      var libro := ObtenerLibroPorId(id);
      if libro.None? {
        return false, Some(LIBRO_NO_ENCONTRADO);
      }
      match commit
      case Committed =>
        libros := libros[id := ConCampo(libro.value, campo, valor)];
        exito, error := true, None;
      case Rejected(detail) =>
        exito, error := false, Some(ERROR_AL_ACTUALIZAR + detail);
    }

    /** `eliminar_libro`: look the row up, `delete` it and `commit`. True exactly
        when the row existed and the commit went through; then only that row is gone. */
    method EliminarLibro(id: int, commit: Commit) returns (ok: bool)
      requires Valid()
      modifies this
      ensures Valid() && siguienteId == old(siguienteId)
      ensures ok <==> id in old(libros) && commit.Committed?
      ensures ok ==> libros == old(libros) - {id}
      ensures !ok ==> libros == old(libros)
    {
      var libro := ObtenerLibroPorId(id);
      if libro.None? {
        return false;
      }
      if commit.Committed? {
        libros := libros - {id};
        ok := true;
      } else {
        ok := false;
      }
    }

    /** `buscar_libros`: the rows the term matches (title, author or genre,
        through `ilike`), each exactly once, ordered by title. */
    method BuscarLibros(termino: string) returns (r: seq<LibroDict>)
      ensures OrdenadoPorTitulo(r)
      ensures multiset(r) == multiset(Seleccion(libros, termino))
    {
      r := OrdenarPorTitulo(Seleccion(libros, termino));
    }
  }
}
