/** The `Libro` record of the `libros` table, its dictionary form, and the two
    menu choices the console decodes: the reading status and the field to update. */
module Libros {
  import opened Wrappers

  /** The two reading states the console ever writes into `estado`. */
  const ESTADOS_LECTURA: seq<string> := ["Leído", "No leído"]

  /** One row of `libros` without its key: the table maps `id` to this. */
  datatype Libro = Libro(titulo: string, autor: string, genero: string, estado: string)

  /** The dictionary form handed to the console: the key plus the four columns. */
  datatype LibroDict = LibroDict(id: int, titulo: string, autor: string, genero: string, estado: string)
  {
    /** The columns of the row, without its key. */
    function Columnas(): Libro {
      Libro(titulo, autor, genero, estado)
    }
  }

  /** `to_dict`: the key and every column of the row, nothing lost. */
  function ToDict(id: int, l: Libro): (d: LibroDict)
    ensures d.id == id && d.Columnas() == l
  {
    LibroDict(id, l.titulo, l.autor, l.genero, l.estado)
  }

  // ---------------------------------------------------------------------------
  // Reading status

  datatype EstadoLectura = Leido | NoLeido

  /** The text stored for a status: an element of ESTADOS_LECTURA, a different one per status. */
  function Etiqueta(e: EstadoLectura): (r: string)
    ensures r in ESTADOS_LECTURA
    ensures r == ESTADOS_LECTURA[0] <==> e == Leido
    ensures r == ESTADOS_LECTURA[1] <==> e == NoLeido
  {
    match e
    case Leido => ESTADOS_LECTURA[0]
    case NoLeido => ESTADOS_LECTURA[1]
  }

  /** The key the prompt "(1: Leído, 2: No leído)" shows for each status. */
  function OpcionEstado(e: EstadoLectura): string {
    match e
    case Leido => "1"
    case NoLeido => "2"
  }

  /** The status prompt's decoding of one (stripped) answer: '1' or '2', anything else rejected. */
  function DecodificarEstado(s: string): (r: Option<EstadoLectura>)
    ensures r.Some? <==> s == "1" || s == "2"
    ensures r == Some(Leido) <==> s == "1"
    ensures r == Some(NoLeido) <==> s == "2"
  {
    if s == "1" then Some(Leido)
    else if s == "2" then Some(NoLeido)
    else None
  }

  /** The decoder accepts exactly the key shown for each status, and nothing else. */
  lemma DecodificarEstadoInverso(e: EstadoLectura, s: string)
    ensures DecodificarEstado(s) == Some(e) <==> s == OpcionEstado(e)
  {
    match e
    case Leido =>
    case NoLeido =>
  }

  // ---------------------------------------------------------------------------
  // Updatable fields: the closed replacement for `setattr(libro, campo, valor)`

  datatype Campo = Titulo | Autor | Genero | Estado

  /** The number the update menu prints in front of each field. */
  function OpcionCampo(c: Campo): string {
    match c
    case Titulo => "1"
    case Autor => "2"
    case Genero => "3"
    case Estado => "4"
  }

  /** `campos = {'1': 'titulo', '2': 'autor', '3': 'genero', '4': 'estado'}` looked up
      with `opcion in campos`: exactly the four keys are accepted. */
  function DecodificarCampo(s: string): (r: Option<Campo>)
    ensures r.Some? <==> s == "1" || s == "2" || s == "3" || s == "4"
  {
    if s == "1" then Some(Titulo)
    else if s == "2" then Some(Autor)
    else if s == "3" then Some(Genero)
    else if s == "4" then Some(Estado)
    else None
  }

  /** The field decoder accepts exactly the number shown for each field. */
  lemma DecodificarCampoInverso(c: Campo, s: string)
    ensures DecodificarCampo(s) == Some(c) <==> s == OpcionCampo(c)
  {
    match c
    case Titulo =>
    case Autor =>
    case Genero =>
    case Estado =>
  }

  /** `getattr(libro, campo)`. */
  function Valor(l: Libro, c: Campo): string {
    match c
    case Titulo => l.titulo
    case Autor => l.autor
    case Genero => l.genero
    case Estado => l.estado
  }

  /** `setattr(libro, campo, v)`: the named field becomes v, the other three keep their value. */
  function ConCampo(l: Libro, c: Campo, v: string): (r: Libro)
    ensures Valor(r, c) == v
    ensures forall c' :: c' != c ==> Valor(r, c') == Valor(l, c')
  {
    match c
    case Titulo => l.(titulo := v)
    case Autor => l.(autor := v)
    case Genero => l.(genero := v)
    case Estado => l.(estado := v)
  }

  /** A record is determined by its four fields. */
  lemma {:induction false} LibroExtensional(a: Libro, b: Libro)
    requires forall c :: Valor(a, c) == Valor(b, c)
    ensures a == b
  {
    assert Valor(a, Titulo) == Valor(b, Titulo);
    assert Valor(a, Autor) == Valor(b, Autor);
    assert Valor(a, Genero) == Valor(b, Genero);
    assert Valor(a, Estado) == Valor(b, Estado);
  }

  /** Writing a field's current value back leaves the record as it was. */
  lemma ConCampoMismoValor(l: Libro, c: Campo)
    ensures ConCampo(l, c, Valor(l, c)) == l
  {
    LibroExtensional(ConCampo(l, c, Valor(l, c)), l);
  }

  /** The last of two writes to the same field wins. */
  lemma ConCampoDosVeces(l: Libro, c: Campo, v: string, w: string)
    ensures ConCampo(ConCampo(l, c, v), c, w) == ConCampo(l, c, w)
  {
    LibroExtensional(ConCampo(ConCampo(l, c, v), c, w), ConCampo(l, c, w));
  }

  // ---------------------------------------------------------------------------
  // What the console guarantees about the values it hands to the store

  /** A value the console can supply for a field: a status text for `estado`,
      otherwise a non-empty string. */
  predicate Admisible(c: Campo, v: string) {
    if c == Estado then v in ESTADOS_LECTURA else v != ""
  }

  /** Every field of the record is one the console can supply. */
  predicate BienFormado(l: Libro) {
    forall c :: Admisible(c, Valor(l, c))
  }

  /** An admissible single-field update keeps a record well formed. */
  lemma ConCampoBienFormado(l: Libro, c: Campo, v: string)
    requires BienFormado(l) && Admisible(c, v)
    ensures BienFormado(ConCampo(l, c, v))
  {
    forall c' ensures Admisible(c', Valor(ConCampo(l, c, v), c')) {
      if c' != c {
        assert Admisible(c', Valor(l, c'));
      }
    }
  }
}
