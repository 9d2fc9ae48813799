/** The console handlers that sit in front of the store: the re-prompting input
    helpers and the add, update and delete flows. What the user types is given
    as the sequence of lines `input()` would return, in order. */
module Consola {
  import opened Wrappers
  import opened Text
  import opened Libros
  import opened Store

  // ---------------------------------------------------------------------------
  // What one prompt reads

  /** What `obtener_entrada` returns on these lines: the first non-blank line,
      stripped; None when every line is blank (input runs out). */
  function Respuesta(lineas: seq<string>): (r: Option<string>)
    ensures r.Some? ==> r.value != ""
    ensures r.None? <==> forall j :: 0 <= j < |lineas| ==> Strip(lineas[j]) == ""
    decreases |lineas|
  {
    if lineas == [] then None
    else if Strip(lineas[0]) != "" then Some(Strip(lineas[0]))
    else
      assert forall j :: 1 <= j < |lineas| ==> lineas[1..][j - 1] == lineas[j];
      Respuesta(lineas[1..])
  }

  /** How many lines `obtener_entrada` consumes: up to and including the first
      non-blank one, or all of them. */
  function Consumidas(lineas: seq<string>): (n: nat)
    ensures n <= |lineas|
    ensures Respuesta(lineas).Some? ==> 1 <= n
    ensures Respuesta(lineas).None? ==> n == |lineas|
    decreases |lineas|
  {
    if lineas == [] then 0
    else if Strip(lineas[0]) != "" then 1
    else 1 + Consumidas(lineas[1..])
  }

  /** Line k is the first line of `lineas` that is not blank. */
  ghost predicate PrimeraRespuesta(lineas: seq<string>, k: int) {
    && 0 <= k < |lineas|
    && Strip(lineas[k]) != ""
    && forall j :: 0 <= j < k ==> Strip(lineas[j]) == ""
  }

  lemma PrimeraRespuestaUnica(lineas: seq<string>, k1: int, k2: int)
    requires PrimeraRespuesta(lineas, k1) && PrimeraRespuesta(lineas, k2)
    ensures k1 == k2
  {
  }

  /** The answer is the stripped first non-blank line, and the lines consumed
      are exactly the blank ones before it and that line. */
  lemma {:induction false} RespuestaEsPrimera(lineas: seq<string>)
    requires Respuesta(lineas).Some?
    ensures PrimeraRespuesta(lineas, Consumidas(lineas) - 1)
    ensures Respuesta(lineas).value == Strip(lineas[Consumidas(lineas) - 1])
    decreases |lineas|
  {
    if Strip(lineas[0]) == "" {
      var cola := lineas[1..];
      RespuestaEsPrimera(cola);
      var k := Consumidas(cola) - 1;
      assert lineas[k + 1] == cola[k];
      forall j | 0 <= j < k + 1 ensures Strip(lineas[j]) == "" {
        if j > 0 {
          assert lineas[j] == cola[j - 1];
        }
      }
    }
  }

  /** What the status loop yields on these lines: the status of the first line
      that strips to '1' or '2'; None when no line does (input runs out). */
  function RespuestaEstado(lineas: seq<string>): (r: Option<EstadoLectura>)
    ensures r.None? <==> forall j :: 0 <= j < |lineas| ==> DecodificarEstado(Strip(lineas[j])).None?
    decreases |lineas|
  {
    if lineas == [] then None
    else if DecodificarEstado(Strip(lineas[0])).Some? then DecodificarEstado(Strip(lineas[0]))
    else
      assert forall j :: 1 <= j < |lineas| ==> lineas[1..][j - 1] == lineas[j];
      RespuestaEstado(lineas[1..])
  }

  /** Line k is the first line of `lineas` that strips to a status key. */
  ghost predicate PrimerEstado(lineas: seq<string>, k: int) {
    && 0 <= k < |lineas|
    && DecodificarEstado(Strip(lineas[k])).Some?
    && forall j :: 0 <= j < k ==> DecodificarEstado(Strip(lineas[j])).None?
  }

  /** The status read is the decode of the first line that decodes; every
      earlier line was rejected. */
  lemma {:induction false} RespuestaEstadoEsPrimera(lineas: seq<string>)
    requires RespuestaEstado(lineas).Some?
    ensures exists k :: PrimerEstado(lineas, k) && RespuestaEstado(lineas) == DecodificarEstado(Strip(lineas[k]))
    decreases |lineas|
  {
    if DecodificarEstado(Strip(lineas[0])).Some? {
      assert PrimerEstado(lineas, 0);
    } else {
      var cola := lineas[1..];
      RespuestaEstadoEsPrimera(cola);
      var k :| PrimerEstado(cola, k) && RespuestaEstado(cola) == DecodificarEstado(Strip(cola[k]));
      assert lineas[k + 1] == cola[k];
      forall j | 0 <= j < k + 1 ensures DecodificarEstado(Strip(lineas[j])).None? {
        if j > 0 {
          assert lineas[j] == cola[j - 1];
        }
      }
      assert PrimerEstado(lineas, k + 1);
    }
  }

  /** One round of the status loop: the answer `obtener_entrada` returns either
      decodes, and is the status read, or is rejected, and the loop goes on with
      the lines after it. */
  lemma {:induction false} EstadoTrasRespuesta(lineas: seq<string>)
    requires Respuesta(lineas).Some?
    ensures RespuestaEstado(lineas) ==
              if DecodificarEstado(Respuesta(lineas).value).Some? then DecodificarEstado(Respuesta(lineas).value)
              else RespuestaEstado(lineas[Consumidas(lineas)..])
    decreases |lineas|
  {
    if Strip(lineas[0]) == "" {
      var cola := lineas[1..];
      EstadoTrasRespuesta(cola);
      assert cola[Consumidas(cola)..] == lineas[Consumidas(lineas)..];
    }
  }

  // ---------------------------------------------------------------------------
  // Input loops

  /** `obtener_entrada`: read lines until one is not blank and return it stripped.
      `usadas` is the number of lines consumed. None when the lines run out, where
      `input()` would raise EOFError. */
  method ObtenerEntrada(lineas: seq<string>) returns (r: Option<string>, usadas: nat)
    ensures r == Respuesta(lineas) && usadas == Consumidas(lineas)
  {
    usadas := 0;
    assert lineas[0..] == lineas;
    while usadas < |lineas|
      invariant usadas <= |lineas|
      invariant Respuesta(lineas[usadas..]) == Respuesta(lineas)
      invariant usadas + Consumidas(lineas[usadas..]) == Consumidas(lineas)
    {
      var entrada := Strip(lineas[usadas]);
      assert lineas[usadas..][1..] == lineas[usadas + 1..];
      usadas := usadas + 1;
      if entrada != "" {
        return Some(entrada), usadas;
      }
    }
    r := None;
  }

  /** The status loop of the add and update handlers: read answers with
      `obtener_entrada` until one is '1' or '2'. None when the lines run out. */
  method LeerEstado(lineas: seq<string>) returns (e: Option<EstadoLectura>)
    ensures e == RespuestaEstado(lineas)
  {
    var resto := lineas;
    while resto != []
      invariant RespuestaEstado(resto) == RespuestaEstado(lineas)
      decreases |resto|
    {
      var entrada, n := ObtenerEntrada(resto);
      if entrada.None? {
        return None;
      }
      EstadoTrasRespuesta(resto);
      e := DecodificarEstado(entrada.value);
      if e.Some? {
        return;
      }
      resto := resto[n..];
    }
    e := None;
  }

  /** The value prompt of the update handler: the status loop for `estado`, one
      `obtener_entrada` for the other fields. */
  function ValorLeido(campo: Campo, lineas: seq<string>): (r: Option<string>)
    ensures r.Some? ==> Admisible(campo, r.value)
  {
    if campo == Estado then
      match RespuestaEstado(lineas)
      case None => None
      case Some(e) => Some(Etiqueta(e))
    else Respuesta(lineas)
  }

  method LeerNuevoValor(campo: Campo, lineas: seq<string>) returns (valor: Option<string>)
    ensures valor == ValorLeido(campo, lineas)
  {
    if campo == Estado {
      var estado := LeerEstado(lineas);
      valor := if estado.Some? then Some(Etiqueta(estado.value)) else None;
    } else {
      var entrada, _ := ObtenerEntrada(lineas);
      valor := entrada;
    }
  }

  /** The delete confirmation `input(...).lower() == 's'` (the answer is not stripped). */
  predicate Confirma(confirmacion: string) {
    Lower(confirmacion) == "s"
  }

  /** Exactly "s" and "S" confirm; anything else, a padded " s" included, cancels. */
  lemma ConfirmaSiSoloSi(confirmacion: string)
    ensures Confirma(confirmacion) <==> confirmacion == "s" || confirmacion == "S"
  {
    if Confirma(confirmacion) {
      assert |confirmacion| == 1;
      assert LowerChar(confirmacion[0]) == 's';
      assert confirmacion == [confirmacion[0]];
    }
  }

  // ---------------------------------------------------------------------------
  // Handlers

  /** Every row holds values the console can supply. */
  ghost predicate TablaBienFormada(m: map<int, Libro>) {
    forall id :: id in m ==> BienFormado(m[id])
  }

  datatype ResultadoAgregar = Agregado | ErrorAlAgregar | EntradaAgotadaAlAgregar

  /** The record the add prompts read: title, author and genre from three
      successive `obtener_entrada` calls, then the status loop. None when the
      lines run out first. */
  function LibroLeido(lineas: seq<string>): Option<Libro> {
    var l2 := lineas[Consumidas(lineas)..];
    var l3 := l2[Consumidas(l2)..];
    var l4 := l3[Consumidas(l3)..];
    var titulo, autor, genero, estado := Respuesta(lineas), Respuesta(l2), Respuesta(l3), RespuestaEstado(l4);
    if titulo.Some? && autor.Some? && genero.Some? && estado.Some? then
      Some(Libro(titulo.value, autor.value, genero.value, Etiqueta(estado.value)))
    else None
  }

  /** The record read always holds non-empty text fields and a status of
      ESTADOS_LECTURA. */
  lemma LibroLeidoBienFormado(lineas: seq<string>)
    requires LibroLeido(lineas).Some?
    ensures BienFormado(LibroLeido(lineas).value)
  {
    var l := LibroLeido(lineas).value;
    forall c ensures Admisible(c, Valor(l, c)) {
      match c
      case Titulo =>
      case Autor =>
      case Genero =>
      case Estado =>
    }
  }

  /** A user who answers each prompt at once gets exactly the stripped answers
      stored, with the status the key names. */
  lemma LibroLeidoDirecto(titulo: string, autor: string, genero: string, estado: string, resto: seq<string>)
    requires Strip(titulo) != "" && Strip(autor) != "" && Strip(genero) != ""
    requires DecodificarEstado(Strip(estado)).Some?
    ensures LibroLeido([titulo, autor, genero, estado] + resto) ==
              Some(Libro(Strip(titulo), Strip(autor), Strip(genero), Etiqueta(DecodificarEstado(Strip(estado)).value)))
  {
    var l1 := [titulo, autor, genero, estado] + resto;
    var l2 := [autor, genero, estado] + resto;
    var l3 := [genero, estado] + resto;
    var l4 := [estado] + resto;
    assert l1[0] == titulo && l1[1..] == l2;
    assert l2[0] == autor && l2[1..] == l3;
    assert l3[0] == genero && l3[1..] == l4;
    assert l4[0] == estado;
  }

  /** The prompts of the add handler; the record read is `LibroLeido`. */
  method LeerLibro(lineas: seq<string>) returns (nuevo: Option<Libro>)
    ensures nuevo == LibroLeido(lineas)
  {
    var resto := lineas;
    var titulo, n1 := ObtenerEntrada(resto);
    resto := resto[n1..];
    var autor, n2 := ObtenerEntrada(resto);
    resto := resto[n2..];
    var genero, n3 := ObtenerEntrada(resto);
    resto := resto[n3..];
    var estado := LeerEstado(resto);
    if titulo.None? || autor.None? || genero.None? || estado.None? {
      return None;
    }
    nuevo := Some(Libro(titulo.value, autor.value, genero.value, Etiqueta(estado.value)));
  }

  /** `manejar_agregar_libro`: read the new record, then insert it. A complete
      read and a committed insert store exactly the record read, under a fresh
      id; otherwise the table is unchanged. */
  method ManejarAgregarLibro(db: LibroDBManager, lineas: seq<string>, commit: Commit)
    returns (salida: ResultadoAgregar)
    requires db.Valid()
    modifies db
    ensures db.Valid()
    ensures salida == EntradaAgotadaAlAgregar <==> LibroLeido(lineas).None?
    ensures salida == Agregado <==> LibroLeido(lineas).Some? && commit.Committed?
    ensures salida == Agregado ==>
              && old(db.siguienteId) !in old(db.libros)
              && db.libros == old(db.libros)[old(db.siguienteId) := LibroLeido(lineas).value]
              && BienFormado(db.libros[old(db.siguienteId)])
    ensures salida != Agregado ==> db.libros == old(db.libros)
    ensures TablaBienFormada(old(db.libros)) ==> TablaBienFormada(db.libros)
  {
    var nuevo := LeerLibro(lineas);
    if nuevo.None? {
      return EntradaAgotadaAlAgregar;
    }
    var l := nuevo.value;
    LibroLeidoBienFormado(lineas);
    var ok := db.InsertarLibro(l.titulo, l.autor, l.genero, l.estado, commit);
    if ok {
      assert db.libros[old(db.siguienteId)] == l;
      salida := Agregado;
    } else {
      salida := ErrorAlAgregar;
    }
  }

  /** The first non-blank answer in `lineas` decodes, as a field option, to `c`. */
  ghost predicate EligeCampo(lineas: seq<string>, c: Option<Campo>) {
    exists k :: PrimeraRespuesta(lineas, k) && DecodificarCampo(Strip(lineas[k])) == c
  }

  /** The field option is decided by one answer only: the same input cannot
      both select a field and be rejected, or select two fields. */
  lemma EligeCampoUnico(lineas: seq<string>, c1: Option<Campo>, c2: Option<Campo>)
    requires EligeCampo(lineas, c1) && EligeCampo(lineas, c2)
    ensures c1 == c2
  {
    var k1 :| PrimeraRespuesta(lineas, k1) && DecodificarCampo(Strip(lineas[k1])) == c1;
    var k2 :| PrimeraRespuesta(lineas, k2) && DecodificarCampo(Strip(lineas[k2])) == c2;
    PrimeraRespuestaUnica(lineas, k1, k2);
  }

  /** What the prompts of the update handler yield. */
  datatype Lectura = SinEntrada | OpcionInvalida | Cambio(campo: Campo, valor: string)

  /** The field option through `obtener_entrada`, then the value prompt on the
      lines after it. */
  function CambioLeido(lineas: seq<string>): (r: Lectura)
    ensures r.Cambio? ==> Admisible(r.campo, r.valor)
  {
    match Respuesta(lineas)
    case None => SinEntrada
    case Some(opcion) =>
      match DecodificarCampo(opcion)
      case None => OpcionInvalida
      case Some(c) =>
        match ValorLeido(c, lineas[Consumidas(lineas)..])
        case None => SinEntrada
        case Some(v) => Cambio(c, v)
  }

  /** "Opción no válida" comes exactly when the first non-blank answer is not one
      of '1'..'4'; a change always concerns the field that answer names. */
  lemma CambioLeidoOpcion(lineas: seq<string>)
    ensures CambioLeido(lineas) == OpcionInvalida <==> EligeCampo(lineas, None)
    ensures CambioLeido(lineas).Cambio? ==> EligeCampo(lineas, Some(CambioLeido(lineas).campo))
  {
    if Respuesta(lineas).Some? {
      RespuestaEsPrimera(lineas);
      var k := Consumidas(lineas) - 1;
      assert EligeCampo(lineas, DecodificarCampo(Strip(lineas[k])));
      if EligeCampo(lineas, None) {
        EligeCampoUnico(lineas, None, DecodificarCampo(Strip(lineas[k])));
      }
    }
  }

  /** The prompts of the update handler; what they yield is `CambioLeido`. */
  method LeerCambio(lineas: seq<string>) returns (r: Lectura)
    ensures r == CambioLeido(lineas)
  {
    var opcion, n := ObtenerEntrada(lineas);
    if opcion.None? {
      return SinEntrada;
    }
    var campo := DecodificarCampo(opcion.value);
    if campo.None? {
      return OpcionInvalida;
    }
    var valor := LeerNuevoValor(campo.value, lineas[n..]);
    if valor.None? {
      return SinEntrada;
    }
    r := Cambio(campo.value, valor.value);
  }

  datatype ResultadoActualizar =
    | Actualizado
    | NoSePudo(mensaje: string)
    | SinActualizacion
    | OpcionNoValida
    | EntradaAgotadaAlActualizar

  /** `manejar_actualizar_libro` from the point where `obtener_id_valido` has
      returned an id present in the table: read the field option and the new
      value, and update. The outcome is decided by what was read and by the
      commit; "No se realizó ninguna actualización" is never reached. */
  method ManejarActualizarLibro(db: LibroDBManager, id: int, lineas: seq<string>, commit: Commit)
    returns (salida: ResultadoActualizar)
    requires db.Valid() && id in db.libros
    modifies db
    ensures db.Valid() && db.siguienteId == old(db.siguienteId)
    ensures salida != SinActualizacion
    ensures salida == EntradaAgotadaAlActualizar <==> CambioLeido(lineas).SinEntrada?
    ensures salida == OpcionNoValida <==> CambioLeido(lineas).OpcionInvalida?
    ensures salida == Actualizado <==> CambioLeido(lineas).Cambio? && commit.Committed?
    ensures salida.NoSePudo? <==> CambioLeido(lineas).Cambio? && commit.Rejected?
    ensures salida.NoSePudo? ==> salida.mensaje == ERROR_AL_ACTUALIZAR + commit.detail
    ensures salida == Actualizado ==>
              db.libros == old(db.libros)[id := ConCampo(old(db.libros)[id], CambioLeido(lineas).campo, CambioLeido(lineas).valor)]
    ensures salida != Actualizado ==> db.libros == old(db.libros)
    ensures TablaBienFormada(old(db.libros)) ==> TablaBienFormada(db.libros)
  {
    var lectura := LeerCambio(lineas);
    match lectura
    case SinEntrada =>
      return EntradaAgotadaAlActualizar;
    case OpcionInvalida =>
      return OpcionNoValida;
    case Cambio(campo, valor) =>
      ghost var antes := db.libros;
      var exito, error := db.ActualizarLibro(id, campo, valor, commit);
      if exito {
        salida := Actualizado;
        assert TablaBienFormada(antes) ==> TablaBienFormada(db.libros) by {
          if TablaBienFormada(antes) {
            ConCampoBienFormado(antes[id], campo, valor);
          }
        }
      } else if error.Some? {
        salida := NoSePudo(error.value);
      } else {
        salida := SinActualizacion;
      }
  }

  datatype ResultadoEliminar = Eliminado | ErrorAlEliminar | Cancelada

  /** `manejar_eliminar_libro` from the point where `obtener_id_valido` has
      returned an id present in the table: delete only on confirmation. */
  method ManejarEliminarLibro(db: LibroDBManager, id: int, confirmacion: string, commit: Commit)
    returns (salida: ResultadoEliminar)
    requires db.Valid() && id in db.libros
    modifies db
    ensures db.Valid() && db.siguienteId == old(db.siguienteId)
    ensures salida == Cancelada <==> !Confirma(confirmacion)
    ensures salida == Eliminado <==> Confirma(confirmacion) && commit.Committed?
    ensures salida == Eliminado ==> db.libros == old(db.libros) - {id}
    ensures salida != Eliminado ==> db.libros == old(db.libros)
    ensures TablaBienFormada(old(db.libros)) ==> TablaBienFormada(db.libros)
  {
    if Lower(confirmacion) == "s" {
      var ok := db.EliminarLibro(id, commit);
      salida := if ok then Eliminado else ErrorAlEliminar;
    } else {
      salida := Cancelada;
    }
  }
}
