/** A client of the store that walks through one book's life cycle using only
    the contracts of `LibroDBManager`: add, find by author, mark as read, delete. */
module Ejemplo {
  import opened Wrappers
  import opened Text
  import opened Libros
  import opened Store
  import opened Consola

  method CicloDeVida() {
    var db := new LibroDBManager(map[], 1);
    var cien := Libro("Cien años de soledad", "García Márquez", "Novela", ESTADOS_LECTURA[1]);

    var ok := db.InsertarLibro(cien.titulo, cien.autor, cien.genero, cien.estado, Committed);
    assert ok && db.libros == map[1 := cien];
    var leido := db.ObtenerLibroPorId(1);
    assert leido == Some(cien);

    // "garcía" occurs, ignoring case, at the start of the author.
    var d := ToDict(1, cien);
    assert Literal("garcía");
    assert Lower("garcía") <= Lower(d.autor)[0..];
    IlikeEsSubcadena(d.autor, "garcía");
    assert Seleccion(db.libros, "garcía") == {d};
    var hallados := db.BuscarLibros("garcía");
    assert multiset(hallados) == multiset{d};
    assert |hallados| == 1 && hallados[0] in multiset(hallados);
    assert hallados == [d];

    var exito, error := db.ActualizarLibro(1, Estado, ESTADOS_LECTURA[0], Committed);
    assert exito && error == None;
    leido := db.ObtenerLibroPorId(1);
    assert leido.Some? && leido.value.estado == "Leído" && leido.value.titulo == cien.titulo;

    ok := db.EliminarLibro(1, Committed);
    assert ok;
    leido := db.ObtenerLibroPorId(1);
    assert leido == None;

    // Neither an update nor a delete finds the id any more, and the table stays empty.
    exito, error := db.ActualizarLibro(1, Titulo, "Otro", Committed);
    assert !exito && error == Some(LIBRO_NO_ENCONTRADO);
    ok := db.EliminarLibro(1, Committed);
    assert !ok && db.libros == map[];
  }

  /** The same life cycle through the console handlers, with the lines a user
      types: the add stores the answers as typed, an unknown field option
      changes nothing, and "S" confirms the deletion. */
  method CicloDeConsola() {
    var db := new LibroDBManager(map[], 1);
    var lineas := ["Rayuela", "Cortázar", "Novela", "1"];
    LibroLeidoDirecto("Rayuela", "Cortázar", "Novela", "1", []);
    assert lineas + [] == lineas;
    var rayuela := Libro("Rayuela", "Cortázar", "Novela", ESTADOS_LECTURA[0]);
    var agregado := ManejarAgregarLibro(db, lineas, Committed);
    assert agregado == Agregado && db.libros == map[1 := rayuela];

    assert ["7"][1..] == [];
    var actualizado := ManejarActualizarLibro(db, 1, ["7"], Committed);
    assert actualizado == OpcionNoValida && db.libros == map[1 := rayuela];

    ConfirmaSiSoloSi("S");
    var eliminado := ManejarEliminarLibro(db, 1, "S", Committed);
    assert eliminado == Eliminado && db.libros == map[];
  }
}
