/** The cell rule of `mostrar_libros_tabla`: a value longer than its column is cut
    and marked with an ellipsis. Padding and printing are not modelled. */
module Tabla {
  import opened Libros

  const COL_ID: nat := 5
  const COL_TITULO: nat := 40
  const COL_AUTOR: nat := 25
  const COL_GENERO: nat := 15
  const COL_ESTADO: nat := 12

  const ELIPSIS: string := "..."

  /** A value that fits is shown as it is; a longer one is cut to `ancho - 3`
      characters followed by "...", so that it is exactly `ancho` long. */
  function Truncar(s: string, ancho: nat): (r: string)
    requires |ELIPSIS| <= ancho
    ensures |s| <= ancho ==> r == s
    ensures |s| > ancho ==> |r| == ancho && r[..ancho - 3] == s[..ancho - 3] && r[ancho - 3..] == ELIPSIS
    ensures |r| <= ancho
  {
    if |s| > ancho then s[..ancho - 3] + ELIPSIS else s
  }

  /** A cell already cut to its column is not cut again. */
  lemma TruncarIdempotente(s: string, ancho: nat)
    requires |ELIPSIS| <= ancho
    ensures Truncar(Truncar(s, ancho), ancho) == Truncar(s, ancho)
  {
  }

  /** The three cut cells of one printed row. */
  datatype Celdas = Celdas(titulo: string, autor: string, genero: string)

  /** The title, author and genre cells of a row, each within its column width
      and unchanged when it fits. */
  function CeldasFila(d: LibroDict): (c: Celdas)
    ensures |c.titulo| <= COL_TITULO && |c.autor| <= COL_AUTOR && |c.genero| <= COL_GENERO
    ensures |d.titulo| <= COL_TITULO ==> c.titulo == d.titulo
    ensures |d.autor| <= COL_AUTOR ==> c.autor == d.autor
    ensures |d.genero| <= COL_GENERO ==> c.genero == d.genero
  {
    Celdas(Truncar(d.titulo, COL_TITULO), Truncar(d.autor, COL_AUTOR), Truncar(d.genero, COL_GENERO))
  }
}
