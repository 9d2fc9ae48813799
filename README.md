# Biblioteca: a verified model of the book catalogue manager

The program keeps a single table of books (`libros`). Each row has an
auto-increment `id`, a `titulo`, an `autor`, a `genero` and an `estado`, and the
estado is one of `'Leído'` / `'No leído'`. A console menu lets the user add, list,
search, update and delete rows. `LibroDBManager` is the layer behind the menu:
each of its methods builds an ORM request (`add`, `setattr`, `delete`, a
`select … order_by(titulo)`) and commits it.

This model keeps the part of the program that makes decisions:

- `Store.LibroDBManager` is a class whose `libros` field is a `map<int, Libro>` and
  whose `siguienteId` field is the table's next AUTO_INCREMENT value. The five CRUD
  methods and the search change and read that map exactly as the ORM requests
  ask. The database's answer to each `commit` is a parameter
  `Commit = Committed | Rejected(detail)`. A rejection is rolled back and leaves
  the map as it was.
- `ORDER BY titulo` is `Store.OrdenarPorTitulo`. It returns every row exactly once
  (equal multisets), sorted by `TituloLe`. `TituloLe` is code-point lexicographic
  order on lower-cased titles, which stands for the column's case-insensitive
  collation. `Store.ListadoUnico` proves that any two sorted listings of the same
  rows agree on the title at every position, so the order does not depend on
  insertion order.
- `ilike('%t%')` is modelled as it is issued, as `lower(col) LIKE lower('%t%')`,
  with `%` and `_` as wildcards (`Text.Like`). For a term without wildcards,
  `Store.SeleccionEsSubcadena` proves that the search is exactly case-insensitive
  substring search in title, author or genre. The code does not escape the term,
  so `%` selects every row and `_` selects every row with a non-empty title. The
  model shows both.
- The cell truncation of `mostrar_libros_tabla` is `Tabla.Truncar`.
- The status and field menus are closed datatypes (`EstadoLectura`, `Campo`) with
  total decoders that return an `Option`. `setattr` with a field name chosen at
  runtime becomes `Libros.ConCampo`, a match over `Campo`.
- The console's re-prompting loops (`obtener_entrada`, the status loop) are methods
  over the sequence of lines the user types. Each is proved equal to a function
  of those lines: `Respuesta` and `Consumidas` for one prompt, `RespuestaEstado`
  for the status loop, `LibroLeido` for the add prompts and `CambioLeido` for the
  update prompts. The add, update and delete handlers are methods that call the
  store. Their outcome and the new table are stated as functions of what was read
  and of the commit outcome. Every row the console writes has non-empty text
  fields and an `estado` in `ESTADOS_LECTURA` (`Consola.TablaBienFormada` is
  preserved), and the handler's "No se realizó ninguna actualización" branch
  cannot be reached.
- `Ejemplo.CicloDeVida` walks one book through add, search by "garcía", mark as
  read, and delete, using only the store's contracts. `Ejemplo.CicloDeConsola`
  does the same through the console handlers with typed lines.

Points of the code the model follows closely: insert returns a boolean,
not the new record. Update returns a `(bool, message)` pair. Search goes through
`LIKE`, so wildcard characters in the term are not matched literally. And
although the schema allows a NULL genre, the console always supplies a
non-empty one.

Files: `wrappers.dfy` (Option), `text.dfy` (strip, lower, LIKE, lexicographic
order), `libros.dfy` (record, decoders, single-field update), `tabla.dfy`
(truncation), `store.dfy` (the manager), `consola.dfy` (input loops and
handlers), `ejemplo.dfy` (the life-cycle client).

## Model

| member | source | states |
|---|---|---|
| `Libros.ToDict` | biblioteca_maria_orm.py:35-43 | the dictionary keeps the id and all four columns; the record is recovered from it unchanged |
| `Libros.Etiqueta` | biblioteca_maria_orm.py:19 | each status is stored as an element of ESTADOS_LECTURA, `Leido` as the first and `NoLeido` as the second |
| `Libros.DecodificarEstado` | biblioteca_maria_orm.py:186-195 | exactly '1' and '2' are accepted, '1' as Leído and '2' as No leído; every other answer is rejected |
| `Libros.DecodificarEstadoInverso` | biblioteca_maria_orm.py:187-192 | the status decoder accepts exactly the key the prompt shows for each status, in both directions |
| `Libros.DecodificarCampo` | biblioteca_maria_orm.py:270-273 | an option is accepted exactly when it is one of '1'..'4' |
| `Libros.DecodificarCampoInverso` | biblioteca_maria_orm.py:262-273 | the field decoder maps each printed menu number to its field and nothing else to that field, in both directions |
| `Libros.Valor` | biblioteca_maria_orm.py:26-30 | the value of one named column of a record, the read that `setattr` is the write of; `ConCampo`'s contract is stated through it |
| `Libros.ConCampo` | biblioteca_maria_orm.py:101 | the named field takes the new value and the other three fields keep theirs |
| `Libros.ConCampoMismoValor` | biblioteca_maria_orm.py:93-103 | writing a field's current value back leaves the record equal to what it was |
| `Libros.ConCampoDosVeces` | biblioteca_maria_orm.py:101 | of two writes to the same field, the last one wins |
| `Libros.ConCampoBienFormado` | biblioteca_maria_orm.py:275-289 | an update with a value the console can supply keeps a well-formed record well formed |
| `Tabla.Truncar` | biblioteca_maria_orm.py:223-225 | a value no longer than the width is shown unchanged; a longer one is shown as its first width-3 characters followed by "...", exactly width long |
| `Tabla.TruncarIdempotente` | biblioteca_maria_orm.py:223-225 | a truncated cell is not cut again |
| `Tabla.CeldasFila` | biblioteca_maria_orm.py:209-225 | the title, author and genre cells fit widths 40, 25 and 15, and a value that fits is shown unchanged |
| `Text.Strip` | biblioteca_maria_orm.py:161 | `str.strip()` never makes an input longer; what it keeps and drops is stated by the three lemmas below |
| `Text.StripExtremos` | biblioteca_maria_orm.py:161 | the stripped input neither starts nor ends with whitespace |
| `Text.StripRecorta` | biblioteca_maria_orm.py:161 | strip removes only leading and trailing whitespace and keeps the middle of the input |
| `Text.StripEmptyIffBlank` | biblioteca_maria_orm.py:161-164 | an input is rejected as empty exactly when it is all whitespace |
| `Text.StripIdempotent` | biblioteca_maria_orm.py:161 | stripping twice is the same as stripping once |
| `Text.Lower` | biblioteca_maria_orm.py:313 | `lower()` keeps the length, leaves no capital A-Z, and keeps every other character unchanged |
| `Text.Like` | biblioteca_maria_orm.py:125-131 | SQL `LIKE`: `%` matches any run of characters, `_` one character, anything else itself; its meaning for a literal term is `LikeSubstring` |
| `Text.LikeSubstring` | biblioteca_maria_orm.py:125-131 | for a term without wildcards, `s LIKE '%w%'` holds exactly when w occurs in s |
| `Text.LikePercentTermMatchesAll` | biblioteca_maria_orm.py:125 | the pattern built from the term '%' matches every string |
| `Text.LikeUnderscoreTermMatchesNonEmpty` | biblioteca_maria_orm.py:125 | the pattern built from the term '_' matches every non-empty string |
| `Store.TituloLe` | biblioteca_maria_orm.py:86 | the order `order_by(Libro.titulo)` sorts by: titles compared after lower-casing; its totality and transitivity are the next two rows |
| `Store.TituloLeTotal` | biblioteca_maria_orm.py:86 | any two titles are comparable in the listing order |
| `Store.TituloLeTransitive` | biblioteca_maria_orm.py:86 | the listing order is transitive |
| `Store.InsertarOrdenado` | biblioteca_maria_orm.py:86 | inserting one row adds exactly that row to the listing |
| `Store.InsertarOrdenadoOrdena` | biblioteca_maria_orm.py:86 | inserting into a title-sorted listing keeps it sorted |
| `Store.OrdenarPorTitulo` | biblioteca_maria_orm.py:86-87 | ORDER BY titulo returns every selected row exactly once, sorted by title |
| `Store.ListadoUnico` | biblioteca_maria_orm.py:86 | two sorted listings of the same rows have the same title (up to case) at every position, whatever the insertion order |
| `Store.Filas` | biblioteca_maria_orm.py:86-87 | the selected rows are exactly the `to_dict` forms of the table's entries |
| `Store.Ilike` | biblioteca_maria_orm.py:129-131 | `col.ilike('%t%')`, issued as `lower(col) LIKE lower('%t%')`; its meaning for a literal term is `IlikeEsSubcadena` |
| `Store.Coincide` | biblioteca_maria_orm.py:128-132 | the filter: the term matches the title, the author or the genre |
| `Store.IlikeEsSubcadena` | biblioteca_maria_orm.py:125-131 | for a term without wildcards, `ilike('%t%')` holds exactly when t occurs in the column, ignoring case |
| `Store.SeleccionEsSubcadena` | biblioteca_maria_orm.py:122-135 | for a term without wildcards, a row is found exactly when the term occurs, ignoring case, in its title, author or genre |
| `Store.BuscarPorcentajeSeleccionaTodo` | biblioteca_maria_orm.py:125 | because the term is not escaped, searching for '%' selects every row |
| `Store.BuscarGuionBajoSeleccionaNoVacios` | biblioteca_maria_orm.py:125 | because the term is not escaped, searching for '_' selects every row with a non-empty title |
| `Store.LibroDBManager.constructor` | biblioteca_maria_orm.py:48-57 | the session starts on the existing table, whose ids are all below the next auto-increment value |
| `Store.LibroDBManager.InsertarLibro` | biblioteca_maria_orm.py:72-81 | on commit it returns True and adds exactly one row, under a fresh id, with the given fields, changing no other row; on rejection it returns False, leaves every row as it was, and the next id does not go back |
| `Store.LibroDBManager.ObtenerTodosLosLibros` | biblioteca_maria_orm.py:83-87 | every row exactly once, sorted by title |
| `Store.LibroDBManager.ObtenerLibroPorId` | biblioteca_maria_orm.py:89-91 | the row under the id when there is one, and nothing otherwise |
| `Store.LibroDBManager.ActualizarLibro` | biblioteca_maria_orm.py:93-106 | absent id: (False, "Libro no encontrado.") with the table unchanged; present id and commit: (True, None) with only the named field of that row changed; rejection: (False, "Error al actualizar: …") with the table unchanged; never (False, None) |
| `Store.LibroDBManager.EliminarLibro` | biblioteca_maria_orm.py:108-120 | True exactly when the id was present and the commit went through, and then only that row is gone; otherwise False and nothing changes |
| `Store.LibroDBManager.BuscarLibros` | biblioteca_maria_orm.py:122-135 | exactly the matching rows, each once, sorted by title |
| `Consola.Respuesta` | biblioteca_maria_orm.py:158-164 | what one prompt reads: a non-empty stripped answer, and None exactly when every line is blank |
| `Consola.Consumidas` | biblioteca_maria_orm.py:158-164 | one prompt consumes at least one line when it gets an answer, all lines when it does not, and never more lines than there are |
| `Consola.RespuestaEsPrimera` | biblioteca_maria_orm.py:158-164 | the answer is the stripped first non-blank line, and the lines consumed are the blank ones before it and that line |
| `Consola.ObtenerEntrada` | biblioteca_maria_orm.py:158-164 | the loop returns exactly `Respuesta` of the lines and consumes exactly `Consumidas` of them |
| `Consola.RespuestaEstado` | biblioteca_maria_orm.py:186-195 | the status loop runs out (None) exactly when no line strips to '1' or '2' |
| `Consola.RespuestaEstadoEsPrimera` | biblioteca_maria_orm.py:186-195 | the status read is the decode of the first line that strips to '1' or '2'; every earlier line was rejected |
| `Consola.EstadoTrasRespuesta` | biblioteca_maria_orm.py:186-195 | one round of the status loop: an answer that decodes ends it, and a rejected one lets it go on with the following lines |
| `Consola.LeerEstado` | biblioteca_maria_orm.py:186-195 | the loop over `obtener_entrada` returns exactly `RespuestaEstado` of the lines |
| `Consola.ValorLeido` | biblioteca_maria_orm.py:275-287 | the value read for a field is admissible for it: a status text for `estado`, a non-empty answer otherwise |
| `Consola.LeerNuevoValor` | biblioteca_maria_orm.py:275-287 | it returns exactly `ValorLeido`: `Etiqueta` of the status loop's result for `estado`, the stripped first non-blank line otherwise |
| `Consola.ConfirmaSiSoloSi` | biblioteca_maria_orm.py:313-315 | the deletion is confirmed exactly by "s" or "S" (the answer is not stripped) |
| `Consola.Confirma` | biblioteca_maria_orm.py:313-315 | the confirmation test `input(...).lower() == 's'`; which answers pass is `ConfirmaSiSoloSi` |
| `Consola.LibroLeido` | biblioteca_maria_orm.py:182-195 | the record the add prompts read: the answers of three successive `obtener_entrada` calls, then the status loop on the lines after them |
| `Consola.LibroLeidoBienFormado` | biblioteca_maria_orm.py:182-195 | the record read has non-empty title, author and genre and an estado in ESTADOS_LECTURA |
| `Consola.LibroLeidoDirecto` | biblioteca_maria_orm.py:182-195 | a user who answers each prompt at once gets exactly the stripped answers, with the status the key names |
| `Consola.LeerLibro` | biblioteca_maria_orm.py:182-195 | the prompts return exactly `LibroLeido` of the lines |
| `Consola.ManejarAgregarLibro` | biblioteca_maria_orm.py:178-200 | input runs out exactly when `LibroLeido` is None; the add succeeds exactly when the record was read and the commit went through, and then the table gains that record under the fresh id and nothing else; otherwise the table is unchanged |
| `Consola.EligeCampoUnico` | biblioteca_maria_orm.py:268-272 | the first non-blank answer alone decides the field option: one input cannot both be rejected and select a field, or select two fields |
| `Consola.CambioLeido` | biblioteca_maria_orm.py:268-287 | what the update prompts read: a change always names a field and carries a value admissible for it |
| `Consola.CambioLeidoOpcion` | biblioteca_maria_orm.py:268-298 | the prompts report an invalid option exactly when the first non-blank answer is not '1'..'4', and a change is for the field that answer names |
| `Consola.LeerCambio` | biblioteca_maria_orm.py:268-287 | the prompts return exactly `CambioLeido` of the lines |
| `Consola.ManejarActualizarLibro` | biblioteca_maria_orm.py:268-298 | the outcome is decided by `CambioLeido` and the commit: input ran out, "Opción no válida" (no update), success that sets exactly the field read to the value read, or "No se pudo actualizar" with the error message; "No se realizó ninguna actualización" is never reached |
| `Consola.ManejarEliminarLibro` | biblioteca_maria_orm.py:313-321 | it cancels exactly when the lower-cased answer is not 's'; it deletes only on confirmation and a committed delete, and removes only that row |

## Left out

- Engine, session and connection setup, `.env` configuration and the `DATABASE_URL` (lines 11-17, 48-65) are environment and driver I/O. The constructor takes the existing table and its next AUTO_INCREMENT value instead.
- Whether a commit succeeds depends on the database; the `Commit` parameter of each writing method carries its answer. In `insertar_libro` only `IntegrityError` is caught; any other exception propagates out of the program, and the model does not represent that crash.
- Store.LibroDBManager.InsertarLibro: after a rejected insert the contract only promises that the next id does not go back, because whether InnoDB uses up the id handed to the failed row depends on where the insert failed; the body advances it by one.
- The column's collation and the case folding of `lower`/`ilike` outside ASCII are modelled by ASCII lower-casing and code-point order (`Text.LowerChar`, `Store.TituloLe`).
- `LIKE`'s escape character (`\`) is not modelled: the lemmas treat a backslash as an ordinary character.
- `str.strip()` is modelled for ASCII whitespace only; Unicode spaces such as U+00A0 are not stripped in the model.
- `obtener_id_valido` (166-176) is not modelled: Python's `int()` parsing is left out. The update and delete handlers instead require the id to be present in the table, which is what that loop guarantees. The early return on an empty table (257-258, 308-309) is implied by that requirement.
- A user who stops typing makes `input()` raise `EOFError`; the model returns `None` / `EntradaAgotada…` instead.
- Store.ListadoUnico: it states equality of the listed titles up to case; rows whose titles differ only in case may come in either order, as under a case-insensitive collation.
- All printing is left out: the menu, the table borders, column padding and the empty-result message (141-156, 202-206, 214-229). So are `limpiar_pantalla`, `__repr__`, `__del__`, the print-only handlers `manejar_listado_libros` and `manejar_buscar_libros`, and the main loop (324-350).
- The schema allows a NULL `genero` (29), but the console always supplies a non-empty genre, so `genero` is a plain string.
- `String(255)`/`String(100)`/`String(20)` length limits are enforced by the database. In `actualizar_libro`, which catches every exception (104), an over-long value is a rejected commit. In `insertar_libro` it raises a `DataError`, which `except IntegrityError` (79) does not catch, so the program stops; that crash is not modelled.
