# Boletín de notas: a Dafny model of the grade core

This project models the part of the school report-card ("boletín") application
that decides what is stored and what is shown:

- **server.js.** The Express server's rules:
  - registration checks (POST /register) and the profesor/admin gate;
  - who may read a report card;
  - subject names, period names and the capitalisation of names;
  - the two routes that write grades in a transaction: POST /api/notas and the first POST /api/notas/guardar.
- **grades.js.** The grades router: the report-card listing and the search, the batch REPLACE of POST /notas, PUT /notas/:id and DELETE /notas/:id.
- **notas.js.** The browser side:
  - the payload a teacher's form sends;
  - grouping a student's grades by subject and period;
  - the average shown for a subject.
- **init-database.js.** Database set-up:
  - splitting the schema script into statements;
  - `agregarEstudiante`, `buscarEstudiante` and `registrarUsuario`.

JavaScript values are modelled by `Js.Value`:

- undefined, null, NaN, booleans, numbers (as reals) and strings.
- Truthiness, `||`, `===`, `trim`, `parseInt` and `parseFloat` (decimal forms) are defined on it.
- The way the MySQL driver sends `undefined` (as NULL) and the way JSON sends `NaN` (as null) are modelled as well.

Tables are sequences of rows held in classes:

- `ServerGrades.Boletin`;
- `Grades.BoletinTable`, whose `nextId` is the auto-increment counter;
- `InitDatabase.SchoolDb`.

Their methods change the rows step by step inside a transaction. Each method is proved against a function on the old rows:

- `ApplyAll`, `ReplaceAll`, `SetFields`, `RemoveId`, `Registered` and `Added`.

The properties the application relies on are lemmas about those functions. A database failure is an input: `Txn.Fault` says whether `BEGIN` fails, which numbered write fails (writes count from 0), or whether `COMMIT` fails. `ServerGrades.Boletin.AgregarNotas`, `Grades.BoletinTable.PostNotas` and the `InitDatabase.SchoolDb` helpers work on a copy of the rows inside the transaction, and only the commit stores that copy. `ServerGrades.Boletin.GuardarNotas` writes the rows in place and puts back the snapshot it took at `BEGIN` when anything fails. Either way a rollback leaves the rows as they were. The auto-increment counters are not rolled back, as in MySQL.

The unique keys are not defined in the application's source. The model therefore makes these assumptions:

- **`boletinnotas` as server.js writes it.** server.js uses the columns alumno_id, materia_id, nota, periodo and fecha. The table is assumed to be unique on (alumno_id, materia_id, periodo), the key the upsert of POST /api/notas looks up. The ON DUPLICATE KEY UPDATE of POST /api/notas/guardar relies on the same key. This table is `ServerGrades.Boletin`.
- **`boletinnotas` as grades.js writes it.** grades.js uses the columns nombre, apellido, asignatura, the three trimesters and comentario. Its unique key is a parameter of `Grades.BoletinTable`. The empty set means the table has no unique key besides `id`. The two files describe the same table with different columns, so the model keeps the two views apart.

## Model

| member | source | states |
|---|---|---|
| Js.ParseIntRoundTrip | notas.js:100-103 | `parseInt` reads back every integer written in decimal, signs included |
| Js.ParseFloatOfInt | notas.js:102 | `parseFloat` of an integer written in decimal is that integer |
| Js.TrimEmpty | init-database.js:27 | `trim()` is empty exactly when every character is white space |
| Js.HasSubstringAt | grades.js:49-53 | a string contains the search term exactly when the term occurs at some position |
| ServerRules.Register | server.js:266-322 | a registration is accepted iff credentials and role fields are present and neither username nor email is in use; otherwise 400 with the message of the first failing check, in the source's order; a falsy grado or seccion is stored as NULL, a missing nombre or apellido as NULL, and the credentials as sent |
| ServerRules.FirstWithId | server.js:591-596 | the row `users[0]` of the lookup by id: none iff no user has the id, otherwise the first user with it |
| ServerRules.VerificarProfesorOAdmin | server.js:585-597 | no session user: 401 "No autenticado" (never sent, since requireAuth answers first under /api/notas); a user that is not profesor or admin, or no such user: 403; a request passes only for an existing user with one of those roles |
| ServerRules.OwnBoletinReadable | server.js:1042 | a student may always read the report card whose id `parseInt` reads as their own |
| ServerRules.OthersBoletinHidden | server.js:1042 | a non-staff user is refused every other card requested by its decimal id, and a card requested by an empty id |
| Js.ParseIntLeadingDigits | server.js:1042 | `parseInt` reads a natural number followed by text that does not start with a digit as that number |
| ServerRules.TrailingTextPassesCheck | server.js:1042 | the check also lets a user through for their own id followed by any text that does not start with a digit |
| ServerRules.ExponentIdPassesCheck | server.js:1042 | in particular user 1 passes the check for the id "1e3" |
| ServerRules.NombreMateria | server.js:1299-1312 | ids 1 to 9 name the nine catalogue subjects; any other id gives "Materia " followed by the id |
| ServerRules.NombreMateriaInjective | server.js:1299-1312 | two different subject ids never get the same name |
| ServerRules.PeriodoNombre | server.js:887-889 | the number 1 is the first trimester, the number 2 the second, and every other value (a string "1" included) the third; the route holding these lines is never reached, as GET /api/notas/:alumnoId answers first |
| ServerRules.Capitalizar | server.js:1018-1022 | the name is trimmed and only its first character, if a word character, is upper-cased; length and the rest are kept |
| ServerRules.CapitalizarIdempotent | server.js:1018-1022 | capitalising a capitalised name changes nothing |
| ServerGrades.CheckNotas | server.js:753-760 | the checking loop gives the same verdict as `Validate`: it stops at the first bad element |
| ServerGrades.Validate | server.js:746-761 | a batch is valid iff every element is an object with truthy alumnoId, materiaId and periodo and a defined nota; the first bad element decides: null or undefined throws (500), any other gives 400 |
| ServerGrades.UpsertCount | server.js:768-786 | one upsert adds a row for a key without NULL columns exactly when no row held it, and changes the count of no other such key |
| ServerGrades.ApplyAllCount | server.js:767-787 | after a batch, a key that can match has one row when the batch wrote it and the table lacked it, and keeps its count otherwise |
| ServerGrades.OneRowPerKey | server.js:767-787 | a batch of valid entries keeps at most one row per key, and each key it wrote has exactly one row |
| ServerGrades.LastWriteWins | server.js:767-787 | after a batch, the row of a written key holds the batch's last nota for it and the batch's timestamp |
| ServerGrades.ApplyAllFrame | server.js:767-787 | rows of keys the batch does not write are left exactly as they were |
| ServerGrades.ValidEntryMatchable | server.js:754 | a validated entry has no NULL key column, so its upsert finds the existing row |
| ServerGrades.ApplyAllUnmatchable | server.js:676-683 | a key with a NULL column gains one row per write to it: the unique key never merges them |
| ServerGrades.LastNotaAt | server.js:676-683 | the last write to a key is the one no later write of the batch repeats |
| ServerGrades.GuardarNotasRows | server.js:676-683 | after a committed save, an element whose key has no NULL column is held by exactly one row, carrying the nota of the last element with that key (its own when none follows); a primitive element, or one missing materia_id or periodo, has a NULL key column and adds a new row |
| ServerGrades.Boletin.AgregarNotas | server.js:738-812 | 400 for a non-array or a bad element, 500 for a null element or a database failure, each with the table unchanged; on success 200 and the table is every entry upserted in order at the request's time |
| ServerGrades.Boletin.GuardarNotas | server.js:659-700 | 500 with the table unchanged when the student is missing, an element is null or undefined, or the database fails; otherwise 200 and every element is inserted or, on a duplicate key, updates its nota |
| Grades.Listing | grades.js:23-38 | the listing holds min(50, size) rows: the table read from its highest id downwards |
| Grades.ListingTop | grades.js:23-38 | every row listed is a table row, and every row left out has a smaller id than every row listed |
| Grades.Search | grades.js:41-59 | a row is found iff its nombre or apellido is a string containing the term (a missing term is searched as "undefined"); results come highest id first |
| Grades.Batch | grades.js:66 | a non-array body is a batch of one |
| Grades.FalsyBecomesNull | grades.js:101-109 | a falsy trimester or comment is stored as NULL, a truthy one as sent |
| Grades.OmittedBecomesNull | grades.js:101-109 | a missing student or subject name is stored as NULL |
| Grades.ReplaceValid | grades.js:89-99 | one REPLACE keeps the table valid: ids unique and ascending, no two rows clash on the unique key |
| Grades.ReplaceWholesale | grades.js:89-99 | REPLACE deletes every row that clashes with the new one, keeps all others, and adds the new row under a fresh id |
| Grades.ReplaceAllValid | grades.js:77-117 | a batch of REPLACEs keeps the table valid and uses up one id per element |
| Grades.ReplaceEach | grades.js:77-117 | the loop issues the REPLACEs in order until an element is null or a write is refused; when it reaches the end, the table is the whole batch `ReplaceAll`ed |
| Grades.BoletinTable.PostNotas | grades.js:62-145 | a null element or a database failure: 500 and the rows unchanged; otherwise 200 and every element REPLACEd in order, the counter advanced by the batch size |
| Grades.UpdateValues | grades.js:172-181 | the seven fields are stored as sent, undefined as NULL |
| Grades.SetFields | grades.js:160-170 | only the row with the id gets the new fields; order, ids and every other row are kept |
| Grades.SetFieldsValid | grades.js:160-170 | an update that clashes with no other row keeps the table valid |
| Grades.BoletinTable.Update | grades.js:148-195 | 404 when no row has the id; 500 when the update would break the unique key or the database fails; otherwise 200 and only that row's fields change |
| Grades.RemoveIdSpec | grades.js:201 | exactly the rows with the id are removed and the order of the rest is kept |
| Grades.RemoveIdValid | grades.js:198-215 | deleting keeps the table valid |
| Grades.RemoveIdCount | grades.js:205-210 | the table shrinks by one iff a row had the id |
| Grades.BoletinTable.Delete | grades.js:198-215 | 404 when no row has the id, 500 on failure, otherwise 200 and that row is gone |
| Notas.PayloadAccepted | notas.js:99-111 | the server accepts the form's payload iff alumno, materia and periodo parse to nonzero numbers |
| Notas.PayloadEntryValid | notas.js:99-111 | the entry sent is valid iff the three ids parse to nonzero numbers |
| Notas.PayloadOfIntegers | notas.js:99-104 | for a form of integers, the payload carries exactly those numbers |
| Notas.PlaceLines | notas.js:166-175 | one more grade gives its subject a line (all "-" when new) and changes only that line's cell for the grade's period |
| Notas.GroupKeys | notas.js:165-176 | there is a line for a subject exactly when some grade names it |
| Notas.GroupSlots | notas.js:165-176 | each trimester cell holds the last grade given for that subject and period, or "-" when there is none |
| Notas.NoMateriaNoGrade | notas.js:165-176 | a subject no grade names has "-" in every trimester |
| Notas.OtherPeriodIgnored | notas.js:175 | a grade whose period is not 1, 2 or 3 changes no cell |
| Notas.AgruparPorMateria | notas.js:165-178 | the loop returns the values of the grouping `Group`, one line per subject in the order the subjects first appear |
| Notas.Sum | notas.js:201 | the sum of parsed cells is a number or NaN, and NaN iff NaN is among the terms |
| Notas.Mean | notas.js:198-203 | the mean of one to three cells is NaN iff one of them is NaN, and otherwise their sum divided by their count |
| Notas.PromedioSpec | notas.js:193-203 | "-" iff all three cells are "-"; NaN iff a filled cell does not parse; otherwise the mean of the filled cells |
| Notas.MeanBounds | notas.js:198-203 | a mean of numbers is at least one of them and at most one of them |
| Notas.PromedioBounds | notas.js:198-203 | the average lies between the smallest and the largest filled grade |
| Notas.PromedioExamples | notas.js:193-203 | 80, -, 90 averages 85; 0, -, 90 averages 45, because a grade of 0 counts as filled |
| InitDatabase.FreshIdUnused | init-database.js:204-208 | the next auto-increment id is held by no user and by no role row |
| InitDatabase.RegisteredValid | init-database.js:188-246 | registering keeps every row pointing to an existing user |
| InitDatabase.RegisteredOneRole | init-database.js:213-237 | registering appends the user and exactly one row for it, in the table of its role, and leaves the personal data alone |
| InitDatabase.AdminNivelPorDefecto | init-database.js:229-232 | an administrator without an access level gets 'bajo' |
| InitDatabase.SchoolDb.RegistrarUsuario | init-database.js:188-246 | an unknown role is rejected with "Rol no válido"; a failing statement rejects with the driver's error; both leave the tables as they were; otherwise the new id is resolved and the tables are `Registered` |
| InitDatabase.AddedValid | init-database.js:59-150 | adding a student keeps every row pointing to an existing user |
| InitDatabase.AddedStudent | init-database.js:67-128 | the new user has the role estudiante and one data row iff personal data was given; no role row is written |
| InitDatabase.MissingDatoIsNull | init-database.js:104-112 | each of the eight personal columns is stored as sent when truthy and as NULL when missing or falsy; an `adicionales` that is not an object stores NULL in all eight |
| InitDatabase.SchoolDb.AgregarEstudiante | init-database.js:59-150 | a failing statement rejects and leaves the tables as they were; otherwise the new id is resolved and the tables are `Added` |
| InitDatabase.BuscarEstudiante | init-database.js:160-177 | none iff no student's email or username equals the criterion; otherwise a matching student of the table |
| InitDatabase.BuscarSinCriterio | init-database.js:162-168 | a missing (undefined or null) criterion finds nobody, since NULL equals nothing |
| InitDatabase.BuscarPrimero | init-database.js:170-175 | the student returned is the first matching one in table order, with personal data iff it has a data row, and then the data of its first data row |
| InitDatabase.Split | init-database.js:27 | the pieces contain no ';' and, joined back with ';', give the script |
| InitDatabase.SplitCount | init-database.js:27 | there is one more piece than there are ';' |
| InitDatabase.Statements | init-database.js:27 | a statement is exactly a piece that is not blank |
| InitDatabase.FilterAppend | init-database.js:27 | the filter keeps order: filtering two runs one after the other gives the kept pieces of the first, then those of the second |
| InitDatabase.FilterSingle | init-database.js:27 | a single piece is kept exactly when the test accepts it |
| InitDatabase.SplitConcat | init-database.js:27 | splitting two scripts joined by ';' gives the pieces of the first followed by those of the second |
| InitDatabase.StatementsConcat | init-database.js:27 | the statements of two scripts joined by ';' are those of the first, in order, followed by those of the second |
| InitDatabase.StatementsShape | init-database.js:27-30 | no statement is blank or contains ';' |
| InitDatabase.SingleStatement | init-database.js:27 | a script without ';' that is not blank is a single statement |

## Left out

- **HTTP and sessions.** Express routing, sessions and JSON bodies are not modelled: the session's user id and the parsed body are parameters. Console logging, the error texts the driver puts in the `error` field, and the `success` fields of replies that only echo the status are left out too.
- **Connection handling.**
  - A failure of `pool.getConnection()` in POST /api/notas/guardar happens outside its `try` (server.js:660), so no response is sent. Such a failure is not modelled.
  - The connection releases are not modelled. They change no table.
- **Concurrency.** Concurrent requests are not modelled: every transaction runs alone.
- **Other routes and files.** These are not part of this model:
  - the second POST /api/notas/guardar handler (server.js:906-997), which is never reached because the first one answers;
  - GET /api/notas/buscar (server.js:815-903) apart from its period names (`ServerRules.PeriodoNombre`). It is registered after GET /api/notas/:alumnoId (server.js:703), whose path matches first with alumnoId "buscar", so it is never reached;
  - the remaining routes of server.js;
  - `crearTablasSiNoExisten` and the login;
  - users.js, the connection modules, the DOM and the alerts of notas.js.
- **Display formatting.** `toFixed(2)` is not modelled. The average is kept as an exact rational.
- **SQL comparison.** Collation, case-insensitive comparison, and `%` and `_` inside a LIKE search term are not modelled. Comparison is exact string equality and containment.
- **String and number coercion.**
  - MySQL's coercion between strings and numbers is not modelled. A number column matches only a number, and the id of PUT/DELETE is an integer.
  - Subject names that are also names of properties every object inherits (`__proto__`, `constructor`, `toString` and the like) are treated as ordinary keys. In notas.js they would find an inherited value instead of an empty slot.
  - JavaScript's coercion of grouping keys to property names is simplified: numbers and strings become the same key only through `SlotOf`'s explicit cases. Object.values' ordering of integer-like keys is not modelled. Subjects are listed in first-seen order.
- **Number parsing.** `parseInt` and `parseFloat` are modelled only on decimal text. The hexadecimal, exponent and "Infinity" forms are left out.
- **Schema.** The schema script of init-database.js is not part of this model:
  - The split statements are not executed.
  - Column constraints are not checked. Their failures arrive only through `Txn.Fault`.
- **Row order.** Queries without ORDER BY (buscarEstudiante, the student check) return rows in table order.
- **Passwords.** Passwords are stored as sent. No hashing is modelled, because the source does none.
- **Null arguments.** A `datosUsuario` or `datosEstudiante` that is itself null (which would throw) is not modelled. The arguments are records.
- **Listing and search errors.** The errors of the GET listing and search queries (a 500) are not modelled. The queries only read.
- ServerGrades.Boletin.GuardarNotas: on a failure the reply is stated as a 500 with `success` false, but its message (the prefix followed by the driver's or the TypeError's text) is stated only for a missing student.
- Grades.BoletinTable.PostNotas: after a rollback only `nextId >= old(nextId)` is stated, because how many ids the rolled-back REPLACEs used up depends on where the batch failed.
- InitDatabase.SchoolDb.RegistrarUsuario: after a rollback only `nextUsuarioId >= old(nextUsuarioId)` is stated, for the same reason.
- ServerGrades.Boletin.AgregarNotas: one time `now` stamps every write of the batch. In MySQL each UPDATE and INSERT evaluates its own NOW() (server.js:777, 783), so the stamps of one batch may differ by the time the batch takes.
- ServerGrades.LastWriteWins: its `fecha` clause assumes the same single time for the whole batch, for the same reason.
- ServerRules.OthersBoletinHidden: it covers ids written in decimal. `parseInt` reads only the leading digits (`ServerRules.TrailingTextPassesCheck`), and MySQL then compares the INT column with the whole text as a number. So user 1 asking for "1e3" is shown alumno 1000's card, and user 1000 asking for "1000e-3" is shown alumno 1's. That comparison in the query is not modelled.
- ServerRules.VerificarProfesorOAdmin: the 500 "Error interno del servidor" it sends when its query fails (server.js:598-602) is not modelled. The user table is an input and the lookup always succeeds.
- ServerRules.Register: the 500 "Error al registrar usuario" sent when the SELECT of existing users or the INSERT fails (server.js:331-337) is not modelled, nor is the insert itself. The function stops at the row to insert.
- ServerRules.NombreMateria: it takes an integer id. A NULL materia_id, which the first POST /api/notas/guardar can store, gives "Materia null" in server.js:1299-1312 and is not modelled, nor are ids that are not integers.
