/** The request rules of server.js that decide before any grade is
    written: what a registration must carry, who may write grades, who may
    read a report card, and how subject ids, period numbers and subject
    names are turned into the text the pages show. */
module ServerRules {
  import opened Js

  /** A row of `usuarios`, with the columns these rules read. */
  datatype Usuario = Usuario(id: int, username: Value, email: Value, role: Value)

  /** The fields of a POST /register body; the row registration inserts
      into `usuarios` has the same columns. */
  datatype Registro = Registro(
    username: Value, email: Value, password: Value, role: Value,
    nombre: Value, apellido: Value, grado: Value, seccion: Value)

  datatype Registration = Rejected(status: int, message: string) | Accepted(row: Registro)

  const MissingFields := "Faltan campos requeridos"
  const StudentFieldsMissing := "Para estudiantes, nombre, apellido, grado y sección son obligatorios"
  const TeacherFieldsMissing := "Para profesores, nombre y apellido son obligatorios"
  const UsernameInUse := "El nombre de usuario ya está en uso"
  const EmailInUse := "El email ya está registrado"

  /** username, email, password and role are all present (truthy). */
  predicate HasCredentials(r: Registro)
  {
    Truthy(r.username) && Truthy(r.email) && Truthy(r.password) && Truthy(r.role)
  }

  /** The fields the role asks for on top of the credentials. */
  predicate HasRoleFields(r: Registro)
  {
    && (r.role == Str("estudiante") ==>
          Truthy(r.nombre) && Truthy(r.apellido) && Truthy(r.grado) && Truthy(r.seccion))
    && (r.role == Str("profesor") ==> Truthy(r.nombre) && Truthy(r.apellido))
  }

  /** Some user already has this username (`user.username === username`). */
  predicate UsernameTaken(usuarios: seq<Usuario>, v: Value)
  {
    exists i :: 0 <= i < |usuarios| && StrictEq(usuarios[i].username, v)
  }

  /** Some user already has this email (`user.email === email`). */
  predicate EmailTaken(usuarios: seq<Usuario>, v: Value)
  {
    exists i :: 0 <= i < |usuarios| && StrictEq(usuarios[i].email, v)
  }

  /** POST /register up to the insert: the body is checked field by field,
      then against the existing users, and the row to insert stores a
      missing grado or seccion as NULL, and a missing nombre or apellido
      (which only an admin may leave out) as the NULL the driver sends for
      `undefined`; the credentials are stored as given. */
  function Register(req: Registro, usuarios: seq<Usuario>): (r: Registration)
    ensures r.Accepted? <==>
              HasCredentials(req) && HasRoleFields(req)
              && !UsernameTaken(usuarios, req.username) && !EmailTaken(usuarios, req.email)
    ensures r.Rejected? ==> r.status == 400
    ensures !HasCredentials(req) ==> r == Rejected(400, MissingFields)
    ensures HasCredentials(req) && req.role == Str("estudiante") && !HasRoleFields(req) ==>
              r == Rejected(400, StudentFieldsMissing)
    ensures HasCredentials(req) && req.role == Str("profesor") && !HasRoleFields(req) ==>
              r == Rejected(400, TeacherFieldsMissing)
    ensures HasCredentials(req) && HasRoleFields(req) && UsernameTaken(usuarios, req.username) ==>
              r == Rejected(400, UsernameInUse)
    ensures (HasCredentials(req) && HasRoleFields(req) && !UsernameTaken(usuarios, req.username)
             && EmailTaken(usuarios, req.email)) ==> r == Rejected(400, EmailInUse)
    ensures r.Accepted? ==>
              r.row.grado == (if Truthy(req.grado) then req.grado else Null)
              && r.row.seccion == (if Truthy(req.seccion) then req.seccion else Null)
              && r.row.nombre == SqlParam(req.nombre) && r.row.apellido == SqlParam(req.apellido)
              && r.row.(nombre := req.nombre, apellido := req.apellido, grado := req.grado, seccion := req.seccion) == req
  {
    if !HasCredentials(req) then Rejected(400, MissingFields)
    else if req.role == Str("estudiante")
         && (!Truthy(req.nombre) || !Truthy(req.apellido) || !Truthy(req.grado) || !Truthy(req.seccion))
    then Rejected(400, StudentFieldsMissing)
    else if req.role == Str("profesor") && (!Truthy(req.nombre) || !Truthy(req.apellido))
    then Rejected(400, TeacherFieldsMissing)
    else if UsernameTaken(usuarios, req.username) then Rejected(400, UsernameInUse)
    else if EmailTaken(usuarios, req.email) then Rejected(400, EmailInUse)
    else Accepted(req.(nombre := SqlParam(req.nombre), apellido := SqlParam(req.apellido),
                       grado := Or(req.grado, Null), seccion := Or(req.seccion, Null)))
  }

  /** `WHERE id = ?` with a value taken from the session. */
  predicate IdMatches(v: Value, id: int)
  {
    v == Num(id as real)
  }

  /** Where the first row of `usuarios` whose id is `v` stands: that row is
      `users[0]` of `SELECT role FROM usuarios WHERE id = ?`. */
  function FirstWithId(usuarios: seq<Usuario>, v: Value): (r: Option<nat>)
    ensures r.None? <==> forall i :: 0 <= i < |usuarios| ==> !IdMatches(v, usuarios[i].id)
    ensures r.Some? ==> r.value < |usuarios| && IdMatches(v, usuarios[r.value].id)
                        && forall j :: 0 <= j < r.value ==> !IdMatches(v, usuarios[j].id)
  {
    if usuarios == [] then None
    else if IdMatches(v, usuarios[0].id) then Some(0)
    else match FirstWithId(usuarios[1..], v)
      case None => None
      case Some(i) => Some(i + 1)
  }

  predicate IsStaff(role: Value)
  {
    StrictEq(role, Str("profesor")) || StrictEq(role, Str("admin"))
  }

  datatype Gate = Pass | Stop(status: int, message: string)

  const NotAuthenticated := "No autenticado"
  const NotAllowed := "No tiene permisos para realizar esta acción"

  /** verificarProfesorOAdmin: a request goes on only when its session
      names a user whose role is profesor or admin. Both routes that use it
      sit under `/api/notas`, where requireAuth has already answered 401 to
      a request without a session user, so its own 401 is never sent. */
  function VerificarProfesorOAdmin(sessionUserId: Value, usuarios: seq<Usuario>): (g: Gate)
    ensures g.Pass? ==> exists i :: 0 <= i < |usuarios| && IdMatches(sessionUserId, usuarios[i].id)
                                    && IsStaff(usuarios[i].role)
    ensures !Truthy(sessionUserId) ==> g == Stop(401, NotAuthenticated)
    ensures Truthy(sessionUserId)
            && (forall i :: 0 <= i < |usuarios| && IdMatches(sessionUserId, usuarios[i].id) ==> !IsStaff(usuarios[i].role))
            ==> g == Stop(403, NotAllowed)
    ensures Truthy(sessionUserId)
            && (forall i :: 0 <= i < |usuarios| && IdMatches(sessionUserId, usuarios[i].id) ==> IsStaff(usuarios[i].role))
            && (exists i :: 0 <= i < |usuarios| && IdMatches(sessionUserId, usuarios[i].id))
            ==> g == Pass
  {
    if !Truthy(sessionUserId) then Stop(401, NotAuthenticated)
    else match FirstWithId(usuarios, sessionUserId)
      case None => Stop(403, NotAllowed)
      case Some(i) => if IsStaff(usuarios[i].role) then Pass else Stop(403, NotAllowed)
  }

  /** GET /api/boletinnotas/:alumnoId: a profesor or admin reads any report
      card; anyone else only the one whose id, read with `parseInt`, is
      their own session user id. */
  predicate PuedeVerBoletin(sessionRole: Value, sessionUserId: Value, alumnoId: string)
  {
    IsStaff(sessionRole) || StrictEq(sessionUserId, ParseInt(alumnoId))
  }

  /** A user reads their own report card, whatever their role. */
  lemma OwnBoletinReadable(role: Value, id: int)
    ensures PuedeVerBoletin(role, Num(id as real), IntToString(id))
  {
    ParseIntRoundTrip(id);
  }

  /** A user who is neither profesor nor admin reads no report card
      requested by the decimal id of another user, nor one requested by an
      empty id. */
  lemma OthersBoletinHidden(role: Value, id: int, other: int)
    requires !IsStaff(role) && other != id
    ensures !PuedeVerBoletin(role, Num(id as real), IntToString(other))
    ensures !PuedeVerBoletin(role, Num(id as real), "")
  {
    ParseIntRoundTrip(other);
  }

  /** The check compares the session's id with the leading digits of the
      requested id only: an id followed by any text that does not start
      with a digit passes it, such as "1e3" for the user 1, which the
      query then reads as alumno 1000. */
  lemma TrailingTextPassesCheck(role: Value, id: nat, rest: string)
    requires rest == [] || !IsDigit(rest[0])
    ensures PuedeVerBoletin(role, Num(id as real), IntToString(id) + rest)
  {
    ParseIntLeadingDigits(id, rest);
  }

  /** The instance of the above for "1e3" and the user 1. */
  lemma ExponentIdPassesCheck(role: Value)
    ensures PuedeVerBoletin(role, Num(1.0), "1e3")
  {
    assert IntToString(1) + "e3" == "1e3";
    TrailingTextPassesCheck(role, 1, "e3");
  }

  /** The subject names obtenerNombreMateria knows, for ids 1 to 9. */
  const Catalog: seq<string> := [
    "Matemáticas", "Inglés", "Autogestión", "Hardware", "Programación",
    "Asistencia", "Marco Jurídico", "Redes", "Prácticas"]

  const FallbackPrefix := "Materia "

  /** obtenerNombreMateria: the catalogue name of ids 1 to 9, and
      "Materia <id>" for any other id. */
  function NombreMateria(materiaId: int): (r: string)
    ensures 1 <= materiaId <= 9 ==> r == Catalog[materiaId - 1]
    ensures !(1 <= materiaId <= 9) ==>
              |r| > |FallbackPrefix| && r[..|FallbackPrefix|] == FallbackPrefix
              && ParseInt(r[|FallbackPrefix|..]) == Num(materiaId as real)
  {
    if 1 <= materiaId <= 9 then Catalog[materiaId - 1]
    else
      var r := FallbackPrefix + IntToString(materiaId);
      ParseIntRoundTrip(materiaId);
      assert r[|FallbackPrefix|..] == IntToString(materiaId);
      r
  }

  /** No two subject ids are shown under the same name. */
  lemma NombreMateriaInjective(a: int, b: int)
    requires NombreMateria(a) == NombreMateria(b)
    ensures a == b
  {
    var p := |FallbackPrefix|;
    if 1 <= a <= 9 && 1 <= b <= 9 {
      assert Catalog[a - 1] == Catalog[b - 1];
      CatalogDistinct(a - 1, b - 1);
    } else if 1 <= a <= 9 {
      FallbackNotCatalog(b, a - 1);
      assert false;
    } else if 1 <= b <= 9 {
      FallbackNotCatalog(a, b - 1);
      assert false;
    } else {
      assert Num(a as real) == ParseInt(NombreMateria(a)[p..]);
    }
  }

  /** The nine catalogue names differ from each other. */
  lemma CatalogDistinct(i: int, j: int)
    requires 0 <= i < |Catalog| && 0 <= j < |Catalog| && Catalog[i] == Catalog[j]
    ensures i == j
  {
    var lengths := [11, 6, 11, 8, 12, 10, 14, 5, 9];
    var initials := "MIAHPAMRP";
    assert forall k :: 0 <= k < |Catalog| ==> |Catalog[k]| == lengths[k] && Catalog[k][0] == initials[k];
  }

  /** No catalogue name starts with the fallback prefix. */
  lemma CatalogNotFallback(i: int)
    requires 0 <= i < |Catalog|
    ensures |Catalog[i]| < |FallbackPrefix| || Catalog[i][..|FallbackPrefix|] != FallbackPrefix
  {
    assert forall k :: 0 <= k < |Catalog| && |Catalog[k]| >= |FallbackPrefix| ==>
      Catalog[k][0] != FallbackPrefix[0] || Catalog[k][4] != FallbackPrefix[4];
  }

  /** The name of an id outside 1..9 is no catalogue name. */
  lemma FallbackNotCatalog(id: int, i: int)
    requires !(1 <= id <= 9) && 0 <= i < |Catalog|
    ensures NombreMateria(id) != Catalog[i]
  {
    CatalogNotFallback(i);
  }

  /** The period name GET /api/notas/buscar gives each grade: 1 is the
      first trimester, 2 the second, and every other value the third. That
      route is registered after GET /api/notas/:alumnoId, which matches the
      same path with alumnoId "buscar" and answers first, so as the server
      stands no request reaches this code. */
  function PeriodoNombre(periodo: Value): (r: string)
    ensures r == "Primer Trimestre" <==> StrictEq(periodo, Num(1.0))
    ensures r == "Segundo Trimestre" <==> StrictEq(periodo, Num(2.0))
    ensures r == "Primer Trimestre" || r == "Segundo Trimestre" || r == "Tercer Trimestre"
  {
    if StrictEq(periodo, Num(1.0)) then "Primer Trimestre"
    else if StrictEq(periodo, Num(2.0)) then "Segundo Trimestre"
    else "Tercer Trimestre"
  }

  /** `\w` of a JavaScript regular expression without the `u` flag. */
  predicate IsWordChar(c: char)
  {
    'a' <= c <= 'z' || 'A' <= c <= 'Z' || '0' <= c <= '9' || c == '_'
  }

  /** `toUpperCase` on a character matched by `\w`: only a to z change. */
  function UpperWordChar(c: char): (u: char)
    requires IsWordChar(c)
    ensures IsWordChar(u) && !('a' <= u <= 'z')
    ensures !('a' <= c <= 'z') ==> u == c
  {
    if 'a' <= c <= 'z' then (c as int - 32) as char else c
  }

  /** GET /api/materias formats each subject name with
      `nombre.trim().replace(/^\w/, c => c.toUpperCase())`. */
  function Capitalizar(nombre: string): (r: string)
    ensures |r| == |Trim(nombre)|
    ensures r != [] ==> r[1..] == Trim(nombre)[1..] && !IsSpace(r[0]) && !IsSpace(r[|r| - 1])
    ensures r != [] && IsWordChar(Trim(nombre)[0]) ==> r[0] == UpperWordChar(Trim(nombre)[0])
    ensures r != [] && !IsWordChar(Trim(nombre)[0]) ==> r[0] == Trim(nombre)[0]
    ensures r != [] ==> !('a' <= r[0] <= 'z')
  {
    var t := Trim(nombre);
    TrimEmpty(nombre);
    if t != [] && IsWordChar(t[0]) then [UpperWordChar(t[0])] + t[1..] else t
  }

  /** A string that neither starts nor ends with white space trims to
      itself. */
  lemma TrimmedIsFixed(s: string)
    requires s == [] || (!IsSpace(s[0]) && !IsSpace(s[|s| - 1]))
    ensures Trim(s) == s
  {
    assert TrimStart(s) == s;
  }

  /** Formatting a subject name twice gives what formatting it once gives. */
  lemma CapitalizarIdempotent(nombre: string)
    ensures Capitalizar(Capitalizar(nombre)) == Capitalizar(nombre)
  {
    var r := Capitalizar(nombre);
    TrimmedIsFixed(r);
    if r != [] && IsWordChar(r[0]) {
      assert UpperWordChar(r[0]) == r[0];
      assert [r[0]] + r[1..] == r;
    }
  }
}
