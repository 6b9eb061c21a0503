/** The database helpers of init-database.js: registering a user together
    with the row of their role, adding a student with optional personal
    data, looking a student up, and splitting the schema script into
    statements. Each write helper runs one transaction that is rolled back
    when a statement fails. */
module InitDatabase {
  import opened Js
  import opened Txn

  datatype Usuario = Usuario(id: int, email: Value, username: Value, password: Value, role: Value,
                             nombre_completo: Value, grado: Value)

  datatype Estudiante = Estudiante(usuario_id: int, grado: Value, seccion: Value)
  datatype Profesor = Profesor(usuario_id: int, especialidad: Value, departamento: Value)
  datatype Administrador = Administrador(usuario_id: int, nivel_acceso: Value, departamento: Value)

  /** The personal data of a student, one value per column of
      `datos_estudiante`. */
  datatype Datos = Datos(direccion: Value, telefono: Value, fecha_nacimiento: Value, nombre_padre: Value,
                         nombre_madre: Value, telefono_emergencia: Value, alergias: Value, grupo_sanguineo: Value)
  {
    function Get(c: DatoColumn): Value
    {
      match c
      case Direccion => direccion
      case Telefono => telefono
      case FechaNacimiento => fecha_nacimiento
      case NombrePadre => nombre_padre
      case NombreMadre => nombre_madre
      case TelefonoEmergencia => telefono_emergencia
      case Alergias => alergias
      case GrupoSanguineo => grupo_sanguineo
    }
  }

  /** The columns of `datos_estudiante` besides `usuario_id`. */
  datatype DatoColumn = Direccion | Telefono | FechaNacimiento | NombrePadre | NombreMadre
                      | TelefonoEmergencia | Alergias | GrupoSanguineo

  datatype DatosRow = DatosRow(usuario_id: int, datos: Datos)

  /** The tables the helpers write. */
  datatype Tables = Tables(usuarios: seq<Usuario>, estudiantes: seq<Estudiante>, profesores: seq<Profesor>,
                           administradores: seq<Administrador>, datosEstudiante: seq<DatosRow>)

  /** A helper's promise: resolved with the new user's id, or rejected
      with the error's text. */
  datatype Outcome = Resolved(id: int) | Rejected(reason: string)

  const RolNoValido := "Rol no válido"

  predicate IsUserId(t: Tables, id: int)
  {
    exists i :: 0 <= i < |t.usuarios| && t.usuarios[i].id == id
  }

  /** The invariant of the tables: user ids are positive, ascending and
      below the next auto-increment value, and every role and data row
      belongs to a user. */
  predicate ValidTables(t: Tables, nextId: int)
  {
    nextId >= 1
    && (forall i, j :: 0 <= i < j < |t.usuarios| ==> t.usuarios[i].id < t.usuarios[j].id)
    && (forall i :: 0 <= i < |t.usuarios| ==> 1 <= t.usuarios[i].id < nextId)
    && (forall i :: 0 <= i < |t.estudiantes| ==> IsUserId(t, t.estudiantes[i].usuario_id))
    && (forall i :: 0 <= i < |t.profesores| ==> IsUserId(t, t.profesores[i].usuario_id))
    && (forall i :: 0 <= i < |t.administradores| ==> IsUserId(t, t.administradores[i].usuario_id))
    && (forall i :: 0 <= i < |t.datosEstudiante| ==> IsUserId(t, t.datosEstudiante[i].usuario_id))
  }

  /** The rows of `s` whose key is `id`. */
  function CountWhere<T>(s: seq<T>, key: T -> int, id: int): nat
    decreases |s|
  {
    if s == [] then 0 else CountWhere(s[..|s| - 1], key, id) + (if key(s[|s| - 1]) == id then 1 else 0)
  }

  lemma {:induction false} CountWhereNone<T>(s: seq<T>, key: T -> int, id: int)
    requires forall i :: 0 <= i < |s| ==> key(s[i]) != id
    ensures CountWhere(s, key, id) == 0
    decreases |s|
  {
    if s != [] {
      CountWhereNone(s[..|s| - 1], key, id);
    }
  }

  lemma CountWhereSnoc<T>(s: seq<T>, x: T, key: T -> int, id: int)
    ensures CountWhere(s + [x], key, id) == CountWhere(s, key, id) + (if key(x) == id then 1 else 0)
  {
    assert (s + [x])[..|s|] == s;
  }

  /** How many role rows (student, teacher or administrator) reference the
      user `id`. */
  function RoleRows(t: Tables, id: int): nat
  {
    CountWhere(t.estudiantes, (e: Estudiante) => e.usuario_id, id)
    + CountWhere(t.profesores, (p: Profesor) => p.usuario_id, id)
    + CountWhere(t.administradores, (a: Administrador) => a.usuario_id, id)
  }

  /** Every user id is below the next auto-increment value. */
  lemma UserIdBelow(t: Tables, nextId: int, x: int)
    requires ValidTables(t, nextId) && IsUserId(t, x)
    ensures x < nextId
  {
    var j :| 0 <= j < |t.usuarios| && t.usuarios[j].id == x;
  }

  /** An id not yet handed out is referenced by no row. */
  lemma FreshIdUnused(t: Tables, nextId: int)
    requires ValidTables(t, nextId)
    ensures !IsUserId(t, nextId)
    ensures RoleRows(t, nextId) == 0
  {
    forall i | 0 <= i < |t.estudiantes| ensures t.estudiantes[i].usuario_id != nextId {
      UserIdBelow(t, nextId, t.estudiantes[i].usuario_id);
    }
    forall i | 0 <= i < |t.profesores| ensures t.profesores[i].usuario_id != nextId {
      UserIdBelow(t, nextId, t.profesores[i].usuario_id);
    }
    forall i | 0 <= i < |t.administradores| ensures t.administradores[i].usuario_id != nextId {
      UserIdBelow(t, nextId, t.administradores[i].usuario_id);
    }
    CountWhereNone(t.estudiantes, (e: Estudiante) => e.usuario_id, nextId);
    CountWhereNone(t.profesores, (p: Profesor) => p.usuario_id, nextId);
    CountWhereNone(t.administradores, (a: Administrador) => a.usuario_id, nextId);
  }

  /** Appending a user with the next id keeps the tables valid; the old
      users are still there and the new id now names a user. */
  lemma UsersGrow(t: Tables, u: Usuario, nextId: int)
    requires ValidTables(t, nextId) && u.id == nextId
    ensures ValidTables(t.(usuarios := t.usuarios + [u]), nextId + 1)
    ensures IsUserId(t.(usuarios := t.usuarios + [u]), nextId)
  {
    var t1 := t.(usuarios := t.usuarios + [u]);
    assert t1.usuarios[|t.usuarios|] == u;
    forall x | IsUserId(t, x) ensures IsUserId(t1, x) {
      var j :| 0 <= j < |t.usuarios| && t.usuarios[j].id == x;
      assert t1.usuarios[j].id == x;
    }
  }

  /** Ids used up by a rolled-back insert leave the tables valid. */
  lemma ValidTablesGrow(t: Tables, nextId: int)
    requires ValidTables(t, nextId)
    ensures ValidTables(t, nextId + 1)
  {
    forall x | IsUserId(t, x) ensures x < nextId + 1 {
      UserIdBelow(t, nextId, x);
    }
  }

  lemma EstudianteRowValid(t: Tables, row: Estudiante, nextId: int)
    requires ValidTables(t, nextId) && IsUserId(t, row.usuario_id)
    ensures ValidTables(t.(estudiantes := t.estudiantes + [row]), nextId)
  {
  }

  lemma ProfesorRowValid(t: Tables, row: Profesor, nextId: int)
    requires ValidTables(t, nextId) && IsUserId(t, row.usuario_id)
    ensures ValidTables(t.(profesores := t.profesores + [row]), nextId)
  {
  }

  lemma AdministradorRowValid(t: Tables, row: Administrador, nextId: int)
    requires ValidTables(t, nextId) && IsUserId(t, row.usuario_id)
    ensures ValidTables(t.(administradores := t.administradores + [row]), nextId)
  {
  }

  lemma DatosRowValid(t: Tables, row: DatosRow, nextId: int)
    requires ValidTables(t, nextId) && IsUserId(t, row.usuario_id)
    ensures ValidTables(t.(datosEstudiante := t.datosEstudiante + [row]), nextId)
  {
  }

  // ---------------------------------------------------------------------
  // registrarUsuario

  /** The fields of `datosUsuario` the helper reads. */
  datatype DatosUsuario = DatosUsuario(email: Value, username: Value, password: Value, role: Value,
                                       grado: Value, seccion: Value, especialidad: Value,
                                       departamento: Value, nivel_acceso: Value)

  /** The roles the `switch` knows (it compares with `===`). */
  predicate KnownRole(role: Value)
  {
    role == Str("estudiante") || role == Str("profesor") || role == Str("admin")
  }

  /** The `usuarios` row registrarUsuario inserts: four columns given, the
      others left NULL. */
  function NuevoUsuario(id: int, d: DatosUsuario): Usuario
  {
    Usuario(id, SqlParam(d.email), SqlParam(d.username), SqlParam(d.password), SqlParam(d.role), Null, Null)
  }

  /** The tables after a successful registration with the id `id`: the
      user row, plus one row in the table of the user's role (an
      administrator's access level defaults to 'bajo'). */
  function Registered(t: Tables, id: int, d: DatosUsuario): Tables
    requires KnownRole(d.role)
  {
    var t1 := t.(usuarios := t.usuarios + [NuevoUsuario(id, d)]);
    if d.role == Str("estudiante") then
      t1.(estudiantes := t.estudiantes + [Estudiante(id, SqlParam(d.grado), SqlParam(d.seccion))])
    else if d.role == Str("profesor") then
      t1.(profesores := t.profesores + [Profesor(id, SqlParam(d.especialidad), SqlParam(d.departamento))])
    else
      t1.(administradores := t.administradores
                             + [Administrador(id, Or(d.nivel_acceso, Str("bajo")), SqlParam(d.departamento))])
  }

  /** A registration keeps the tables valid. */
  lemma RegisteredValid(t: Tables, id: int, d: DatosUsuario)
    requires ValidTables(t, id) && KnownRole(d.role)
    ensures ValidTables(Registered(t, id, d), id + 1)
  {
    if d.role == Str("estudiante") {
      RegisteredEstudianteValid(t, id, d);
    } else if d.role == Str("profesor") {
      RegisteredProfesorValid(t, id, d);
    } else {
      RegisteredAdminValid(t, id, d);
    }
  }

  lemma RegisteredEstudianteValid(t: Tables, id: int, d: DatosUsuario)
    requires ValidTables(t, id) && d.role == Str("estudiante")
    ensures ValidTables(Registered(t, id, d), id + 1)
  {
    var u := NuevoUsuario(id, d);
    UsersGrow(t, u, id);
    EstudianteRowValid(t.(usuarios := t.usuarios + [u]), Estudiante(id, SqlParam(d.grado), SqlParam(d.seccion)), id + 1);
  }

  lemma RegisteredProfesorValid(t: Tables, id: int, d: DatosUsuario)
    requires ValidTables(t, id) && d.role == Str("profesor")
    ensures ValidTables(Registered(t, id, d), id + 1)
  {
    var u := NuevoUsuario(id, d);
    UsersGrow(t, u, id);
    ProfesorRowValid(t.(usuarios := t.usuarios + [u]), Profesor(id, SqlParam(d.especialidad), SqlParam(d.departamento)), id + 1);
  }

  lemma RegisteredAdminValid(t: Tables, id: int, d: DatosUsuario)
    requires ValidTables(t, id) && d.role == Str("admin")
    ensures ValidTables(Registered(t, id, d), id + 1)
  {
    var u := NuevoUsuario(id, d);
    UsersGrow(t, u, id);
    AdministradorRowValid(t.(usuarios := t.usuarios + [u]),
                          Administrador(id, Or(d.nivel_acceso, Str("bajo")), SqlParam(d.departamento)), id + 1);
  }

  /** A registration adds exactly one user row and exactly one role row
      referencing the new id, in the table of its role, and leaves the
      personal data alone. */
  lemma RegisteredOneRole(t: Tables, id: int, d: DatosUsuario)
    requires ValidTables(t, id) && KnownRole(d.role)
    ensures Registered(t, id, d).usuarios == t.usuarios + [NuevoUsuario(id, d)]
    ensures RoleRows(Registered(t, id, d), id) == 1
    ensures CountWhere(Registered(t, id, d).estudiantes, (e: Estudiante) => e.usuario_id, id) == (if d.role == Str("estudiante") then 1 else 0)
    ensures CountWhere(Registered(t, id, d).profesores, (p: Profesor) => p.usuario_id, id) == (if d.role == Str("profesor") then 1 else 0)
    ensures CountWhere(Registered(t, id, d).administradores, (a: Administrador) => a.usuario_id, id) == (if d.role == Str("admin") then 1 else 0)
    ensures Registered(t, id, d).datosEstudiante == t.datosEstudiante
  {
    FreshIdUnused(t, id);
    if d.role == Str("estudiante") {
      CountWhereSnoc(t.estudiantes, Estudiante(id, SqlParam(d.grado), SqlParam(d.seccion)), (e: Estudiante) => e.usuario_id, id);
    } else if d.role == Str("profesor") {
      CountWhereSnoc(t.profesores, Profesor(id, SqlParam(d.especialidad), SqlParam(d.departamento)), (p: Profesor) => p.usuario_id, id);
    } else {
      CountWhereSnoc(t.administradores, Administrador(id, Or(d.nivel_acceso, Str("bajo")), SqlParam(d.departamento)),
                     (a: Administrador) => a.usuario_id, id);
    }
  }

  /** An administrator registered without an access level (or with an empty
      one) gets 'bajo'; a given level is kept. */
  lemma AdminNivelPorDefecto(t: Tables, id: int, d: DatosUsuario)
    requires d.role == Str("admin")
    ensures Registered(t, id, d).administradores[|t.administradores|].nivel_acceso ==
              if Truthy(d.nivel_acceso) then d.nivel_acceso else Str("bajo")
  {
  }

  // ---------------------------------------------------------------------
  // agregarEstudiante

  /** `datos_adicionales`: absent or falsy, an object, or another truthy
      value (whose fields all read as undefined). */
  datatype Adicionales = Ninguno | Objeto(datos: Datos) | OtroValor

  datatype NuevoEstudiante = NuevoEstudiante(email: Value, username: Value, password: Value,
                                             nombre_completo: Value, grado: Value, adicionales: Adicionales)

  /** The personal data stored: each field given, or NULL when it is
      missing or falsy. */
  function DatosGuardados(a: Adicionales): Datos
    requires a != Ninguno
  {
    match a
    case Objeto(d) =>
      Datos(Or(d.direccion, Null), Or(d.telefono, Null), Or(d.fecha_nacimiento, Null), Or(d.nombre_padre, Null),
            Or(d.nombre_madre, Null), Or(d.telefono_emergencia, Null), Or(d.alergias, Null), Or(d.grupo_sanguineo, Null))
    case OtroValor => Datos(Null, Null, Null, Null, Null, Null, Null, Null)
  }

  /** The tables after a student is added with the id `id`: a user row with
      the role 'estudiante', and a data row only when personal data was
      given. */
  function Added(t: Tables, id: int, e: NuevoEstudiante): Tables
  {
    var u := Usuario(id, SqlParam(e.email), SqlParam(e.username), SqlParam(e.password), Str("estudiante"),
                     SqlParam(e.nombre_completo), SqlParam(e.grado));
    t.(usuarios := t.usuarios + [u],
       datosEstudiante := if e.adicionales == Ninguno then t.datosEstudiante
                          else t.datosEstudiante + [DatosRow(id, DatosGuardados(e.adicionales))])
  }

  /** Adding a student keeps the tables valid. */
  lemma AddedValid(t: Tables, id: int, e: NuevoEstudiante)
    requires ValidTables(t, id)
    ensures ValidTables(Added(t, id, e), id + 1)
  {
    var u := Usuario(id, SqlParam(e.email), SqlParam(e.username), SqlParam(e.password), Str("estudiante"),
                     SqlParam(e.nombre_completo), SqlParam(e.grado));
    UsersGrow(t, u, id);
    if e.adicionales != Ninguno {
      DatosRowValid(t.(usuarios := t.usuarios + [u]), DatosRow(id, DatosGuardados(e.adicionales)), id + 1);
    }
  }

  /** The student added has the new id and the role 'estudiante', no role
      row, and one data row when personal data was given and none
      otherwise. */
  lemma AddedStudent(t: Tables, id: int, e: NuevoEstudiante)
    requires ValidTables(t, id)
    ensures Added(t, id, e).usuarios[|t.usuarios|].id == id
    ensures Added(t, id, e).usuarios[|t.usuarios|].role == Str("estudiante")
    ensures CountWhere(Added(t, id, e).datosEstudiante, (r: DatosRow) => r.usuario_id, id) ==
              if e.adicionales == Ninguno then 0 else 1
    ensures RoleRows(Added(t, id, e), id) == 0
  {
    FreshIdUnused(t, id);
    forall i | 0 <= i < |t.datosEstudiante| ensures t.datosEstudiante[i].usuario_id != id {
      UserIdBelow(t, id, t.datosEstudiante[i].usuario_id);
    }
    CountWhereNone(t.datosEstudiante, (d: DatosRow) => d.usuario_id, id);
    if e.adicionales != Ninguno {
      CountWhereSnoc(t.datosEstudiante, DatosRow(id, DatosGuardados(e.adicionales)), (d: DatosRow) => d.usuario_id, id);
    }
  }

  /** Every personal field is stored as given when it is truthy and as
      NULL when it is missing or falsy; an `adicionales` that is not an
      object stores NULL in every column. */
  lemma MissingDatoIsNull(a: Adicionales, c: DatoColumn)
    requires a != Ninguno
    ensures DatosGuardados(a).Get(c) == if a.Objeto? && Truthy(a.datos.Get(c)) then a.datos.Get(c) else Null
  {
  }

  /** The database the helpers share. */
  class SchoolDb {
    var tables: Tables
    /** The auto-increment counter of `usuarios`: a rolled-back insert
        still uses up its id. */
    var nextUsuarioId: int

    predicate Valid()
      reads this
    {
      ValidTables(tables, nextUsuarioId)
    }

    constructor ()
      ensures Valid() && tables == Tables([], [], [], [], []) && nextUsuarioId == 1
    {
      tables := Tables([], [], [], [], []);
      nextUsuarioId := 1;
    }

    /** registrarUsuario: insert the user, then the row of its role; an
        unknown role, or a failing statement, rolls everything back. The
        user insert is write 0, the role row write 1. */
    method RegistrarUsuario(d: DatosUsuario, fault: Fault) returns (out: Outcome)
      requires Valid()
      modifies this
      ensures Valid() && nextUsuarioId >= old(nextUsuarioId)
      ensures fault.BeginFails? || fault.RefusesWrite(0) ==> out == Rejected(fault.Reason()) && tables == old(tables)
      ensures !fault.BeginFails? && !fault.RefusesWrite(0) && !KnownRole(d.role) ==>
                out == Rejected(RolNoValido) && tables == old(tables)
      ensures !fault.BeginFails? && !fault.RefusesWrite(0) && KnownRole(d.role) && fault.Strikes(2) ==>
                out == Rejected(fault.Reason()) && tables == old(tables)
      ensures KnownRole(d.role) && !fault.Strikes(2) ==>
                out == Resolved(old(nextUsuarioId)) && tables == Registered(old(tables), old(nextUsuarioId), d)
                && nextUsuarioId == old(nextUsuarioId) + 1
    {
      if fault.BeginFails? {
        return Rejected(fault.Reason());
      }
      if fault.RefusesWrite(0) {
        return Rejected(fault.Reason());
      }
      // The insert uses up the id even when the transaction is rolled back.
      var id := nextUsuarioId;
      ValidTablesGrow(tables, id);
      nextUsuarioId := id + 1;
      // The tables as the transaction sees them: stored by the commit,
      // dropped by a rollback.
      var work := tables.(usuarios := tables.usuarios + [NuevoUsuario(id, d)]);
      if !KnownRole(d.role) {
        return Rejected(RolNoValido);
      }
      if fault.RefusesWrite(1) {
        return Rejected(fault.Reason());
      }
      if d.role == Str("estudiante") {
        work := work.(estudiantes := work.estudiantes + [Estudiante(id, SqlParam(d.grado), SqlParam(d.seccion))]);
      } else if d.role == Str("profesor") {
        work := work.(profesores := work.profesores + [Profesor(id, SqlParam(d.especialidad), SqlParam(d.departamento))]);
      } else {
        work := work.(administradores := work.administradores
                                         + [Administrador(id, Or(d.nivel_acceso, Str("bajo")), SqlParam(d.departamento))]);
      }
      if fault.CommitFails? {
        return Rejected(fault.Reason());
      }
      RegisteredValid(tables, id, d);
      tables := work;
      return Resolved(id);
    }

    /** agregarEstudiante: insert the user with the role 'estudiante', then
        its personal data when there is any; a failing statement rolls
        everything back. The user insert is write 0, the data row write 1. */
    method AgregarEstudiante(e: NuevoEstudiante, fault: Fault) returns (out: Outcome)
      requires Valid()
      modifies this
      ensures Valid() && nextUsuarioId >= old(nextUsuarioId)
      ensures fault.Strikes(if e.adicionales == Ninguno then 1 else 2) ==>
                out == Rejected(fault.Reason()) && tables == old(tables)
      ensures !fault.Strikes(if e.adicionales == Ninguno then 1 else 2) ==>
                out == Resolved(old(nextUsuarioId)) && tables == Added(old(tables), old(nextUsuarioId), e)
                && nextUsuarioId == old(nextUsuarioId) + 1
    {
      if fault.BeginFails? || fault.RefusesWrite(0) {
        return Rejected(fault.Reason());
      }
      var id := nextUsuarioId;
      ValidTablesGrow(tables, id);
      nextUsuarioId := id + 1;
      var work := tables.(usuarios := tables.usuarios + [Usuario(id, SqlParam(e.email), SqlParam(e.username),
                            SqlParam(e.password), Str("estudiante"), SqlParam(e.nombre_completo), SqlParam(e.grado))]);
      if e.adicionales != Ninguno {
        if fault.RefusesWrite(1) {
          return Rejected(fault.Reason());
        }
        work := work.(datosEstudiante := work.datosEstudiante + [DatosRow(id, DatosGuardados(e.adicionales))]);
      }
      if fault.CommitFails? {
        return Rejected(fault.Reason());
      }
      AddedValid(tables, id, e);
      tables := work;
      return Resolved(id);
    }
  }

  // ---------------------------------------------------------------------
  // buscarEstudiante

  /** SQL `=`: false as soon as one side is NULL. */
  predicate SqlEq(a: Value, b: Value)
  {
    a != Null && b != Null && a == b
  }

  /** `(u.email = ? OR u.username = ?) AND u.role = 'estudiante'` */
  predicate Busca(u: Usuario, criterio: Value)
  {
    (SqlEq(u.email, SqlParam(criterio)) || SqlEq(u.username, SqlParam(criterio))) && u.role == Str("estudiante")
  }

  /** The first index of `s` at which `p` holds. */
  function FirstUsuario(s: seq<Usuario>, criterio: Value): (r: Option<nat>)
    ensures r.Some? ==> r.value < |s| && Busca(s[r.value], criterio)
                        && forall j :: 0 <= j < r.value ==> !Busca(s[j], criterio)
    ensures r.None? ==> forall j :: 0 <= j < |s| ==> !Busca(s[j], criterio)
  {
    if s == [] then None
    else if Busca(s[0], criterio) then Some(0)
    else match FirstUsuario(s[1..], criterio)
      case None => None
      case Some(i) => Some(i + 1)
  }

  function FirstDatos(s: seq<DatosRow>, id: int): (r: Option<nat>)
    ensures r.Some? ==> r.value < |s| && s[r.value].usuario_id == id
                        && forall j :: 0 <= j < r.value ==> s[j].usuario_id != id
    ensures r.None? ==> forall j :: 0 <= j < |s| ==> s[j].usuario_id != id
  {
    if s == [] then None
    else if s[0].usuario_id == id then Some(0)
    else match FirstDatos(s[1..], id)
      case None => None
      case Some(i) => Some(i + 1)
  }

  /** The first row of the LEFT JOIN of students matching by e-mail or
      username with their personal data, or None when no student matches. */
  function BuscarEstudiante(t: Tables, criterio: Value): (r: Option<(Usuario, Option<Datos>)>)
    ensures r.None? <==> forall j :: 0 <= j < |t.usuarios| ==> !Busca(t.usuarios[j], criterio)
    ensures r.Some? ==> r.value.0 in t.usuarios && Busca(r.value.0, criterio)
                        && r.value.0.role == Str("estudiante")
  {
    match FirstUsuario(t.usuarios, criterio)
    case None => None
    case Some(i) =>
      var u := t.usuarios[i];
      match FirstDatos(t.datosEstudiante, u.id)
      case None => Some((u, None))
      case Some(j) => Some((u, Some(t.datosEstudiante[j].datos)))
  }

  /** A criterion that is missing (sent as NULL) finds no student. */
  lemma BuscarSinCriterio(t: Tables)
    ensures BuscarEstudiante(t, Undefined).None? && BuscarEstudiante(t, Null).None?
  {
  }

  /** The student found is the first one, in table order, whose e-mail or
      username is the criterion, joined with its first data row: the data
      are present exactly when the student has a data row, and are then
      those of the first such row. */
  lemma BuscarPrimero(t: Tables, criterio: Value, k: nat)
    requires k < |t.usuarios| && Busca(t.usuarios[k], criterio)
    requires forall j :: 0 <= j < k ==> !Busca(t.usuarios[j], criterio)
    ensures BuscarEstudiante(t, criterio).Some?
    ensures BuscarEstudiante(t, criterio).value.0 == t.usuarios[k]
    ensures BuscarEstudiante(t, criterio).value.1.Some? <==>
              exists j :: 0 <= j < |t.datosEstudiante| && t.datosEstudiante[j].usuario_id == t.usuarios[k].id
    ensures forall j :: 0 <= j < |t.datosEstudiante| && t.datosEstudiante[j].usuario_id == t.usuarios[k].id
                        && (forall i :: 0 <= i < j ==> t.datosEstudiante[i].usuario_id != t.usuarios[k].id) ==>
              BuscarEstudiante(t, criterio).value.1 == Some(t.datosEstudiante[j].datos)
  {
  }

  // ---------------------------------------------------------------------
  // initializeDatabase: the statements of the schema script

  /** `s.split(';')` */
  function Split(s: string): (pieces: seq<string>)
    ensures |pieces| >= 1
    ensures forall i :: 0 <= i < |pieces| ==> ';' !in pieces[i]
    ensures Join(pieces) == s
  {
    if s == [] then [[]]
    else
      var rest := Split(s[1..]);
      if s[0] == ';' then [[]] + rest
      else [[s[0]] + rest[0]] + rest[1..]
  }

  /** The pieces put back together with ';' between them. */
  function Join(pieces: seq<string>): string
  {
    if pieces == [] then [] else if |pieces| == 1 then pieces[0] else pieces[0] + ";" + Join(pieces[1..])
  }

  /** The number of ';' in `s`. */
  function Separators(s: string): nat
  {
    if s == [] then 0 else (if s[0] == ';' then 1 else 0) + Separators(s[1..])
  }

  /** `Split` cuts at every ';': there is one more piece than there are
      separators. */
  lemma {:induction false} SplitCount(s: string)
    ensures |Split(s)| == 1 + Separators(s)
  {
    if s != [] {
      SplitCount(s[1..]);
    }
  }

  /** `sql.split(';').filter(stmt => stmt.trim())`: the pieces that are not
      blank, in order. */
  function Statements(sql: string): (stmts: seq<string>)
    ensures forall x :: x in stmts <==> x in Split(sql) && Trim(x) != []
  {
    FilterMembers(Split(sql), NotBlank);
    Filter(Split(sql), NotBlank)
  }

  /** The filter's test: `stmt.trim()` is a non-empty, so truthy, string. */
  predicate NotBlank(x: string)
  {
    Trim(x) != []
  }

  /** `s.filter(keep)`: the elements `keep` accepts, in order. */
  function Filter<T>(s: seq<T>, keep: T -> bool): seq<T>
    decreases |s|
  {
    if s == [] then [] else (if keep(s[0]) then [s[0]] else []) + Filter(s[1..], keep)
  }

  lemma {:induction false} FilterMembers<T>(s: seq<T>, keep: T -> bool)
    ensures forall x :: x in Filter(s, keep) <==> x in s && keep(x)
    decreases |s|
  {
    if s != [] {
      FilterMembers(s[1..], keep);
      assert forall x :: x in s <==> x == s[0] || x in s[1..];
    }
  }

  /** The filter keeps order: filtering two runs one after the other gives
      the kept elements of the first followed by those of the second. */
  lemma {:induction false} FilterAppend<T>(a: seq<T>, b: seq<T>, keep: T -> bool)
    ensures Filter(a + b, keep) == Filter(a, keep) + Filter(b, keep)
    decreases |a|
  {
    if a == [] {
      assert a + b == b;
    } else {
      var head := if keep(a[0]) then [a[0]] else [];
      assert Filter(a + b, keep) == head + Filter(a[1..] + b, keep) by {
        assert (a + b)[0] == a[0] && (a + b)[1..] == a[1..] + b;
      }
      FilterAppend(a[1..], b, keep);
      assert head + (Filter(a[1..], keep) + Filter(b, keep)) == (head + Filter(a[1..], keep)) + Filter(b, keep);
    }
  }

  /** One element is kept exactly when `keep` accepts it. */
  lemma FilterSingle<T>(x: T, keep: T -> bool)
    ensures Filter([x], keep) == if keep(x) then [x] else []
  {
    assert [x][1..] == [];
  }

  /** Every statement is a stretch of the script with no ';' in it and
      some character that is not white space. */
  lemma StatementsShape(sql: string)
    ensures forall x :: x in Statements(sql) ==> ';' !in x && exists k :: 0 <= k < |x| && !IsSpace(x[k])
  {
    forall x | x in Statements(sql) ensures ';' !in x && exists k :: 0 <= k < |x| && !IsSpace(x[k]) {
      TrimEmpty(x);
    }
  }

  /** A script with no ';' is one statement, or none when it is blank. */
  lemma SingleStatement(sql: string)
    requires ';' !in sql
    ensures Statements(sql) == if Trim(sql) == [] then [] else [sql]
  {
    SplitNoSeparator(sql);
    FilterSingle(sql, NotBlank);
  }

  /** Splitting at a ';' between two scripts splits each on its own. */
  lemma {:induction false} SplitConcat(a: string, b: string)
    ensures Split(a + ";" + b) == Split(a) + Split(b)
    decreases |a|
  {
    if a == [] {
      assert a + ";" + b == [';'] + b;
      assert ([';'] + b)[1..] == b;
    } else {
      var s := a + ";" + b;
      assert s[0] == a[0] && s[1..] == a[1..] + ";" + b;
      SplitConcat(a[1..], b);
    }
  }

  /** The statements of two scripts joined by ';' are the statements of
      the first, in order, followed by those of the second. */
  lemma StatementsConcat(a: string, b: string)
    ensures Statements(a + ";" + b) == Statements(a) + Statements(b)
  {
    SplitConcat(a, b);
    FilterAppend(Split(a), Split(b), NotBlank);
  }

  lemma {:induction false} SplitNoSeparator(s: string)
    requires ';' !in s
    ensures Split(s) == [s]
  {
    if s != [] {
      assert ';' !in s[1..];
      SplitNoSeparator(s[1..]);
    }
  }
}
