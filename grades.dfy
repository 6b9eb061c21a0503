/** The grade routes of grades.js over the flat `boletinnotas` table (one
    row per student and subject, with three trimester grades and a
    comment): list, search, batch REPLACE, update by id and delete by id.
    The table's schema is not part of the repository, so the unique key a
    REPLACE collides on is a parameter of the model. */
module Grades {
  import opened Js
  import opened Txn

  datatype Column = Nombre | Apellido | Asignatura | Primer | Segundo | Tercer | Comentario

  /** The seven columns a request writes. */
  datatype Fields = Fields(nombre: Value, apellido: Value, asignatura: Value,
                           primer: Value, segundo: Value, tercer: Value, comentario: Value)
  {
    function Get(c: Column): Value
    {
      match c
      case Nombre => nombre
      case Apellido => apellido
      case Asignatura => asignatura
      case Primer => primer
      case Segundo => segundo
      case Tercer => tercer
      case Comentario => comentario
    }
  }

  datatype Row = Row(id: int, fields: Fields)

  /** Two value tuples collide on the unique key `key`: they agree on every
      column of it and none of those is NULL (SQL lets NULLs repeat). */
  predicate Conflict(key: set<Column>, a: Fields, b: Fields)
  {
    key != {} && forall c :: c in key ==> a.Get(c) == b.Get(c) && a.Get(c) != Null
  }

  lemma ConflictSymmetric(key: set<Column>, a: Fields, b: Fields)
    ensures Conflict(key, a, b) <==> Conflict(key, b, a)
  {
  }

  predicate Ascending(rows: seq<Row>)
  {
    forall i, j :: 0 <= i < j < |rows| ==> rows[i].id < rows[j].id
  }

  predicate NoConflicts(key: set<Column>, rows: seq<Row>)
  {
    forall a, b :: a in rows && b in rows && a.id != b.id ==> !Conflict(key, a.fields, b.fields)
  }

  /** The table's invariant: ids are positive, below the next auto-increment
      value and ascending in storage order, and no two rows collide on the
      unique key. */
  predicate ValidTable(key: set<Column>, rows: seq<Row>, nextId: int)
  {
    nextId >= 1 && Ascending(rows)
    && (forall r :: r in rows ==> 1 <= r.id < nextId)
    && NoConflicts(key, rows)
  }

  // ---------------------------------------------------------------------
  // Reading: GET /notas and GET /notas/buscar

  function Reverse(s: seq<Row>): (r: seq<Row>)
    ensures |r| == |s| && forall i :: 0 <= i < |s| ==> r[i] == s[|s| - 1 - i]
  {
    if s == [] then [] else [s[|s| - 1]] + Reverse(s[..|s| - 1])
  }

  /** In an ascending table the last row has the largest id. */
  lemma LastIsLargest(rows: seq<Row>)
    requires rows != []
    ensures Ascending(rows) ==> forall x :: x in rows[..|rows| - 1] ==> x.id < rows[|rows| - 1].id
  {
  }

  /** Largest id first. */
  predicate Descending(rows: seq<Row>)
  {
    forall i, j :: 0 <= i < j < |rows| ==> rows[i].id > rows[j].id
  }

  function Min(a: int, b: int): int
  {
    if a < b then a else b
  }

  /** `SELECT * FROM boletinnotas ORDER BY id DESC LIMIT 50` */
  function Listing(rows: seq<Row>): (r: seq<Row>)
    requires Ascending(rows)
    ensures |r| == Min(50, |rows|)
    ensures Descending(r)
    ensures forall i :: 0 <= i < |r| ==> r[i] == rows[|rows| - 1 - i]
  {
    Reverse(rows)[..Min(50, |rows|)]
  }

  /** The listing holds the 50 rows with the largest ids: every row left
      out has a smaller id than every row listed. */
  lemma ListingTop(rows: seq<Row>)
    requires Ascending(rows)
    ensures forall x :: x in Listing(rows) ==> x in rows
    ensures forall i, j :: 0 <= i < |rows| - |Listing(rows)| && 0 <= j < |Listing(rows)| ==>
              rows[i].id < Listing(rows)[j].id
  {
    var l := Listing(rows);
    forall x | x in l ensures x in rows {
      var i :| 0 <= i < |l| && l[i] == x;
      assert rows[|rows| - 1 - i] == x;
    }
  }

  /** `col LIKE '%t%'` for a text column: the column is a string holding
      `t`; NULL matches nothing. */
  predicate Like(v: Value, t: string)
  {
    v.Str? && HasSubstring(v.s, t)
  }

  /** The search term as the template literal `%${termino}%` writes it: an
      absent query parameter becomes the text "undefined". */
  function SearchText(termino: Option<string>): string
  {
    match termino
    case None => "undefined"
    case Some(t) => t
  }

  predicate Matches(r: Row, t: string)
  {
    Like(r.fields.nombre, t) || Like(r.fields.apellido, t)
  }

  function Filter(rows: seq<Row>, t: string): (r: seq<Row>)
    ensures forall x :: x in r <==> x in rows && Matches(x, t)
    ensures Ascending(rows) ==> Ascending(r)
    decreases |rows|
  {
    if rows == [] then []
    else
      var init := Filter(rows[..|rows| - 1], t);
      var last := rows[|rows| - 1];
      assert forall x :: x in rows <==> x in rows[..|rows| - 1] || x == last;
      LastIsLargest(rows);
      init + (if Matches(last, t) then [last] else [])
  }

  /** `SELECT * FROM boletinnotas WHERE nombre LIKE ? OR apellido LIKE ?
      ORDER BY id DESC` */
  function Search(rows: seq<Row>, termino: Option<string>): (r: seq<Row>)
    requires Ascending(rows)
    ensures forall x :: x in r <==> x in rows && Matches(x, SearchText(termino))
    ensures Descending(r)
  {
    var f := Filter(rows, SearchText(termino));
    var r := Reverse(f);
    assert forall x :: x in r <==> x in f by {
      forall x | x in f ensures x in r {
        var i :| 0 <= i < |f| && f[i] == x;
        assert r[|f| - 1 - i] == x;
      }
    }
    r
  }

  // ---------------------------------------------------------------------
  // Writing: POST /notas (REPLACE INTO)

  /** One element of the batch: an object, null or undefined (destructuring
      which throws), or another primitive (whose fields are all
      undefined). */
  datatype Item = Object(input: Fields) | Nullish | Primitive

  /** A body that is not an array is wrapped into a batch of one. */
  datatype Body = ArrayBody(items: seq<Item>) | Single(item: Item)

  function Batch(body: Body): (items: seq<Item>)
    ensures body.Single? ==> items == [body.item]
  {
    match body
    case ArrayBody(items) => items
    case Single(item) => [item]
  }

  const Undefineds := Fields(Undefined, Undefined, Undefined, Undefined, Undefined, Undefined, Undefined)

  /** The values REPLACE stores for one element: names as given (undefined
      is sent as NULL), trimesters and comment with every falsy value
      turned into NULL. */
  function ReplaceValues(it: Item): Fields
    requires it != Nullish
  {
    var i := if it.Object? then it.input else Undefineds;
    Fields(SqlParam(i.nombre), SqlParam(i.apellido), SqlParam(i.asignatura),
           Or(i.primer, Null), Or(i.segundo, Null), Or(i.tercer, Null), Or(i.comentario, Null))
  }

  /** A grade of 0 (or "" or false) is stored as NULL by the batch route,
      every truthy value as it is. */
  lemma FalsyBecomesNull(i: Fields, c: Column)
    requires c in {Primer, Segundo, Tercer, Comentario}
    ensures ReplaceValues(Object(i)).Get(c) == (if Truthy(i.Get(c)) then i.Get(c) else Null)
  {
  }

  /** A field the element leaves out is stored as NULL, whatever the row
      it replaces held; a primitive element stores a row of NULLs. */
  lemma OmittedBecomesNull(it: Item, c: Column)
    requires it != Nullish
    requires it.Object? ==> it.input.Get(c) == Undefined
    ensures ReplaceValues(it).Get(c) == Null
  {
  }

  /** `REPLACE INTO` one row: every row colliding with the new values on
      the unique key is deleted, and the new row is appended with the next
      auto-increment id. */
  function Replace(key: set<Column>, rows: seq<Row>, nextId: int, f: Fields): seq<Row>
  {
    Keep(key, rows, f) + [Row(nextId, f)]
  }

  /** The rows that do not collide with `f`, in their order. */
  function Keep(key: set<Column>, rows: seq<Row>, f: Fields): seq<Row>
    decreases |rows|
  {
    if rows == [] then []
    else Keep(key, rows[..|rows| - 1], f) + (if Conflict(key, rows[|rows| - 1].fields, f) then [] else [rows[|rows| - 1]])
  }

  /** Keep drops exactly the colliding rows and keeps the others in
      order. */
  lemma {:induction false} KeepSpec(key: set<Column>, rows: seq<Row>, f: Fields)
    ensures forall x :: x in Keep(key, rows, f) <==> x in rows && !Conflict(key, x.fields, f)
    ensures Ascending(rows) ==> Ascending(Keep(key, rows, f))
    decreases |rows|
  {
    if rows != [] {
      var init := rows[..|rows| - 1];
      var last := rows[|rows| - 1];
      KeepSpec(key, init, f);
      assert forall x :: x in rows <==> x in init || x == last;
      LastIsLargest(rows);
    }
  }

  /** REPLACE keeps the table valid. */
  lemma ReplaceValid(key: set<Column>, rows: seq<Row>, nextId: int, f: Fields)
    requires ValidTable(key, rows, nextId)
    ensures ValidTable(key, Replace(key, rows, nextId, f), nextId + 1)
  {
    var r := Replace(key, rows, nextId, f);
    var kept := Keep(key, rows, f);
    KeepSpec(key, rows, f);
    assert forall x :: x in r <==> x in kept || x == Row(nextId, f);
    forall a, b | a in r && b in r && a.id != b.id
      ensures !Conflict(key, a.fields, b.fields)
    {
      ConflictSymmetric(key, a.fields, b.fields);
    }
  }

  /** REPLACE replaces wholesale: afterwards the new row holds exactly the
      new values, no other row collides with them, and every row that did
      not collide is still there. */
  lemma ReplaceWholesale(key: set<Column>, rows: seq<Row>, nextId: int, f: Fields)
    requires ValidTable(key, rows, nextId)
    ensures Row(nextId, f) in Replace(key, rows, nextId, f)
    ensures forall x :: x in Replace(key, rows, nextId, f) && Conflict(key, x.fields, f) ==> x == Row(nextId, f)
    ensures forall x :: x in rows ==> (x in Replace(key, rows, nextId, f) <==> !Conflict(key, x.fields, f))
  {
    var r := Replace(key, rows, nextId, f);
    KeepSpec(key, rows, f);
    assert forall x :: x in r <==> x in Keep(key, rows, f) || x == Row(nextId, f);
  }

  /** The batch's REPLACEs applied in order; the i-th gets the id
      `nextId + i`. */
  function ReplaceAll(key: set<Column>, rows: seq<Row>, nextId: int, fs: seq<Fields>): seq<Row>
    decreases |fs|
  {
    if fs == [] then rows
    else Replace(key, ReplaceAll(key, rows, nextId, fs[..|fs| - 1]), nextId + |fs| - 1, fs[|fs| - 1])
  }

  lemma ReplaceAllSnoc(key: set<Column>, rows: seq<Row>, nextId: int, fs: seq<Fields>, f: Fields)
    ensures ReplaceAll(key, rows, nextId, fs + [f]) == Replace(key, ReplaceAll(key, rows, nextId, fs), nextId + |fs|, f)
  {
    assert (fs + [f])[..|fs|] == fs;
  }

  /** One more REPLACE of a batch keeps the table valid. */
  lemma ReplaceStep(key: set<Column>, rows: seq<Row>, nextId: int, fs: seq<Fields>, f: Fields)
    requires ValidTable(key, ReplaceAll(key, rows, nextId, fs), nextId + |fs|)
    ensures ReplaceAll(key, rows, nextId, fs + [f]) == Replace(key, ReplaceAll(key, rows, nextId, fs), nextId + |fs|, f)
    ensures ValidTable(key, ReplaceAll(key, rows, nextId, fs + [f]), nextId + |fs| + 1)
  {
    ReplaceAllSnoc(key, rows, nextId, fs, f);
    ReplaceValid(key, ReplaceAll(key, rows, nextId, fs), nextId + |fs|, f);
  }

  /** Ids used up by a rolled-back batch leave the table valid. */
  lemma ValidTableGrows(key: set<Column>, rows: seq<Row>, nextId: int, later: int)
    requires ValidTable(key, rows, nextId) && nextId <= later
    ensures ValidTable(key, rows, later)
  {
  }

  /** A whole batch keeps the table valid and uses one id per element. */
  lemma {:induction false} ReplaceAllValid(key: set<Column>, rows: seq<Row>, nextId: int, fs: seq<Fields>)
    requires ValidTable(key, rows, nextId)
    ensures ValidTable(key, ReplaceAll(key, rows, nextId, fs), nextId + |fs|)
    decreases |fs|
  {
    if fs != [] {
      var init := fs[..|fs| - 1];
      ReplaceAllValid(key, rows, nextId, init);
      assert init + [fs[|fs| - 1]] == fs;
      ReplaceStep(key, rows, nextId, init, fs[|fs| - 1]);
    }
  }

  /** The stored values of a batch with no null element. */
  function BatchValues(items: seq<Item>): (fs: seq<Fields>)
    requires forall i :: 0 <= i < |items| ==> items[i] != Nullish
    ensures |fs| == |items| && forall i :: 0 <= i < |items| ==> fs[i] == ReplaceValues(items[i])
  {
    seq(|items|, i requires 0 <= i < |items| => ReplaceValues(items[i]))
  }

  predicate HasNullish(items: seq<Item>)
  {
    exists i :: 0 <= i < |items| && items[i] == Nullish
  }

  /** The loop of POST /notas inside its transaction: REPLACE the elements
      in turn, from the table `rows` and the counter `nextId`, until the
      batch ends, an element is null (reading its fields throws) or the
      database refuses a write. `k` is the number of REPLACEs that went
      through; `work` is the table they leave. */
  method ReplaceEach(key: set<Column>, rows: seq<Row>, nextId: int, items: seq<Item>, fault: Fault)
    returns (work: seq<Row>, k: nat)
    ensures k <= |items| && forall j :: 0 <= j < k ==> items[j] != Nullish
    ensures k < |items| ==> items[k] == Nullish || fault.RefusesWrite(k)
    ensures fault.WriteFails? ==> fault.at >= k
    ensures k == |items| ==> work == ReplaceAll(key, rows, nextId, BatchValues(items))
  {
    work, k := rows, 0;
    ghost var fs: seq<Fields> := [];
    while k < |items| && items[k] != Nullish && !fault.RefusesWrite(k)
      invariant k <= |items| && |fs| == k
      invariant forall j :: 0 <= j < k ==> items[j] != Nullish && fs[j] == ReplaceValues(items[j])
      invariant work == ReplaceAll(key, rows, nextId, fs)
      invariant fault.WriteFails? ==> fault.at >= k
    {
      var f := ReplaceValues(items[k]);
      ReplaceAllSnoc(key, rows, nextId, fs, f);
      work := Replace(key, work, nextId + k, f);
      assert forall j :: 0 <= j < k ==> (fs + [f])[j] == fs[j];
      fs := fs + [f];
      k := k + 1;
    }
    if k == |items| {
      assert fs == BatchValues(items);
    }
  }

  // ---------------------------------------------------------------------
  // Writing: PUT /notas/:id and DELETE /notas/:id

  /** The values the update stores: the seven fields as given, undefined
      sent as NULL. */
  function UpdateValues(input: Fields): (f: Fields)
    ensures forall c :: f.Get(c) == SqlParam(input.Get(c))
  {
    Fields(SqlParam(input.nombre), SqlParam(input.apellido), SqlParam(input.asignatura),
           SqlParam(input.primer), SqlParam(input.segundo), SqlParam(input.tercer), SqlParam(input.comentario))
  }

  predicate HasId(rows: seq<Row>, id: int)
  {
    exists i :: 0 <= i < |rows| && rows[i].id == id
  }

  /** The new values would collide with a row other than the one updated. */
  predicate Clashes(key: set<Column>, rows: seq<Row>, id: int, f: Fields)
  {
    exists i :: 0 <= i < |rows| && rows[i].id != id && Conflict(key, rows[i].fields, f)
  }

  /** `UPDATE boletinnotas SET <seven fields> WHERE id = ?` */
  function SetFields(rows: seq<Row>, id: int, f: Fields): (r: seq<Row>)
    ensures |r| == |rows|
    ensures forall i :: 0 <= i < |rows| ==> r[i] == (if rows[i].id == id then Row(id, f) else rows[i])
  {
    seq(|rows|, i requires 0 <= i < |rows| => if rows[i].id == id then Row(id, f) else rows[i])
  }

  /** An update that does not clash keeps the table valid. */
  lemma SetFieldsValid(key: set<Column>, rows: seq<Row>, nextId: int, id: int, f: Fields)
    requires ValidTable(key, rows, nextId) && !Clashes(key, rows, id, f)
    ensures ValidTable(key, SetFields(rows, id, f), nextId)
  {
    var r := SetFields(rows, id, f);
    forall a, b | a in r && b in r && a.id != b.id
      ensures !Conflict(key, a.fields, b.fields)
    {
      var i :| 0 <= i < |r| && r[i] == a;
      var j :| 0 <= j < |r| && r[j] == b;
      ConflictSymmetric(key, a.fields, b.fields);
      if rows[i].id == id {
        assert rows[j].id != id;
      } else if rows[j].id == id {
        assert rows[i].id != id;
      } else {
        assert rows[i] in rows && rows[j] in rows;
      }
    }
  }

  /** `DELETE FROM boletinnotas WHERE id = ?` */
  function RemoveId(rows: seq<Row>, id: int): (r: seq<Row>)
    ensures |r| <= |rows|
    decreases |rows|
  {
    if rows == [] then []
    else RemoveId(rows[..|rows| - 1], id) + (if rows[|rows| - 1].id == id then [] else [rows[|rows| - 1]])
  }

  /** Deleting removes exactly the rows with the id and keeps the others in
      order. */
  lemma {:induction false} RemoveIdSpec(rows: seq<Row>, id: int)
    ensures forall x :: x in RemoveId(rows, id) <==> x in rows && x.id != id
    ensures Ascending(rows) ==> Ascending(RemoveId(rows, id))
    decreases |rows|
  {
    if rows != [] {
      var init := rows[..|rows| - 1];
      RemoveIdSpec(init, id);
      assert forall x :: x in rows <==> x in init || x == rows[|rows| - 1];
      LastIsLargest(rows);
    }
  }

  /** Deleting by id keeps the table valid, removes exactly one row when
      the id exists and none otherwise. */
  lemma RemoveIdValid(key: set<Column>, rows: seq<Row>, nextId: int, id: int)
    requires ValidTable(key, rows, nextId)
    ensures ValidTable(key, RemoveId(rows, id), nextId)
    ensures |RemoveId(rows, id)| == if HasId(rows, id) then |rows| - 1 else |rows|
  {
    RemoveIdSpec(rows, id);
    RemoveIdCount(rows, id);
  }

  lemma {:induction false} RemoveIdCount(rows: seq<Row>, id: int)
    requires Ascending(rows)
    ensures |RemoveId(rows, id)| == if HasId(rows, id) then |rows| - 1 else |rows|
    decreases |rows|
  {
    if rows != [] {
      var init := rows[..|rows| - 1];
      RemoveIdCount(init, id);
      if HasId(init, id) {
        var i :| 0 <= i < |init| && init[i].id == id;
        assert rows[i].id == id;
      }
      if HasId(rows, id) && rows[|rows| - 1].id != id {
        var i :| 0 <= i < |rows| && rows[i].id == id;
        assert init[i].id == id;
      }
    }
  }

  // ---------------------------------------------------------------------
  // The table and its write routes

  /** A reply: the status and the text the route sends (`mensaje` on
      success, `error` otherwise). */
  datatype Reply = Reply(status: int, message: string)

  const Saved := "Las notas se han guardado correctamente"
  const SaveFailed := "Ha ocurrido un error al guardar las notas"
  const NotFound := "Nota no encontrada"
  const Updated := "Nota actualizada exitosamente"
  const UpdateFailed := "Ha ocurrido un error al actualizar la nota"
  const Deleted := "Nota eliminada exitosamente"
  const DeleteFailed := "Ha ocurrido un error al eliminar la nota"

  class BoletinTable {
    /** The columns of the table's unique key besides the primary key
        (empty when it has none). */
    const uniqueKey: set<Column>
    var rows: seq<Row>
    /** The auto-increment counter: a rolled-back insert still uses up its
        id. */
    var nextId: int

    predicate Valid()
      reads this
    {
      ValidTable(uniqueKey, rows, nextId)
    }

    constructor (key: set<Column>)
      ensures Valid() && uniqueKey == key && rows == [] && nextId == 1
    {
      uniqueKey := key;
      rows := [];
      nextId := 1;
    }

    /** POST /notas: REPLACE every element of the batch in one transaction;
        a null element or a database failure rolls the table back. */
    method PostNotas(body: Body, fault: Fault) returns (reply: Reply)
      requires Valid()
      modifies this
      ensures Valid() && nextId >= old(nextId)
      ensures HasNullish(Batch(body)) || fault.Strikes(|Batch(body)|) ==>
                reply == Reply(500, SaveFailed) && rows == old(rows)
      ensures !HasNullish(Batch(body)) && !fault.Strikes(|Batch(body)|) ==>
                reply == Reply(200, Saved)
                && rows == ReplaceAll(uniqueKey, old(rows), old(nextId), BatchValues(Batch(body)))
                && nextId == old(nextId) + |Batch(body)|
    {
      var items := Batch(body);
      if fault.BeginFails? {
        return Reply(500, SaveFailed);
      }
      var work, k := ReplaceEach(uniqueKey, rows, nextId, items, fault);
      if k < |items| || fault.CommitFails? {
        // A rolled-back insert still uses up its id.
        ValidTableGrows(uniqueKey, rows, nextId, nextId + k);
        nextId := nextId + k;
        reply := Reply(500, SaveFailed);
      } else {
        ReplaceAllValid(uniqueKey, rows, nextId, BatchValues(items));
        rows, nextId := work, nextId + k;
        reply := Reply(200, Saved);
      }
    }

    /** PUT /notas/:id: overwrite the seven fields of the row with that id
        (a field missing from the body becomes NULL); 404 when no row has
        the id (the driver reports matched rows, so an update that changes
        nothing still succeeds). */
    method Update(id: int, input: Fields, fault: Fault) returns (reply: Reply)
      requires Valid()
      modifies this
      ensures Valid() && nextId == old(nextId)
      ensures fault.RefusesWrite(0) || (HasId(old(rows), id) && Clashes(uniqueKey, old(rows), id, UpdateValues(input))) ==>
                reply == Reply(500, UpdateFailed) && rows == old(rows)
      ensures !fault.RefusesWrite(0) && !HasId(old(rows), id) ==>
                reply == Reply(404, NotFound) && rows == old(rows)
      ensures !fault.RefusesWrite(0) && HasId(old(rows), id) && !Clashes(uniqueKey, old(rows), id, UpdateValues(input)) ==>
                reply == Reply(200, Updated) && rows == SetFields(old(rows), id, UpdateValues(input))
    {
      if fault.RefusesWrite(0) {
        return Reply(500, UpdateFailed);
      }
      var f := UpdateValues(input);
      if !HasId(rows, id) {
        return Reply(404, NotFound);
      }
      if Clashes(uniqueKey, rows, id, f) {
        return Reply(500, UpdateFailed);
      }
      SetFieldsValid(uniqueKey, rows, nextId, id, f);
      rows := SetFields(rows, id, f);
      return Reply(200, Updated);
    }

    /** DELETE /notas/:id: remove the row with that id; 404 when there is
        none. */
    method Delete(id: int, fault: Fault) returns (reply: Reply)
      requires Valid()
      modifies this
      ensures Valid() && nextId == old(nextId)
      ensures fault.RefusesWrite(0) ==> reply == Reply(500, DeleteFailed) && rows == old(rows)
      ensures !fault.RefusesWrite(0) && !HasId(old(rows), id) ==> reply == Reply(404, NotFound) && rows == old(rows)
      ensures !fault.RefusesWrite(0) && HasId(old(rows), id) ==>
                reply == Reply(200, Deleted) && rows == RemoveId(old(rows), id)
                && |rows| == |old(rows)| - 1
    {
      if fault.RefusesWrite(0) {
        return Reply(500, DeleteFailed);
      }
      RemoveIdValid(uniqueKey, rows, nextId, id);
      var before := |rows|;
      var r := RemoveId(rows, id);
      if |r| == before {
        return Reply(404, NotFound);
      }
      rows := r;
      return Reply(200, Deleted);
    }
  }
}
