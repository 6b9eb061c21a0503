/** Grade writes of server.js against the `boletinnotas` table: POST
    /api/notas (look the natural key up, then update the row or insert
    one) and the first POST /api/notas/guardar (INSERT ... ON DUPLICATE
    KEY UPDATE). Both run one transaction per request: the table is
    snapshotted when it begins and put back when anything fails. */
module ServerGrades {
  import opened Js
  import opened Txn
  import opened ServerRules

  /** The natural key of a grade: (alumno_id, materia_id, periodo). */
  datatype Key = Key(alumno: Value, materia: Value, periodo: Value)

  /** A row of `boletinnotas` with the columns the grade handlers of the
      server use; `fecha` is None while the column holds its default. */
  datatype GradeRow = GradeRow(key: Key, nota: Value, fecha: Option<int>)

  /** SQL equality never holds when either side is NULL, so a key with a
      NULL part matches no row (and conflicts with none in a unique index). */
  predicate Matchable(k: Key)
  {
    k.alumno != Null && k.materia != Null && k.periodo != Null
  }

  /** One grade write: the key it targets and the grade it stores. */
  datatype Write = Write(key: Key, nota: Value)

  predicate HasKey(rows: seq<GradeRow>, k: Key)
  {
    exists i :: 0 <= i < |rows| && rows[i].key == k
  }

  /** `UPDATE boletinnotas SET nota = ? [, fecha = NOW()] WHERE <key>`:
      every row with the key gets the new grade; `stamp` is the time
      written into `fecha`, None when the statement leaves it alone. */
  function UpdateWhere(rows: seq<GradeRow>, k: Key, nota: Value, stamp: Option<int>): seq<GradeRow>
  {
    seq(|rows|, i requires 0 <= i < |rows| =>
      if rows[i].key == k then GradeRow(k, nota, if stamp.Some? then stamp else rows[i].fecha) else rows[i])
  }

  /** One upsert by natural key: the rows holding the key are updated in
      place when there are any, otherwise one row is appended. */
  function Upsert(rows: seq<GradeRow>, w: Write, stamp: Option<int>): seq<GradeRow>
  {
    if Matchable(w.key) && HasKey(rows, w.key) then UpdateWhere(rows, w.key, w.nota, stamp)
    else rows + [GradeRow(w.key, w.nota, stamp)]
  }

  /** The writes of a batch applied in the order they were submitted. */
  function ApplyAll(rows: seq<GradeRow>, ws: seq<Write>, stamp: Option<int>): seq<GradeRow>
    decreases |ws|
  {
    if ws == [] then rows else Upsert(ApplyAll(rows, ws[..|ws| - 1], stamp), ws[|ws| - 1], stamp)
  }

  /** How many rows hold the key `k`. */
  function Count(rows: seq<GradeRow>, k: Key): nat
    decreases |rows|
  {
    if rows == [] then 0
    else Count(rows[..|rows| - 1], k) + (if rows[|rows| - 1].key == k then 1 else 0)
  }

  /** Some write of the batch targets `k`. */
  predicate InBatch(ws: seq<Write>, k: Key)
  {
    exists i :: 0 <= i < |ws| && ws[i].key == k
  }

  /** The grade of the last write of the batch that targets `k`. */
  function LastNota(ws: seq<Write>, k: Key): Value
    requires InBatch(ws, k)
    decreases |ws|
  {
    if ws[|ws| - 1].key == k then ws[|ws| - 1].nota
    else
      assert InBatch(ws[..|ws| - 1], k) by {
        var i :| 0 <= i < |ws| && ws[i].key == k;
        assert ws[..|ws| - 1][i] == ws[i];
      }
      LastNota(ws[..|ws| - 1], k)
  }

  /** No matchable key is held by two rows: the unique index on the
      natural key. */
  ghost predicate UniqueKeys(rows: seq<GradeRow>)
  {
    forall k :: Matchable(k) ==> Count(rows, k) <= 1
  }

  /** Two tables with the same keys row by row. */
  predicate SameKeys(a: seq<GradeRow>, b: seq<GradeRow>)
  {
    |a| == |b| && forall i :: 0 <= i < |a| ==> a[i].key == b[i].key
  }

  /** A key is counted exactly when some row holds it. */
  lemma {:induction false} CountHasKey(rows: seq<GradeRow>, k: Key)
    ensures Count(rows, k) > 0 <==> HasKey(rows, k)
    decreases |rows|
  {
    if rows != [] {
      var init := rows[..|rows| - 1];
      CountHasKey(init, k);
      if HasKey(init, k) {
        var i :| 0 <= i < |init| && init[i].key == k;
        assert rows[i].key == k;
      }
      if HasKey(rows, k) && rows[|rows| - 1].key != k {
        var i :| 0 <= i < |rows| && rows[i].key == k;
        assert init[i].key == k;
      }
    }
  }

  /** Counting depends only on the keys. */
  lemma {:induction false} CountSameKeys(a: seq<GradeRow>, b: seq<GradeRow>, k: Key)
    requires SameKeys(a, b)
    ensures Count(a, k) == Count(b, k)
    decreases |a|
  {
    if a != [] {
      CountSameKeys(a[..|a| - 1], b[..|b| - 1], k);
    }
  }

  /** One upsert adds a row for its key exactly when none was there, and
      changes the count of no other matchable key. */
  lemma UpsertCount(rows: seq<GradeRow>, w: Write, stamp: Option<int>, k: Key)
    requires Matchable(k)
    ensures Count(Upsert(rows, w, stamp), k) ==
              if k == w.key && Count(rows, k) == 0 then 1 else Count(rows, k)
  {
    CountHasKey(rows, w.key);
    if Matchable(w.key) && HasKey(rows, w.key) {
      var u := UpdateWhere(rows, w.key, w.nota, stamp);
      assert Upsert(rows, w, stamp) == u;
      assert SameKeys(rows, u);
      CountSameKeys(rows, u, k);
    } else {
      var r := rows + [GradeRow(w.key, w.nota, stamp)];
      assert Upsert(rows, w, stamp) == r;
      assert r[..|r| - 1] == rows;
      assert Count(r, k) == Count(rows, k) + (if w.key == k then 1 else 0);
    }
  }

  /** After a batch, a matchable key the batch wrote is held by one row if
      no row held it before, and by as many rows as before otherwise; a
      key the batch did not write is held by as many rows as before. */
  lemma {:induction false} ApplyAllCount(rows: seq<GradeRow>, ws: seq<Write>, stamp: Option<int>, k: Key)
    requires Matchable(k)
    ensures Count(ApplyAll(rows, ws, stamp), k) ==
              if InBatch(ws, k) && Count(rows, k) == 0 then 1 else Count(rows, k)
    decreases |ws|
  {
    if ws != [] {
      var init := ws[..|ws| - 1];
      ApplyAllCount(rows, init, stamp, k);
      UpsertCount(ApplyAll(rows, init, stamp), ws[|ws| - 1], stamp, k);
      InBatchSnoc(ws, k);
    }
  }

  lemma InBatchSnoc(ws: seq<Write>, k: Key)
    requires ws != []
    ensures InBatch(ws, k) <==> InBatch(ws[..|ws| - 1], k) || ws[|ws| - 1].key == k
  {
    if InBatch(ws, k) && ws[|ws| - 1].key != k {
      var i :| 0 <= i < |ws| && ws[i].key == k;
      assert ws[..|ws| - 1][i].key == k;
    }
    if InBatch(ws[..|ws| - 1], k) {
      var i :| 0 <= i < |ws| - 1 && ws[..|ws| - 1][i].key == k;
      assert ws[i].key == k;
    }
  }

  /** A batch applied to a table with one row per key leaves one row per
      key, and every matchable key the batch wrote is then held by exactly
      one row: a key that existed is updated, never duplicated. */
  lemma OneRowPerKey(rows: seq<GradeRow>, ws: seq<Write>, stamp: Option<int>)
    requires UniqueKeys(rows)
    ensures UniqueKeys(ApplyAll(rows, ws, stamp))
    ensures forall k :: Matchable(k) && InBatch(ws, k) ==> Count(ApplyAll(rows, ws, stamp), k) == 1
  {
    forall k | Matchable(k)
      ensures Count(ApplyAll(rows, ws, stamp), k) <= 1
      ensures InBatch(ws, k) ==> Count(ApplyAll(rows, ws, stamp), k) == 1
    {
      ApplyAllCount(rows, ws, stamp, k);
    }
  }

  /** Last write wins: after a batch, every row holding a matchable key
      the batch wrote has the grade of the batch's last write to that key
      (and, when the writes stamp `fecha`, the batch's time). */
  lemma {:induction false} LastWriteWins(rows: seq<GradeRow>, ws: seq<Write>, stamp: Option<int>, k: Key)
    requires Matchable(k) && InBatch(ws, k)
    ensures forall i :: 0 <= i < |ApplyAll(rows, ws, stamp)| && ApplyAll(rows, ws, stamp)[i].key == k ==>
              ApplyAll(rows, ws, stamp)[i].nota == LastNota(ws, k)
              && (stamp.Some? ==> ApplyAll(rows, ws, stamp)[i].fecha == stamp)
    decreases |ws|
  {
    var init := ws[..|ws| - 1];
    var w := ws[|ws| - 1];
    var before := ApplyAll(rows, init, stamp);
    InBatchSnoc(ws, k);
    if w.key != k {
      LastWriteWins(rows, init, stamp, k);
    }
  }

  /** What a batch leaves alone: the rows that were there stay in place
      with their keys, a row whose key the batch did not write (or could
      not match) is unchanged, and every added row holds a key the batch
      wrote. */
  lemma {:induction false} ApplyAllFrame(rows: seq<GradeRow>, ws: seq<Write>, stamp: Option<int>)
    ensures |ApplyAll(rows, ws, stamp)| >= |rows|
    ensures forall i :: 0 <= i < |rows| ==> ApplyAll(rows, ws, stamp)[i].key == rows[i].key
    ensures forall i :: 0 <= i < |rows| && !(Matchable(rows[i].key) && InBatch(ws, rows[i].key)) ==>
              ApplyAll(rows, ws, stamp)[i] == rows[i]
    ensures forall i :: |rows| <= i < |ApplyAll(rows, ws, stamp)| ==> InBatch(ws, ApplyAll(rows, ws, stamp)[i].key)
    decreases |ws|
  {
    if ws != [] {
      var init := ws[..|ws| - 1];
      ApplyAllFrame(rows, init, stamp);
      forall k ensures InBatch(init, k) ==> InBatch(ws, k) {
        InBatchSnoc(ws, k);
      }
      forall i | 0 <= i < |rows| && !(Matchable(rows[i].key) && InBatch(ws, rows[i].key))
        ensures ApplyAll(rows, ws, stamp)[i] == rows[i]
      {
        InBatchSnoc(ws, rows[i].key);
      }
    }
  }

  /** How many writes of the batch target `k`. */
  function WriteCount(ws: seq<Write>, k: Key): nat
    decreases |ws|
  {
    if ws == [] then 0 else WriteCount(ws[..|ws| - 1], k) + (if ws[|ws| - 1].key == k then 1 else 0)
  }

  lemma {:induction false} WriteCountInBatch(ws: seq<Write>, k: Key)
    ensures WriteCount(ws, k) > 0 <==> InBatch(ws, k)
    decreases |ws|
  {
    if ws != [] {
      WriteCountInBatch(ws[..|ws| - 1], k);
      InBatchSnoc(ws, k);
    }
  }

  /** An upsert to a key with a NULL part never finds its row: it appends. */
  lemma UpsertCountUnmatchable(rows: seq<GradeRow>, w: Write, stamp: Option<int>, k: Key)
    requires !Matchable(k)
    ensures Count(Upsert(rows, w, stamp), k) == Count(rows, k) + (if w.key == k then 1 else 0)
  {
    if Matchable(w.key) && HasKey(rows, w.key) {
      var u := UpdateWhere(rows, w.key, w.nota, stamp);
      assert SameKeys(rows, u);
      CountSameKeys(rows, u, k);
    } else {
      var r := rows + [GradeRow(w.key, w.nota, stamp)];
      assert r[..|r| - 1] == rows;
    }
  }

  /** A key with a NULL part gains one row per write to it: the unique
      index never folds two of them together. */
  lemma {:induction false} ApplyAllUnmatchable(rows: seq<GradeRow>, ws: seq<Write>, stamp: Option<int>, k: Key)
    requires !Matchable(k)
    ensures Count(ApplyAll(rows, ws, stamp), k) == Count(rows, k) + WriteCount(ws, k)
    decreases |ws|
  {
    if ws != [] {
      ApplyAllUnmatchable(rows, ws[..|ws| - 1], stamp, k);
      UpsertCountUnmatchable(ApplyAll(rows, ws[..|ws| - 1], stamp), ws[|ws| - 1], stamp, k);
    }
  }

  /** The last write of the batch to `k` is the one at `i` when no later
      write targets `k`. */
  lemma {:induction false} LastNotaAt(ws: seq<Write>, i: nat, k: Key)
    requires i < |ws| && ws[i].key == k
    requires forall j :: i < j < |ws| ==> ws[j].key != k
    ensures InBatch(ws, k) && LastNota(ws, k) == ws[i].nota
    decreases |ws|
  {
    if i < |ws| - 1 {
      var init := ws[..|ws| - 1];
      assert init[i] == ws[i];
      LastNotaAt(init, i, k);
      InBatchSnoc(ws, k);
    }
  }

  // ---------------------------------------------------------------------
  // POST /api/notas

  /** One entry of the body of POST /api/notas. A missing field is
      Undefined. */
  datatype Entry = Entry(alumnoId: Value, materiaId: Value, nota: Value, periodo: Value)

  /** An element of the body array: an object, null or undefined (reading
      a field of which throws), or another primitive (whose fields are all
      undefined). */
  datatype Item = Object(entry: Entry) | Nullish | Primitive

  datatype Body = ArrayBody(items: seq<Item>) | NotArray

  datatype Response = Response(status: int, success: bool, message: string)

  const NotArrayMessage := "El formato de los datos es incorrecto. Se espera un array de notas."
  const MissingFieldMessage := "Cada nota debe tener alumnoId, materiaId, nota y periodo"
  const SavedMessage := "Notas guardadas correctamente en el boletín"
  const FailedMessage := "Error al guardar las notas"

  /** alumnoId, materiaId and periodo are truthy and nota is present; a
      grade of 0 or null is accepted. */
  predicate ValidEntry(e: Entry)
  {
    Truthy(e.alumnoId) && Truthy(e.materiaId) && e.nota != Undefined && Truthy(e.periodo)
  }

  predicate Good(it: Item)
  {
    it.Object? && ValidEntry(it.entry)
  }

  /** The outcome of checking the body array: every entry valid, or the
      first bad element is a primitive or an invalid entry (400), or it is
      null or undefined (the check throws, and the handler answers 500). */
  datatype Validation = AllValid(entries: seq<Entry>) | MissingField | Throws

  function Validate(items: seq<Item>): (v: Validation)
    ensures v.AllValid? <==> forall i :: 0 <= i < |items| ==> Good(items[i])
    ensures v.AllValid? ==> |v.entries| == |items|
                            && forall i :: 0 <= i < |items| ==> items[i] == Object(v.entries[i])
    ensures forall i :: (0 <= i < |items| && items[i] == Nullish
                         && forall j :: 0 <= j < i ==> Good(items[j])) ==> v == Throws
    ensures forall i :: (0 <= i < |items| && !Good(items[i]) && items[i] != Nullish
                         && forall j :: 0 <= j < i ==> Good(items[j])) ==> v == MissingField
  {
    if items == [] then AllValid([])
    else if items[0] == Nullish then Throws
    else if !Good(items[0]) then MissingField
    else match Validate(items[1..])
      case AllValid(es) => AllValid([items[0].entry] + es)
      case other =>
        assert forall i :: 1 <= i < |items| ==> items[i] == items[1..][i - 1];
        other
  }

  /** A body of one element is accepted exactly when that element is an
      object with a valid entry. */
  lemma ValidateSingle(it: Item)
    ensures Validate([it]).AllValid? <==> Good(it)
  {
    assert [it][0] == it;
  }

  /** The write an accepted entry issues. */
  function EntryWrite(e: Entry): Write
  {
    Write(Key(e.alumnoId, e.materiaId, e.periodo), e.nota)
  }

  function Writes(es: seq<Entry>): (ws: seq<Write>)
    ensures |ws| == |es| && forall i :: 0 <= i < |es| ==> ws[i] == EntryWrite(es[i])
  {
    seq(|es|, i requires 0 <= i < |es| => EntryWrite(es[i]))
  }

  /** Every key an accepted entry writes is matchable: a truthy value is
      never NULL. */
  lemma ValidEntryMatchable(e: Entry)
    requires ValidEntry(e)
    ensures Matchable(EntryWrite(e).key)
  {
  }

  /** The check loop of POST /api/notas: walk the body array and stop at
      the first element that lacks a field (or is null or undefined, on
      which reading a field throws). */
  method CheckNotas(items: seq<Item>) returns (v: Validation)
    ensures v == Validate(items)
  {
    var es: seq<Entry> := [];
    var i := 0;
    while i < |items|
      invariant 0 <= i <= |items| && |es| == i
      invariant forall j :: 0 <= j < i ==> Good(items[j]) && items[j] == Object(es[j])
    {
      match items[i]
      case Nullish =>
        return Throws;
      case Primitive =>
        return MissingField;
      case Object(e) =>
        if !ValidEntry(e) {
          return MissingField;
        }
        es := es + [e];
      i := i + 1;
    }
    return AllValid(es);
  }

  /** The grade table the server writes to. */
  class Boletin {
    var rows: seq<GradeRow>

    constructor (initial: seq<GradeRow>)
      ensures rows == initial
    {
      rows := initial;
    }

    /** POST /api/notas (for a profesor or admin): reject a body that is
        not an array, reject the whole batch when one entry lacks a field,
        then upsert the entries in order by natural key in one transaction
        that leaves the table as it was when any statement fails. `now` is
        the database clock, `fault` where the database refuses. */
    method AgregarNotas(body: Body, now: int, fault: Fault) returns (resp: Response)
      modifies this
      ensures body.NotArray? ==> resp == Response(400, false, NotArrayMessage) && rows == old(rows)
      ensures body.ArrayBody? && Validate(body.items) == MissingField ==>
                resp == Response(400, false, MissingFieldMessage) && rows == old(rows)
      ensures body.ArrayBody? && Validate(body.items) == Throws ==>
                resp == Response(500, false, FailedMessage) && rows == old(rows)
      ensures body.ArrayBody? && Validate(body.items).AllValid? && fault.Strikes(|body.items|) ==>
                resp == Response(500, false, FailedMessage) && rows == old(rows)
      ensures body.ArrayBody? && Validate(body.items).AllValid? && !fault.Strikes(|body.items|) ==>
                resp == Response(200, true, SavedMessage)
                && rows == ApplyAll(old(rows), Writes(Validate(body.items).entries), Some(now))
    {
      if body.NotArray? {
        return Response(400, false, NotArrayMessage);
      }
      var v := CheckNotas(body.items);
      if v == Throws {
        return Response(500, false, FailedMessage);
      } else if v == MissingField {
        return Response(400, false, MissingFieldMessage);
      }
      var es := v.entries;
      if fault.BeginFails? {
        return Response(500, false, FailedMessage);
      }
      // The table as the transaction sees it: committed at the end, left
      // unapplied by a rollback.
      var work := rows;
      var ws := Writes(es);
      var k := 0;
      while k < |es|
        modifies {}
        invariant 0 <= k <= |es|
        invariant work == ApplyAll(rows, ws[..k], Some(now))
        invariant fault.WriteFails? ==> fault.at >= k
      {
        if fault.RefusesWrite(k) {
          return Response(500, false, FailedMessage);
        }
        var e := es[k];
        var key := Key(e.alumnoId, e.materiaId, e.periodo);
        assert ws[..k + 1][..k] == ws[..k];
        assert ws[k] == Write(key, e.nota);
        assert ApplyAll(rows, ws[..k + 1], Some(now)) == Upsert(work, ws[k], Some(now));
        if HasKey(work, key) {
          work := UpdateWhere(work, key, e.nota, Some(now));
        } else {
          work := work + [GradeRow(key, e.nota, Some(now))];
        }
        k := k + 1;
      }
      assert ws[..|es|] == ws;
      if fault.CommitFails? {
        return Response(500, false, FailedMessage);
      }
      rows := work;
      return Response(200, true, SavedMessage);
    }

    /** The first POST /api/notas/guardar (for a profesor or admin): check
        that the student exists, then INSERT ... ON DUPLICATE KEY UPDATE
        each grade of `notas` for that student, in one transaction that
        leaves the table as it was when anything fails. */
    method GuardarNotas(estudianteId: Value, notas: DupBody, usuarios: seq<Usuario>, fault: Fault)
      returns (resp: Response)
      modifies this
      ensures fault.BeginFails? ==> !resp.success && resp.status == 500 && rows == old(rows)
      ensures !fault.BeginFails? && !StudentExists(usuarios, estudianteId) ==>
                resp == Response(500, false, DupFailurePrefix + StudentMissing) && rows == old(rows)
      ensures StudentExists(usuarios, estudianteId) && DupWrites(estudianteId, notas).None? ==>
                !resp.success && resp.status == 500 && rows == old(rows)
      ensures StudentExists(usuarios, estudianteId) && DupWrites(estudianteId, notas).Some? ==>
                if fault.Strikes(|DupWrites(estudianteId, notas).value|)
                then !resp.success && resp.status == 500 && rows == old(rows)
                else resp == Response(200, true, DupSaved)
                     && rows == ApplyAll(old(rows), DupWrites(estudianteId, notas).value, None)
    {
      if fault.BeginFails? {
        return Response(500, false, DupFailurePrefix + fault.reason);
      }
      var snapshot := rows;
      if !StudentExists(usuarios, estudianteId) {
        return Response(500, false, DupFailurePrefix + StudentMissing);
      }
      if notas.DupNotIterable? {
        return Response(500, false, DupFailurePrefix + TypeErrorText);
      }
      var items := notas.items;
      var ws: seq<Write> := [];
      var k := 0;
      while k < |items|
        invariant 0 <= k <= |items| && |ws| == k
        invariant forall j :: 0 <= j < k ==> items[j] != DupNullish && ws[j] == DupWrite(estudianteId, items[j])
        invariant rows == ApplyAll(snapshot, ws, None)
        invariant fault.WriteFails? ==> fault.at >= k
      {
        if items[k] == DupNullish {
          rows := snapshot;
          DupWritesNone(estudianteId, items, k);
          return Response(500, false, DupFailurePrefix + TypeErrorText);
        }
        if fault.RefusesWrite(k) {
          rows := snapshot;
          DupWritesLength(estudianteId, items, k);
          return Response(500, false, DupFailurePrefix + fault.reason);
        }
        var w := DupWrite(estudianteId, items[k]);
        if Matchable(w.key) && HasKey(rows, w.key) {
          rows := UpdateWhere(rows, w.key, w.nota, None);
        } else {
          rows := rows + [GradeRow(w.key, w.nota, None)];
        }
        assert (ws + [w])[..k] == ws;
        ws := ws + [w];
        k := k + 1;
      }
      DupWritesAll(estudianteId, items, ws);
      if fault.CommitFails? {
        rows := snapshot;
        return Response(500, false, DupFailurePrefix + fault.reason);
      }
      return Response(200, true, DupSaved);
    }
  }

  // ---------------------------------------------------------------------
  // The first POST /api/notas/guardar

  /** One element of `notas`: an object with the fields the handler reads,
      null or undefined (reading a field of which throws), or another
      primitive (whose fields are all undefined). */
  datatype DupItem = DupObject(materia_id: Value, nota: Value, periodo: Value) | DupNullish | DupPrimitive

  /** `notas`: an array, or a value `for ... of` cannot iterate. */
  datatype DupBody = DupArray(items: seq<DupItem>) | DupNotIterable

  const DupSaved := "Notas guardadas correctamente"
  const DupFailurePrefix := "Error al guardar las notas: "
  const StudentMissing := "Estudiante no encontrado"
  /** Stands for the text of the TypeError thrown when a field of null or
      undefined is read. */
  const TypeErrorText := "TypeError"

  /** `SELECT id FROM usuarios WHERE id = ? AND role = "estudiante"`
      returns a row. */
  predicate StudentExists(usuarios: seq<Usuario>, estudianteId: Value)
  {
    exists i :: 0 <= i < |usuarios| && IdMatches(SqlParam(estudianteId), usuarios[i].id)
                && usuarios[i].role == Str("estudiante")
  }

  /** The write one element issues: undefined parameters become NULL. */
  function DupWrite(estudianteId: Value, it: DupItem): Write
    requires it != DupNullish
  {
    match it
    case DupObject(m, n, p) => Write(Key(SqlParam(estudianteId), SqlParam(m), SqlParam(p)), SqlParam(n))
    case DupPrimitive => Write(Key(SqlParam(estudianteId), Null, Null), Null)
  }

  /** The writes the handler issues, or None when iterating `notas` throws
      before it is done. */
  function DupWrites(estudianteId: Value, notas: DupBody): Option<seq<Write>>
  {
    if notas.DupNotIterable? || exists i :: 0 <= i < |notas.items| && notas.items[i] == DupNullish then None
    else Some(seq(|notas.items|, i requires 0 <= i < |notas.items| => DupWrite(estudianteId, notas.items[i])))
  }

  lemma DupWritesNone(estudianteId: Value, items: seq<DupItem>, k: nat)
    requires k < |items| && items[k] == DupNullish
    ensures DupWrites(estudianteId, DupArray(items)).None?
  {
  }

  lemma DupWritesLength(estudianteId: Value, items: seq<DupItem>, k: nat)
    requires k < |items|
    ensures DupWrites(estudianteId, DupArray(items)).Some? ==> |DupWrites(estudianteId, DupArray(items)).value| > k
  {
  }

  lemma DupWritesAll(estudianteId: Value, items: seq<DupItem>, ws: seq<Write>)
    requires |ws| == |items|
    requires forall j :: 0 <= j < |items| ==> items[j] != DupNullish && ws[j] == DupWrite(estudianteId, items[j])
    ensures DupWrites(estudianteId, DupArray(items)) == Some(ws)
  {
    assert !exists i :: 0 <= i < |items| && items[i] == DupNullish;
    var r := DupWrites(estudianteId, DupArray(items)).value;
    assert |r| == |ws| && forall j :: 0 <= j < |ws| ==> r[j] == ws[j];
    assert r == ws;
  }

  /** What a committed first POST /api/notas/guardar leaves for element `i`
      of `notas`, starting from a table with one row per key. An object
      whose three key parts are all given is held by exactly one row, whose
      grade is that of the last element with the same key (its own when no
      later element repeats the key): the unique index turns the INSERT
      into an update. Any other element (a primitive, or an object missing
      materia_id or periodo) has a NULL key part, matches nothing and adds
      a row of its own. */
  lemma GuardarNotasRows(rows: seq<GradeRow>, estudianteId: Value, items: seq<DupItem>, i: nat)
    requires UniqueKeys(rows)
    requires DupWrites(estudianteId, DupArray(items)).Some? && i < |items|
    ensures items[i].DupPrimitive? ==> !Matchable(DupWrite(estudianteId, items[i]).key)
    ensures InBatch(DupWrites(estudianteId, DupArray(items)).value, DupWrite(estudianteId, items[i]).key)
    ensures var ws := DupWrites(estudianteId, DupArray(items)).value;
            var after := ApplyAll(rows, ws, None);
            var k := DupWrite(estudianteId, items[i]).key;
            Matchable(k) ==>
              Count(after, k) == 1
              && forall r :: 0 <= r < |after| && after[r].key == k ==> after[r].nota == LastNota(ws, k)
    ensures var ws := DupWrites(estudianteId, DupArray(items)).value;
            var k := DupWrite(estudianteId, items[i]).key;
            (forall j :: i < j < |items| ==> DupWrite(estudianteId, items[j]).key != k) ==>
              LastNota(ws, k) == DupWrite(estudianteId, items[i]).nota
    ensures var ws := DupWrites(estudianteId, DupArray(items)).value;
            var k := DupWrite(estudianteId, items[i]).key;
            !Matchable(k) ==> Count(ApplyAll(rows, ws, None), k) > Count(rows, k)
  {
    var ws := DupWrites(estudianteId, DupArray(items)).value;
    var k := DupWrite(estudianteId, items[i]).key;
    assert ws[i].key == k;
    assert InBatch(ws, k);
    if forall j :: i < j < |items| ==> DupWrite(estudianteId, items[j]).key != k {
      LastNotaAt(ws, i, k);
    }
    if Matchable(k) {
      OneRowPerKey(rows, ws, None);
      LastWriteWins(rows, ws, None, k);
    } else {
      ApplyAllUnmatchable(rows, ws, None, k);
      WriteCountInBatch(ws, k);
    }
  }
}
