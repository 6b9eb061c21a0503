/** The grade logic of the notas.js page: the payload the teacher's form
    sends, the grouping of a student's grades into one line per subject,
    and the average shown at the end of each line. */
module Notas {
  import opened Js
  import ServerGrades

  // ---------------------------------------------------------------------
  // guardarNota: the payload of the teacher's form

  /** The four form fields, as the text the inputs hold. */
  datatype Form = Form(alumno: string, materia: string, nota: string, periodo: string)

  /** The body `guardarNota` posts: one entry whose ids and period are
      `parseInt` of the fields and whose grade is `parseFloat` of its
      field, sent through JSON (a NaN arrives as null). */
  function Payload(f: Form): (body: ServerGrades.Body)
    ensures body.ArrayBody? && |body.items| == 1 && body.items[0].Object?
    ensures body.items[0].entry.nota != Undefined
  {
    ServerGrades.ArrayBody([ServerGrades.Object(ServerGrades.Entry(
      ToWire(ParseInt(f.alumno)), ToWire(ParseInt(f.materia)),
      ToWire(ParseFloat(f.nota)), ToWire(ParseInt(f.periodo))))])
  }

  /** The text parses to a number other than 0. */
  predicate ParsesNonZero(s: string)
  {
    ParseInt(s).Num? && ParseInt(s).n != 0.0
  }

  /** The server accepts the form's payload exactly when the student, the
      subject and the period each parse to a number other than 0; the
      grade never makes it reject (an unparsable grade arrives as null). */
  lemma PayloadAccepted(f: Form)
    ensures ServerGrades.Validate(Payload(f).items).AllValid? <==>
              ParsesNonZero(f.alumno) && ParsesNonZero(f.materia) && ParsesNonZero(f.periodo)
  {
    var items := Payload(f).items;
    assert items == [items[0]];
    ServerGrades.ValidateSingle(items[0]);
    PayloadEntryValid(f);
  }

  /** The entry of the payload is valid exactly when the three ids parse
      to numbers other than 0. */
  lemma PayloadEntryValid(f: Form)
    ensures ServerGrades.Good(Payload(f).items[0]) <==>
              ParsesNonZero(f.alumno) && ParsesNonZero(f.materia) && ParsesNonZero(f.periodo)
  {
    WireTruthy(ParseInt(f.alumno));
    WireTruthy(ParseInt(f.materia));
    WireTruthy(ParseInt(f.periodo));
  }

  /** A parsed number survives the trip through JSON as a truthy value
      exactly when it is a number other than 0. */
  lemma WireTruthy(v: Value)
    requires v.Num? || v.NaN?
    ensures Truthy(ToWire(v)) <==> v.Num? && v.n != 0.0
  {
  }

  /** A form holding the decimal text of ids and of an integral grade sends
      exactly those numbers. */
  lemma PayloadOfIntegers(alumno: int, materia: int, nota: int, periodo: int)
    ensures Payload(Form(IntToString(alumno), IntToString(materia), IntToString(nota), IntToString(periodo))).items[0].entry ==
              ServerGrades.Entry(Num(alumno as real), Num(materia as real), Num(nota as real), Num(periodo as real))
  {
    ParseIntRoundTrip(alumno);
    ParseIntRoundTrip(materia);
    ParseFloatOfInt(nota);
    ParseIntRoundTrip(periodo);
  }

  // ---------------------------------------------------------------------
  // cargarNotasAlumno: one line per subject

  /** A row of a student's report card as the server sends it: the subject
      name from a LEFT JOIN (None when the subject is missing), the period
      and the grade. */
  datatype NotaRow = NotaRow(materia_nombre: Option<string>, periodo: Value, nota: Value)

  const Dash := Str("-")

  /** The subject name as a value of the row. */
  function MateriaValue(m: Option<string>): Value
  {
    match m
    case None => Null
    case Some(s) => Str(s)
  }

  /** The property name `notasPorMateria[materia_nombre]` uses: a name is
      its own key, a missing name (null) the key "null". */
  function PropertyKey(m: Option<string>): string
  {
    match m
    case None => "null"
    case Some(s) => s
  }

  /** The trimester the property `trimestre${periodo}` names: 1, 2 or 3,
      and 0 for every other property. */
  function SlotOf(periodo: Value): (s: nat)
    ensures s <= 3
  {
    if periodo == Num(1.0) || periodo == Str("1") then 1
    else if periodo == Num(2.0) || periodo == Str("2") then 2
    else if periodo == Num(3.0) || periodo == Str("3") then 3
    else 0
  }

  /** One line of the table: the subject and the grade of each
      trimester. */
  datatype Boleta = Boleta(materia: Value, trimestre1: Value, trimestre2: Value, trimestre3: Value)
  {
    function Slot(s: nat): Value
      requires 1 <= s <= 3
    {
      if s == 1 then trimestre1 else if s == 2 then trimestre2 else trimestre3
    }

    /** Assign the property of trimester `s`; a property outside 1..3 is
        not one of the line's slots. */
    function Set(s: nat, v: Value): (b: Boleta)
      ensures b.materia == materia
      ensures forall t :: 1 <= t <= 3 ==> b.Slot(t) == if t == s then v else Slot(t)
    {
      if s == 1 then this.(trimestre1 := v)
      else if s == 2 then this.(trimestre2 := v)
      else if s == 3 then this.(trimestre3 := v)
      else this
    }
  }

  /** The grouping object: the property names in insertion order (the
      order `Object.values` lists them in) and the line under each. */
  datatype Grouping = Grouping(order: seq<string>, lines: map<string, Boleta>)
  {
    predicate Valid()
    {
      (forall i, j :: 0 <= i < j < |order| ==> order[i] != order[j])
      && (forall k :: k in order ==> k in lines)
      && (forall k :: k in lines ==> k in order)
    }
  }

  /** The grouping after one more row: a line is created (with '-' in
      every slot) the first time its name is seen, then the row's grade is
      written into its trimester. */
  function Place(g: Grouping, r: NotaRow): Grouping
  {
    var k := PropertyKey(r.materia_nombre);
    var lines := if k in g.lines then g.lines else g.lines[k := Boleta(MateriaValue(r.materia_nombre), Dash, Dash, Dash)];
    var order := if k in g.lines then g.order else g.order + [k];
    Grouping(order, lines[k := lines[k].Set(SlotOf(r.periodo), r.nota)])
  }

  /** The grouping of the rows in the order they arrive. */
  function Group(rows: seq<NotaRow>): (g: Grouping)
    ensures g.Valid()
    decreases |rows|
  {
    if rows == [] then Grouping([], map[]) else Place(Group(rows[..|rows| - 1]), rows[|rows| - 1])
  }

  /** `Object.values` of the grouping. */
  function Lines(g: Grouping): seq<Boleta>
    requires g.Valid()
  {
    seq(|g.order|, i requires 0 <= i < |g.order| => g.lines[g.order[i]])
  }

  /** Some row carries the name with key `k`. */
  predicate HasMateria(rows: seq<NotaRow>, k: string)
  {
    exists i :: 0 <= i < |rows| && PropertyKey(rows[i].materia_nombre) == k
  }

  /** The grade of the last row for key `k` and trimester `s`, or '-' when
      no row sets it. */
  function LastGrade(rows: seq<NotaRow>, k: string, s: nat): Value
    decreases |rows|
  {
    if rows == [] then Dash
    else if PropertyKey(rows[|rows| - 1].materia_nombre) == k && SlotOf(rows[|rows| - 1].periodo) == s
    then rows[|rows| - 1].nota
    else LastGrade(rows[..|rows| - 1], k, s)
  }

  /** What one more row does to the grouping: its key gets a line, and
      only that line's trimester for the row's period changes. */
  lemma PlaceLines(g: Grouping, r: NotaRow)
    ensures forall k :: k in Place(g, r).lines <==> k in g.lines || k == PropertyKey(r.materia_nombre)
    ensures forall k, s :: k in Place(g, r).lines && 1 <= s <= 3 ==>
              Place(g, r).lines[k].Slot(s) ==
                if k == PropertyKey(r.materia_nombre) && s == SlotOf(r.periodo) then r.nota
                else if k in g.lines then g.lines[k].Slot(s) else Dash
  {
  }

  lemma HasMateriaSnoc(rows: seq<NotaRow>, k: string)
    requires rows != []
    ensures HasMateria(rows, k) <==>
              HasMateria(rows[..|rows| - 1], k) || PropertyKey(rows[|rows| - 1].materia_nombre) == k
  {
    var init := rows[..|rows| - 1];
    if HasMateria(rows, k) && PropertyKey(rows[|rows| - 1].materia_nombre) != k {
      var i :| 0 <= i < |rows| && PropertyKey(rows[i].materia_nombre) == k;
      assert init[i] == rows[i];
    }
    if HasMateria(init, k) {
      var i :| 0 <= i < |init| && PropertyKey(init[i].materia_nombre) == k;
      assert rows[i] == init[i];
    }
  }

  /** There is one line per distinct subject name. */
  lemma {:induction false} GroupKeys(rows: seq<NotaRow>)
    ensures forall k :: k in Group(rows).lines <==> HasMateria(rows, k)
    decreases |rows|
  {
    if rows != [] {
      GroupKeys(rows[..|rows| - 1]);
      PlaceLines(Group(rows[..|rows| - 1]), rows[|rows| - 1]);
      forall k ensures k in Group(rows).lines <==> HasMateria(rows, k) {
        HasMateriaSnoc(rows, k);
      }
    }
  }

  /** Each trimester of a line holds the grade of the last row for that
      subject and trimester, or '-' when there is none: a later row
      overwrites an earlier one. */
  lemma {:induction false} GroupSlots(rows: seq<NotaRow>)
    ensures forall k, s :: k in Group(rows).lines && 1 <= s <= 3 ==>
              Group(rows).lines[k].Slot(s) == LastGrade(rows, k, s)
    decreases |rows|
  {
    if rows != [] {
      var init := rows[..|rows| - 1];
      GroupSlots(init);
      GroupKeys(init);
      PlaceLines(Group(init), rows[|rows| - 1]);
      forall k, s | k in Group(rows).lines && 1 <= s <= 3 && k !in Group(init).lines
        ensures LastGrade(init, k, s) == Dash
      {
        NoMateriaNoGrade(init, k, s);
      }
    }
  }

  /** A subject no row names has no grade. */
  lemma {:induction false} NoMateriaNoGrade(rows: seq<NotaRow>, k: string, s: nat)
    requires !HasMateria(rows, k)
    ensures LastGrade(rows, k, s) == Dash
    decreases |rows|
  {
    if rows != [] {
      HasMateriaSnoc(rows, k);
      NoMateriaNoGrade(rows[..|rows| - 1], k, s);
    }
  }

  /** A row whose period is not 1, 2 or 3 changes no trimester of any
      line. */
  lemma OtherPeriodIgnored(rows: seq<NotaRow>, r: NotaRow)
    requires SlotOf(r.periodo) == 0
    ensures forall k, s :: k in Group(rows).lines && 1 <= s <= 3 ==>
              Group(rows + [r]).lines[k].Slot(s) == Group(rows).lines[k].Slot(s)
  {
    assert (rows + [r])[..|rows|] == rows;
  }

  /** The forEach of `cargarNotasAlumno`: build the grouping object row by
      row and list its values. */
  method AgruparPorMateria(notas: seq<NotaRow>) returns (lines: seq<Boleta>)
    ensures lines == Lines(Group(notas))
  {
    var order: seq<string> := [];
    var porMateria: map<string, Boleta> := map[];
    for i := 0 to |notas|
      invariant Grouping(order, porMateria) == Group(notas[..i])
    {
      var r := notas[i];
      assert notas[..i + 1][..i] == notas[..i];
      assert Group(notas[..i + 1]) == Place(Group(notas[..i]), r);
      var k := PropertyKey(r.materia_nombre);
      if k !in porMateria {
        porMateria := porMateria[k := Boleta(MateriaValue(r.materia_nombre), Dash, Dash, Dash)];
        order := order + [k];
      }
      porMateria := porMateria[k := porMateria[k].Set(SlotOf(r.periodo), r.nota)];
    }
    assert notas[..|notas|] == notas;
    lines := Lines(Grouping(order, porMateria));
  }

  // ---------------------------------------------------------------------
  // mostrarNotasEnTabla: the average of a line

  /** A trimester read with `parseFloat` when it is filled (not '-'), and
      nothing when it is not. */
  function FilledOne(v: Value): (xs: seq<Value>)
    ensures xs == if v == Dash then [] else [ParseFloatValue(v)]
  {
    if v != Dash then [ParseFloatValue(v)] else []
  }

  /** A number or NaN: what `parseFloat` gives. */
  predicate Numeric(x: Value)
  {
    x.Num? || x.NaN?
  }

  /** The numbers of the filled trimesters, in trimester order. */
  function Filled(b: Boleta): (xs: seq<Value>)
    ensures |xs| <= 3
    ensures xs == [] <==> b.trimestre1 == Dash && b.trimestre2 == Dash && b.trimestre3 == Dash
    ensures forall x :: x in xs ==> Numeric(x)
  {
    FilledOne(b.trimestre1) + FilledOne(b.trimestre2) + FilledOne(b.trimestre3)
  }

  /** `reduce((a, b) => a + b, 0)`: NaN as soon as one term is NaN. */
  function Sum(xs: seq<Value>): (r: Value)
    requires forall x :: x in xs ==> Numeric(x)
    ensures Numeric(r)
    ensures r.NaN? <==> NaN in xs
    decreases |xs|
  {
    if xs == [] then Num(0.0)
    else
      var init, last := xs[..|xs| - 1], xs[|xs| - 1];
      assert forall x :: x in xs <==> x in init || x == last;
      assert last in xs && Numeric(last);
      match Sum(init)
      case Num(a) =>
        (match last
         case Num(b) => Num(a + b)
         case _ => NaN)
      case _ => NaN
  }

  /** `avg` is `total` shared out equally over `count` cells, for the one
      to three cells a line has. */
  predicate MeanOf(avg: real, total: real, count: nat)
  {
    || (count == 1 && avg == total)
    || (count == 2 && 2.0 * avg == total)
    || (count == 3 && 3.0 * avg == total)
  }

  /** The sum of one to three cells over their count: NaN exactly when
      one of them is NaN. */
  function Mean(xs: seq<Value>): (r: Value)
    requires 1 <= |xs| <= 3 && forall x :: x in xs ==> Numeric(x)
    ensures Numeric(r)
    ensures r.NaN? <==> NaN in xs
    ensures r.Num? ==> Sum(xs).Num? && MeanOf(r.n, Sum(xs).n, |xs|)
  {
    match Sum(xs)
    case Num(s) => Num(if |xs| == 1 then s else if |xs| == 2 then s / 2.0 else s / 3.0)
    case _ => NaN
  }

  /** The average shown for a line (before `toFixed(2)`): '-' when no
      trimester is filled, otherwise the mean of the filled trimesters. */
  function Promedio(b: Boleta): (r: Value)
    ensures r == Dash || Numeric(r)
  {
    var xs := Filled(b);
    if xs == [] then Dash else Mean(xs)
  }

  /** The average is '-' exactly when no trimester is filled, NaN exactly
      when a filled trimester is not a number, and otherwise the sum of the
      filled trimesters over their count. */
  lemma PromedioSpec(b: Boleta)
    ensures Promedio(b) == Dash <==> b.trimestre1 == Dash && b.trimestre2 == Dash && b.trimestre3 == Dash
    ensures Promedio(b) != Dash ==> (Promedio(b).NaN? <==> NaN in Filled(b))
    ensures Promedio(b).Num? ==> Sum(Filled(b)).Num? && MeanOf(Promedio(b).n, Sum(Filled(b)).n, |Filled(b)|)
  {
    var xs := Filled(b);
    if xs != [] {
      assert Promedio(b) == Mean(xs);
    }
  }

  /** The sum of one to three numbers, written out. */
  lemma SumOfNums(xs: seq<Value>)
    requires 1 <= |xs| <= 3 && forall x :: x in xs ==> x.Num?
    ensures Sum(xs) == Num(xs[0].n + (if |xs| > 1 then xs[1].n else 0.0) + (if |xs| > 2 then xs[2].n else 0.0))
  {
    var a := xs[..1];
    assert a[..0] == [];
    assert Sum(a) == Num(xs[0].n);
    if |xs| == 1 {
      assert xs == a;
    } else {
      var b := xs[..2];
      assert b[..1] == a;
      assert Sum(b) == Num(xs[0].n + xs[1].n);
      if |xs| == 2 {
        assert xs == b;
      } else {
        assert xs[..2] == b;
      }
    }
  }

  /** The average lies between the smallest and the largest filled grade. */
  lemma PromedioBounds(b: Boleta)
    requires Promedio(b).Num?
    ensures forall x :: x in Filled(b) ==> x.Num?
    ensures exists x :: x in Filled(b) && x.Num? && x.n <= Promedio(b).n
    ensures exists x :: x in Filled(b) && x.Num? && Promedio(b).n <= x.n
  {
    PromedioSpec(b);
    MeanBounds(Filled(b), Promedio(b).n);
  }

  /** A mean of numbers is at least one of them and at most one of them. */
  lemma MeanBounds(xs: seq<Value>, avg: real)
    requires forall x :: x in xs ==> Numeric(x)
    requires Sum(xs).Num? && MeanOf(avg, Sum(xs).n, |xs|)
    ensures forall x :: x in xs ==> x.Num?
    ensures exists x :: x in xs && x.Num? && x.n <= avg
    ensures exists x :: x in xs && x.Num? && avg <= x.n
  {
    assert forall x :: x in xs ==> x.Num?;
    SumOfNums(xs);
    assert xs[0] in xs;
    if |xs| > 1 {
      assert xs[1] in xs;
    }
    if |xs| > 2 {
      assert xs[2] in xs;
    }
  }

  /** Only filled trimesters count, and a grade of 0 is a filled one:
      80, '-', 90 averages 85, and 0, '-', 90 averages 45. */
  lemma PromedioExamples()
    ensures Promedio(Boleta(Str("Matemáticas"), Num(80.0), Dash, Num(90.0))) == Num(85.0)
    ensures Promedio(Boleta(Str("Matemáticas"), Num(0.0), Dash, Num(90.0))) == Num(45.0)
  {
    SumPair(80.0, 90.0);
    SumPair(0.0, 90.0);
    assert Filled(Boleta(Str("Matemáticas"), Num(80.0), Dash, Num(90.0))) == [Num(80.0), Num(90.0)];
    assert Filled(Boleta(Str("Matemáticas"), Num(0.0), Dash, Num(90.0))) == [Num(0.0), Num(90.0)];
  }

  lemma SumPair(a: real, b: real)
    ensures Sum([Num(a), Num(b)]) == Num(a + b)
  {
    assert [Num(a)][..0] == [];
    assert Sum([Num(a)]) == Num(a);
    assert [Num(a), Num(b)][..1] == [Num(a)];
  }
}
