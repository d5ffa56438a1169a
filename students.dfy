/**
 * The roster the upload endpoint builds from the parsed rows of the file:
 * `estudiantes[str(codigo)] = {"Android_id": 0, "Nombre": nombre}` for each
 * row in order, so that for a repeated code the last row wins.
 */
module Students {

  /** One parsed row, its `codigo` already converted with `str`. */
  datatype Row = Row(codigo: string, nombre: string)

  /** A student record as the upload writes it. */
  datatype Estudiante = Estudiante(androidId: int, nombre: string)

  /** Student code to record. */
  type Roster = map<string, Estudiante>

  /** The device binding written for every uploaded student. */
  const DefaultAndroidId := 0

  /** The roster after inserting `rows` one by one into an empty dict. */
  function RosterOf(rows: seq<Row>): Roster
  {
    if rows == [] then map[]
    else
      var last := rows[|rows| - 1];
      RosterOf(rows[..|rows| - 1])[last.codigo := Estudiante(DefaultAndroidId, last.nombre)]
  }

  /** The codes that occur in `rows`. */
  function Codes(rows: seq<Row>): set<string>
  {
    set i | 0 <= i < |rows| :: rows[i].codigo
  }

  /** `rows[i]` is the last row carrying its code. */
  predicate LastWithCode(rows: seq<Row>, i: int)
  {
    0 <= i < |rows| && forall j :: i < j < |rows| ==> rows[j].codigo != rows[i].codigo
  }

  /** No code occurs twice. */
  predicate DistinctCodes(rows: seq<Row>)
  {
    forall i, j :: 0 <= i < j < |rows| ==> rows[i].codigo != rows[j].codigo
  }

  lemma CodesSnoc(rows: seq<Row>)
    requires rows != []
    ensures Codes(rows) == Codes(rows[..|rows| - 1]) + {rows[|rows| - 1].codigo}
  {
    var init := rows[..|rows| - 1];
    forall c | c in Codes(rows) ensures c in Codes(init) + {rows[|rows| - 1].codigo} {
      var i :| 0 <= i < |rows| && rows[i].codigo == c;
      if i < |rows| - 1 {
        assert init[i] == rows[i];
      }
    }
    forall c | c in Codes(init) ensures c in Codes(rows) {
      var i :| 0 <= i < |init| && init[i].codigo == c;
      assert rows[i] == init[i];
    }
  }

  /** The roster has exactly one entry per code present in the rows. */
  lemma {:induction false} RosterKeys(rows: seq<Row>)
    ensures RosterOf(rows).Keys == Codes(rows)
  {
    if rows != [] {
      RosterKeys(rows[..|rows| - 1]);
      CodesSnoc(rows);
    }
  }

  /** The entry for a code holds Android_id 0 and the name of the last row
      with that code. */
  lemma {:induction false} RosterLastWins(rows: seq<Row>, i: int)
    requires LastWithCode(rows, i)
    ensures rows[i].codigo in RosterOf(rows)
    ensures RosterOf(rows)[rows[i].codigo] == Estudiante(DefaultAndroidId, rows[i].nombre)
  {
    var n := |rows|;
    if i < n - 1 {
      var init := rows[..n - 1];
      assert rows[n - 1].codigo != rows[i].codigo;
      assert init[i] == rows[i];
      forall j | i < j < |init| ensures init[j].codigo != init[i].codigo {
        assert init[j] == rows[j];
      }
      RosterLastWins(init, i);
    }
  }

  /** Every code has a last row carrying it. */
  lemma {:induction false} LastRowOf(rows: seq<Row>, c: string) returns (i: int)
    requires c in Codes(rows)
    ensures LastWithCode(rows, i) && rows[i].codigo == c
  {
    var n := |rows|;
    if rows[n - 1].codigo == c {
      i := n - 1;
    } else {
      var init := rows[..n - 1];
      CodesSnoc(rows);
      i := LastRowOf(init, c);
      assert init[i] == rows[i];
      forall j | i < j < n ensures rows[j].codigo != rows[i].codigo {
        if j < n - 1 {
          assert init[j] == rows[j];
        }
      }
    }
  }

  /** Every value is a record with Android_id 0 whose name comes from a row
      with its code. */
  lemma RosterValues(rows: seq<Row>, c: string)
    requires c in RosterOf(rows)
    ensures RosterOf(rows)[c].androidId == DefaultAndroidId
    ensures exists i :: 0 <= i < |rows| && rows[i].codigo == c && RosterOf(rows)[c].nombre == rows[i].nombre
  {
    RosterKeys(rows);
    var i := LastRowOf(rows, c);
    RosterLastWins(rows, i);
  }

  /** There are never more distinct codes than rows. */
  lemma {:induction false} CodesBound(rows: seq<Row>)
    ensures |Codes(rows)| <= |rows|
  {
    if rows != [] {
      CodesBound(rows[..|rows| - 1]);
      CodesSnoc(rows);
    }
  }

  /** Without repeated codes, every row gives its own entry. */
  lemma {:induction false} DistinctCodesCount(rows: seq<Row>)
    requires DistinctCodes(rows)
    ensures |Codes(rows)| == |rows|
  {
    if rows != [] {
      var init := rows[..|rows| - 1];
      assert DistinctCodes(init) by {
        forall i, j | 0 <= i < j < |init| ensures init[i].codigo != init[j].codigo {
          assert init[i] == rows[i] && init[j] == rows[j];
        }
      }
      DistinctCodesCount(init);
      CodesSnoc(rows);
    }
  }

  /** The roster size is the number of distinct codes: at most the number of
      rows, and equal to it when no code repeats. */
  lemma RosterSize(rows: seq<Row>)
    ensures |RosterOf(rows)| == |Codes(rows)| <= |rows|
    ensures DistinctCodes(rows) ==> |RosterOf(rows)| == |rows|
  {
    RosterKeys(rows);
    assert |RosterOf(rows)| == |RosterOf(rows).Keys|;
    CodesBound(rows);
    if DistinctCodes(rows) {
      DistinctCodesCount(rows);
    }
  }

  /** Two rows with distinct codes, and a code given twice. */
  lemma RosterExamples()
    ensures RosterOf([Row("1", "Ana"), Row("2", "Luis")])
         == map["1" := Estudiante(0, "Ana"), "2" := Estudiante(0, "Luis")]
    ensures RosterOf([Row("1", "Ana"), Row("1", "Eva")]) == map["1" := Estudiante(0, "Eva")]
  {
    var a := [Row("1", "Ana"), Row("2", "Luis")];
    assert a[..1] == [Row("1", "Ana")] && a[..1][..0] == [];
    var b := [Row("1", "Ana"), Row("1", "Eva")];
    assert b[..1] == [Row("1", "Ana")] && b[..1][..0] == [];
  }

  /** The loop of the upload endpoint that fills `estudiantes` row by row. */
  method BuildRoster(rows: seq<Row>) returns (estudiantes: Roster)
    ensures estudiantes == RosterOf(rows)
    ensures estudiantes.Keys == Codes(rows)
    ensures forall i :: LastWithCode(rows, i) ==>
              estudiantes[rows[i].codigo] == Estudiante(DefaultAndroidId, rows[i].nombre)
  {
    estudiantes := map[];
    var k := 0;
    while k < |rows|
      invariant 0 <= k <= |rows|
      invariant estudiantes == RosterOf(rows[..k])
    {
      var row := rows[k];
      assert rows[..k + 1][..k] == rows[..k];
      estudiantes := estudiantes[row.codigo := Estudiante(DefaultAndroidId, row.nombre)];
      k := k + 1;
    }
    assert rows[..k] == rows;
    RosterKeys(rows);
    forall i | LastWithCode(rows, i)
      ensures estudiantes[rows[i].codigo] == Estudiante(DefaultAndroidId, rows[i].nombre)
    {
      RosterLastWins(rows, i);
    }
  }
}
