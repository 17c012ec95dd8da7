/**
 * The read side of the ledger: open records of a date, a date's records by
 * employee name, one employee's records in a date range, one record by id.
 */
module Queries {
  import opened Wrappers
  import opened Ledger
  import opened Text
  import opened Sorting
  import ShiftClose

  /** An open record as listed: the employee's identity number and name, and the entry time. */
  datatype SinSalidaRow = SinSalidaRow(numeroIdentidad: string, nombre: string, horaEntrada: Option<Time>)

  const EmpleadoNoEncontrado := "Empleado no encontrado"

  function OpenRow(j: Joined): SinSalidaRow
  {
    SinSalidaRow(j.empleado.numeroIdentidad, j.empleado.nombre, j.record.horaEntrada)
  }

  /** An open record of `fecha` whose employee exists yields `row`. */
  ghost predicate OpenRowOf(l: Ledger, dir: Directory, fecha: Date, row: SinSalidaRow)
  {
    exists r | r in l.records :: r.fecha == fecha && r.Open() && EmployeeById(dir, r.employeeId).Some?
                                 && row == OpenRow(Joined(r, EmployeeById(dir, r.employeeId).value))
  }

  /** `obtenerRegistrosSinSalida(fecha)`: one row per open record of the date, in ledger order. */
  function RegistrosSinSalida(l: Ledger, dir: Directory, fecha: Date): (rows: seq<SinSalidaRow>)
    ensures forall row :: row in rows <==> OpenRowOf(l, dir, fecha, row)
    ensures |rows| == Count(l.records, (x: Record) => (x.fecha == fecha && x.Open()) && EmployeeById(dir, x.employeeId).Some?)
    ensures var joined := JoinWhere(l.records, dir, (x: Record) => x.fecha == fecha && x.Open());
            |rows| == |joined| && forall k | 0 <= k < |joined| :: rows[k] == OpenRow(joined[k])
  {
    var p := (x: Record) => x.fecha == fecha && x.Open();
    var joined := JoinWhere(l.records, dir, p);
    var rows := seq(|joined|, k requires 0 <= k < |joined| => OpenRow(joined[k]));
    CountSamePredicate(l.records,
      (x: Record) => p(x) && EmployeeById(dir, x.employeeId).Some?,
      (x: Record) => (x.fecha == fecha && x.Open()) && EmployeeById(dir, x.employeeId).Some?);
    OpenRowsComplete(l, dir, fecha, joined, rows);
    rows
  }

  lemma OpenRowsComplete(l: Ledger, dir: Directory, fecha: Date, joined: seq<Joined>, rows: seq<SinSalidaRow>)
    requires joined == JoinWhere(l.records, dir, (x: Record) => x.fecha == fecha && x.Open())
    requires |rows| == |joined| && forall k | 0 <= k < |joined| :: rows[k] == OpenRow(joined[k])
    ensures forall row :: row in rows <==> OpenRowOf(l, dir, fecha, row)
  {
    forall row | row in rows ensures OpenRowOf(l, dir, fecha, row) {
      var k :| 0 <= k < |rows| && rows[k] == row;
      var r := joined[k].record;
      assert r in l.records && r.fecha == fecha && r.Open() && EmployeeById(dir, r.employeeId).Some?;
      assert row == OpenRow(Joined(r, EmployeeById(dir, r.employeeId).value));
    }
    forall row | OpenRowOf(l, dir, fecha, row) ensures row in rows {
      var r :| r in l.records && r.fecha == fecha && r.Open() && EmployeeById(dir, r.employeeId).Some?
               && row == OpenRow(Joined(r, EmployeeById(dir, r.employeeId).value));
      var i :| 0 <= i < |l.records| && l.records[i] == r;
      var k :| 0 <= k < |joined| && joined[k] == Joined(r, EmployeeById(dir, r.employeeId).value);
      assert rows[k] == row;
    }
  }

  /** Every record's employee exists (the foreign key holds). */
  ghost predicate ReferencesResolve(l: Ledger, dir: Directory)
  {
    forall i | 0 <= i < |l.records| :: EmployeeById(dir, l.records[i].employeeId).Some?
  }

  /** The open-record list has exactly as many rows as the bulk close would update. */
  lemma SinSalidaMatchesCerrarJornada(l: Ledger, dir: Directory, fecha: Date, hora: Time)
    requires ReferencesResolve(l, dir)
    ensures |RegistrosSinSalida(l, dir, fecha)| == ShiftClose.CerrarJornada(l, Some(fecha), Some(hora)).affected
  {
    var p := (x: Record) => (x.fecha == fecha && x.Open()) && EmployeeById(dir, x.employeeId).Some?;
    var q := (x: Record) => ShiftClose.ClosableOn(x, Some(fecha));
    CountIsMatchingRows(l.records, p);
    assert Matching(l.records, p) == Matching(l.records, q);
  }

  /** After the bulk close of a date, its open-record list is empty. */
  lemma SinSalidaEmptyAfterCerrarJornada(l: Ledger, dir: Directory, fecha: Date, hora: Time)
    ensures RegistrosSinSalida(ShiftClose.CerrarJornada(l, Some(fecha), Some(hora)).ledger, dir, fecha) == []
  {
    ShiftClose.CerrarJornadaClosesDate(l, fecha, hora);
  }

  /** A row of `fecha` joined with its employee. */
  ghost predicate JoinedOn(l: Ledger, dir: Directory, fecha: Date, j: Joined)
  {
    j.record in l.records && j.record.fecha == fecha && EmployeeById(dir, j.record.employeeId) == Some(j.empleado)
  }

  /** `obtenerPorFecha(fecha)`: the date's records with their employee, ordered by employee name. */
  function PorFecha(l: Ledger, dir: Directory, fecha: Date): (rows: seq<Joined>)
    ensures SortedBy(rows, (j: Joined) => j.empleado.nombre, false)
    ensures forall j :: j in rows <==> JoinedOn(l, dir, fecha, j)
    ensures |rows| == Count(l.records, (x: Record) => x.fecha == fecha && EmployeeById(dir, x.employeeId).Some?)
  {
    var joined := JoinWhere(l.records, dir, (x: Record) => x.fecha == fecha);
    var rows := SortBy(joined, (j: Joined) => j.empleado.nombre, false);
    CountSamePredicate(l.records,
      (x: Record) => ((x: Record) => x.fecha == fecha)(x) && EmployeeById(dir, x.employeeId).Some?,
      (x: Record) => x.fecha == fecha && EmployeeById(dir, x.employeeId).Some?);
    assert forall j :: j in rows <==> j in joined by {
      forall j ensures j in rows <==> j in joined {
        assert j in rows <==> j in multiset(rows);
        assert j in joined <==> j in multiset(joined);
      }
    }
    assert forall j :: JoinedOn(l, dir, fecha, j) ==> j in joined by {
      forall j | JoinedOn(l, dir, fecha, j) ensures j in joined {
        var i :| 0 <= i < |l.records| && l.records[i] == j.record;
      }
    }
    rows
  }

  /** One employee's row whose date lies in the inclusive range. */
  ghost predicate JoinedInRange(l: Ledger, dir: Directory, employeeId: nat, inicio: Date, fin: Date, j: Joined)
  {
    && j.record in l.records
    && j.record.employeeId == employeeId
    && StrLe(inicio, j.record.fecha) && StrLe(j.record.fecha, fin)
    && EmployeeById(dir, employeeId) == Some(j.empleado)
  }

  /**
   * `obtenerPorEmpleado(numeroIdentidad, fechaInicio, fechaFin)`: throws for an unknown
   * identity, else the employee's records with `fecha BETWEEN inicio AND fin`, newest first.
   */
  function PorEmpleado(l: Ledger, dir: Directory, numero: string, inicio: Date, fin: Date): (r: Result<seq<Joined>>)
    ensures r.Err? <==> FindByIdentity(dir, numero).None?
    ensures r.Err? ==> r.message == EmpleadoNoEncontrado
    ensures r.Ok? ==> SortedBy(r.value, (j: Joined) => j.record.fecha, true)
    ensures r.Ok? ==> forall j :: j in r.value <==>
                        JoinedInRange(l, dir, FindByIdentity(dir, numero).value.id, inicio, fin, j)
    ensures r.Ok? ==>
              var id := FindByIdentity(dir, numero).value.id;
              |r.value| == Count(l.records, (x: Record) => x.employeeId == id && StrLe(inicio, x.fecha) && StrLe(x.fecha, fin)
                                                          && EmployeeById(dir, x.employeeId).Some?)
  {
    match FindByIdentity(dir, numero)
    case None => Err(EmpleadoNoEncontrado)
    case Some(e) =>
      var p := (x: Record) => x.employeeId == e.id && StrLe(inicio, x.fecha) && StrLe(x.fecha, fin);
      var joined := JoinWhere(l.records, dir, p);
      var rows := SortBy(joined, (j: Joined) => j.record.fecha, true);
      CountSamePredicate(l.records,
        (x: Record) => p(x) && EmployeeById(dir, x.employeeId).Some?,
        (x: Record) => x.employeeId == e.id && StrLe(inicio, x.fecha) && StrLe(x.fecha, fin)
                       && EmployeeById(dir, x.employeeId).Some?);
      assert forall j :: j in rows <==> j in joined by {
        forall j ensures j in rows <==> j in joined {
          assert j in rows <==> j in multiset(rows);
          assert j in joined <==> j in multiset(joined);
        }
      }
      assert forall j :: JoinedInRange(l, dir, e.id, inicio, fin, j) ==> j in joined by {
        forall j | JoinedInRange(l, dir, e.id, inicio, fin, j) ensures j in joined {
          var i :| 0 <= i < |l.records| && l.records[i] == j.record;
        }
      }
      Ok(rows)
  }

  /** With the same start and end date the range query returns exactly that day's rows of the employee. */
  lemma PorEmpleadoSingleDay(l: Ledger, dir: Directory, numero: string, d: Date)
    requires FindByIdentity(dir, numero).Some?
    ensures var id := FindByIdentity(dir, numero).value.id;
            forall j :: j in PorEmpleado(l, dir, numero, d, d).value <==>
              (j.record in l.records && j.record.employeeId == id && j.record.fecha == d
               && EmployeeById(dir, id) == Some(j.empleado))
  {
    forall j: Joined ensures StrLe(d, j.record.fecha) && StrLe(j.record.fecha, d) <==> j.record.fecha == d {
      if StrLe(d, j.record.fecha) && StrLe(j.record.fecha, d) {
        StrLeAntisymmetric(d, j.record.fecha);
      }
      StrLeReflexive(d);
    }
  }

  /** `obtenerPorId(id)`: the first row with that id whose employee exists. */
  function PorId(l: Ledger, dir: Directory, id: nat): (r: Option<Joined>)
    ensures r.None? <==> forall i | 0 <= i < |l.records| ::
                           l.records[i].id != id || EmployeeById(dir, l.records[i].employeeId).None?
    ensures r.Some? ==> r.value.record in l.records && r.value.record.id == id
                        && EmployeeById(dir, r.value.record.employeeId) == Some(r.value.empleado)
  {
    var rows := JoinWhere(l.records, dir, (x: Record) => x.id == id);
    if |rows| == 0 then None else Some(rows[0])
  }
}
