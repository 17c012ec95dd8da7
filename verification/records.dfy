/**
 * Direct writes to the ledger: `Asistencia.crear` (unconditional insert) and
 * `Asistencia.actualizar` (an update of whichever columns the request names).
 */
module Records {
  import opened Wrappers
  import opened Ledger
  import Queries

  /**
   * The body of `POST /` as bound to the insert: `empleado_id, fecha, hora_entrada, hora_salida, permiso`;
   * the manual flags take their column default, modelled as NULL.
   */
  datatype NuevaAsistencia = NuevaAsistencia(
    employeeId: nat, fecha: Date, horaEntrada: Option<Time>, horaSalida: Option<Time>, permiso: Option<string>)

  /** The ledger after an insert and the `insertId`. */
  datatype Inserted = Inserted(ledger: Ledger, id: nat)

  /** `crear(asistencia)`: inserts unconditionally and returns the new id. */
  function Crear(l: Ledger, a: NuevaAsistencia): (r: Inserted)
    ensures r.id == l.nextId && r.ledger.nextId == l.nextId + 1
    ensures |r.ledger.records| == |l.records| + 1
    ensures r.ledger.records[..|l.records|] == l.records
    ensures var x := r.ledger.records[|l.records|];
            && x.id == r.id && x.employeeId == a.employeeId && x.fecha == a.fecha
            && x.horaEntrada == a.horaEntrada && x.horaSalida == a.horaSalida && x.permiso == a.permiso
            && x.entradaManual.None? && x.salidaManual.None?
  {
    var x := Record(l.nextId, a.employeeId, a.fecha, a.horaEntrada, a.horaSalida, None, None, a.permiso);
    Inserted(Ledger(l.records + [x], l.nextId + 1), l.nextId)
  }

  /** The inserted row is the one `obtenerPorId` returns for the new id. */
  lemma CrearThenPorId(l: Ledger, dir: Directory, a: NuevaAsistencia)
    requires WellFormed(l)
    requires EmployeeById(dir, a.employeeId).Some?
    ensures var r := Crear(l, a);
            Queries.PorId(r.ledger, dir, r.id) == Some(Joined(r.ledger.records[|l.records|], EmployeeById(dir, a.employeeId).value))
  {
    var r := Crear(l, a);
    var rows := JoinWhere(r.ledger.records, dir, (x: Record) => x.id == r.id);
    var j := Joined(r.ledger.records[|l.records|], EmployeeById(dir, a.employeeId).value);
    assert j in rows;
    forall k | 0 <= k < |rows| ensures rows[k] == j {
      var i :| 0 <= i < |r.ledger.records| && r.ledger.records[i] == rows[k].record;
      assert i == |l.records|;
    }
  }

  /** Unlike registration, a plain insert can put a second record on an (employee, date) pair. */
  lemma CrearCanDuplicateDay()
    ensures var a := NuevaAsistencia(7, "2024-03-01", Some("08:00"), None, None);
            var once := Crear(Empty, a).ledger;
            AtMostOnePerDay(once.records) && !AtMostOnePerDay(Crear(once, a).ledger.records)
  {
    var a := NuevaAsistencia(7, "2024-03-01", Some("08:00"), None, None);
    var twice := Crear(Crear(Empty, a).ledger, a).ledger.records;
    assert twice[0].employeeId == twice[1].employeeId && twice[0].fecha == twice[1].fecha;
  }

  /** Inserting keeps ids unique and below the counter. */
  lemma CrearKeepsWellFormed(l: Ledger, a: NuevaAsistencia)
    requires WellFormed(l)
    ensures WellFormed(Crear(l, a).ledger)
  {
  }

  /**
   * The body of `PUT /:id` as an optional-field patch: `None` leaves the column
   * alone, `Some(v)` writes `v` (a nullable column may be written NULL).
   */
  datatype Patch = Patch(
    employeeId: Option<nat>,
    fecha: Option<Date>,
    horaEntrada: Option<Option<Time>>,
    horaSalida: Option<Option<Time>>,
    entradaManual: Option<Option<bool>>,
    salidaManual: Option<Option<bool>>,
    permiso: Option<Option<string>>)
  {
    /** No column named: the generated `SET` list is empty. */
    predicate IsEmpty()
    {
      employeeId.None? && fecha.None? && horaEntrada.None? && horaSalida.None?
      && entradaManual.None? && salidaManual.None? && permiso.None?
    }
  }

  /**
   * MySQL refuses an update statement whose column list is empty. The server's message
   * text is not modelled; this stand-in names the error it reports.
   */
  const SqlSyntaxError := "ER_PARSE_ERROR"

  function Pick<T>(o: Option<T>, current: T): T
  {
    if o.Some? then o.value else current
  }

  function ApplyPatch(r: Record, p: Patch): Record
  {
    Record(r.id, Pick(p.employeeId, r.employeeId), Pick(p.fecha, r.fecha), Pick(p.horaEntrada, r.horaEntrada),
           Pick(p.horaSalida, r.horaSalida), Pick(p.entradaManual, r.entradaManual),
           Pick(p.salidaManual, r.salidaManual), Pick(p.permiso, r.permiso))
  }

  /** The ledger after an update and whether any row matched the id. */
  datatype Updated = Updated(ledger: Ledger, found: bool)

  /**
   * `actualizar(id, datos)`: applies the patch to the rows with that id and reports
   * `affectedRows > 0`; an empty patch is a statement MySQL refuses.
   */
  function Actualizar(l: Ledger, id: nat, p: Patch): (r: Result<Updated>)
    ensures r.Err? <==> p.IsEmpty()
    ensures r.Err? ==> r.message == SqlSyntaxError
    ensures r.Ok? ==> (r.value.found <==> exists i | 0 <= i < |l.records| :: l.records[i].id == id)
    ensures r.Ok? ==> r.value.ledger.nextId == l.nextId && |r.value.ledger.records| == |l.records|
    ensures r.Ok? ==> forall i | 0 <= i < |l.records| ::
              && r.value.ledger.records[i].id == l.records[i].id
              && (l.records[i].id != id ==> r.value.ledger.records[i] == l.records[i])
    ensures r.Ok? && !r.value.found ==> r.value.ledger == l
  {
    if p.IsEmpty() then Err(SqlSyntaxError)
    else
      var updated := seq(|l.records|, i requires 0 <= i < |l.records| =>
        if l.records[i].id == id then ApplyPatch(l.records[i], p) else l.records[i]);
      var found := Count(l.records, (x: Record) => x.id == id) > 0;
      assert !found ==> updated == l.records;
      Ok(Updated(Ledger(updated, l.nextId), found))
  }

  /** A patch writes exactly the columns it names on the matched row and keeps the others. */
  lemma ActualizarWritesNamedColumns(l: Ledger, id: nat, p: Patch, i: nat)
    requires !p.IsEmpty() && i < |l.records| && l.records[i].id == id
    ensures var x := Actualizar(l, id, p).value.ledger.records[i];
            var before := l.records[i];
            && x.id == before.id
            && (p.employeeId.Some? ==> x.employeeId == p.employeeId.value)
            && (p.employeeId.None? ==> x.employeeId == before.employeeId)
            && (p.fecha.Some? ==> x.fecha == p.fecha.value) && (p.fecha.None? ==> x.fecha == before.fecha)
            && (p.horaEntrada.Some? ==> x.horaEntrada == p.horaEntrada.value)
            && (p.horaEntrada.None? ==> x.horaEntrada == before.horaEntrada)
            && (p.horaSalida.Some? ==> x.horaSalida == p.horaSalida.value)
            && (p.horaSalida.None? ==> x.horaSalida == before.horaSalida)
            && (p.entradaManual.Some? ==> x.entradaManual == p.entradaManual.value)
            && (p.entradaManual.None? ==> x.entradaManual == before.entradaManual)
            && (p.salidaManual.Some? ==> x.salidaManual == p.salidaManual.value)
            && (p.salidaManual.None? ==> x.salidaManual == before.salidaManual)
            && (p.permiso.Some? ==> x.permiso == p.permiso.value) && (p.permiso.None? ==> x.permiso == before.permiso)
  {
  }

  /** Applying the same patch twice is the same as applying it once. */
  lemma ActualizarIdempotent(l: Ledger, id: nat, p: Patch)
    requires !p.IsEmpty()
    ensures var once := Actualizar(l, id, p).value;
            Actualizar(once.ledger, id, p) == Ok(once)
  {
    var once := Actualizar(l, id, p).value;
    var twice := Actualizar(once.ledger, id, p).value;
    assert twice.ledger.records == once.ledger.records;
  }

  /** Updating never touches ids, so it keeps them unique. */
  lemma ActualizarKeepsWellFormed(l: Ledger, id: nat, p: Patch)
    requires WellFormed(l) && !p.IsEmpty()
    ensures WellFormed(Actualizar(l, id, p).value.ledger)
  {
  }
}
