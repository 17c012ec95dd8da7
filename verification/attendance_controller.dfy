/**
 * The HTTP handlers of `controllers/asistenciaController.js`: which request
 * gets which status and body, and which ledger operation runs behind it.
 * Request fields are the JSON strings the client sent (`None` when absent or null).
 */
module AttendanceController {
  import opened Wrappers
  import opened Ledger
  import opened Text
  import Dates
  import Registration
  import ShiftClose
  import Summary
  import Queries
  import Records

  /** The JSON bodies the handlers send. */
  datatype Payload =
    | ErrorBody(error: string)
    | AccionBody(accion: Registration.Accion)
    | NoBody
    | CierreBody(success: bool, registrosActualizados: nat)
    | ResumenBody(resumen: seq<Summary.Resumen>)
    | RowsBody(rows: seq<Joined>)
    | OpenRowsBody(openRows: seq<Queries.SinSalidaRow>)
    | RowBody(row: Joined)
    | SuccessBody(success: bool)
    | CreatedBody(id: nat)

  datatype Response = Response(status: nat, payload: Payload)

  /** The ledger after a request and the response sent. */
  datatype Handled = Handled(ledger: Ledger, response: Response)

  /** JavaScript truthiness of a string field: present, not null, not empty. */
  predicate Present(v: Option<string>)
  {
    v.Some? && v.value != ""
  }

  const IdentidadRequerida := "Número de identidad es requerido"
  const FechaRequerida := "Fecha es requerida"
  const HoraRequerida := "Hora es requerida"
  const FormatoFechaInvalido := "Formato de fecha inválido. Use YYYY-MM-DD"
  const AsistenciaNoEncontrada := "Asistencia no encontrada"
  const FechaInicioPorDefecto := "1900-01-01"

  /** The body of `POST /registrar`. */
  datatype RegistroRequest = RegistroRequest(
    numeroIdentidad: Option<string>, tipo: Option<string>, hora: Option<string>,
    fecha: Option<string>, esManual: Option<bool>)

  /**
   * `registrarEntradaSalida`: identity, then date, then time must be present, else 400 with
   * that field's message and the ledger is not touched; `tipo` is never checked. A model error,
   * including an unknown identity, is a 500 carrying its message.
   */
  function RegistrarEntradaSalida(l: Ledger, dir: Directory, req: RegistroRequest): (h: Handled)
    ensures !Present(req.numeroIdentidad) ==> h == Handled(l, Response(400, ErrorBody(IdentidadRequerida)))
    ensures Present(req.numeroIdentidad) && !Present(req.fecha) ==> h == Handled(l, Response(400, ErrorBody(FechaRequerida)))
    ensures Present(req.numeroIdentidad) && Present(req.fecha) && !Present(req.hora) ==>
              h == Handled(l, Response(400, ErrorBody(HoraRequerida)))
    ensures h.response.status == 400 <==> !(Present(req.numeroIdentidad) && Present(req.fecha) && Present(req.hora))
    ensures h.response.status == 500 <==>
              Present(req.numeroIdentidad) && Present(req.fecha) && Present(req.hora)
              && FindByIdentity(dir, req.numeroIdentidad.value).None?
    ensures h.response.status == 500 ==> h.response.payload == ErrorBody(Registration.EmpleadoNoEncontrado)
    ensures h.response.status == 200 ==>
              && Present(req.numeroIdentidad) && Present(req.fecha) && Present(req.hora)
              && var r := Registration.RegistrarEntrada(l, dir, req.numeroIdentidad.value, req.tipo, req.hora.value,
                                                        req.fecha.value, req.esManual);
                 && r.Ok?
                 && h.ledger == r.value.ledger
                 && h.response.payload == (if r.value.accion.Some? then AccionBody(r.value.accion.value) else NoBody)
    ensures h.response.status in {200, 400, 500}
    ensures h.response.status != 200 ==> h.ledger == l
  {
    if !Present(req.numeroIdentidad) then Handled(l, Response(400, ErrorBody(IdentidadRequerida)))
    else if !Present(req.fecha) then Handled(l, Response(400, ErrorBody(FechaRequerida)))
    else if !Present(req.hora) then Handled(l, Response(400, ErrorBody(HoraRequerida)))
    else
      match Registration.RegistrarEntrada(l, dir, req.numeroIdentidad.value, req.tipo, req.hora.value,
                                          req.fecha.value, req.esManual)
      case Err(m) => Handled(l, Response(500, ErrorBody(m)))
      case Ok(step) =>
        Handled(step.ledger, Response(200, if step.accion.Some? then AccionBody(step.accion.value) else NoBody))
  }

  /** Entry, repeated entry, exit and repeated exit for one employee. */
  lemma RegistrationScenario()
    ensures
      var dir := [Employee(1, "123", true, "Ana", "Cajera")];
      var entrada := RegistroRequest(Some("123"), Some("entrada"), Some("08:00"), Some("2024-03-01"), Some(false));
      var salida := RegistroRequest(Some("123"), Some("salida"), Some("17:00"), Some("2024-03-01"), Some(false));
      var h1 := RegistrarEntradaSalida(Empty, dir, entrada);
      var h2 := RegistrarEntradaSalida(h1.ledger, dir, entrada);
      var h3 := RegistrarEntradaSalida(h2.ledger, dir, salida);
      var h4 := RegistrarEntradaSalida(h3.ledger, dir, salida);
      && h1.response == Response(200, AccionBody(Registration.Entrada))
      && h2.response == Response(200, AccionBody(Registration.YaRegistrado))
      && h3.response == Response(200, AccionBody(Registration.Salida))
      && h4.response == Response(200, AccionBody(Registration.NoRegistro))
  {
    var dir := [Employee(1, "123", true, "Ana", "Cajera")];
    var entrada := RegistroRequest(Some("123"), Some("entrada"), Some("08:00"), Some("2024-03-01"), Some(false));
    var salida := RegistroRequest(Some("123"), Some("salida"), Some("17:00"), Some("2024-03-01"), Some(false));
    assert FindByIdentity(dir, "123") == Some(dir[0]);
    var r1 := Registration.RegistrarEntrada(Empty, dir, "123", Some("entrada"), "08:00", "2024-03-01", Some(false));
    assert !HasRecord(Empty.records, 1, "2024-03-01");
    assert r1.value.accion == Some(Registration.Entrada);
    var l1 := r1.value.ledger;
    assert l1.records[0].employeeId == 1 && l1.records[0].fecha == "2024-03-01" && l1.records[0].Open();
    Registration.SecondEntradaRejected(Empty, dir, "123", "08:00", "08:00", "2024-03-01", Some(false), Some(false));
    var r3 := Registration.RegistrarEntrada(l1, dir, "123", Some("salida"), "17:00", "2024-03-01", Some(false));
    assert Registration.OpenFor(l1.records[0], 1, "2024-03-01");
    assert r3.value.accion == Some(Registration.Salida);
    Registration.SecondSalidaNoRegistro(l1, dir, "123", "17:00", "17:00", "2024-03-01", Some(false), Some(false));
  }

  /** `isValidDate`: the pattern, then the date library's own check (a parameter here). */
  predicate IsValidDate(s: string, parsesAsDate: string -> bool)
  {
    Dates.IsoDateShape(s) && parsesAsDate(s)
  }

  /** `obtenerResumenDiario`: 400 for a missing date (checked first) or a malformed one, else the one-row summary. */
  function ResumenDiario(l: Ledger, dir: Directory, fecha: Option<string>, parsesAsDate: string -> bool): (res: Response)
    ensures !Present(fecha) ==> res == Response(400, ErrorBody(FechaRequerida))
    ensures Present(fecha) && !Dates.IsoDateShape(fecha.value) ==> res == Response(400, ErrorBody(FormatoFechaInvalido))
    ensures Present(fecha) && !IsValidDate(fecha.value, parsesAsDate) ==> res == Response(400, ErrorBody(FormatoFechaInvalido))
    ensures res.status == 200 <==> Present(fecha) && IsValidDate(fecha.value, parsesAsDate)
    ensures res.status == 200 ==> res.payload.ResumenBody? && |res.payload.resumen| == 1
                                  && res.payload.resumen[0].fecha == fecha.value
    ensures res.status == 200 ==> res.payload == ResumenBody([Summary.ResumenDiario(l, dir, fecha.value)])
  {
    if !Present(fecha) then Response(400, ErrorBody(FechaRequerida))
    else if !IsValidDate(fecha.value, parsesAsDate) then Response(400, ErrorBody(FormatoFechaInvalido))
    else Response(200, ResumenBody([Summary.ResumenDiario(l, dir, fecha.value)]))
  }

  /** The summary endpoint refuses anything that is not exactly `YYYY-MM-DD`. */
  lemma ResumenRejectsMalformedDates(l: Ledger, dir: Directory, parsesAsDate: string -> bool)
    ensures ResumenDiario(l, dir, Some("2024-3-01"), parsesAsDate).status == 400
    ensures ResumenDiario(l, dir, Some("2024-03-01 "), parsesAsDate).status == 400
    ensures ResumenDiario(l, dir, Some("24-03-01"), parsesAsDate).status == 400
    ensures ResumenDiario(l, dir, Some(""), parsesAsDate) == Response(400, ErrorBody(FechaRequerida))
  {
    assert !Dates.AllDigits("2024-3-01"[5..7]) by { assert "2024-3-01"[5..7][1] == '-'; }
  }

  /**
   * `obtenerAsistenciasPorEmpleado`: a missing start date becomes `1900-01-01` and a missing
   * end date today (a parameter here); an unknown identity is a 500, not a 404.
   */
  function AsistenciasPorEmpleado(l: Ledger, dir: Directory, numero: string, fechaInicio: Option<string>,
                                  fechaFin: Option<string>, today: Date): (res: Response)
    ensures res.status in {200, 500}
    ensures res.status == 500 <==> FindByIdentity(dir, numero).None?
    ensures res.status == 500 ==> res.payload == ErrorBody(Queries.EmpleadoNoEncontrado)
    ensures res.status == 200 ==> res.payload.RowsBody?
    ensures res.status == 200 ==>
              var inicio := if Present(fechaInicio) then fechaInicio.value else FechaInicioPorDefecto;
              var fin := if Present(fechaFin) then fechaFin.value else today;
              res.payload.rows == Queries.PorEmpleado(l, dir, numero, inicio, fin).value
    ensures res.status == 200 ==>
              forall j | j in res.payload.rows ::
                && j.record.employeeId == FindByIdentity(dir, numero).value.id
                && StrLe(if Present(fechaInicio) then fechaInicio.value else FechaInicioPorDefecto, j.record.fecha)
                && StrLe(j.record.fecha, if Present(fechaFin) then fechaFin.value else today)
  {
    var inicio := if Present(fechaInicio) then fechaInicio.value else FechaInicioPorDefecto;
    var fin := if Present(fechaFin) then fechaFin.value else today;
    match Queries.PorEmpleado(l, dir, numero, inicio, fin)
    case Err(m) => Response(500, ErrorBody(m))
    case Ok(rows) => Response(200, RowsBody(rows))
  }

  /** The default start date is no later than any real calendar date from 1900 on. */
  lemma DefaultStartIsEarliest(d: string)
    requires Dates.IsoDateShape(d) && Dates.Year(d) >= 1900 && Dates.Month(d) >= 1 && Dates.Day(d) >= 1
    ensures StrLe(FechaInicioPorDefecto, d)
  {
    var s := FechaInicioPorDefecto;
    assert Dates.IsoDateShape(s);
    assert s[..4] == [s[0], s[1], s[2], s[3]] == "1900";
    assert s[5..7] == [s[5], s[6]] == "01";
    assert s[8..] == [s[8], s[9]] == "01";
    assert Dates.DigitsValue("0") == 0 && Dates.DigitsValue("1") == 1;
    assert Dates.DigitsValue("00") == 0 && Dates.DigitsValue("01") == 1;
    assert Dates.DigitsValue("900") == 900;
    assert Dates.DigitsValue("1900") == 1900;
    Dates.IsoDateOrder(s, d);
  }

  /** `cerrarJornada`: always `{success: true, registrosActualizados: n}` with the model's count. */
  function CerrarJornada(l: Ledger, fecha: Option<string>, horaCierre: Option<string>): (h: Handled)
    ensures h.response.status == 200 && h.response.payload.CierreBody? && h.response.payload.success
    ensures h.response.payload.registrosActualizados == |Matching(l.records, (x: Record) => ShiftClose.ClosableOn(x, fecha))|
    ensures h.ledger == ShiftClose.CerrarJornada(l, fecha, horaCierre).ledger
  {
    var c := ShiftClose.CerrarJornada(l, fecha, horaCierre);
    Handled(c.ledger, Response(200, CierreBody(true, c.affected)))
  }

  /** `actualizarAsistencia`: 404 exactly when no record has the id, 500 on a statement error. */
  function ActualizarAsistencia(l: Ledger, id: nat, patch: Records.Patch): (h: Handled)
    ensures h.response.status == 404 <==> !patch.IsEmpty() && forall i | 0 <= i < |l.records| :: l.records[i].id != id
    ensures h.response.status in {200, 404, 500}
    ensures h.response.status == 500 <==> patch.IsEmpty()
    ensures h.response.status == 200 ==> h.response.payload == SuccessBody(true)
    ensures h.response.status == 200 ==>
              Records.Actualizar(l, id, patch).Ok? && h.ledger == Records.Actualizar(l, id, patch).value.ledger
    ensures h.response.status != 200 ==> h.ledger == l
  {
    match Records.Actualizar(l, id, patch)
    case Err(m) => Handled(l, Response(500, ErrorBody(m)))
    case Ok(u) =>
      if u.found then Handled(u.ledger, Response(200, SuccessBody(true)))
      else Handled(l, Response(404, ErrorBody(AsistenciaNoEncontrada)))
  }

  /** `obtenerAsistencia`: the joined row, or 404 when there is none. */
  function ObtenerAsistencia(l: Ledger, dir: Directory, id: nat): (res: Response)
    ensures res.status == 404 <==> forall i | 0 <= i < |l.records| ::
                                     l.records[i].id != id || EmployeeById(dir, l.records[i].employeeId).None?
    ensures res.status in {200, 404}
    ensures res.status == 200 ==> res.payload.RowBody? && res.payload.row.record.id == id
    ensures res.status == 200 ==> Queries.PorId(l, dir, id) == Some(res.payload.row)
  {
    match Queries.PorId(l, dir, id)
    case None => Response(404, ErrorBody(AsistenciaNoEncontrada))
    case Some(row) => Response(200, RowBody(row))
  }

  /** `registrarAsistencia`: inserts and answers 201 with the new id. */
  function RegistrarAsistencia(l: Ledger, a: Records.NuevaAsistencia): (h: Handled)
    ensures h.response == Response(201, CreatedBody(l.nextId))
    ensures |h.ledger.records| == |l.records| + 1
    ensures h.ledger == Records.Crear(l, a).ledger
  {
    var r := Records.Crear(l, a);
    Handled(r.ledger, Response(201, CreatedBody(r.id)))
  }

  /** `obtenerAsistenciasPorFecha`: the date's rows ordered by employee name. */
  function AsistenciasPorFecha(l: Ledger, dir: Directory, fecha: Date): (res: Response)
    ensures res.status == 200 && res.payload.RowsBody?
    ensures forall j | j in res.payload.rows :: j.record.fecha == fecha
    ensures res.payload.rows == Queries.PorFecha(l, dir, fecha)
  {
    Response(200, RowsBody(Queries.PorFecha(l, dir, fecha)))
  }

  /** `obtenerRegistrosSinSalida`: the date's open records. */
  function RegistrosSinSalida(l: Ledger, dir: Directory, fecha: Date): (res: Response)
    ensures res.status == 200 && res.payload.OpenRowsBody?
    ensures |res.payload.openRows| <= |l.records|
    ensures res.payload.openRows == Queries.RegistrosSinSalida(l, dir, fecha)
  {
    Response(200, OpenRowsBody(Queries.RegistrosSinSalida(l, dir, fecha)))
  }
}
