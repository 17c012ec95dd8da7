/**
 * Clock-in / clock-out registration (`Asistencia.registrarEntrada`).
 * Per (employee, date) the ledger moves NoRecord -> Open on `entrada` and
 * Open -> Closed on `salida`; a closed day is never reopened.
 */
module Registration {
  import opened Wrappers
  import opened Ledger

  /** The `accion` field of the reply. */
  datatype Accion = YaRegistrado | Entrada | Salida | NoRegistro

  const TipoEntrada := "entrada"
  const TipoSalida := "salida"
  const EmpleadoNoEncontrado := "Empleado no encontrado con este número de identidad"

  /** The ledger a call leaves behind and the `accion` it returns (`None` when `tipo` is neither kind). */
  datatype Step = Step(ledger: Ledger, accion: Option<Accion>)

  /** A record the exit statement matches: the employee's record of that date with no exit time yet. */
  predicate OpenFor(r: Record, employeeId: nat, fecha: Date)
  {
    r.employeeId == employeeId && r.fecha == fecha && r.Open()
  }

  /** The exit statement: every record `OpenFor` the pair gets the exit time and the exit's manual flag. */
  function CloseOpenFor(rs: seq<Record>, employeeId: nat, fecha: Date, hora: Time, esManual: Option<bool>): (r: seq<Record>)
    ensures |r| == |rs|
    ensures forall i | 0 <= i < |rs| :: !OpenFor(rs[i], employeeId, fecha) ==> r[i] == rs[i]
    ensures forall i | 0 <= i < |rs| :: OpenFor(rs[i], employeeId, fecha) ==>
              r[i] == rs[i].(horaSalida := Some(hora), salidaManual := esManual)
  {
    seq(|rs|, i requires 0 <= i < |rs| =>
      if OpenFor(rs[i], employeeId, fecha) then rs[i].(horaSalida := Some(hora), salidaManual := esManual) else rs[i])
  }

  /**
   * `registrarEntrada(numeroIdentidad, tipo, hora, fecha, esManual)`, each call atomic.
   * An unknown identity throws; `entrada` inserts only when the pair has no record at all;
   * `salida` closes the pair's open records; any other `tipo` does nothing and returns nothing.
   */
  function RegistrarEntrada(l: Ledger, dir: Directory, numero: string, tipo: Option<string>,
                            hora: Time, fecha: Date, esManual: Option<bool>): (r: Result<Step>)
    ensures r.Err? <==> FindByIdentity(dir, numero).None?
    ensures r.Err? ==> r.message == EmpleadoNoEncontrado
    ensures r.Ok? && tipo != Some(TipoEntrada) && tipo != Some(TipoSalida) ==> r.value == Step(l, None)
    ensures r.Ok? && tipo == Some(TipoEntrada) ==>
              var id := FindByIdentity(dir, numero).value.id;
              if HasRecord(l.records, id, fecha) then r.value == Step(l, Some(YaRegistrado))
              else r.value.accion == Some(Entrada)
                   && r.value.ledger.nextId == l.nextId + 1
                   && r.value.ledger.records == l.records + [Record(l.nextId, id, fecha, Some(hora), None, esManual, None, None)]
    ensures r.Ok? && tipo == Some(TipoSalida) ==>
              var id := FindByIdentity(dir, numero).value.id;
              && r.value.ledger.nextId == l.nextId
              && r.value.ledger.records == CloseOpenFor(l.records, id, fecha, hora, esManual)
              && r.value.accion == Some(if exists i | 0 <= i < |l.records| :: OpenFor(l.records[i], id, fecha)
                                        then Salida else NoRegistro)
              && (r.value.accion == Some(NoRegistro) ==> r.value.ledger == l)
  {
    match FindByIdentity(dir, numero)
    case None => Err(EmpleadoNoEncontrado)
    case Some(empleado) =>
      if tipo == Some(TipoEntrada) then
        if HasRecord(l.records, empleado.id, fecha) then Ok(Step(l, Some(YaRegistrado)))
        else
          var nuevo := Record(l.nextId, empleado.id, fecha, Some(hora), None, esManual, None, None);
          Ok(Step(Ledger(l.records + [nuevo], l.nextId + 1), Some(Entrada)))
      else if tipo == Some(TipoSalida) then
        var updated := Ledger(CloseOpenFor(l.records, empleado.id, fecha, hora, esManual), l.nextId);
        var affected := Count(l.records, (x: Record) => OpenFor(x, empleado.id, fecha));
        if affected > 0 then Ok(Step(updated, Some(Salida)))
        else
          assert updated.records == l.records;
          Ok(Step(updated, Some(NoRegistro)))
      else Ok(Step(l, None))
  }

  /** A second `entrada` for the same pair is rejected and changes nothing, whatever the first call did. */
  lemma SecondEntradaRejected(l: Ledger, dir: Directory, numero: string, hora1: Time, hora2: Time,
                              fecha: Date, m1: Option<bool>, m2: Option<bool>)
    requires RegistrarEntrada(l, dir, numero, Some(TipoEntrada), hora1, fecha, m1).Ok?
    ensures var l1 := RegistrarEntrada(l, dir, numero, Some(TipoEntrada), hora1, fecha, m1).value.ledger;
            RegistrarEntrada(l1, dir, numero, Some(TipoEntrada), hora2, fecha, m2) == Ok(Step(l1, Some(YaRegistrado)))
  {
    var id := FindByIdentity(dir, numero).value.id;
    var l1 := RegistrarEntrada(l, dir, numero, Some(TipoEntrada), hora1, fecha, m1).value.ledger;
    if !HasRecord(l.records, id, fecha) {
      assert l1.records[|l.records|].employeeId == id && l1.records[|l.records|].fecha == fecha;
    }
    assert HasRecord(l1.records, id, fecha);
  }

  /** After a `salida` the pair has no open record left, other pairs' records are untouched, and entry data is kept. */
  lemma SalidaClosesPair(l: Ledger, dir: Directory, numero: string, hora: Time, fecha: Date, m: Option<bool>)
    requires RegistrarEntrada(l, dir, numero, Some(TipoSalida), hora, fecha, m).Ok?
    ensures var id := FindByIdentity(dir, numero).value.id;
            var l1 := RegistrarEntrada(l, dir, numero, Some(TipoSalida), hora, fecha, m).value.ledger;
            && |l1.records| == |l.records|
            && (forall i | 0 <= i < |l1.records| :: !OpenFor(l1.records[i], id, fecha))
            && (forall i | 0 <= i < |l.records| ::
                  l.records[i].employeeId != id || l.records[i].fecha != fecha ==> l1.records[i] == l.records[i])
            && (forall i | 0 <= i < |l.records| ::
                  && l1.records[i].id == l.records[i].id
                  && l1.records[i].employeeId == l.records[i].employeeId
                  && l1.records[i].fecha == l.records[i].fecha
                  && l1.records[i].horaEntrada == l.records[i].horaEntrada
                  && l1.records[i].entradaManual == l.records[i].entradaManual
                  && l1.records[i].permiso == l.records[i].permiso)
  {
    var id := FindByIdentity(dir, numero).value.id;
    var closed := CloseOpenFor(l.records, id, fecha, hora, m);
    if exists i | 0 <= i < |l.records| :: OpenFor(l.records[i], id, fecha) {
      assert RegistrarEntrada(l, dir, numero, Some(TipoSalida), hora, fecha, m).value.ledger.records == closed;
    }
  }

  /** A second `salida` for the same pair finds nothing open: `no_registro`, ledger unchanged. */
  lemma SecondSalidaNoRegistro(l: Ledger, dir: Directory, numero: string, hora1: Time, hora2: Time,
                               fecha: Date, m1: Option<bool>, m2: Option<bool>)
    requires RegistrarEntrada(l, dir, numero, Some(TipoSalida), hora1, fecha, m1).Ok?
    ensures var l1 := RegistrarEntrada(l, dir, numero, Some(TipoSalida), hora1, fecha, m1).value.ledger;
            RegistrarEntrada(l1, dir, numero, Some(TipoSalida), hora2, fecha, m2) == Ok(Step(l1, Some(NoRegistro)))
  {
    SalidaClosesPair(l, dir, numero, hora1, fecha, m1);
  }

  /** A closed day is never reopened: `entrada` after a successful `salida` is `ya_registrado`. */
  lemma ReEntryAfterSalidaRejected(l: Ledger, dir: Directory, numero: string, hora1: Time, hora2: Time,
                                   fecha: Date, m1: Option<bool>, m2: Option<bool>)
    requires RegistrarEntrada(l, dir, numero, Some(TipoSalida), hora1, fecha, m1).Ok?
    requires RegistrarEntrada(l, dir, numero, Some(TipoSalida), hora1, fecha, m1).value.accion == Some(Salida)
    ensures var l1 := RegistrarEntrada(l, dir, numero, Some(TipoSalida), hora1, fecha, m1).value.ledger;
            RegistrarEntrada(l1, dir, numero, Some(TipoEntrada), hora2, fecha, m2) == Ok(Step(l1, Some(YaRegistrado)))
  {
    var id := FindByIdentity(dir, numero).value.id;
    var l1 := RegistrarEntrada(l, dir, numero, Some(TipoSalida), hora1, fecha, m1).value.ledger;
    SalidaClosesPair(l, dir, numero, hora1, fecha, m1);
    var i :| 0 <= i < |l.records| && OpenFor(l.records[i], id, fecha);
    assert l1.records[i].employeeId == id && l1.records[i].fecha == fecha;
  }

  /** Registration never creates a second record for a pair: it keeps the at-most-one-per-day invariant. */
  lemma RegistrarKeepsAtMostOnePerDay(l: Ledger, dir: Directory, numero: string, tipo: Option<string>,
                                      hora: Time, fecha: Date, m: Option<bool>)
    requires AtMostOnePerDay(l.records)
    requires RegistrarEntrada(l, dir, numero, tipo, hora, fecha, m).Ok?
    ensures AtMostOnePerDay(RegistrarEntrada(l, dir, numero, tipo, hora, fecha, m).value.ledger.records)
  {
    var r := RegistrarEntrada(l, dir, numero, tipo, hora, fecha, m).value.ledger.records;
    if tipo == Some(TipoSalida) {
      SalidaClosesPair(l, dir, numero, hora, fecha, m);
    } else if tipo == Some(TipoEntrada) && r != l.records {
      var id := FindByIdentity(dir, numero).value.id;
      forall i, j | 0 <= i < j < |r| ensures r[i].employeeId != r[j].employeeId || r[i].fecha != r[j].fecha {
        if j == |l.records| {
          assert r[i] == l.records[i];
        }
      }
    }
  }

  /** Registration keeps record ids unique and below the auto-increment counter. */
  lemma RegistrarKeepsWellFormed(l: Ledger, dir: Directory, numero: string, tipo: Option<string>,
                                 hora: Time, fecha: Date, m: Option<bool>)
    requires WellFormed(l)
    requires RegistrarEntrada(l, dir, numero, tipo, hora, fecha, m).Ok?
    ensures WellFormed(RegistrarEntrada(l, dir, numero, tipo, hora, fecha, m).value.ledger)
  {
    if tipo == Some(TipoSalida) {
      SalidaClosesPair(l, dir, numero, hora, fecha, m);
    }
  }

  /** One clock event as the controller forwards it. */
  datatype Evento = Evento(numero: string, tipo: Option<string>, hora: Time, fecha: Date, esManual: Option<bool>)

  /** Applies events in order; a call that throws leaves the ledger as it was. */
  function Replay(l: Ledger, dir: Directory, eventos: seq<Evento>): Ledger
    decreases |eventos|
  {
    if |eventos| == 0 then l
    else
      var e := eventos[0];
      match RegistrarEntrada(l, dir, e.numero, e.tipo, e.hora, e.fecha, e.esManual)
      case Ok(step) => Replay(step.ledger, dir, eventos[1..])
      case Err(_) => Replay(l, dir, eventos[1..])
  }

  /** Any ledger built by registration alone, starting from a sound one, stays sound. */
  lemma {:induction false} ReplayKeepsInvariants(l: Ledger, dir: Directory, eventos: seq<Evento>)
    requires WellFormed(l) && AtMostOnePerDay(l.records)
    ensures WellFormed(Replay(l, dir, eventos)) && AtMostOnePerDay(Replay(l, dir, eventos).records)
    decreases |eventos|
  {
    if |eventos| > 0 {
      var e := eventos[0];
      var r := RegistrarEntrada(l, dir, e.numero, e.tipo, e.hora, e.fecha, e.esManual);
      if r.Ok? {
        RegistrarKeepsAtMostOnePerDay(l, dir, e.numero, e.tipo, e.hora, e.fecha, e.esManual);
        RegistrarKeepsWellFormed(l, dir, e.numero, e.tipo, e.hora, e.fecha, e.esManual);
        ReplayKeepsInvariants(r.value.ledger, dir, eventos[1..]);
      } else {
        ReplayKeepsInvariants(l, dir, eventos[1..]);
      }
    }
  }
}
