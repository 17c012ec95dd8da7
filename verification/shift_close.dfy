/**
 * End-of-day reconciliation (`Asistencia.cerrarJornada`): every record of the
 * date that still lacks an exit time gets the closing time, and the number of
 * records the statement matched is reported.
 */
module ShiftClose {
  import opened Wrappers
  import opened Ledger
  import Registration

  /** Matched by the statement's WHERE clause; a NULL date compares unknown and matches nothing. */
  predicate ClosableOn(r: Record, fecha: Option<Date>)
  {
    fecha.Some? && r.fecha == fecha.value && r.Open()
  }

  /** The ledger after the update and the number of rows it matched. */
  datatype Closing = Closing(ledger: Ledger, affected: nat)

  /**
   * Sets the exit time of every open record of `fecha` to `horaCierre` (which the
   * request may omit, binding NULL). Manual flags, entry data and every other record
   * stay as they were; the count is the number of rows the WHERE clause matched.
   */
  function CerrarJornada(l: Ledger, fecha: Option<Date>, horaCierre: Option<Time>): (c: Closing)
    ensures c.ledger.nextId == l.nextId
    ensures |c.ledger.records| == |l.records|
    ensures c.affected == |Matching(l.records, (x: Record) => ClosableOn(x, fecha))|
    ensures forall i | 0 <= i < |l.records| ::
              c.ledger.records[i] == if ClosableOn(l.records[i], fecha) then l.records[i].(horaSalida := horaCierre)
                                     else l.records[i]
  {
    var p := (x: Record) => ClosableOn(x, fecha);
    CountIsMatchingRows(l.records, p);
    var updated := seq(|l.records|, i requires 0 <= i < |l.records| =>
      if p(l.records[i]) then l.records[i].(horaSalida := horaCierre) else l.records[i]);
    Closing(Ledger(updated, l.nextId), Count(l.records, p))
  }

  /** With a closing time, no record of that date is left open. */
  lemma CerrarJornadaClosesDate(l: Ledger, fecha: Date, hora: Time)
    ensures var l1 := CerrarJornada(l, Some(fecha), Some(hora)).ledger;
            forall i | 0 <= i < |l1.records| :: l1.records[i].fecha == fecha ==> !l1.records[i].Open()
  {
  }

  /** With a closing time, an immediate second call matches nothing and changes nothing. */
  lemma CerrarJornadaIdempotent(l: Ledger, fecha: Option<Date>, hora: Time)
    ensures var first := CerrarJornada(l, fecha, Some(hora));
            CerrarJornada(first.ledger, fecha, Some(hora)) == Closing(first.ledger, 0)
  {
    var first := CerrarJornada(l, fecha, Some(hora));
    var second := CerrarJornada(first.ledger, fecha, Some(hora));
    var p := (x: Record) => ClosableOn(x, fecha);
    assert Matching(first.ledger.records, p) == {};
    assert second.ledger.records == first.ledger.records;
  }

  /**
   * Without a closing time the matched rows get a NULL exit, i.e. stay open: the
   * call changes nothing and every repeat reports the same count again.
   */
  lemma CerrarJornadaWithoutHoraRepeats(l: Ledger, fecha: Option<Date>)
    ensures CerrarJornada(l, fecha, None).ledger == l
    ensures CerrarJornada(CerrarJornada(l, fecha, None).ledger, fecha, None).affected
            == CerrarJornada(l, fecha, None).affected
  {
    assert CerrarJornada(l, fecha, None).ledger.records == l.records;
  }

  /** A request without a date closes nothing. */
  lemma CerrarJornadaWithoutFecha(l: Ledger, hora: Option<Time>)
    ensures CerrarJornada(l, None, hora) == Closing(l, 0)
  {
    var p := (x: Record) => ClosableOn(x, None);
    assert Matching(l.records, p) == {};
    assert CerrarJornada(l, None, hora).ledger.records == l.records;
  }

  /** The bulk close keeps ids and the one-record-per-day invariant. */
  lemma CerrarJornadaKeepsInvariants(l: Ledger, fecha: Option<Date>, hora: Option<Time>)
    requires WellFormed(l) && AtMostOnePerDay(l.records)
    ensures WellFormed(CerrarJornada(l, fecha, hora).ledger)
    ensures AtMostOnePerDay(CerrarJornada(l, fecha, hora).ledger.records)
  {
  }

  /** After closing a date, an exit event for anyone on that date finds nothing open. */
  lemma SalidaAfterCerrarJornada(l: Ledger, dir: Directory, numero: string, fecha: Date, cierre: Time,
                                 hora: Time, m: Option<bool>)
    requires FindByIdentity(dir, numero).Some?
    ensures var l1 := CerrarJornada(l, Some(fecha), Some(cierre)).ledger;
            Registration.RegistrarEntrada(l1, dir, numero, Some(Registration.TipoSalida), hora, fecha, m)
              == Ok(Registration.Step(l1, Some(Registration.NoRegistro)))
  {
    CerrarJornadaClosesDate(l, fecha, cierre);
  }
}
