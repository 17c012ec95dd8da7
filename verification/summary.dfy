/**
 * The daily summary (`Asistencia.obtenerResumenDiario`): integer aggregation
 * over the directory and the ledger for one date.
 */
module Summary {
  import opened Wrappers
  import opened Ledger
  import Registration
  import ShiftClose

  /** One summary row, field for field as the reply carries it. */
  datatype Resumen = Resumen(
    fecha: Date,
    totalEmpleados: nat,
    asistieron: nat,
    faltaron: int,
    porcentajeAsistencia: int,
    porcentajeFaltas: int,
    conPermiso: nat,
    empleadosActivos: nat)

  /** The number of active employees, whatever the date. */
  function ActiveCount(dir: Directory): (n: nat)
    ensures n <= |dir|
  {
    if |dir| == 0 then 0
    else (if dir[0].activo then 1 else 0) + ActiveCount(dir[1..])
  }

  /** The ids of the active employees. */
  ghost function ActiveIds(dir: Directory): set<nat>
  {
    set e | e in dir && e.activo :: e.id
  }

  /** The distinct employees with an entry time on `fecha`. */
  function Attended(rs: seq<Record>, fecha: Date): set<nat>
  {
    set r | r in rs && r.fecha == fecha && r.horaEntrada.Some? :: r.employeeId
  }

  /** Employees with an entry and no exit on `fecha`: still on shift. */
  function OnShift(rs: seq<Record>, fecha: Date): set<nat>
  {
    set r | r in rs && r.fecha == fecha && r.horaEntrada.Some? && r.Open() :: r.employeeId
  }

  /**
   * `Math.round(part / whole * 100)` computed exactly: the integer nearest to
   * 100·part/whole, halves rounded up; 0 when there is nobody to divide by.
   */
  function RoundedPercent(part: nat, whole: nat): (p: int)
    ensures whole > 0 ==> 2 * whole * p <= 200 * part + whole < 2 * whole * p + 2 * whole
    ensures whole == 0 ==> p == 0
  {
    if whole > 0 then (200 * part + whole) / (2 * whole) else 0
  }

  /** The arithmetic of the summary from the three counts the queries return. */
  function FromCounts(fecha: Date, total: nat, asistieron: nat, activos: nat): (s: Resumen)
    ensures s.fecha == fecha && s.totalEmpleados == total && s.asistieron == asistieron && s.empleadosActivos == activos
    ensures s.porcentajeAsistencia == RoundedPercent(asistieron, total)
    ensures s.porcentajeAsistencia + s.porcentajeFaltas == 100
    ensures s.faltaron + s.asistieron == s.totalEmpleados
    ensures s.conPermiso == 0
    ensures total == 0 ==> s.porcentajeAsistencia == 0 && s.porcentajeFaltas == 100
    ensures asistieron <= total ==> 0 <= s.faltaron && 0 <= s.porcentajeAsistencia <= 100
  {
    var pct := RoundedPercent(asistieron, total);
    assert asistieron <= total && total > 0 ==> pct <= 100 by {
      if asistieron <= total && total > 0 {
        PercentAtMostHundred(asistieron, total);
      }
    }
    Resumen(fecha, total, asistieron, total - asistieron, pct, 100 - pct, 0, activos)
  }

  /** A share of at most the whole rounds to at most 100. */
  lemma PercentAtMostHundred(part: nat, whole: nat)
    requires 0 < whole && part <= whole
    ensures RoundedPercent(part, whole) <= 100
  {
    var p := RoundedPercent(part, whole);
    if p > 100 {
      MulMonotone(101, p, 2 * whole);
      assert false;
    }
  }

  lemma MulMonotone(a: int, b: int, c: nat)
    requires a <= b
    ensures a * c <= b * c
  {
  }

  lemma SubsetCard(a: set<nat>, b: set<nat>)
    requires a <= b
    ensures |a| <= |b|
  {
    assert b == a + (b - a);
  }

  /** `obtenerResumenDiario(fecha)`: the one-row summary for a date. */
  function ResumenDiario(l: Ledger, dir: Directory, fecha: Date): (s: Resumen)
    ensures s.fecha == fecha
    ensures s.totalEmpleados == ActiveCount(dir)
    ensures s.asistieron == |Attended(l.records, fecha)|
    ensures s.empleadosActivos == |OnShift(l.records, fecha)|
    ensures s.empleadosActivos <= s.asistieron
    ensures s.faltaron == s.totalEmpleados - s.asistieron
    ensures s.porcentajeAsistencia + s.porcentajeFaltas == 100
    ensures s.conPermiso == 0
    ensures s.totalEmpleados > 0 ==>
              2 * s.totalEmpleados * s.porcentajeAsistencia <= 200 * s.asistieron + s.totalEmpleados
                < 2 * s.totalEmpleados * s.porcentajeAsistencia + 2 * s.totalEmpleados
    ensures s.totalEmpleados == 0 ==> s.porcentajeAsistencia == 0
  {
    SubsetCard(OnShift(l.records, fecha), Attended(l.records, fecha));
    FromCounts(fecha, ActiveCount(dir), |Attended(l.records, fecha)|, |OnShift(l.records, fecha)|)
  }

  /** With ids as primary key, the active-row count is the number of distinct active employees. */
  lemma {:induction false} ActiveCountIsActiveIds(dir: Directory)
    requires UniqueEmployeeIds(dir)
    ensures ActiveCount(dir) == |ActiveIds(dir)|
    decreases |dir|
  {
    if |dir| > 0 {
      var tail := dir[1..];
      assert UniqueEmployeeIds(tail) by {
        forall i, j | 0 <= i < j < |tail| ensures tail[i].id != tail[j].id {
          assert tail[i] == dir[i + 1] && tail[j] == dir[j + 1];
        }
      }
      ActiveCountIsActiveIds(tail);
      assert dir == [dir[0]] + tail;
      assert dir[0].id !in ActiveIds(tail);
      if dir[0].activo {
        assert ActiveIds(dir) == ActiveIds(tail) + {dir[0].id};
      } else {
        assert ActiveIds(dir) == ActiveIds(tail);
      }
    }
  }

  /**
   * When everybody who clocked in on the date is an active employee, nobody is
   * counted absent negatively and both percentages lie between 0 and 100.
   */
  lemma AttendanceWithinBounds(l: Ledger, dir: Directory, fecha: Date)
    requires UniqueEmployeeIds(dir)
    requires Attended(l.records, fecha) <= ActiveIds(dir)
    ensures var s := ResumenDiario(l, dir, fecha);
            && s.asistieron <= s.totalEmpleados
            && 0 <= s.faltaron
            && 0 <= s.porcentajeAsistencia <= 100
            && 0 <= s.porcentajeFaltas <= 100
  {
    ActiveCountIsActiveIds(dir);
    SubsetCard(Attended(l.records, fecha), ActiveIds(dir));
  }

  /** Rows of `fecha` with an entry time. */
  predicate EnteredOn(r: Record, fecha: Date)
  {
    r.fecha == fecha && r.horaEntrada.Some?
  }

  /** Appending one row adds its employee to the attendees exactly when it has an entry on `fecha`. */
  lemma AttendedSnoc(init: seq<Record>, x: Record, fecha: Date)
    ensures Attended(init + [x], fecha) == Attended(init, fecha) + (if EnteredOn(x, fecha) then {x.employeeId} else {})
  {
    assert forall r :: r in init + [x] <==> r in init || r == x;
  }

  /** With one record per employee and day, distinct attendees equal the records with an entry. */
  lemma {:induction false} AttendedCountsRecords(rs: seq<Record>, fecha: Date)
    requires AtMostOnePerDay(rs)
    ensures |Attended(rs, fecha)| == Count(rs, (r: Record) => EnteredOn(r, fecha))
    decreases |rs|
  {
    if |rs| > 0 {
      var n := |rs| - 1;
      var init := rs[..n];
      var last := rs[n];
      assert AtMostOnePerDay(init);
      AttendedCountsRecords(init, fecha);
      assert rs == init + [last];
      AttendedSnoc(init, last, fecha);
      assert EnteredOn(last, fecha) ==> last.employeeId !in Attended(init, fecha);
    }
  }

  /** A new `entrada` adds its employee to both the attendees and the on-shift set of that date. */
  lemma EntradaAddsAttendee(l: Ledger, dir: Directory, numero: string, hora: Time, fecha: Date, m: Option<bool>)
    requires Registration.RegistrarEntrada(l, dir, numero, Some(Registration.TipoEntrada), hora, fecha, m).Ok?
    requires Registration.RegistrarEntrada(l, dir, numero, Some(Registration.TipoEntrada), hora, fecha, m).value.accion
             == Some(Registration.Entrada)
    ensures var id := FindByIdentity(dir, numero).value.id;
            var l1 := Registration.RegistrarEntrada(l, dir, numero, Some(Registration.TipoEntrada), hora, fecha, m).value.ledger;
            && id !in Attended(l.records, fecha)
            && Attended(l1.records, fecha) == Attended(l.records, fecha) + {id}
            && OnShift(l1.records, fecha) == OnShift(l.records, fecha) + {id}
            && ResumenDiario(l1, dir, fecha).asistieron == ResumenDiario(l, dir, fecha).asistieron + 1
  {
    var id := FindByIdentity(dir, numero).value.id;
    var l1 := Registration.RegistrarEntrada(l, dir, numero, Some(Registration.TipoEntrada), hora, fecha, m).value.ledger;
    assert !HasRecord(l.records, id, fecha);
    assert id !in Attended(l.records, fecha);
    var nuevo := l1.records[|l.records|];
    assert l1.records == l.records + [nuevo];
    assert Attended(l1.records, fecha) == Attended(l.records, fecha) + {id};
    assert OnShift(l1.records, fecha) == OnShift(l.records, fecha) + {id};
  }

  /** A `salida` keeps the attendees and takes its employee off shift for that date. */
  lemma SalidaLeavesShift(l: Ledger, dir: Directory, numero: string, hora: Time, fecha: Date, m: Option<bool>)
    requires Registration.RegistrarEntrada(l, dir, numero, Some(Registration.TipoSalida), hora, fecha, m).Ok?
    ensures var id := FindByIdentity(dir, numero).value.id;
            var l1 := Registration.RegistrarEntrada(l, dir, numero, Some(Registration.TipoSalida), hora, fecha, m).value.ledger;
            && Attended(l1.records, fecha) == Attended(l.records, fecha)
            && OnShift(l1.records, fecha) == OnShift(l.records, fecha) - {id}
  {
    var id := FindByIdentity(dir, numero).value.id;
    var l1 := Registration.RegistrarEntrada(l, dir, numero, Some(Registration.TipoSalida), hora, fecha, m).value.ledger;
    Registration.SalidaClosesPair(l, dir, numero, hora, fecha, m);
    forall x | x in Attended(l.records, fecha) ensures x in Attended(l1.records, fecha) {
      var r :| r in l.records && r.fecha == fecha && r.horaEntrada.Some? && r.employeeId == x;
      var k :| 0 <= k < |l.records| && l.records[k] == r;
      assert l1.records[k] in l1.records;
    }
    forall x | x in Attended(l1.records, fecha) ensures x in Attended(l.records, fecha) {
      var r :| r in l1.records && r.fecha == fecha && r.horaEntrada.Some? && r.employeeId == x;
      var k :| 0 <= k < |l1.records| && l1.records[k] == r;
      assert l.records[k] in l.records;
    }
    forall x | x in OnShift(l.records, fecha) - {id} ensures x in OnShift(l1.records, fecha) {
      var r :| r in l.records && r.fecha == fecha && r.horaEntrada.Some? && r.Open() && r.employeeId == x;
      var k :| 0 <= k < |l.records| && l.records[k] == r;
      assert l1.records[k] == r;
    }
    forall x | x in OnShift(l1.records, fecha) ensures x in OnShift(l.records, fecha) - {id} {
      var r :| r in l1.records && r.fecha == fecha && r.horaEntrada.Some? && r.Open() && r.employeeId == x;
      var k :| 0 <= k < |l1.records| && l1.records[k] == r;
      assert !Registration.OpenFor(l1.records[k], id, fecha);
      assert l.records[k] == r;
    }
  }

  /** Closing a date leaves nobody on shift and keeps the attendees. */
  lemma CerrarJornadaEmptiesShift(l: Ledger, dir: Directory, fecha: Date, hora: Time)
    ensures var l1 := ShiftClose.CerrarJornada(l, Some(fecha), Some(hora)).ledger;
            && Attended(l1.records, fecha) == Attended(l.records, fecha)
            && ResumenDiario(l1, dir, fecha).empleadosActivos == 0
  {
    var l1 := ShiftClose.CerrarJornada(l, Some(fecha), Some(hora)).ledger;
    forall x | x in Attended(l.records, fecha) ensures x in Attended(l1.records, fecha) {
      var r :| r in l.records && r.fecha == fecha && r.horaEntrada.Some? && r.employeeId == x;
      var k :| 0 <= k < |l.records| && l.records[k] == r;
      assert l1.records[k] in l1.records;
    }
    forall x | x in Attended(l1.records, fecha) ensures x in Attended(l.records, fecha) {
      var r :| r in l1.records && r.fecha == fecha && r.horaEntrada.Some? && r.employeeId == x;
      var k :| 0 <= k < |l1.records| && l1.records[k] == r;
      assert l.records[k] in l.records;
    }
    assert OnShift(l1.records, fecha) == {};
  }

  /** Ten active employees, seven clocked in, two still on shift. */
  lemma DailyScenario()
    ensures FromCounts("2024-03-01", 10, 7, 2) == Resumen("2024-03-01", 10, 7, 3, 70, 30, 0, 2)
  {
  }

  /** Exact halves round up: for 57 of 200 the exact rule gives 29, where the program's floating-point rounding gives 28. */
  lemma RoundsHalfUp()
    ensures RoundedPercent(57, 200) == 29
    ensures RoundedPercent(1, 3) == 33
    ensures RoundedPercent(2, 3) == 67
  {
  }
}
