/**
 * The attendance ledger (`asistencias` table) and the employee directory it
 * reads (`empleados` table, seen through the columns the attendance code uses).
 * The database is replaced by an immutable sequence of records; every
 * operation is a pure function from the old ledger to the new one.
 */
module Ledger {
  import opened Wrappers

  /** Calendar dates and times of day travel as the text the client sent (`YYYY-MM-DD`, `HH:MM`). */
  type Date = string
  type Time = string

  /** One row of `asistencias`. NULL columns are `None`. */
  datatype Record = Record(
    id: nat,
    employeeId: nat,
    fecha: Date,
    horaEntrada: Option<Time>,
    horaSalida: Option<Time>,
    entradaManual: Option<bool>,
    salidaManual: Option<bool>,
    permiso: Option<string>)
  {
    /** The employee is still on shift: no exit time recorded. */
    predicate Open() { horaSalida.None? }
  }

  /** The columns of `empleados` the attendance code reads; `activo` is the `'SI'`/`'NO'` flag. */
  datatype Employee = Employee(id: nat, numeroIdentidad: string, activo: bool, nombre: string, puesto: string)

  type Directory = seq<Employee>

  /** The ledger: its rows in retrieval order and the next auto-increment id. */
  datatype Ledger = Ledger(records: seq<Record>, nextId: nat)

  const Empty := Ledger([], 1)

  /** Ids are the primary key: distinct and all below the auto-increment counter. */
  ghost predicate WellFormed(l: Ledger)
  {
    && (forall i | 0 <= i < |l.records| :: l.records[i].id < l.nextId)
    && (forall i, j | 0 <= i < j < |l.records| :: l.records[i].id != l.records[j].id)
  }

  /** At most one record per (employee, date) pair. */
  ghost predicate AtMostOnePerDay(records: seq<Record>)
  {
    forall i, j | 0 <= i < j < |records| ::
      records[i].employeeId != records[j].employeeId || records[i].fecha != records[j].fecha
  }

  /** Directory ids are the primary key of `empleados`. */
  ghost predicate UniqueEmployeeIds(dir: Directory)
  {
    forall i, j | 0 <= i < j < |dir| :: dir[i].id != dir[j].id
  }

  /**
   * The identity lookup that precedes every registration: the first employee
   * carrying that identity number, if any.
   */
  function FindByIdentity(dir: Directory, numero: string): (r: Option<Employee>)
    ensures r.None? <==> forall i | 0 <= i < |dir| :: dir[i].numeroIdentidad != numero
    ensures r.Some? ==> exists i | 0 <= i < |dir| :: dir[i] == r.value
                          && dir[i].numeroIdentidad == numero
                          && forall j | 0 <= j < i :: dir[j].numeroIdentidad != numero
  {
    if |dir| == 0 then None
    else if dir[0].numeroIdentidad == numero then Some(dir[0])
    else
      var r := FindByIdentity(dir[1..], numero);
      assert r.Some? ==> exists i | 1 <= i < |dir| :: dir[i] == r.value
                          && dir[i].numeroIdentidad == numero
                          && forall j | 0 <= j < i :: dir[j].numeroIdentidad != numero
      by {
        if r.Some? {
          var k :| 0 <= k < |dir[1..]| && dir[1..][k] == r.value && dir[1..][k].numeroIdentidad == numero
                   && forall j | 0 <= j < k :: dir[1..][j].numeroIdentidad != numero;
          assert dir[k + 1] == r.value;
        }
      }
      r
  }

  /** The employee a record's `empleado_id` refers to, if any: one side of the inner join. */
  function EmployeeById(dir: Directory, id: nat): (r: Option<Employee>)
    ensures r.None? <==> forall i | 0 <= i < |dir| :: dir[i].id != id
    ensures r.Some? ==> r.value in dir && r.value.id == id
  {
    if |dir| == 0 then None
    else if dir[0].id == id then Some(dir[0])
    else EmployeeById(dir[1..], id)
  }

  /** With a primary key, the employee found by identity is the one the join finds by id. */
  lemma {:induction false} JoinFindsIdentified(dir: Directory, numero: string)
    requires UniqueEmployeeIds(dir)
    requires FindByIdentity(dir, numero).Some?
    ensures EmployeeById(dir, FindByIdentity(dir, numero).value.id) == FindByIdentity(dir, numero)
  {
    if dir[0].numeroIdentidad != numero {
      assert UniqueEmployeeIds(dir[1..]) by {
        forall i, j | 0 <= i < j < |dir[1..]| ensures dir[1..][i].id != dir[1..][j].id {
          assert dir[1..][i] == dir[i + 1] && dir[1..][j] == dir[j + 1];
        }
      }
      JoinFindsIdentified(dir[1..], numero);
    }
  }

  /** A ledger row joined with its employee. */
  datatype Joined = Joined(record: Record, empleado: Employee)

  /**
   * The inner join of records with employees, filtered by `p`:
   * the rows satisfying `p` whose employee exists, in ledger order.
   */
  function JoinWhere(rs: seq<Record>, dir: Directory, p: Record -> bool): (r: seq<Joined>)
    ensures |r| == Count(rs, (x: Record) => p(x) && EmployeeById(dir, x.employeeId).Some?)
    ensures forall k | 0 <= k < |r| :: r[k].record in rs && p(r[k].record)
                                      && EmployeeById(dir, r[k].record.employeeId) == Some(r[k].empleado)
    ensures forall i | 0 <= i < |rs| && p(rs[i]) && EmployeeById(dir, rs[i].employeeId).Some? ::
              Joined(rs[i], EmployeeById(dir, rs[i].employeeId).value) in r
  {
    if |rs| == 0 then []
    else
      var n := |rs| - 1;
      var init := JoinWhere(rs[..n], dir, p);
      JoinCountStep(rs, dir, p, init);
      JoinSoundStep(rs, dir, p, init);
      JoinCompleteStep(rs, rs[..n], dir, p, init);
      JoinLast(rs, dir, p, init)
  }

  /** The row appended to the join when the last ledger row qualifies. */
  function JoinLast(rs: seq<Record>, dir: Directory, p: Record -> bool, init: seq<Joined>): seq<Joined>
    requires |rs| > 0
  {
    var e := EmployeeById(dir, rs[|rs| - 1].employeeId);
    if p(rs[|rs| - 1]) && e.Some? then init + [Joined(rs[|rs| - 1], e.value)] else init
  }

  /** Extending the ledger by one row extends the join's length by one exactly when the row qualifies. */
  lemma JoinCountStep(rs: seq<Record>, dir: Directory, p: Record -> bool, init: seq<Joined>)
    requires |rs| > 0
    requires |init| == Count(rs[..|rs| - 1], (x: Record) => p(x) && EmployeeById(dir, x.employeeId).Some?)
    ensures |JoinLast(rs, dir, p, init)| == Count(rs, (x: Record) => p(x) && EmployeeById(dir, x.employeeId).Some?)
  {
  }

  /** Every joined row of the extended join comes from a qualifying ledger row. */
  lemma JoinSoundStep(rs: seq<Record>, dir: Directory, p: Record -> bool, init: seq<Joined>)
    requires |rs| > 0
    requires forall k | 0 <= k < |init| :: init[k].record in rs[..|rs| - 1] && p(init[k].record)
                                           && EmployeeById(dir, init[k].record.employeeId) == Some(init[k].empleado)
    ensures var r := JoinLast(rs, dir, p, init);
            forall k | 0 <= k < |r| :: r[k].record in rs && p(r[k].record)
                                       && EmployeeById(dir, r[k].record.employeeId) == Some(r[k].empleado)
  {
    var n := |rs| - 1;
    var r := JoinLast(rs, dir, p, init);
    assert rs == rs[..n] + [rs[n]];
    forall k | 0 <= k < |r|
      ensures r[k].record in rs && p(r[k].record) && EmployeeById(dir, r[k].record.employeeId) == Some(r[k].empleado)
    {
      if k < |init| {
        assert r[k] == init[k];
      }
    }
  }

  /** Every qualifying ledger row appears in the extended join. */
  lemma JoinCompleteStep(rs: seq<Record>, pre: seq<Record>, dir: Directory, p: Record -> bool, init: seq<Joined>)
    requires |rs| > 0 && pre == rs[..|rs| - 1]
    requires forall i | 0 <= i < |pre| && p(pre[i]) && EmployeeById(dir, pre[i].employeeId).Some? ::
               Joined(pre[i], EmployeeById(dir, pre[i].employeeId).value) in init
    ensures var r := JoinLast(rs, dir, p, init);
            forall i | 0 <= i < |rs| && p(rs[i]) && EmployeeById(dir, rs[i].employeeId).Some? ::
              Joined(rs[i], EmployeeById(dir, rs[i].employeeId).value) in r
  {
    var n := |rs| - 1;
    var r := JoinLast(rs, dir, p, init);
    forall i | 0 <= i < |rs| && p(rs[i]) && EmployeeById(dir, rs[i].employeeId).Some?
      ensures Joined(rs[i], EmployeeById(dir, rs[i].employeeId).value) in r
    {
      var j := Joined(rs[i], EmployeeById(dir, rs[i].employeeId).value);
      if i < n {
        assert pre[i] == rs[i];
        assert j in init;
        var k :| 0 <= k < |init| && init[k] == j;
        assert r[k] == j;
      } else {
        assert r[|r| - 1] == j;
      }
    }
  }

  /** Number of rows satisfying `p`: the affected-row count of an update filtered by `p`. */
  function Count(rs: seq<Record>, p: Record -> bool): (n: nat)
    ensures n <= |rs|
    ensures n == 0 <==> forall i | 0 <= i < |rs| :: !p(rs[i])
  {
    if |rs| == 0 then 0
    else
      assert forall i | 0 <= i < |rs| - 1 :: rs[i] == rs[..|rs| - 1][i];
      Count(rs[..|rs| - 1], p) + (if p(rs[|rs| - 1]) then 1 else 0)
  }

  /** Counting depends only on which rows the predicate accepts. */
  lemma {:induction false} CountSamePredicate(rs: seq<Record>, p: Record -> bool, q: Record -> bool)
    requires forall i | 0 <= i < |rs| :: p(rs[i]) == q(rs[i])
    ensures Count(rs, p) == Count(rs, q)
    decreases |rs|
  {
    if |rs| > 0 {
      var n := |rs| - 1;
      assert forall i | 0 <= i < n :: rs[..n][i] == rs[i];
      CountSamePredicate(rs[..n], p, q);
    }
  }

  /** The positions of the rows satisfying `p`. */
  ghost function Matching(rs: seq<Record>, p: Record -> bool): set<nat>
  {
    set i: nat | i < |rs| && p(rs[i])
  }

  /** `Count` is the number of matching rows. */
  lemma {:induction false} CountIsMatchingRows(rs: seq<Record>, p: Record -> bool)
    ensures Count(rs, p) == |Matching(rs, p)|
    decreases |rs|
  {
    if |rs| > 0 {
      var n := |rs| - 1;
      var init := rs[..n];
      CountIsMatchingRows(init, p);
      if p(rs[n]) {
        assert Matching(rs, p) == Matching(init, p) + {n};
      } else {
        assert Matching(rs, p) == Matching(init, p);
      }
    }
  }

  /** The ledger has some record, open or closed, for the pair. */
  predicate HasRecord(rs: seq<Record>, employeeId: nat, fecha: Date)
  {
    exists i | 0 <= i < |rs| :: rs[i].employeeId == employeeId && rs[i].fecha == fecha
  }
}
