/**
 * The employee handlers of `controllers/empleadoController.js`: required-field
 * and `activo` validation, `fecha_egreso` normalisation, the insert, the update
 * that keeps the old fingerprint and photo when no new one is given, and the
 * status codes. The `empleados` table is a map from id to row; a database
 * failure is an input (its MySQL error code and message), since it comes from outside.
 */
module EmployeeController {
  import opened Wrappers

  /** A JSON request value as JavaScript sees it. */
  datatype JsValue = Undefined | Null | Bool(b: bool) | Num(n: int) | Str(s: string)

  /** JavaScript truthiness: `undefined`, `null`, `false`, `0` and `""` are falsy. */
  predicate Truthy(v: JsValue)
  {
    match v
    case Undefined => false
    case Null => false
    case Bool(b) => b
    case Num(n) => n != 0
    case Str(s) => s != ""
  }

  /**
   * The names the handlers read from the body, which are also the `empleados`
   * columns they write; `Huella` is the create body's name for `ruta_huella`.
   */
  datatype Campo =
    | Nombre | Puesto | TipoContrato | SueldoBase | Activo | FechaContratacion | NumeroIdentidad
    | Huella | RutaHuella | RutaFotografia | Telefono | Domicilio | EstadoCivil | Sexo | FechaEgreso
    | NivelEducativo | NombreEmergencia | TelefonoEmergencia | LugarNacimiento | FechaNacimiento
    | TipoContratoEmpleo | Beneficiarios | Nacionalidad

  /** A request body; a missing key reads as `undefined`. */
  type Body = map<Campo, JsValue>

  function Field(body: Body, key: Campo): JsValue
  {
    if key in body then body[key] else Undefined
  }

  /** A stored row: column to value, SQL NULL as `Null`. */
  type Row = map<Campo, JsValue>

  datatype Table = Table(rows: map<nat, Row>, nextId: nat)

  /** The auto-increment counter lies above every stored id, so an insert never lands on an existing row. */
  predicate IdsBelowCounter(t: Table)
  {
    forall k | k in t.rows :: k < t.nextId
  }

  /** A failed statement: the MySQL error code the handlers branch on and the message some of them send. */
  datatype DbError = DbError(code: string, message: string)

  /** The seventeen fields `crearEmpleado` requires: all but `activo`, the files, `fecha_egreso` and `beneficiarios`. */
  predicate RequiredOnCreate(c: Campo)
  {
    !(c.Activo? || c.Huella? || c.RutaHuella? || c.RutaFotografia? || c.FechaEgreso? || c.Beneficiarios?)
  }

  /** The six fields `actualizarEmpleado` requires. */
  predicate RequiredOnUpdate(c: Campo)
  {
    c.Nombre? || c.Puesto? || c.TipoContrato? || c.SueldoBase? || c.FechaContratacion? || c.NumeroIdentidad?
  }

  /** The columns both the insert and the update write: every name except the create body's `huella`. */
  predicate IsColumna(c: Campo)
  {
    !c.Huella?
  }

  const TruncatedWrongValue := "ER_TRUNCATED_WRONG_VALUE_FOR_FIELD"
  const FaltanObligatorios := "Faltan campos obligatorios"
  const FaltanRequeridos := "Faltan campos requeridos"
  const ActivoInvalido := "El campo activo debe ser \"SI\" o \"NO\""
  const ActivoEnumInvalido := "Valor inválido para el campo activo. Debe ser \"SI\" o \"NO\""
  const ErrorCrear := "Error al crear el empleado"
  const ErrorActualizar := "Error al actualizar el empleado"
  const EmpleadoCreado := "Empleado creado exitosamente"
  const EmpleadoActualizado := "Empleado actualizado exitosamente"
  const EmpleadoEliminado := "Empleado eliminado"
  const EmpleadoNoEncontrado := "Empleado no encontrado"

  /** Every field `crearEmpleado` requires is truthy. */
  predicate CreateFieldsPresent(body: Body)
  {
    forall c: Campo | RequiredOnCreate(c) :: Truthy(Field(body, c))
  }

  /** Every field `actualizarEmpleado` requires is truthy. */
  predicate UpdateFieldsPresent(body: Body)
  {
    forall c: Campo | RequiredOnUpdate(c) :: Truthy(Field(body, c))
  }

  predicate ActivoValido(v: JsValue)
  {
    v == Str("SI") || v == Str("NO")
  }

  /** The exit date is stored as NULL when it is falsy or the literal text `null`, and as sent otherwise. */
  function NormalizeFechaEgreso(v: JsValue): (r: JsValue)
    ensures r == Null || (r == v && Truthy(v) && v != Str("null"))
    ensures r == Null <==> !Truthy(v) || v == Str("null")
  {
    if v == Str("null") || !Truthy(v) then Null else v
  }

  /** A falsy value falls back to NULL. */
  function OrNull(v: JsValue): (r: JsValue)
    ensures Truthy(v) ==> r == v
    ensures !Truthy(v) ==> r == Null
  {
    if Truthy(v) then v else Null
  }

  /** A bound statement parameter: `undefined` is sent as NULL. */
  function Bind(v: JsValue): (r: JsValue)
    ensures r != Undefined
    ensures v != Undefined ==> r == v
  {
    if v.Undefined? then Null else v
  }

  /** SQL `IFNULL`: the new value unless it is NULL, then the stored one. */
  function IfNull(v: JsValue, current: JsValue): (r: JsValue)
    ensures v == Null ==> r == current
    ensures v != Null ==> r == v
  {
    if v == Null then current else v
  }

  /** The uploaded photo's file name, or null without an upload. */
  function Foto(file: Option<string>): JsValue
  {
    if file.Some? then Str(file.value) else Null
  }

  /** The value the insert binds for column `col`. */
  function InsertValue(body: Body, file: Option<string>, col: Campo): JsValue
  {
    match col
    case RutaHuella => OrNull(Field(body, Huella))
    case RutaFotografia => OrNull(Foto(file))
    case FechaEgreso => NormalizeFechaEgreso(Field(body, FechaEgreso))
    case Beneficiarios => OrNull(Field(body, Beneficiarios))
    case _ => Bind(Field(body, col))
  }

  function NewRow(body: Body, file: Option<string>): (row: Row)
    ensures forall c: Campo :: c in row <==> IsColumna(c)
    ensures forall c: Campo | IsColumna(c) :: row[c] == InsertValue(body, file, c)
  {
    map col: Campo | IsColumna(col) :: InsertValue(body, file, col)
  }

  /** What a stored employee looks like after a successful insert. */
  ghost predicate ValidNewRow(row: Row)
  {
    && (forall c: Campo :: c in row <==> IsColumna(c))
    && (forall c | c in row :: row[c] != Undefined)
    && (forall c: Campo | RequiredOnCreate(c) :: c in row && Truthy(row[c]))
    && Activo in row && ActivoValido(row[Activo])
    && FechaEgreso in row && row[FechaEgreso] != Str("null")
  }

  lemma NewRowValid(body: Body, file: Option<string>)
    requires CreateFieldsPresent(body) && ActivoValido(Field(body, Activo))
    ensures ValidNewRow(NewRow(body, file))
  {
    var row := NewRow(body, file);
    forall c | c in row ensures row[c] != Undefined {
      assert row[c] == InsertValue(body, file, c);
    }
    forall c: Campo | RequiredOnCreate(c) ensures c in row && Truthy(row[c]) {
      assert row[c] == Bind(Field(body, c));
    }
  }

  /** The value the update binds for column `col`, given the stored row. */
  function UpdateValue(stored: Row, body: Body, file: Option<string>, col: Campo): JsValue
  {
    var current := if col in stored then stored[col] else Null;
    match col
    case RutaHuella => IfNull(Bind(Field(body, RutaHuella)), current)
    case RutaFotografia => IfNull(Foto(file), current)
    case FechaEgreso => NormalizeFechaEgreso(Field(body, FechaEgreso))
    case _ => Bind(Field(body, col))
  }

  /**
   * The row after the update: every plain column takes the body's value (NULL when absent),
   * the exit date is normalised, and the fingerprint and photo are replaced only by a non-NULL value.
   */
  function UpdatedRow(stored: Row, body: Body, file: Option<string>): (row: Row)
    ensures forall c: Campo :: c in row <==> c in stored || IsColumna(c)
    ensures forall c: Campo | IsColumna(c) :: row[c] == UpdateValue(stored, body, file, c)
    ensures forall c: Campo | c in stored && !IsColumna(c) :: row[c] == stored[c]
    ensures forall c: Campo | IsColumna(c) && !c.RutaHuella? && !c.RutaFotografia? && !c.FechaEgreso? ::
              row[c] == Bind(Field(body, c))
    ensures FechaEgreso in row && RutaFotografia in row && RutaHuella in row
    ensures row[FechaEgreso] == NormalizeFechaEgreso(Field(body, FechaEgreso))
    ensures file.Some? ==> row[RutaFotografia] == Str(file.value)
    ensures file.None? ==> row[RutaFotografia] == (if RutaFotografia in stored then stored[RutaFotografia] else Null)
    ensures Bind(Field(body, RutaHuella)) == Null ==>
              row[RutaHuella] == (if RutaHuella in stored then stored[RutaHuella] else Null)
    ensures Bind(Field(body, RutaHuella)) != Null ==> row[RutaHuella] == Field(body, RutaHuella)
  {
    stored + map col: Campo | IsColumna(col) :: UpdateValue(stored, body, file, col)
  }

  /** The JSON bodies of the employee handlers. */
  datatype Payload =
    | ErrorJson(error: string)
    | MessageJson(message: string)
    | CreatedJson(message: string, id: nat, activo: JsValue)
    | UpdatedJson(message: string, cambios: nat, activo: JsValue)
    | RowJson(row: Row)
    | TableJson(table: map<nat, Row>)

  datatype Response = Response(status: nat, payload: Payload)

  datatype Handled = Handled(table: Table, response: Response)

  /** The catch blocks: the ENUM truncation error is the client's fault, anything else the server's. */
  function FaultStatus(code: string): (s: nat)
    ensures s == 400 <==> code == TruncatedWrongValue
    ensures s == 400 || s == 500
  {
    if code == TruncatedWrongValue then 400 else 500
  }

  /**
   * `crearEmpleado`: 400 when a required field is falsy (checked first) or `activo` is not
   * exactly `SI`/`NO`; otherwise the row is inserted (unless the database fails) and 201 returned.
   */
  function CrearEmpleado(t: Table, body: Body, file: Option<string>, fault: Option<DbError>): (h: Handled)
    ensures !CreateFieldsPresent(body) ==> h == Handled(t, Response(400, ErrorJson(FaltanObligatorios)))
    ensures CreateFieldsPresent(body) && !ActivoValido(Field(body, Activo)) ==>
              h == Handled(t, Response(400, ErrorJson(ActivoInvalido)))
    ensures h.response.status == 201 <==>
              CreateFieldsPresent(body) && ActivoValido(Field(body, Activo)) && fault.None? && t.nextId != 0
    ensures fault.Some? ==> h.table == t
    ensures CreateFieldsPresent(body) && ActivoValido(Field(body, Activo)) && fault.Some? ==>
              h.response.status == FaultStatus(fault.value.code)
    ensures IdsBelowCounter(t) ==> IdsBelowCounter(h.table)
    ensures IdsBelowCounter(t) && h.response.status == 201 ==> t.nextId !in t.rows
    ensures h.response.status == 201 ==>
              && h.table.rows.Keys == t.rows.Keys + {t.nextId}
              && h.table.nextId == t.nextId + 1
              && (forall id | id in t.rows && id != t.nextId :: h.table.rows[id] == t.rows[id])
              && ValidNewRow(h.table.rows[t.nextId])
              && h.response.payload == CreatedJson(EmpleadoCreado, t.nextId, Field(body, Activo))
  {
    if !CreateFieldsPresent(body) then Handled(t, Response(400, ErrorJson(FaltanObligatorios)))
    else if !ActivoValido(Field(body, Activo)) then Handled(t, Response(400, ErrorJson(ActivoInvalido)))
    else if fault.Some? then
      if FaultStatus(fault.value.code) == 400 then Handled(t, Response(400, ErrorJson(ActivoEnumInvalido)))
      else Handled(t, Response(500, ErrorJson(ErrorCrear)))
    else
      var row := NewRow(body, file);
      var t1 := Table(t.rows[t.nextId := row], t.nextId + 1);
      NewRowValid(body, file);
      if t.nextId == 0 then Handled(t1, Response(500, ErrorJson(ErrorCrear)))
      else Handled(t1, Response(201, CreatedJson(EmpleadoCreado, t.nextId, Field(body, Activo))))
  }

  /** On insert the fingerprint, photo and beneficiaries fall back to NULL when not given. */
  lemma CrearDefaultsToNull(t: Table, body: Body)
    requires CreateFieldsPresent(body) && ActivoValido(Field(body, Activo)) && t.nextId != 0
    requires Huella !in body && Beneficiarios !in body
    ensures var h := CrearEmpleado(t, body, None, None);
            && h.response.status == 201
            && h.table.rows[t.nextId][RutaHuella] == Null
            && h.table.rows[t.nextId][RutaFotografia] == Null
            && h.table.rows[t.nextId][Beneficiarios] == Null
  {
    var row := NewRow(body, None);
    assert CrearEmpleado(t, body, None, None) ==
           Handled(Table(t.rows[t.nextId := row], t.nextId + 1),
                   Response(201, CreatedJson(EmpleadoCreado, t.nextId, Field(body, Activo))));
    assert row[RutaHuella] == OrNull(Field(body, Huella)) == Null;
    assert row[RutaFotografia] == OrNull(Foto(None)) == Null;
    assert row[Beneficiarios] == OrNull(Field(body, Beneficiarios)) == Null;
  }

  /** Empty strings and zero count as missing: a zero salary is refused. */
  lemma ZeroSalaryIsMissing(t: Table, body: Body, file: Option<string>, fault: Option<DbError>)
    requires SueldoBase in body && body[SueldoBase] == Num(0)
    ensures CrearEmpleado(t, body, file, fault) == Handled(t, Response(400, ErrorJson(FaltanObligatorios)))
    ensures ActualizarEmpleado(t, 1, body, file, fault) == Handled(t, Response(400, MessageJson(FaltanRequeridos)))
  {
    assert !Truthy(Field(body, SueldoBase)) && RequiredOnCreate(SueldoBase) && RequiredOnUpdate(SueldoBase);
  }

  /** `obtenerEmpleados`: every stored row, 500 on a database failure. */
  function ObtenerEmpleados(t: Table, fault: Option<DbError>): (res: Response)
    ensures res.status == 200 <==> fault.None?
    ensures fault.Some? ==> res == Response(500, ErrorJson(fault.value.message))
    ensures res.status == 200 ==> res.payload == TableJson(t.rows)
    ensures res.status != 200 ==> res.status == 500
  {
    if fault.Some? then Response(500, ErrorJson(fault.value.message)) else Response(200, TableJson(t.rows))
  }

  /** `obtenerEmpleadoPorId`: the row, 404 when none matched, 500 on a database failure. */
  function ObtenerEmpleadoPorId(t: Table, id: nat, fault: Option<DbError>): (res: Response)
    ensures fault.Some? ==> res == Response(500, ErrorJson(fault.value.message))
    ensures fault.None? ==> (res.status == 404 <==> id !in t.rows)
    ensures fault.None? && id in t.rows ==> res.status == 200
    ensures res.status == 200 ==> id in t.rows && res.payload == RowJson(t.rows[id])
  {
    if fault.Some? then Response(500, ErrorJson(fault.value.message))
    else if id !in t.rows then Response(404, MessageJson(EmpleadoNoEncontrado))
    else Response(200, RowJson(t.rows[id]))
  }

  /**
   * `actualizarEmpleado`: only six fields are required; every listed column is overwritten,
   * except that the fingerprint and photo keep their stored value when the new one is NULL.
   * No matching row is a 404; `cambios` is 1 exactly when the row really changed.
   */
  function ActualizarEmpleado(t: Table, id: nat, body: Body, file: Option<string>, fault: Option<DbError>): (h: Handled)
    ensures !UpdateFieldsPresent(body) ==> h == Handled(t, Response(400, MessageJson(FaltanRequeridos)))
    ensures UpdateFieldsPresent(body) && !ActivoValido(Field(body, Activo)) ==>
              h == Handled(t, Response(400, MessageJson(ActivoInvalido)))
    ensures h.response.status == 404 <==>
              UpdateFieldsPresent(body) && ActivoValido(Field(body, Activo)) && fault.None? && id !in t.rows
    ensures h.response.status != 200 ==> h.table == t
    ensures UpdateFieldsPresent(body) && ActivoValido(Field(body, Activo)) && fault.Some? ==>
              h.response.status == FaultStatus(fault.value.code)
    ensures UpdateFieldsPresent(body) && ActivoValido(Field(body, Activo)) && fault.None? && id in t.rows ==>
              h.response.status == 200
    ensures IdsBelowCounter(t) ==> IdsBelowCounter(h.table)
    ensures h.response.status == 200 ==>
              && id in t.rows && h.table.nextId == t.nextId
              && h.table.rows.Keys == t.rows.Keys
              && (forall k | k in t.rows && k != id :: h.table.rows[k] == t.rows[k])
              && (forall c: Campo | IsColumna(c) :: c in h.table.rows[id])
              && h.table.rows[id] == UpdatedRow(t.rows[id], body, file)
              && h.table.rows[id][Activo] == Field(body, Activo)
              && (file.None? ==>
                    h.table.rows[id][RutaFotografia] == (if RutaFotografia in t.rows[id] then t.rows[id][RutaFotografia] else Null))
              && (Bind(Field(body, RutaHuella)) == Null ==>
                    h.table.rows[id][RutaHuella] == (if RutaHuella in t.rows[id] then t.rows[id][RutaHuella] else Null))
              && (Bind(Field(body, RutaHuella)) != Null ==> h.table.rows[id][RutaHuella] == Field(body, RutaHuella))
              && (h.response.payload.UpdatedJson? && (h.response.payload.cambios == 1 <==> h.table.rows[id] != t.rows[id]))
    ensures h.response.status == 200 && file.Some? ==> h.table.rows[id][RutaFotografia] == Str(file.value)
  {
    if !UpdateFieldsPresent(body) then Handled(t, Response(400, MessageJson(FaltanRequeridos)))
    else if !ActivoValido(Field(body, Activo)) then Handled(t, Response(400, MessageJson(ActivoInvalido)))
    else if fault.Some? then
      if FaultStatus(fault.value.code) == 400 then Handled(t, Response(400, MessageJson(ActivoEnumInvalido)))
      else Handled(t, Response(500, ErrorJson(ErrorActualizar)))
    else if id !in t.rows then Handled(t, Response(404, MessageJson(EmpleadoNoEncontrado)))
    else
      var row := UpdatedRow(t.rows[id], body, file);
      var cambios := if row != t.rows[id] then 1 else 0;
      Handled(Table(t.rows[id := row], t.nextId), Response(200, UpdatedJson(EmpleadoActualizado, cambios, Field(body, Activo))))
  }

  /** Sending the same update twice changes nothing the second time. */
  lemma ActualizarTwiceNoChange(t: Table, id: nat, body: Body, file: Option<string>)
    requires ActualizarEmpleado(t, id, body, file, None).response.status == 200
    ensures var t1 := ActualizarEmpleado(t, id, body, file, None).table;
            var h2 := ActualizarEmpleado(t1, id, body, file, None);
            h2.table == t1 && h2.response.status == 200 && h2.response.payload.cambios == 0
  {
    var t1 := ActualizarEmpleado(t, id, body, file, None).table;
    var r1 := t1.rows[id];
    var r2 := UpdatedRow(r1, body, file);
    assert r2 == r1 by {
      assert r2.Keys == r1.Keys;
      forall c | c in r1 ensures r2[c] == r1[c] {
        if IsColumna(c) {
          assert c in t.rows[id] + map col: Campo | IsColumna(col) :: UpdateValue(t.rows[id], body, file, col);
        }
      }
    }
    assert t1.rows[id := r2] == t1.rows;
  }

  /** `eliminarEmpleado`: removes the row, 404 when none matched, 500 on a database failure. */
  function EliminarEmpleado(t: Table, id: nat, fault: Option<DbError>): (h: Handled)
    ensures fault.Some? ==> h == Handled(t, Response(500, ErrorJson(fault.value.message)))
    ensures fault.None? ==> (h.response.status == 404 <==> id !in t.rows)
    ensures fault.None? && id in t.rows ==> h.response.status == 200
    ensures IdsBelowCounter(t) ==> IdsBelowCounter(h.table)
    ensures h.response.status == 200 ==> h.table.rows.Keys == t.rows.Keys - {id} && id in t.rows
    ensures forall k | k in h.table.rows :: k in t.rows && h.table.rows[k] == t.rows[k]
  {
    if fault.Some? then Handled(t, Response(500, ErrorJson(fault.value.message)))
    else if id !in t.rows then Handled(t, Response(404, MessageJson(EmpleadoNoEncontrado)))
    else Handled(Table(t.rows - {id}, t.nextId), Response(200, MessageJson(EmpleadoEliminado)))
  }

  /** A created employee can be read back as stored; a deleted one is then not found. */
  lemma CreateReadDelete(t: Table, body: Body, file: Option<string>)
    requires CrearEmpleado(t, body, file, None).response.status == 201
    ensures var t1 := CrearEmpleado(t, body, file, None).table;
            && ObtenerEmpleadoPorId(t1, t.nextId, None) == Response(200, RowJson(NewRow(body, file)))
            && ObtenerEmpleadoPorId(EliminarEmpleado(t1, t.nextId, None).table, t.nextId, None).status == 404
  {
  }
}
