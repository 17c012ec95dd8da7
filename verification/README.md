# Attendance ledger of the personnel backend, in Dafny

This project models the attendance core of a small personnel backend (an
Express + MySQL service). It covers:

- the attendance model `Asistencia`: clock-in/clock-out registration, bulk shift close, the daily
  summary, the read queries, the plain insert and the column patch;
- the request validation and status mapping of the attendance controller;
- the validation, field normalisation, insert/update rules and status mapping of the
  employee controller.

The `asistencias` table is an immutable `seq<Record>` with an auto-increment counter. The
`empleados` table appears in two views. The attendance code sees a `Directory`: a sequence of
(id, `numero_identidad`, `activo`, `nombre`, `puesto`). The employee controller sees a map from
id to a row of JSON values. Every operation is a pure function from the old state to the new
state and the reply. Each call is atomic.

Modules, one per file:

- `Wrappers`: `Option` and `Result`.
- `Text`: code-point string order.
- `Sorting`: `ORDER BY` as insertion sort on a text key.
- `Dates`: the `YYYY-MM-DD` shape, and a proof that string order on such dates is calendar order.
- `Ledger`: the data model, directory lookups, the join, row counting.
- `Registration`: `registrarEntrada`.
- `ShiftClose`: `cerrarJornada`.
- `Summary`: `obtenerResumenDiario`.
- `Queries`: the read queries.
- `Records`: `crear` and `actualizar`.
- `AttendanceController` and `EmployeeController`: the HTTP handlers.

Modelling choices:

- An `UPDATE`'s `affectedRows` is the number of rows its `WHERE` matched. This is the MySQL
  driver's default found-rows behaviour.
- A request value of `undefined` is bound as SQL NULL.
- Dates and times are the text the client sent. `BETWEEN` and `ORDER BY fecha` compare that
  text. `Dates.IsoDateOrder` shows this is calendar order for `YYYY-MM-DD` values.
- Behaviours of the code worth knowing:
  - An unknown identity in `registrarEntradaSalida` and in the per-employee query is a 500, not a 404.
  - `registrarEntradaSalida` checks only that the time and date are present, not their format.
  - The two percentages add up to 100 even when there are no active employees.
  - `cerrarJornada` without `horaCierre` writes NULL. It changes nothing and reports the same
    count on every call.

## Model

| member | source | states |
|---|---|---|
| Ledger.FindByIdentity | models/asistencia.js:144-153 | the identity lookup yields the first employee with that `numero_identidad`, and nothing exactly when no employee carries it |
| Ledger.JoinFindsIdentified | models/asistencia.js:122-137 | with ids as primary key, the join by `empleado_id` finds the very employee the identity lookup returned |
| Ledger.JoinWhere | models/asistencia.js:50-58 | the join keeps exactly the rows that satisfy the filter and whose employee exists, each paired with that employee; its length is the number of such rows |
| Ledger.CountIsMatchingRows | models/asistencia.js:40-47 | the affected-row count equals the number of positions whose row matches the `WHERE` clause |
| Sorting.SortBy | models/asistencia.js:61-71 | `ORDER BY key [DESC]` returns a permutation of its input in which every earlier row's key precedes every later row's key |
| Dates.IsoDateOrder | models/asistencia.js:131-137 | for `YYYY-MM-DD` strings, string order (used for `BETWEEN` and `ORDER BY fecha`) is year-then-month-then-day order |
| Registration.RegistrarEntrada | models/asistencia.js:142-185 | unknown identity throws; `entrada` on a pair with any record returns `ya_registrado` unchanged, otherwise appends one open record with the given entry time and manual flag under the next id; `salida` sets the exit time and exit manual flag on exactly the pair's open records and returns `salida` iff there was one, else `no_registro` with the ledger unchanged; another `tipo` returns nothing and changes nothing |
| Registration.SecondEntradaRejected | models/asistencia.js:155-163 | a second `entrada` for the same employee and date is `ya_registrado` and leaves the ledger as the first call left it |
| Registration.SalidaClosesPair | models/asistencia.js:172-177 | after `salida` no record of the pair is open, other pairs' records are untouched and entry time, entry flag, id, date and `permiso` are kept |
| Registration.SecondSalidaNoRegistro | models/asistencia.js:172-183 | a second `salida` for the pair is `no_registro` and changes nothing |
| Registration.ReEntryAfterSalidaRejected | models/asistencia.js:155-163 | after a successful `salida`, a new `entrada` the same day is `ya_registrado`: a closed day is not reopened |
| Registration.RegistrarKeepsAtMostOnePerDay | models/asistencia.js:155-170 | registration never creates a second record for an (employee, date) pair |
| Registration.RegistrarKeepsWellFormed | models/asistencia.js:164-170 | registration keeps record ids unique and below the auto-increment counter |
| Registration.ReplayKeepsInvariants | models/asistencia.js:142-185 | any sequence of clock events applied to a sound ledger keeps unique ids and at most one record per employee and day |
| ShiftClose.CerrarJornada | models/asistencia.js:40-48 | exactly the open records of the date get the closing time, everything else (manual flags included) is unchanged, and the count is the number of matched rows |
| ShiftClose.CerrarJornadaClosesDate | models/asistencia.js:40-48 | with a closing time, no record of the date is open afterwards |
| ShiftClose.CerrarJornadaIdempotent | models/asistencia.js:40-48 | with a closing time, an immediate second close reports 0 and changes nothing |
| ShiftClose.CerrarJornadaWithoutHoraRepeats | models/asistencia.js:40-47 | without a closing time the call changes nothing and a repeat reports the same count |
| ShiftClose.CerrarJornadaWithoutFecha | models/asistencia.js:42-45 | without a date nothing matches: count 0, ledger unchanged |
| ShiftClose.CerrarJornadaKeepsInvariants | models/asistencia.js:40-48 | the bulk close keeps unique ids and at most one record per employee and day |
| ShiftClose.SalidaAfterCerrarJornada | models/asistencia.js:172-183 | after a date is closed, any exit event on that date is `no_registro` |
| Summary.RoundedPercent | models/asistencia.js:106 | the attendance percentage is the integer nearest to 100·attended/total with halves rounded up, and 0 when total is 0 |
| Summary.FromCounts | models/asistencia.js:102-118 | the row carries the date and the three counts it is given; the percentage is `RoundedPercent(asistieron, total)`; absences are total minus attended, unclamped; the two percentages sum to 100; `con_permiso` is 0; with attended ≤ total nothing is negative and the percentage is at most 100 |
| Summary.ResumenDiario | models/asistencia.js:73-119 | the total is the number of active employees; attended and on-shift are distinct employee counts for the date, on-shift ≤ attended; absences and percentages as above |
| Summary.ActiveCountIsActiveIds | models/asistencia.js:75-80 | with ids as primary key, the active-row count is the number of distinct active employees |
| Summary.AttendanceWithinBounds | models/asistencia.js:102-107 | when every attendee of the date is active, absences are ≥ 0 and both percentages lie in 0..100 |
| Summary.AttendedCountsRecords | models/asistencia.js:83-90 | with one record per employee and day, distinct attendees equal records with an entry on the date |
| Summary.EntradaAddsAttendee | models/asistencia.js:83-100 | a new `entrada` adds exactly its employee to attendees and to those on shift, raising `asistieron` by one |
| Summary.SalidaLeavesShift | models/asistencia.js:92-100 | a `salida` keeps the attendees and removes exactly its employee from those on shift |
| Summary.CerrarJornadaEmptiesShift | models/asistencia.js:92-100 | after the bulk close of a date nobody is on shift and the attendees are unchanged |
| Summary.DailyScenario | models/asistencia.js:102-118 | 10 active, 7 attended, 2 on shift gives 3 absent, 70 % and 30 % |
| Summary.RoundsHalfUp | models/asistencia.js:106 | 57 of 200 rounds to 29, 1 of 3 to 33, 2 of 3 to 67 |
| Queries.RegistrosSinSalida | models/asistencia.js:50-59 | the rows are the open records of the date whose employee exists, in ledger order, each projected to identity, name and entry time: one row per such record, and a row is present iff it comes from such a record |
| Queries.SinSalidaMatchesCerrarJornada | models/asistencia.js:40-59 | when every record's employee exists, the open list is as long as the count the bulk close reports |
| Queries.SinSalidaEmptyAfterCerrarJornada | models/asistencia.js:50-59 | after the bulk close of a date its open list is empty |
| Queries.PorFecha | models/asistencia.js:61-71 | exactly the date's records with an existing employee, one per record, sorted by employee name |
| Queries.PorEmpleado | models/asistencia.js:121-140 | unknown identity throws; otherwise exactly that employee's records with inicio ≤ fecha ≤ fin, each once (the length is the number of such records), newest first |
| Queries.PorEmpleadoSingleDay | models/asistencia.js:131-137 | a range whose start and end are the same date returns exactly that day's rows of the employee: `BETWEEN` is inclusive at both ends |
| Queries.PorId | models/asistencia.js:32-38 | a row with that id whose employee exists, and none exactly when there is no such row |
| Records.Crear | models/asistencia.js:4-11 | the insert appends one record carrying the given fields under the next id and keeps all earlier records |
| Records.CrearThenPorId | models/asistencia.js:4-11 | the id `crear` returns reads back the inserted record |
| Records.CrearCanDuplicateDay | models/asistencia.js:4-11 | a plain insert can put a second record on an (employee, date) pair, unlike registration |
| Records.CrearKeepsWellFormed | models/asistencia.js:4-11 | the insert keeps ids unique and below the counter |
| Records.Actualizar | models/asistencia.js:13-30 | an empty patch is an SQL error; otherwise the result is true iff a record has the id, only records with that id change, and ids never change (the patch has no `id` column) |
| Records.ActualizarWritesNamedColumns | models/asistencia.js:17-27 | the patched record takes every named column's new value (employee, date, both times, both manual flags, `permiso`) and keeps every other column and its id |
| Records.ActualizarIdempotent | models/asistencia.js:13-30 | applying the same patch twice equals applying it once |
| Records.ActualizarKeepsWellFormed | models/asistencia.js:13-30 | the patch keeps ids unique |
| AttendanceController.RegistrarEntradaSalida | controllers/asistenciaController.js:88-119 | identity, then date, then time are checked; the first missing one gives 400 with its own message and the ledger untouched; `tipo` is not checked; 500 exactly when the identity is unknown, carrying the model's message; a 200 carries the registration's new ledger and its `accion` (no body for another `tipo`) |
| AttendanceController.RegistrationScenario | controllers/asistenciaController.js:88-119 | entry, repeated entry, exit and repeated exit for one employee answer `entrada`, `ya_registrado`, `salida`, `no_registro` |
| AttendanceController.ResumenDiario | controllers/asistenciaController.js:48-65 | a missing date is 400 before the format check; a date not shaped `YYYY-MM-DD` or rejected by the date check is 400 with the format message; a valid one returns the single summary row the model computes for that date |
| AttendanceController.ResumenRejectsMalformedDates | controllers/asistenciaController.js:67-72 | one-digit months, trailing spaces and two-digit years are refused, an empty date is "required" |
| AttendanceController.AsistenciasPorEmpleado | controllers/asistenciaController.js:74-86 | a missing start date is `1900-01-01` and a missing end date is today; the status is 200 or 500, and 500 exactly when the identity is unknown, with the model's message; a 200 carries the model's range query, so rows are the employee's and in range |
| AttendanceController.DefaultStartIsEarliest | controllers/asistenciaController.js:79 | the default start date is no later than any calendar date from year 1900 on |
| AttendanceController.CerrarJornada | controllers/asistenciaController.js:121-132 | the reply is `{success: true, registrosActualizados: n}` with n the number of rows matched, and the ledger is the one the bulk close leaves |
| AttendanceController.ActualizarAsistencia | controllers/asistenciaController.js:13-24 | the status is 200, 404 or 500: 404 exactly when no record has the id, 500 exactly for an empty patch, otherwise success with the ledger the patch produces |
| AttendanceController.ObtenerAsistencia | controllers/asistenciaController.js:26-37 | the status is 200 or 404: 404 exactly when there is no record with that id and an existing employee, otherwise the row the model's lookup finds |
| AttendanceController.RegistrarAsistencia | controllers/asistenciaController.js:4-11 | 201 with the next id, and the ledger is the one the insert leaves: one more record |
| AttendanceController.AsistenciasPorFecha | controllers/asistenciaController.js:39-46 | 200 with the model's rows of that date, ordered by employee name |
| AttendanceController.RegistrosSinSalida | controllers/asistenciaController.js:134-141 | 200 with the model's open rows of that date, at most one per record |
| EmployeeController.NormalizeFechaEgreso | controllers/empleadoController.js:41 | `fecha_egreso` becomes null exactly when it is the string `null` or falsy, and otherwise passes through |
| EmployeeController.NewRowValid | controllers/empleadoController.js:30-75 | an accepted insert stores every column, never `undefined`, the 17 required fields truthy, `activo` SI or NO and `fecha_egreso` never the string `null` |
| EmployeeController.FaultStatus | controllers/empleadoController.js:96-106 | the ENUM truncation error code maps to 400 and every other failure to 500 |
| EmployeeController.CrearEmpleado | controllers/empleadoController.js:4-108 | a falsy required field is 400 "Faltan campos obligatorios" before the `activo` check, a bad `activo` is 400, both leave the table alone; a database error is 400 for the ENUM truncation code and 500 otherwise; 201 exactly when valid and the insert succeeds, adding one valid row under a fresh id (the counter stays above every stored id) and changing nothing else |
| EmployeeController.CrearDefaultsToNull | controllers/empleadoController.js:43-75 | fingerprint, photo and beneficiaries default to null on insert |
| EmployeeController.ZeroSalaryIsMissing | controllers/empleadoController.js:31-33 | a salary of 0 counts as missing on create and on update |
| EmployeeController.ObtenerEmpleados | controllers/empleadoController.js:111-119 | every stored row, or 500 carrying the database error's message |
| EmployeeController.ObtenerEmpleadoPorId | controllers/empleadoController.js:122-136 | a database error is 500 with its message; otherwise 404 exactly when no row has the id, and 200 with that row when one does |
| EmployeeController.UpdatedRow | controllers/empleadoController.js:176-216 | each plain column takes the body's value or NULL, `fecha_egreso` is normalised, fingerprint and photo follow `IFNULL`, an upload replaces the photo, and columns the statement does not list are kept |
| EmployeeController.ActualizarEmpleado | controllers/empleadoController.js:139-250 | only six fields are required; bad `activo` is 400; 404 exactly when no row matched; a valid body for a stored id with no database error is 200; on success the row becomes the updated row: every plain column takes the body's value (NULL when absent), `fecha_egreso` is normalised, an uploaded photo replaces the stored one, and fingerprint and photo keep their stored value when the new one is null; `cambios` is 1 iff the row changed |
| EmployeeController.ActualizarTwiceNoChange | controllers/empleadoController.js:183-216 | repeating the same update changes nothing and reports `cambios` 0 |
| EmployeeController.EliminarEmpleado | controllers/empleadoController.js:253-270 | a database error is 500 with its message and deletes nothing; otherwise 404 exactly when no row has the id, and 200 with exactly that row removed when one does |
| EmployeeController.CreateReadDelete | controllers/empleadoController.js:47-75 | a created employee reads back as stored, and after deleting it reading gives 404 |

## Left out

- `config/db.js`, `index.js`, `routes/*.js`: the connection pool, environment configuration,
  Express wiring and the Cloudinary/multer upload settings are framework glue. An upload appears
  only as the optional file name it produces.
- `models/empleado.js` and `middlewares/encrypt.js`: bcrypt hashing and thin SQL wrappers that the
  modelled controllers do not call.
- The check-then-insert race in `registrarEntrada` under concurrent requests: every call is atomic here.
- Summary.RoundedPercent: uses exact half-up rounding instead of JavaScript's floating-point
  `Math.round(a / t * 100)`. The two differ where the float product falls just below a half,
  e.g. 57 of 200, which JavaScript reports as 28.
- The `new Date(...)` half of `isValidDate` is the `parsesAsDate` parameter. The "today" default
  end date is the `today` parameter. Both depend on the date library and the clock.
- MySQL collation: identities and names compare exactly and order by code point. Dates are
  compared as the text sent, not converted to `DATE`.
- `actualizar` builds its `SET` list from arbitrary body keys. It is modelled as a patch over the
  known columns only. A key naming an unknown column, which MySQL would refuse, is not represented.
- Attendance request fields that are JSON numbers or booleans rather than strings are not
  represented. Database connection failures behind the attendance handlers are not represented either.
- Employee request values are integers, strings, booleans, null or undefined. Fractional numbers
  and `NaN` are left out.
- Schema constraints that are not part of this model: foreign keys, `NOT NULL` columns, column
  defaults (the manual flags of `crear` default to NULL here), and the effect of deleting an
  employee on attendance rows.
- Path ids arrive as strings. They are modelled as the number MySQL compares them to.
- Logging, stack traces and the `NODE_ENV`-dependent error details.
- Records.Actualizar: an empty patch fails with the server's SQL syntax error, and the handler sends that error's message text. The model carries the error name `ER_PARSE_ERROR` in its place, because the server's wording is outside the program.
- Records.Actualizar: a body naming `id` is not represented. The source writes every key the body names, so such a body would renumber the row (or fail on a duplicate key). The patch covers the seven data columns only, so `ids never change` and `Records.ActualizarKeepsWellFormed` hold for that patch alone.
- EmployeeController.ActualizarEmpleado: stored values are the request's JSON values, not typed column values. MySQL converts values to the column types (DECIMAL, DATE, ENUM), so the same value sent in another form (`"1500"` for a stored `1500.00`) leaves the row unchanged there but counts as a change here. Column types and conversions are not modelled, and neither is what reading a row back returns.
