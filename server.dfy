/**
 * The Express routes of the backend. The upload route imports every sheet
 * of a workbook into `prefix__sheet` tables; the export, techdb and uszips
 * routes read a table with a clamped `limit` and project its rows into the
 * shapes the on-call page loads. The database answer of a read route is a
 * parameter: its column names and its rows.
 */
module Server {
  import opened Wrappers
  import opened Strings
  import opened Records
  import opened TableImport
  import Cells
  import Lookups

  // ---------------------------------------------------------------------
  // POST /api/upload

  datatype UploadError = NoFile

  /** The uploaded workbook: `req.file.originalname` and the sheets read from its buffer */
  datatype UploadedFile<V> = UploadedFile(originalName: string, sheets: seq<Sheet<V>>)

  /** The JSON body of a successful upload */
  datatype UploadReply = UploadReply(file: string, prefix: string, mode: string, results: seq<SheetResult>)

  /** `safeName(req.query.prefix || req.body?.prefix || 'dataset')` */
  function UploadPrefix(queryPrefix: string, bodyPrefix: string): string
  {
    SafeName(FirstSet(queryPrefix, bodyPrefix, "dataset"))
  }

  /** `String(req.query.mode || req.body?.mode || 'replace').toLowerCase()` */
  function UploadMode(queryMode: string, bodyMode: string): string
  {
    Lower(FirstSet(queryMode, bodyMode, "replace"))
  }

  /** The upload route: the reply and the statements it issues; no file is a 400 */
  function UploadOf<V>(file: Option<UploadedFile<V>>, queryPrefix: string, bodyPrefix: string,
                       queryMode: string, bodyMode: string): (Result<UploadReply, UploadError>, seq<Statement<V>>)
  {
    if file.None? then (Err(NoFile), [])
    else
      var prefix := UploadPrefix(queryPrefix, bodyPrefix);
      var mode := UploadMode(queryMode, bodyMode);
      var (results, statements) := ImportOf(prefix, mode == "replace", file.value.sheets);
      (Ok(UploadReply(file.value.originalName, prefix, mode, results)), statements)
  }

  method Upload<V>(file: Option<UploadedFile<V>>, queryPrefix: string, bodyPrefix: string, queryMode: string, bodyMode: string)
    returns (reply: Result<UploadReply, UploadError>, statements: seq<Statement<V>>)
    ensures (reply, statements) == UploadOf(file, queryPrefix, bodyPrefix, queryMode, bodyMode)
  {
    if file.None? {
      return Err(NoFile), [];
    }
    var prefix := UploadPrefix(queryPrefix, bodyPrefix);
    var mode := UploadMode(queryMode, bodyMode);
    var results;
    results, statements := ImportSheets(prefix, mode == "replace", file.value.sheets);
    reply := Ok(UploadReply(file.value.originalName, prefix, mode, results));
  }

  /**
   * A missing file is refused before anything is written; otherwise the
   * reply names the uploaded file, the prefix is an identifier, there is one result per sheet, sheet `k` goes
   * to `prefix__safeName(sheet)`, and a mode other than `replace` (in any
   * letter case) never drops a table
   */
  lemma UploadSpec<V>(file: Option<UploadedFile<V>>, queryPrefix: string, bodyPrefix: string,
                      queryMode: string, bodyMode: string, k: nat)
    ensures var (reply, statements) := UploadOf(file, queryPrefix, bodyPrefix, queryMode, bodyMode);
      (reply.Err? <==> file.None?) && (reply.Err? ==> statements == []) &&
      (reply.Ok? ==> reply.value.file == file.value.originalName) &&
      (reply.Ok? ==> IsIdentifier(reply.value.prefix) && |reply.value.results| == |file.value.sheets|) &&
      (reply.Ok? && k < |file.value.sheets| ==>
        reply.value.results[k].table == TableName(reply.value.prefix, file.value.sheets[k].0)) &&
      (reply.Ok? && reply.value.mode != "replace" ==> forall i :: 0 <= i < |statements| ==> !statements[i].DropTable?)
  {
    if file.Some? {
      var prefix := UploadPrefix(queryPrefix, bodyPrefix);
      SafeNameShape(FirstSet(queryPrefix, bodyPrefix, "dataset"));
      var sheets := file.value.sheets;
      if sheets != [] {
        ImportResults(prefix, UploadMode(queryMode, bodyMode) == "replace", sheets, if k < |sheets| then k else 0);
      }
      if k < |sheets| {
        var sheet := sheets[k];
        var rs := SheetOf(sheet.1);
        TablePlanSpec(sheet.0, TableName(prefix, sheet.0), UploadMode(queryMode, bodyMode) == "replace", rs.0, rs.1);
      }
      AppendNeverDrops(prefix, sheets);
    }
  }

  /** The mode is compared after lower-casing: `REPLACE` replaces */
  lemma UploadModeIgnoresCase()
    ensures UploadMode("REPLACE", "") == "replace"
    ensures UploadMode("", "Append") == "append"
  {
    assert FirstSet("REPLACE", "", "replace") == "REPLACE";
    assert FirstSet("", "Append", "replace") == "Append";
  }

  // ---------------------------------------------------------------------
  // Read routes

  /** The `SELECT * FROM "table" LIMIT $1` a read route issues */
  datatype Query = Query(table: string, limit: Option<real>)

  const MaxLimit: real := 300000.0

  /** GET /api/export/:table: the table, the lower-cased format and the limit */
  datatype ExportQuery = ExportQuery(table: string, format: string, limit: Option<real>)

  function ExportQueryOf(tableParam: string, formatParam: string, limitParam: string, num: string -> Option<real>): ExportQuery
  {
    var format := Lower(FirstSet(formatParam, "", "json"));
    ExportQuery(SafeName(tableParam), format,
                LimitOf(limitParam, num, if format == "aoa" then 200000.0 else 500.0, MaxLimit))
  }

  /** The export query names a safe table, and its limit is within `[1, 300000]`, by default 200000 for `aoa` and 500 otherwise */
  lemma ExportQuerySpec(tableParam: string, formatParam: string, limitParam: string, num: string -> Option<real>)
    ensures var q := ExportQueryOf(tableParam, formatParam, limitParam, num);
      IsIdentifier(q.table) &&
      (q.limit.Some? ==> 1.0 <= q.limit.value <= MaxLimit) &&
      (limitParam == "" ==> q.limit == Some(if q.format == "aoa" then 200000.0 else 500.0))
  {
    SafeNameShape(tableParam);
  }

  /** The JSON body of an export */
  datatype ExportReply<V> =
    | AoaReply(table: string, columns: seq<string>, rows: seq<seq<Option<V>>>)
    | JsonReply(table: string, records: seq<Record<V>>)

  /** The reply to an export, given the result's field names and rows */
  function ExportReplyOf<V>(q: ExportQuery, fields: seq<string>, rows: seq<Record<V>>): ExportReply<V>
  {
    if q.format == "aoa" then
      var cols := WithoutId(fields);
      AoaReply(q.table, cols, AoaRows(cols, rows))
    else JsonReply(q.table, rows)
  }

  /**
   * An `aoa` export lists every field but `_id`, and each row gives, column
   * by column, the record's value; any other format returns the records
   */
  lemma ExportReplySpec<V>(q: ExportQuery, fields: seq<string>, rows: seq<Record<V>>)
    ensures var r := ExportReplyOf(q, fields, rows);
      r.table == q.table && (r.AoaReply? <==> q.format == "aoa") &&
      (r.JsonReply? ==> r.records == rows) &&
      (r.AoaReply? ==>
        "_id" !in r.columns &&
        (forall f :: f in fields && f != "_id" ==> f in r.columns) &&
        (forall c :: c in r.columns ==> c in fields) &&
        |r.rows| == |rows| &&
        forall k, j :: 0 <= k < |rows| && 0 <= j < |r.columns| ==> |r.rows[k]| == |r.columns| && r.rows[k][j] == At(rows[k], r.columns[j]))
  {
  }

  /** `x.a ?? x.b ?? ...`: the value of the first alias that is set */
  function Coalesce<V>(x: Record<V>, aliases: seq<string>): Option<V>
  {
    if aliases == [] then None
    else if At(x, aliases[0]).Some? then At(x, aliases[0])
    else Coalesce(x, aliases[1..])
  }

  /** `??` takes the first alias whose value is not `null`, even a blank one; none set gives `None` */
  lemma {:induction false} CoalesceSpec<V>(x: Record<V>, aliases: seq<string>)
    ensures Coalesce(x, aliases).None? <==> forall i :: 0 <= i < |aliases| ==> At(x, aliases[i]).None?
    ensures Coalesce(x, aliases).Some? ==>
      exists i :: 0 <= i < |aliases| && Coalesce(x, aliases) == At(x, aliases[i]) &&
        forall j :: 0 <= j < i ==> At(x, aliases[j]).None?
    decreases |aliases|
  {
    if aliases != [] {
      CoalesceSpec(x, aliases[1..]);
      if At(x, aliases[0]).None? && Coalesce(x, aliases).Some? {
        var i :| 0 <= i < |aliases| - 1 && Coalesce(x, aliases[1..]) == At(x, aliases[1..][i]) &&
          forall j :: 0 <= j < i ==> At(x, aliases[1..][j]).None?;
        assert forall j :: 0 <= j < i + 1 ==> At(x, aliases[j]).None? by {
          forall j | 0 <= j < i + 1 ensures At(x, aliases[j]).None? {
            if j > 0 { assert aliases[j] == aliases[1..][j - 1]; }
          }
        }
      }
    }
  }

  /** The default tables of GET /api/oncall/techdb and GET /api/oncall/uszips */
  const TechTableDefault: string := "ars_technician_" + "_01_21_2026_" + "ars_technician"
  const ZipTableDefault: string := "uszips__sheet1"

  /**
   * GET /api/oncall/techdb and GET /api/oncall/uszips:
   * `safeName(req.query.table || <env table> || dflt)` and the limit, 200000
   * by default, kept within [1, 300000]
   */
  function OncallTableQuery(tableParam: string, envTable: string, dflt: string,
                            limitParam: string, num: string -> Option<real>): (q: Query)
    ensures IsIdentifier(q.table)
    ensures tableParam != "" && IsIdentifier(tableParam) ==> q.table == tableParam
    ensures tableParam == "" && envTable != "" && IsIdentifier(envTable) ==> q.table == envTable
    ensures tableParam == "" && envTable == "" && IsIdentifier(dflt) ==> q.table == dflt
    ensures q.limit.Some? ==> 1.0 <= q.limit.value <= MaxLimit
    ensures q.limit.None? <==> limitParam != "" && num(limitParam).None?
    ensures limitParam == "" ==> q.limit == Some(200000.0)
  {
    var t := FirstSet(tableParam, envTable, dflt);
    SafeNameShape(t);
    assert IsIdentifier(t) ==> SafeName(t) == t by {
      if IsIdentifier(t) { SafeNameOfIdentifier(t); }
    }
    Query(SafeName(t), LimitOf(limitParam, num, 200000.0, MaxLimit))
  }

  /** With no table named, the two routes read their default tables unchanged */
  lemma DefaultTablesRead(limitParam: string, num: string -> Option<real>)
    ensures OncallTableQuery("", "", TechTableDefault, limitParam, num).table == TechTableDefault
    ensures OncallTableQuery("", "", ZipTableDefault, limitParam, num).table == ZipTableDefault
  {
    TechTableDefaultSafe();
    assert IsIdentifier(ZipTableDefault);
  }

  /** The technician table's default name is already an identifier */
  lemma TechTableDefaultSafe()
    ensures IsIdentifier(TechTableDefault)
  {
    SafeJoin("ars_technician_", "_01_21_2026_");
    SafeJoin("ars_technician_" + "_01_21_2026_", "ars_technician");
  }

  /** Two safe strings joined are safe */
  lemma SafeJoin(a: string, b: string)
    requires IsSafe(a) && IsSafe(b)
    ensures IsSafe(a + b)
  {
    assert forall i :: 0 <= i < |a + b| ==> (a + b)[i] == if i < |a| then a[i] else b[i - |a|];
  }

  /** The aliases of Tech ID, first name, last name, region, zone, type, city, state and zip */
  const TechAliases: seq<seq<string>> := [
    ["tech_id", "techid", "techid_2", "tech", "col_1"],
    ["first_name", "firstname", "col_2"],
    ["last_name", "lastname", "col_3"],
    ["region", "col_4"],
    ["zone", "col_5"],
    ["type", "col_6"],
    ["city", "col_7"],
    ["state", "col_8"],
    ["zip", "zip_code", "col_9"]
  ]

  /** One row of `TECH_DB_ROWS` */
  function TechdbRow(x: Record<string>): (row: seq<string>)
    ensures |row| == 9
  {
    seq(9, i requires 0 <= i < 9 => OrEmpty(Coalesce(x, TechAliases[i])))
  }

  /** A served row as the on-call page reads it: nine text cells */
  function AsCells(row: seq<string>): Cells.Row
  {
    seq(|row|, i requires 0 <= i < |row| => Cells.Text(row[i]))
  }

  lemma FieldOfText(row: seq<string>, i: nat)
    requires i < |row|
    ensures Lookups.Field(AsCells(row), i) == Trim(row[i])
  {
    if row[i] == "" {
      TrimNoEnds(row[i]);
    }
  }

  /**
   * A served nine-column row loads on the on-call page as the technician
   * keyed by the trimmed Tech ID, with the other fields trimmed in the same
   * order; a row whose Tech ID is blank loads nothing
   */
  lemma ServedRowLoads(row: seq<string>)
    requires |row| == 9
    ensures var e := Lookups.TechEntry(AsCells(row));
      (e.None? <==> Trim(row[0]) == "") &&
      (e.Some? ==>
        e.value.0 == Trim(row[0]) &&
        e.value.1 == Lookups.Tech(Trim(row[0]), Trim(row[1]), Trim(row[2]), Trim(row[3]), Trim(row[4]),
                                  Trim(row[5]), Trim(row[6]), Trim(row[7]), Cells.NormalizeZip(Cells.Text(row[8]))))
  {
    forall i | 0 <= i < 9 ensures Lookups.Field(AsCells(row), i) == Trim(row[i]) {
      FieldOfText(row, i);
    }
  }

  /** One row of `ZIP_DB_ROWS`: coordinates through `Number`, city and state trimmed and case-folded */
  function UszipsRow(x: Record<string>, num: string -> Option<real>): ZipRow
  {
    ZipRow(OrEmpty(Coalesce(x, ["zip", "zip_code", "col_1"])),
           NumberOf(Coalesce(x, ["lat", "latitude", "col_2"]), num),
           NumberOf(Coalesce(x, ["lon", "longitude", "col_3"]), num),
           CityKey(OrEmpty(Coalesce(x, ["city", "col_4"]))),
           StateKey(OrEmpty(Coalesce(x, ["state", "col_5"]))))
  }

  /** Every uszips row is case-folded, and a row without coordinates reads as `0, 0` */
  lemma UszipsRowSpec(x: Record<string>, num: string -> Option<real>)
    ensures CaseFolded(UszipsRow(x, num))
    ensures At(x, "lat") == At(x, "latitude") == At(x, "col_2") == None ==> UszipsRow(x, num).lat == Some(0.0)
  {
    ZipRowCaseFolded(OrEmpty(Coalesce(x, ["zip", "zip_code", "col_1"])),
                     NumberOf(Coalesce(x, ["lat", "latitude", "col_2"]), num),
                     NumberOf(Coalesce(x, ["lon", "longitude", "col_3"]), num),
                     OrEmpty(Coalesce(x, ["city", "col_4"])), OrEmpty(Coalesce(x, ["state", "col_5"])));
    CoalesceSpec(x, ["lat", "latitude", "col_2"]);
  }
}
