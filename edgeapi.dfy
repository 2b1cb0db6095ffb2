/**
 * The serverless `api` function: the same read routes as the backend, over
 * the hosted database, plus the two Canadian routes. It strips the mount
 * prefix from the path, dispatches on it, clamps `limit`, picks each field
 * from a list of column aliases skipping blank values, and projects rows
 * into the shapes the on-call page and the Canadian page load.
 *
 * The database client, `decodeURIComponent`, `Number` and the environment
 * are parameters; CORS headers and the `OPTIONS` answer are not modelled.
 */
module EdgeApi {
  import opened Wrappers
  import opened Strings
  import opened Records
  import opened Lookups
  import Canada
  import Server

  // ---------------------------------------------------------------------
  // pick

  /** `obj[k] != null && String(obj[k]).trim() !== ""` */
  predicate Filled(v: Option<string>)
  {
    v.Some? && Trim(v.value) != ""
  }

  /** `pick(obj, keys, fallback)`: the first alias with a non-blank value, else the fallback */
  function Pick(x: Record<string>, keys: seq<string>, fallback: Option<string>): Option<string>
  {
    if keys == [] then fallback
    else if Filled(At(x, keys[0])) then At(x, keys[0])
    else Pick(x, keys[1..], fallback)
  }

  /**
   * `pick` gives the value of the first alias whose value is neither `null`
   * nor blank, and the fallback exactly when there is none
   */
  lemma {:induction false} PickSpec(x: Record<string>, keys: seq<string>, fallback: Option<string>)
    ensures (forall i :: 0 <= i < |keys| ==> !Filled(At(x, keys[i]))) ==> Pick(x, keys, fallback) == fallback
    ensures (exists i :: 0 <= i < |keys| && Filled(At(x, keys[i]))) ==>
      exists i :: 0 <= i < |keys| && Filled(At(x, keys[i])) && Pick(x, keys, fallback) == At(x, keys[i]) &&
        forall j :: 0 <= j < i ==> !Filled(At(x, keys[j]))
    decreases |keys|
  {
    if keys != [] {
      PickSpec(x, keys[1..], fallback);
      if !Filled(At(x, keys[0])) {
        assert forall i :: 1 <= i < |keys| ==> keys[i] == keys[1..][i - 1];
        if exists i :: 0 <= i < |keys| && Filled(At(x, keys[i])) {
          var i :| 0 <= i < |keys| && Filled(At(x, keys[i]));
          assert Filled(At(x, keys[1..][i - 1]));
          var i' :| 0 <= i' < |keys| - 1 && Filled(At(x, keys[1..][i'])) && Pick(x, keys[1..], fallback) == At(x, keys[1..][i']) &&
            forall j :: 0 <= j < i' ==> !Filled(At(x, keys[1..][j]));
          assert forall j :: 0 <= j < i' + 1 ==> !Filled(At(x, keys[j])) by {
            forall j | 0 <= j < i' + 1 ensures !Filled(At(x, keys[j])) {
              if j > 0 { assert keys[j] == keys[1..][j - 1]; }
            }
          }
        }
      }
    }
  }

  /** `String(pick(obj, keys, ""))` */
  function PickText(x: Record<string>, keys: seq<string>): string
  {
    OrEmpty(Pick(x, keys, Some("")))
  }

  /** A picked text is empty or has something besides white space: blank values are skipped */
  lemma {:induction false} PickTextNeverBlank(x: Record<string>, keys: seq<string>)
    ensures PickText(x, keys) == "" || Trim(PickText(x, keys)) != ""
    decreases |keys|
  {
    if keys != [] {
      PickTextNeverBlank(x, keys[1..]);
    }
  }

  // ---------------------------------------------------------------------
  // Paths and routes

  const MountPrefix: string := "/functions/v1/api"

  /** `p.replace(/^\/functions\/v1\/api/, "")`, then a leading `/` added when missing */
  function NormalizePath(p: string): (r: string)
    ensures |r| > 0 && r[0] == '/'
  {
    var q := if StartsWith(p, MountPrefix) then p[|MountPrefix|..] else p;
    if StartsWith(q, "/") then q else "/" + q
  }

  /** The mount prefix is invisible: a path behind it routes as the path itself */
  lemma NormalizePathMount(q: string)
    requires !StartsWith(q, MountPrefix)
    ensures NormalizePath(MountPrefix + q) == NormalizePath(q)
  {
    assert (MountPrefix + q)[..|MountPrefix|] == MountPrefix;
    assert (MountPrefix + q)[|MountPrefix|..] == q;
  }

  /** A path that starts with `/` and is not behind the mount prefix is already normal */
  lemma NormalizePathOfNormal(p: string)
    requires StartsWith(p, "/") && !StartsWith(p, MountPrefix)
    ensures NormalizePath(p) == p
  {
  }

  datatype Route = TechDb | UsZips | W2TechDb | PostalProv | ExportTable(segment: string) | NotFound

  /** `p.split("/")[2] || ""` */
  function ExportSegment(p: string): string
  {
    var parts := Split(p, '/');
    if |parts| > 2 then parts[2] else ""
  }

  /** The route the handler takes for a request path */
  function RouteOf(pathname: string): Route
  {
    var p := NormalizePath(pathname);
    if p == "/oncall/techdb" then TechDb
    else if p == "/oncall/uszips" then UsZips
    else if p == "/canada/w2techdb" then W2TechDb
    else if p == "/canada/postalprov" then PostalProv
    else if StartsWith(p, "/export/") then ExportTable(ExportSegment(p))
    else NotFound
  }

  /** Requests behind the mount prefix route as those without it */
  lemma RouteOfMount(q: string)
    requires !StartsWith(q, MountPrefix)
    ensures RouteOf(MountPrefix + q) == RouteOf(q)
  {
    NormalizePathMount(q);
  }

  lemma ExportSegmentOf(t: string)
    ensures ExportSegment("/export/" + t) == Split(t, '/')[0]
  {
    var rest := "export" + ['/'] + t;
    SplitJoin("export", '/', t);
    SplitJoin([], '/', rest);
    assert "/export/" + t == [] + ['/'] + rest;
    var parts := Split("/export/" + t, '/');
    assert parts == [[]] + (["export"] + Split(t, '/'));
    assert parts[2] == Split(t, '/')[0];
  }

  /** `/export/<t>` exports the table named by `t` up to its first `/` */
  lemma RouteOfExport(t: string)
    ensures RouteOf("/export/" + t) == ExportTable(Split(t, '/')[0])
  {
    var p := "/export/" + t;
    assert p[1] == 'e';
    assert !StartsWith(p, MountPrefix);
    assert StartsWith(p, "/") && StartsWith(p, "/export/");
    NormalizePathOfNormal(p);
    assert p != "/oncall/techdb" && p != "/oncall/uszips" && p != "/canada/w2techdb" && p != "/canada/postalprov";
    ExportSegmentOf(t);
  }

  // ---------------------------------------------------------------------
  // Read routes

  /** The `from(table).select("*").range(0, limit - 1)` a route issues */
  datatype EdgeQuery = EdgeQuery(table: string, limit: Option<real>)

  datatype EdgeError = TableNotSet | TableNotAllowed | BadTableName

  const MaxLimit: real := 200000.0

  /** /oncall/techdb and /oncall/uszips: the table parameter or the configured table; 200000 rows at most */
  function OncallQuery(tableParam: string, envTable: string, limitParam: string, num: string -> Option<real>): (q: EdgeQuery)
    ensures q.limit.Some? ==> 1.0 <= q.limit.value <= MaxLimit
    ensures limitParam == "" ==> q.limit == Some(MaxLimit)
  {
    EdgeQuery(FirstSet(tableParam, envTable, ""), LimitOf(limitParam, num, 200000.0, MaxLimit))
  }

  /** Tech ID, first name, last name, region, zone, type, city, state, zip */
  const TechAliases: seq<seq<string>> := [
    ["tech_id", "techid", "tech", "id", "col_1"],
    ["first_name", "firstname", "col_2"],
    ["last_name", "lastname", "col_3"],
    ["region", "col_4"],
    ["zone", "col_5"],
    ["type", "col_6"],
    ["city", "col_7"],
    ["state", "col_8"],
    ["zip", "zip_code", "col_9"]
  ]

  /** One row of `TECH_DB_ROWS` as the edge function serves it */
  function TechdbRow(x: Record<string>): (row: seq<string>)
    ensures |row| == 9
  {
    seq(9, i requires 0 <= i < 9 => PickText(x, TechAliases[i]))
  }

  /**
   * Every field of an edge techdb row is empty or non-blank, and the row
   * loads on the on-call page as the technician keyed by its trimmed Tech ID
   */
  lemma TechdbRowSpec(x: Record<string>)
    ensures forall i :: 0 <= i < 9 ==> TechdbRow(x)[i] == "" || Trim(TechdbRow(x)[i]) != ""
    ensures var e := TechEntry(Server.AsCells(TechdbRow(x)));
      (e.None? <==> Trim(TechdbRow(x)[0]) == "") && (e.Some? ==> e.value.0 == Trim(TechdbRow(x)[0]))
  {
    forall i | 0 <= i < 9 ensures TechdbRow(x)[i] == "" || Trim(TechdbRow(x)[i]) != "" {
      PickTextNeverBlank(x, TechAliases[i]);
    }
    Server.ServedRowLoads(TechdbRow(x));
  }

  /** The backend takes a blank Tech ID as it is; the edge function skips it for the next alias */
  lemma BlankIdDiffers()
    ensures Server.TechdbRow([("tech_id", Some(" ")), ("techid", Some("42"))])[0] == " "
    ensures TechdbRow([("tech_id", Some(" ")), ("techid", Some("42"))])[0] == "42"
  {
    var x: Record<string> := [("tech_id", Some(" ")), ("techid", Some("42"))];
    assert At(x, "tech_id") == Some(" ");
    assert At(x, "techid") == Some("42");
    assert Trim(" ") == "";
    assert Trim("42") == "42" by { TrimOfNoSpace("42"); }
    assert Server.Coalesce(x, Server.TechAliases[0]) == Some(" ");
    assert Pick(x, TechAliases[0], Some("")) == Some("42");
  }

  /** One row of `ZIP_DB_ROWS` as the edge function serves it: `pick(..., null)` for the coordinates */
  function UszipsRow(x: Record<string>, num: string -> Option<real>): ZipRow
  {
    ZipRow(PickText(x, ["zip", "zip_code", "col_1"]),
           NumberOf(Pick(x, ["lat", "latitude", "col_2"], None), num),
           NumberOf(Pick(x, ["lon", "longitude", "col_3"], None), num),
           CityKey(PickText(x, ["city", "col_4"])),
           StateKey(PickText(x, ["state", "col_5"])))
  }

  /** Every uszips row is case-folded, and a row with no usable latitude reads latitude 0 */
  lemma UszipsRowSpec(x: Record<string>, num: string -> Option<real>)
    ensures CaseFolded(UszipsRow(x, num))
    ensures !Filled(At(x, "lat")) && !Filled(At(x, "latitude")) && !Filled(At(x, "col_2")) ==> UszipsRow(x, num).lat == Some(0.0)
  {
    ZipRowCaseFolded(PickText(x, ["zip", "zip_code", "col_1"]),
                     NumberOf(Pick(x, ["lat", "latitude", "col_2"], None), num),
                     NumberOf(Pick(x, ["lon", "longitude", "col_3"], None), num),
                     PickText(x, ["city", "col_4"]), PickText(x, ["state", "col_5"]));
    PickSpec(x, ["lat", "latitude", "col_2"], None);
  }

  // ---------------------------------------------------------------------
  // Canadian routes

  /** /canada/w2techdb: no table configured is a 400; 5000 rows by default, 50000 at most */
  function W2Query(tableParam: string, envTable: string, limitParam: string, num: string -> Option<real>): (r: Result<EdgeQuery, EdgeError>)
    ensures r.Err? <==> tableParam == "" && envTable == ""
    ensures r.Ok? && r.value.limit.Some? ==> 1.0 <= r.value.limit.value <= 50000.0
    ensures r.Ok? && limitParam == "" ==> r.value.limit == Some(5000.0)
  {
    var table := FirstSet(tableParam, envTable, "");
    if table == "" then Err(TableNotSet) else Ok(EdgeQuery(table, LimitOf(limitParam, num, 5000.0, 50000.0)))
  }

  /** `.replace(/\s+/g, "").toUpperCase()` */
  function CleanPostal(s: string): string
  {
    Upper(RemoveSpaces(s))
  }

  /** One technician object of /canada/w2techdb */
  function W2Tech(x: Record<string>): Canada.CaTech
  {
    Canada.CaTech(PickText(x, ["tech_id", "techid", "id", "tech"]),
                  PickText(x, ["name", "full_name", "tech_name", "col_2", "col_1"]),
                  PickText(x, ["city", "col_3"]),
                  Upper(PickText(x, ["province", "prov", "state", "col_4"])),
                  CleanPostal(PickText(x, ["postal", "postal_code", "postalcode", "postcode", "col_5", "zip"])))
  }

  /**
   * A served technician's id is empty or not blank, and its postal code has
   * no white space and places the technician as the stored value would
   */
  lemma W2TechSpec(x: Record<string>)
    ensures var t := W2Tech(x);
      (t.techId == "" || Trim(t.techId) != "") && NoSpace(t.postal) &&
      Canada.NormalizePostal(t.postal) ==
        Canada.NormalizePostal(PickText(x, ["postal", "postal_code", "postalcode", "postcode", "col_5", "zip"]))
  {
    PickTextNeverBlank(x, ["tech_id", "techid", "id", "tech"]);
    CleanPostalSpec(PickText(x, ["postal", "postal_code", "postalcode", "postcode", "col_5", "zip"]));
  }

  lemma {:induction false} KeepAlnumRemoveSpaces(t: string)
    ensures Canada.KeepAlnum(RemoveSpaces(t)) == Canada.KeepAlnum(t)
    decreases |t|
  {
    if t != [] {
      KeepAlnumRemoveSpaces(t[1..]);
      if !IsSpace(t[0]) {
        var r := RemoveSpaces(t[1..]);
        assert ([t[0]] + r)[0] == t[0] && ([t[0]] + r)[1..] == r;
      }
    }
  }

  lemma {:induction false} UpperRemoveSpaces(s: string)
    ensures Upper(RemoveSpaces(s)) == RemoveSpaces(Upper(s))
    decreases |s|
  {
    if s != [] {
      UpperRemoveSpaces(s[1..]);
      assert Upper(s)[1..] == Upper(s[1..]);
      if !IsSpace(s[0]) {
        assert Upper([s[0]] + RemoveSpaces(s[1..])) == [UpperChar(s[0])] + Upper(RemoveSpaces(s[1..]));
      }
    }
  }

  lemma {:induction false} KeepAlnumTrimStart(t: string)
    ensures Canada.KeepAlnum(TrimStart(t)) == Canada.KeepAlnum(t)
    decreases |t|
  {
    if |t| > 0 && IsSpace(t[0]) {
      KeepAlnumTrimStart(t[1..]);
    }
  }

  lemma {:induction false} KeepAlnumTrimEnd(t: string)
    ensures Canada.KeepAlnum(TrimEnd(t)) == Canada.KeepAlnum(t)
    decreases |t|
  {
    if |t| > 0 && IsSpace(t[|t| - 1]) {
      var n := |t| - 1;
      KeepAlnumTrimEnd(t[..n]);
      assert t == t[..n] + [t[n]];
      Canada.KeepAlnumAppend(t[..n], [t[n]]);
      assert Canada.KeepAlnum([t[n]]) == [];
    }
  }

  /**
   * The postal code the edge function serves has no white space and no
   * lower-case letter, and normalises to the same code as the stored value,
   * so the Canadian page places the technician the same way
   */
  lemma CleanPostalSpec(s: string)
    ensures NoSpace(CleanPostal(s)) && forall i :: 0 <= i < |CleanPostal(s)| ==> !IsLower(CleanPostal(s)[i])
    ensures Canada.NormalizePostal(CleanPostal(s)) == Canada.NormalizePostal(s)
  {
    CleanPostalKeeps(s);
    NormalizeOfKept(CleanPostal(s), s);
  }

  /** The cleaned value keeps the same letters and digits, upper-cased */
  lemma CleanPostalKeeps(s: string)
    ensures NoSpace(CleanPostal(s)) && forall i :: 0 <= i < |CleanPostal(s)| ==> !IsLower(CleanPostal(s)[i])
    ensures Canada.KeepAlnum(Trim(Upper(CleanPostal(s)))) == Canada.KeepAlnum(Trim(Upper(s)))
  {
    var c := CleanPostal(s);
    assert Upper(c) == c;
    TrimOfNoSpace(c);
    UpperRemoveSpaces(s);
    KeepAlnumRemoveSpaces(Upper(s));
    KeepAlnumTrimStart(Upper(s));
    KeepAlnumTrimEnd(TrimStart(Upper(s)));
  }

  /** `normalizePostal` looks only at the letters and digits of the trimmed, upper-cased text */
  lemma NormalizeOfKept(a: string, b: string)
    requires Canada.KeepAlnum(Trim(Upper(a))) == Canada.KeepAlnum(Trim(Upper(b)))
    ensures Canada.NormalizePostal(a) == Canada.NormalizePostal(b)
  {
  }

  /** /canada/postalprov: `None` when no table is configured (the disabled answer); 50000 rows by default, 200000 at most */
  function PostalProvQuery(tableParam: string, envTable: string, limitParam: string, num: string -> Option<real>): (r: Option<EdgeQuery>)
    ensures r.None? <==> tableParam == "" && envTable == ""
    ensures r.Some? && r.value.limit.Some? ==> 1.0 <= r.value.limit.value <= MaxLimit
    ensures r.Some? && limitParam == "" ==> r.value.limit == Some(50000.0)
  {
    var table := FirstSet(tableParam, envTable, "");
    if table == "" then None else Some(EdgeQuery(table, LimitOf(limitParam, num, 50000.0, MaxLimit)))
  }

  /** The entry one row adds to `mapping`: only when both the postal code and the province are non-empty */
  function ProvEntry(x: Record<string>): Option<(string, string)>
  {
    var postal := CleanPostal(PickText(x, ["postal", "postal_code", "postalcode", "col_1"]));
    var prov := Upper(PickText(x, ["province", "prov", "state", "col_2"]));
    if postal != "" && prov != "" then Some((postal, prov)) else None
  }

  /** The `for (const x of data)` loop filling `mapping` */
  method PostalProvMapping(data: seq<Record<string>>) returns (mapping: map<string, string>)
    ensures mapping == Keyed(data, ProvEntry)
  {
    mapping := FillTable(data, ProvEntry);
  }

  /**
   * A postal code is in the mapping exactly when some row gives it, with the
   * province of the last such row; keys and provinces are non-empty, keys
   * have no white space
   */
  lemma PostalProvSpec(data: seq<Record<string>>, k: string)
    ensures k in Keyed(data, ProvEntry) <==>
      exists i :: 0 <= i < |data| && ProvEntry(data[i]).Some? && ProvEntry(data[i]).value.0 == k
    ensures k in Keyed(data, ProvEntry) ==>
      k != "" && NoSpace(k) && Keyed(data, ProvEntry)[k] != "" &&
      exists i :: LastWith(data, ProvEntry, k, i) && Keyed(data, ProvEntry)[k] == ProvEntry(data[i]).value.1
  {
    KeyedSpec(data, ProvEntry, k);
    if k in Keyed(data, ProvEntry) {
      var i :| LastWith(data, ProvEntry, k, i) && Keyed(data, ProvEntry)[k] == ProvEntry(data[i]).value.1;
      var p := PickText(data[i], ["postal", "postal_code", "postalcode", "col_1"]);
      CleanPostalSpec(p);
    }
  }

  // ---------------------------------------------------------------------
  // /export/<table>

  /** `ALLOWED_TABLES`: the configured tables that are set */
  function AllowedTables(configured: seq<string>): (allowed: set<string>)
    ensures forall t :: t in allowed <==> t in configured && t != ""
  {
    set t | t in configured && t != ""
  }

  /** The table of an export: the decoded path segment, refused when an allow-list exists and lacks it */
  function ExportTableOf(segment: string, decode: string -> Option<string>, allowed: set<string>): (r: Result<string, EdgeError>)
    ensures r.Ok? <==> decode(segment).Some? && (allowed == {} || decode(segment).value in allowed)
    ensures r.Ok? ==> r.value == decode(segment).value
    ensures decode(segment).Some? && allowed != {} && decode(segment).value !in allowed ==> r == Err(TableNotAllowed)
  {
    var t := decode(segment);
    if t.None? then Err(BadTableName)
    else if |allowed| > 0 && t.value !in allowed then Err(TableNotAllowed)
    else Ok(t.value)
  }

  /** The format, lower-cased, and the limit: 200000 by default for `aoa`, 500 otherwise, 200000 at most */
  function ExportQueryOf(table: string, formatParam: string, limitParam: string, num: string -> Option<real>): (r: (string, EdgeQuery))
    ensures r.1.table == table
    ensures r.1.limit.Some? ==> 1.0 <= r.1.limit.value <= MaxLimit
    ensures limitParam == "" ==> r.1.limit == Some(if r.0 == "aoa" then 200000.0 else 500.0)
  {
    var format := Lower(FirstSet(formatParam, "", "json"));
    (format, EdgeQuery(table, LimitOf(limitParam, num, if format == "aoa" then 200000.0 else 500.0, MaxLimit)))
  }

  /** The reply to an export: `aoa` takes its columns from the first row's keys */
  function ExportReplyOf<V>(table: string, format: string, data: seq<Record<V>>): Server.ExportReply<V>
  {
    if format == "aoa" then
      var cols := WithoutId(if data == [] then [] else Keys(data[0]));
      Server.AoaReply(table, cols, AoaRows(cols, data))
    else Server.JsonReply(table, data)
  }

  /**
   * An `aoa` export has as columns the first row's keys but `_id` (none for
   * no rows), and every row has one entry per column, `null` when missing
   */
  lemma ExportReplySpec<V>(table: string, format: string, data: seq<Record<V>>)
    ensures var r := ExportReplyOf(table, format, data);
      r.table == table && (r.AoaReply? <==> format == "aoa") &&
      (r.JsonReply? ==> r.records == data) &&
      (r.AoaReply? ==>
        "_id" !in r.columns && (data == [] ==> r.columns == []) &&
        (data != [] ==> forall i :: 0 <= i < |data[0]| && data[0][i].0 != "_id" ==> data[0][i].0 in r.columns) &&
        |r.rows| == |data| &&
        forall k, j :: 0 <= k < |data| && 0 <= j < |r.columns| ==> |r.rows[k]| == |r.columns| && r.rows[k][j] == At(data[k], r.columns[j]))
  {
    if format == "aoa" && data != [] {
      var ks := Keys(data[0]);
      assert forall i :: 0 <= i < |data[0]| ==> ks[i] == data[0][i].0;
    }
  }
}
