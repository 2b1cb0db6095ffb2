/**
 * The spreadsheet importer of the backend: workbook sheets become database
 * tables. `safeName` turns any text into an identifier, `sheetToRows` names
 * one column per header and re-keys every record by those names,
 * `insertRows` sends the rows in chunks of numbered placeholders, and the
 * upload route and the seeding script decide table names and when a table
 * is dropped.
 *
 * The spreadsheet library, the database pool and Express are not modelled:
 * a sheet arrives as the records `sheet_to_json` yields, and the database
 * work is returned as the list of statements the importer issues.
 */
module TableImport {
  import opened Wrappers
  import opened Strings
  import opened Lookups
  import opened Records

  // ---------------------------------------------------------------------
  // safeName

  /** `[a-z0-9_]` */
  predicate IsSafeChar(c: char)
  {
    IsLower(c) || IsDigit(c) || c == '_'
  }

  predicate IsSafe(s: string)
  {
    forall i :: 0 <= i < |s| ==> IsSafeChar(s[i])
  }

  /** `replace(/\s+/g, '_')` */
  function SpacesToUnderscore(s: string): string
    decreases |s|
  {
    if s == [] then []
    else if IsSpace(s[0]) then "_" + SpacesToUnderscore(SkipSpaces(s[1..]))
    else [s[0]] + SpacesToUnderscore(s[1..])
  }

  /** `replace(/[^a-z0-9_]/g, '')` */
  function KeepSafe(s: string): (r: string)
    ensures IsSafe(r) && |r| <= |s|
  {
    if s == [] then []
    else (if IsSafeChar(s[0]) then [s[0]] else []) + KeepSafe(s[1..])
  }

  /** `replace(/^(\d)/, '_$1')` */
  function GuardDigit(s: string): string
  {
    if |s| > 0 && IsDigit(s[0]) then "_" + s else s
  }

  /** `slice(0, 60)` */
  function Cut60(s: string): string
  {
    if |s| > 60 then s[..60] else s
  }

  /** `safeName`: trimmed, lower-cased, white space runs as `_`, other characters dropped */
  function SafeName(s: string): string
  {
    Cut60(GuardDigit(KeepSafe(SpacesToUnderscore(Lower(Trim(s))))))
  }

  /** An identifier: only `[a-z0-9_]`, at most 60 characters, never a digit first */
  predicate IsIdentifier(r: string)
  {
    IsSafe(r) && |r| <= 60 && (r == "" || !IsDigit(r[0]))
  }

  lemma SafeNameShape(s: string)
    ensures IsIdentifier(SafeName(s))
  {
    var k := KeepSafe(SpacesToUnderscore(Lower(Trim(s))));
    var g := GuardDigit(k);
    assert IsSafe(g);
    assert g == "" || !IsDigit(g[0]);
  }

  lemma {:induction false} UnderscoreOfNoSpace(s: string)
    requires NoSpace(s)
    ensures SpacesToUnderscore(s) == s
    decreases |s|
  {
    if s != [] {
      UnderscoreOfNoSpace(s[1..]);
    }
  }

  lemma {:induction false} KeepSafeOfSafe(s: string)
    requires IsSafe(s)
    ensures KeepSafe(s) == s
    decreases |s|
  {
    if s != [] {
      KeepSafeOfSafe(s[1..]);
    }
  }

  /** An identifier is its own safe name */
  lemma SafeNameOfIdentifier(r: string)
    requires IsIdentifier(r)
    ensures SafeName(r) == r
  {
    assert NoSpace(r);
    TrimOfNoSpace(r);
    assert Lower(r) == r;
    UnderscoreOfNoSpace(r);
    KeepSafeOfSafe(r);
  }

  /** `safeName` is idempotent */
  lemma SafeNameIdempotent(s: string)
    ensures SafeName(SafeName(s)) == SafeName(s)
  {
    SafeNameShape(s);
    SafeNameOfIdentifier(SafeName(s));
  }

  // ---------------------------------------------------------------------
  // sheetToRows: column names

  /** The name a header gets before duplicates are counted: its safe name, or `col_{i+1}` */
  function BaseName(raw: string, i: nat): string
  {
    var n := SafeName(raw);
    if n == "" then "col_" + NatToString(i + 1) else n
  }

  /** The base names of all headers */
  function Bases(raw: seq<string>): (b: seq<string>)
    ensures |b| == |raw| && forall i :: 0 <= i < |raw| ==> b[i] == BaseName(raw[i], i)
  {
    seq(|raw|, i requires 0 <= i < |raw| => BaseName(raw[i], i))
  }

  /** How often `x` occurs in `s` */
  function Count(s: seq<string>, x: string): nat
  {
    if s == [] then 0 else Count(s[..|s| - 1], x) + (if s[|s| - 1] == x then 1 else 0)
  }

  /** Column `i`: its base name, followed by `_k` when it is the `k`-th header with that base name, `k > 1` */
  function ColumnName(bases: seq<string>, i: nat): string
    requires i < |bases|
  {
    var k := Count(bases[..i + 1], bases[i]);
    if k > 1 then bases[i] + "_" + NatToString(k) else bases[i]
  }

  /** Every base name followed by its repeat count when it repeats */
  function Numbered(b: seq<string>): (cols: seq<string>)
    ensures |cols| == |b|
  {
    seq(|b|, i requires 0 <= i < |b| => ColumnName(b, i))
  }

  /** The columns `sheetToRows` names for the headers `raw` */
  function ColumnsOf(raw: seq<string>): (cols: seq<string>)
    ensures |cols| == |raw|
  {
    Numbered(Bases(raw))
  }

  /** The `seen` counters of the `rawCols.map` loop, over the headers' base names */
  method NumberColumns(b: seq<string>) returns (columns: seq<string>)
    ensures columns == Numbered(b)
  {
    var seen: map<string, nat> := map[];
    columns := [];
    for i := 0 to |b|
      invariant |columns| == i && forall j :: 0 <= j < i ==> columns[j] == ColumnName(b, j)
      invariant forall x :: (x in seen ==> seen[x] == Count(b[..i], x)) && (x !in seen ==> Count(b[..i], x) == 0)
    {
      CountStep(b, i);
      var name := b[i];
      var n := (if name in seen then seen[name] else 0) + 1;
      seen := seen[name := n];
      if n > 1 {
        name := name + "_" + NatToString(n);
      }
      assert name == ColumnName(b, i);
      columns := columns + [name];
    }
  }

  /** One more header adds one to its own count and leaves the others' */
  lemma CountStep(b: seq<string>, i: nat)
    requires i < |b|
    ensures forall x :: Count(b[..i + 1], x) == Count(b[..i], x) + (if b[i] == x then 1 else 0)
  {
    assert b[..i + 1][..i] == b[..i];
  }

  /** The `rawCols.map` of `sheetToRows`: `safeName(c) || col_{i+1}`, then the repeat suffix */
  method SheetColumns(rawCols: seq<string>) returns (columns: seq<string>)
    ensures columns == ColumnsOf(rawCols)
  {
    columns := NumberColumns(Bases(rawCols));
  }

  /** A base name is a non-empty identifier, apart from the 60-character bound of `col_{i+1}` */
  lemma BaseNameShape(raw: string, i: nat)
    ensures var n := BaseName(raw, i); n != "" && IsSafe(n) && !IsDigit(n[0])
  {
    SafeNameShape(raw);
  }

  /** Every column is a non-empty name of `[a-z0-9_]` that does not start with a digit */
  lemma ColumnsShape(raw: seq<string>, i: nat)
    requires i < |raw|
    ensures var c := ColumnsOf(raw)[i]; c != "" && IsSafe(c) && !IsDigit(c[0])
  {
    BaseNameShape(raw[i], i);
  }

  lemma CountGrows(s: seq<string>, i: nat, j: nat)
    requires i < j < |s| && s[i] == s[j]
    ensures Count(s[..j + 1], s[j]) > Count(s[..i + 1], s[i]) >= 1
  {
    assert s[..j + 1][..j] == s[..j];
    assert s[..i + 1][..i] == s[..i];
    CountAtLeast(s[..j], i, s[j]);
    assert s[..j][..i + 1] == s[..i + 1];
  }

  lemma {:induction false} CountAtLeast(s: seq<string>, k: nat, x: string)
    requires k < |s|
    ensures Count(s, x) >= Count(s[..k + 1], x)
    decreases |s|
  {
    if k < |s| - 1 {
      assert s[..|s| - 1][..k + 1] == s[..k + 1];
      CountAtLeast(s[..|s| - 1], k, x);
    } else {
      assert s[..k + 1] == s;
    }
  }

  lemma NatToStringInjective(a: nat, b: nat)
    requires NatToString(a) == NatToString(b)
    ensures a == b
  {
    DigitsValueOfNatToString(a);
    DigitsValueOfNatToString(b);
  }

  /**
   * Two headers with the same base name never get the same column; the
   * names are not unique in general, as `HeadersMayCollide` shows
   */
  lemma SameBaseDistinct(raw: seq<string>, i: nat, j: nat)
    requires i < j < |raw| && Bases(raw)[i] == Bases(raw)[j]
    ensures ColumnsOf(raw)[i] != ColumnsOf(raw)[j]
  {
    var b := Bases(raw);
    var x := b[i];
    CountGrows(b, i, j);
    var ki, kj := Count(b[..i + 1], x), Count(b[..j + 1], x);
    var ci, cj := ColumnsOf(raw)[i], ColumnsOf(raw)[j];
    assert cj == x + "_" + NatToString(kj);
    if ki > 1 {
      assert ci == x + "_" + NatToString(ki);
      if ci == cj {
        assert ci[|x| + 1..] == NatToString(ki);
        assert cj[|x| + 1..] == NatToString(kj);
        NatToStringInjective(ki, kj);
      }
    } else {
      assert |ci| < |cj|;
    }
  }

  /** Headers that are already non-empty identifiers are their own base names */
  lemma BasesOfIdentifiers(raw: seq<string>)
    requires forall i :: 0 <= i < |raw| ==> raw[i] != "" && IsIdentifier(raw[i])
    ensures Bases(raw) == raw
  {
    forall i | 0 <= i < |raw|
      ensures Bases(raw)[i] == raw[i]
    {
      SafeNameOfIdentifier(raw[i]);
    }
  }

  lemma NumberedCollide()
    ensures Numbered(["a", "a_2", "a"]) == ["a", "a_2", "a_2"]
  {
    var b := ["a", "a_2", "a"];
    assert b[..1] == ["a"] && b[..2] == ["a", "a_2"] && b[..3] == b;
    assert b[..2][..1] == b[..1] && b[..3][..2] == b[..2];
    assert b[..1][..0] == [];
    assert Count(b[..1], "a") == 1 && Count(b[..1], "a_2") == 0;
    assert Count(b[..2], "a_2") == 1 && Count(b[..2], "a") == 1;
    assert Count(b[..3], "a") == 2;
    assert NatToString(2) == "2";
    assert ColumnName(b, 0) == "a" && ColumnName(b, 1) == "a_2" && ColumnName(b, 2) == "a_2";
    var n := Numbered(b);
    assert n[0] == "a" && n[1] == "a_2" && n[2] == "a_2";
  }

  /** Column names can still collide: headers `a`, `a_2`, `a` give `a`, `a_2`, `a_2` */
  lemma HeadersMayCollide()
    ensures ColumnsOf(["a", "a_2", "a"]) == ["a", "a_2", "a_2"]
  {
    var raw := ["a", "a_2", "a"];
    assert IsIdentifier("a");
    assert "a_2"[0] == 'a' && "a_2"[1] == '_' && "a_2"[2] == '2';
    assert IsIdentifier("a_2");
    assert raw[0] == "a" && raw[1] == "a_2" && raw[2] == "a";
    BasesOfIdentifiers(raw);
    NumberedCollide();
  }

  // ---------------------------------------------------------------------
  // sheetToRows: rows

  /** The `out` object built for one record: column name to value */
  type Fields<V> = map<string, Option<V>>

  /** Column `i` paired with the header it reads */
  function Pairs(columns: seq<string>, rawCols: seq<string>): (ps: seq<(string, string)>)
    requires |columns| == |rawCols|
    ensures |ps| == |columns| && forall i :: 0 <= i < |ps| ==> ps[i] == (columns[i], rawCols[i])
  {
    seq(|columns|, i requires 0 <= i < |columns| => (columns[i], rawCols[i]))
  }

  /** `out[columns[i]] = obj[k]` for one pair */
  function Assign<V>(rec: Record<V>): ((string, string)) -> Option<(string, Option<V>)>
  {
    (p: (string, string)) => Some((p.0, At(rec, p.1)))
  }

  /** The `rawCols.forEach` loop for one record: later columns overwrite earlier ones of the same name */
  function RowOf<V>(columns: seq<string>, rawCols: seq<string>, rec: Record<V>): Fields<V>
    requires |columns| == |rawCols|
  {
    Keyed(Pairs(columns, rawCols), Assign(rec))
  }

  /**
   * A re-keyed record has exactly the columns as keys, and column `c` holds
   * the value under the header of the last column named `c`
   */
  lemma RowOfSpec<V>(columns: seq<string>, rawCols: seq<string>, rec: Record<V>, c: string)
    requires |columns| == |rawCols|
    ensures c in RowOf(columns, rawCols, rec) <==> c in columns
    ensures c in RowOf(columns, rawCols, rec) ==>
      exists i :: 0 <= i < |columns| && columns[i] == c && RowOf(columns, rawCols, rec)[c] == At(rec, rawCols[i]) &&
        forall j :: i < j < |columns| ==> columns[j] != c
  {
    var ps := Pairs(columns, rawCols);
    KeyedSpec(ps, Assign(rec), c);
    if c in columns {
      var i :| 0 <= i < |columns| && columns[i] == c;
      assert Assign(rec)(ps[i]).value.0 == c;
    }
    if c in RowOf(columns, rawCols, rec) {
      var i :| LastWith(ps, Assign(rec), c, i) && Keyed(ps, Assign(rec))[c] == Assign(rec)(ps[i]).value.1;
      assert forall j :: i < j < |columns| ==> Assign(rec)(ps[j]).value.0 == columns[j];
    }
  }

  predicate Distinct(s: seq<string>)
  {
    forall i, j :: 0 <= i < j < |s| ==> s[i] != s[j]
  }

  /** With distinct columns, column `i` holds exactly the record's value under header `i` */
  lemma RowOfDistinct<V>(columns: seq<string>, rawCols: seq<string>, rec: Record<V>, i: nat)
    requires |columns| == |rawCols| && Distinct(columns) && i < |columns|
    ensures columns[i] in RowOf(columns, rawCols, rec)
    ensures RowOf(columns, rawCols, rec)[columns[i]] == At(rec, rawCols[i])
  {
    RowOfSpec(columns, rawCols, rec, columns[i]);
  }

  /** Every record re-keyed by the columns */
  function RekeyAll<V>(columns: seq<string>, rawCols: seq<string>, json: seq<Record<V>>): (rows: seq<Fields<V>>)
    requires |columns| == |rawCols|
    ensures |rows| == |json|
  {
    seq(|json|, k requires 0 <= k < |json| => RowOf(columns, rawCols, json[k]))
  }

  /** `sheetToRows` on the records of a sheet: no columns and no rows for an empty sheet */
  function SheetOf<V>(json: seq<Record<V>>): (sheet: (seq<string>, seq<Fields<V>>))
    ensures |sheet.0| == (if json == [] then 0 else |json[0]|) && |sheet.1| == |json|
  {
    if json == [] then ([], [])
    else
      var rawCols := Keys(json[0]);
      (ColumnsOf(rawCols), RekeyAll(ColumnsOf(rawCols), rawCols, json))
  }

  /** The `json.map` building one `out` object per record */
  method Rekey<V>(columns: seq<string>, rawCols: seq<string>, json: seq<Record<V>>) returns (rows: seq<Fields<V>>)
    requires |columns| == |rawCols|
    ensures rows == RekeyAll(columns, rawCols, json)
  {
    rows := [];
    for k := 0 to |json|
      invariant |rows| == k && forall m :: 0 <= m < k ==> rows[m] == RowOf(columns, rawCols, json[m])
    {
      var out := FillTable(Pairs(columns, rawCols), Assign(json[k]));
      rows := rows + [out];
    }
  }

  method SheetToRows<V>(json: seq<Record<V>>) returns (columns: seq<string>, rows: seq<Fields<V>>)
    ensures (columns, rows) == SheetOf(json)
  {
    if json == [] {
      return [], [];
    }
    var rawCols := Keys(json[0]);
    columns := SheetColumns(rawCols);
    rows := Rekey(columns, rawCols, json);
  }

  /**
   * Every row of a sheet has one key per column; when the column names are
   * distinct, row `k` maps column `i` to record `k`'s value under header `i`
   */
  lemma SheetRowSpec<V>(json: seq<Record<V>>, k: nat, i: nat)
    requires k < |json| && i < |json[0]|
    ensures var (columns, rows) := SheetOf(json);
      columns[i] in rows[k] &&
      (Distinct(columns) ==> rows[k][columns[i]] == At(json[k], json[0][i].0))
  {
    var rawCols := Keys(json[0]);
    var columns := ColumnsOf(rawCols);
    RowOfSpec(columns, rawCols, json[k], columns[i]);
    if Distinct(columns) {
      RowOfDistinct(columns, rawCols, json[k], i);
    }
  }

  // ---------------------------------------------------------------------
  // insertRows

  /**
   * One `INSERT` of a chunk: the placeholder numbers of each row's
   * parenthesised group, and the values bound to them
   */
  datatype Batch<V> = Batch(placeholders: seq<seq<nat>>, values: seq<Option<V>>)

  /** `[].concat(...ss)` */
  function Flatten<T>(ss: seq<seq<T>>): seq<T>
  {
    if ss == [] then [] else ss[0] + Flatten(ss[1..])
  }

  lemma {:induction false} FlattenSnoc<T>(ss: seq<seq<T>>, s: seq<T>)
    ensures Flatten(ss + [s]) == Flatten(ss) + s
    decreases |ss|
  {
    if ss == [] {
      assert ss + [s] == [s];
    } else {
      assert (ss + [s])[1..] == ss[1..] + [s];
      FlattenSnoc(ss[1..], s);
    }
  }

  function MinNat(a: nat, b: nat): nat { if a <= b then a else b }

  /** `rows.slice(i, i + chunkSize)` for `i = 0, chunkSize, 2 * chunkSize, ...` */
  function ChunksOf<T>(rows: seq<T>, size: nat): seq<seq<T>>
    requires size >= 1
    decreases |rows|
  {
    if rows == [] then []
    else
      var n := MinNat(size, |rows|);
      [rows[..n]] + ChunksOf(rows[n..], size)
  }

  /** The chunks hold all rows in order, each between 1 and `size` of them, all but the last exactly `size` */
  lemma {:induction false} ChunksSpec<T>(rows: seq<T>, size: nat)
    requires size >= 1
    ensures Flatten(ChunksOf(rows, size)) == rows
    ensures forall k :: 0 <= k < |ChunksOf(rows, size)| ==> 1 <= |ChunksOf(rows, size)[k]| <= size
    ensures forall k :: 0 <= k < |ChunksOf(rows, size)| - 1 ==> |ChunksOf(rows, size)[k]| == size
    decreases |rows|
  {
    if rows != [] {
      var n := MinNat(size, |rows|);
      var cs := ChunksOf(rows, size);
      ChunksSpec(rows[n..], size);
      assert cs[1..] == ChunksOf(rows[n..], size);
      assert rows[..n] + rows[n..] == rows;
      if n < size {
        assert rows[n..] == [];
      }
    }
  }

  /** `columns.forEach(c => values.push(row[c] ?? null))` */
  function CellsOf<V>(columns: seq<string>, row: Fields<V>): seq<Option<V>>
  {
    seq(|columns|, j requires 0 <= j < |columns| => if columns[j] in row then row[columns[j]] else None)
  }

  /** The `values` array of a chunk */
  function ValuesOf<V>(columns: seq<string>, chunk: seq<Fields<V>>): seq<Option<V>>
  {
    if chunk == [] then [] else ValuesOf(columns, chunk[..|chunk| - 1]) + CellsOf(columns, chunk[|chunk| - 1])
  }

  /** `$${base + j + 1}` for row `idx` of a chunk, `base = idx * columns.length` */
  function PlaceholdersOf(w: nat, count: nat): seq<seq<nat>>
  {
    seq(count, idx requires 0 <= idx < count => seq(w, j requires 0 <= j < w => idx * w + j + 1))
  }

  function BatchOf<V>(columns: seq<string>, chunk: seq<Fields<V>>): Batch<V>
  {
    Batch(PlaceholdersOf(|columns|, |chunk|), ValuesOf(columns, chunk))
  }

  /** One batch per chunk */
  function BatchesOf<V>(columns: seq<string>, rows: seq<Fields<V>>, size: nat): (bs: seq<Batch<V>>)
    requires size >= 1
    ensures |bs| == |ChunksOf(rows, size)|
    decreases |rows|
  {
    if rows == [] then []
    else
      var n := MinNat(size, |rows|);
      [BatchOf(columns, rows[..n])] + BatchesOf(columns, rows[n..], size)
  }

  lemma {:induction false} BatchesOfChunks<V>(columns: seq<string>, rows: seq<Fields<V>>, size: nat)
    requires size >= 1
    ensures forall k :: 0 <= k < |ChunksOf(rows, size)| ==>
      BatchesOf(columns, rows, size)[k] == BatchOf(columns, ChunksOf(rows, size)[k])
    decreases |rows|
  {
    if rows != [] {
      BatchesOfChunks(columns, rows[MinNat(size, |rows|)..], size);
    }
  }

  /** The batches from row `i` on: the chunk starting at `i`, then the rest */
  lemma BatchesFrom<V>(columns: seq<string>, rows: seq<Fields<V>>, size: nat, i: nat)
    requires size >= 1 && i < |rows|
    ensures BatchesOf(columns, rows[i..], size) ==
      [BatchOf(columns, rows[i..MinNat(i + size, |rows|)])] + BatchesOf(columns, rows[MinNat(i + size, |rows|)..], size)
  {
    var n := MinNat(size, |rows| - i);
    assert rows[i..][..n] == rows[i..MinNat(i + size, |rows|)];
    assert rows[i..][n..] == rows[MinNat(i + size, |rows|)..];
  }

  lemma MulBelow(idx: nat, j: nat, w: nat, n: nat)
    requires idx < n && j < w
    ensures idx * w + j < n * w
  {
    assert (idx + 1) * w <= n * w;
  }

  /** `values` holds one value per column of every row */
  lemma {:induction false} ValuesOfLength<V>(columns: seq<string>, chunk: seq<Fields<V>>)
    ensures |ValuesOf(columns, chunk)| == |chunk| * |columns|
    decreases |chunk|
  {
    if chunk != [] {
      ValuesOfLength(columns, chunk[..|chunk| - 1]);
      assert |ValuesOf(columns, chunk)| == (|chunk| - 1) * |columns| + |columns|;
    }
  }

  /** `values` holds, row by row, one value per column: entry `idx * w + j` is row `idx`'s value for column `j` */
  lemma {:induction false} ValuesOfSpec<V>(columns: seq<string>, chunk: seq<Fields<V>>, idx: nat, j: nat)
    requires idx < |chunk| && j < |columns|
    ensures idx * |columns| + j < |ValuesOf(columns, chunk)|
    ensures ValuesOf(columns, chunk)[idx * |columns| + j] == CellsOf(columns, chunk[idx])[j]
    decreases |chunk|
  {
    var w, n := |columns|, |chunk| - 1;
    var init := chunk[..n];
    ValuesOfLength(columns, init);
    MulBelow(idx, j, w, n + 1);
    ValuesOfLength(columns, chunk);
    if idx < n {
      MulBelow(idx, j, w, n);
      ValuesOfSpec(columns, init, idx, j);
      assert init[idx] == chunk[idx];
    } else {
      assert ValuesOf(columns, chunk)[n * w + j] == CellsOf(columns, chunk[n])[j];
    }
  }

  /** Placeholders run `$1, $2, ...` without gap or repeat across the whole chunk */
  lemma {:induction false} PlaceholdersSpec(w: nat, count: nat)
    ensures Flatten(PlaceholdersOf(w, count)) == seq(count * w, k requires 0 <= k < count * w => k + 1)
    decreases count
  {
    if count > 0 {
      var n := count - 1;
      var last: seq<nat> := seq(w, j requires 0 <= j < w => n * w + j + 1);
      assert PlaceholdersOf(w, count) == PlaceholdersOf(w, n) + [last];
      FlattenSnoc(PlaceholdersOf(w, n), last);
      PlaceholdersSpec(w, n);
      var f := Flatten(PlaceholdersOf(w, count));
      var g := Flatten(PlaceholdersOf(w, n));
      assert f == g + last;
      assert 0 <= n * w && |g| == n * w;
      assert |f| == n * w + w == count * w;
      forall k | 0 <= k < count * w
        ensures f[k] == k + 1
      {
        if k >= n * w {
          assert f[k] == last[k - n * w];
        } else {
          assert f[k] == g[k];
        }
      }
    }
  }

  /** The `chunk.map` callback over a whole chunk */
  method BuildBatch<V>(columns: seq<string>, chunk: seq<Fields<V>>) returns (b: Batch<V>)
    ensures b == BatchOf(columns, chunk)
  {
    var values: seq<Option<V>> := [];
    var placeholders: seq<seq<nat>> := [];
    for idx := 0 to |chunk|
      invariant values == ValuesOf(columns, chunk[..idx])
      invariant placeholders == PlaceholdersOf(|columns|, idx)
    {
      var row := chunk[idx];
      var base := idx * |columns|;
      for j := 0 to |columns|
        invariant values == ValuesOf(columns, chunk[..idx]) + CellsOf(columns, row)[..j]
      {
        values := values + [if columns[j] in row then row[columns[j]] else None];
      }
      var ps := seq(|columns|, j requires 0 <= j < |columns| => base + j + 1);
      assert chunk[..idx + 1][..idx] == chunk[..idx];
      assert PlaceholdersOf(|columns|, idx + 1) == placeholders + [ps];
      placeholders := placeholders + [ps];
    }
    assert chunk[..|chunk|] == chunk;
    b := Batch(placeholders, values);
  }

  /** `insertRows`: the batches it sends and the count it returns */
  method InsertRows<V>(columns: seq<string>, rows: seq<Fields<V>>, chunkSize: nat) returns (inserted: nat, batches: seq<Batch<V>>)
    requires chunkSize >= 1
    ensures inserted == |rows|
    ensures batches == BatchesOf(columns, rows, chunkSize)
  {
    inserted := 0;
    batches := [];
    var i := 0;
    while i < |rows|
      invariant inserted == MinNat(i, |rows|)
      invariant batches + BatchesOf(columns, rows[MinNat(i, |rows|)..], chunkSize) == BatchesOf(columns, rows, chunkSize)
      decreases |rows| - i
    {
      var end := MinNat(i + chunkSize, |rows|);
      var chunk := rows[i..end];
      var b := BuildBatch(columns, chunk);
      BatchesFrom(columns, rows, chunkSize, i);
      ghost var rest := BatchesOf(columns, rows[end..], chunkSize);
      assert batches + ([b] + rest) == BatchesOf(columns, rows, chunkSize);
      assert (batches + [b]) + rest == batches + ([b] + rest);
      batches := batches + [b];
      inserted := inserted + |chunk|;
      i := i + chunkSize;
      assert MinNat(i, |rows|) == end;
    }
  }

  /**
   * What `insertRows` sends for a whole table: chunks of at most `size`
   * rows, each with `rows x columns` values and placeholders `$1..$n`, and
   * the rows of all chunks together are the table's rows
   */
  lemma InsertSpec<V>(columns: seq<string>, rows: seq<Fields<V>>, size: nat, k: nat)
    requires size >= 1 && k < |ChunksOf(rows, size)|
    ensures var chunk := ChunksOf(rows, size)[k]; var b := BatchesOf(columns, rows, size)[k];
      1 <= |chunk| <= size &&
      |b.values| == |chunk| * |columns| &&
      Flatten(b.placeholders) == seq(|chunk| * |columns|, n requires 0 <= n < |chunk| * |columns| => n + 1)
    ensures Flatten(ChunksOf(rows, size)) == rows
  {
    ChunksSpec(rows, size);
    BatchesOfChunks(columns, rows, size);
    var chunk := ChunksOf(rows, size)[k];
    ValuesOfLength(columns, chunk);
    PlaceholdersSpec(|columns|, |chunk|);
  }

  // ---------------------------------------------------------------------
  // Importing a workbook

  /** The database work of an import, in the order it is issued */
  datatype Statement<V> =
    | DropTable(table: string)
    | CreateTable(table: string, columns: seq<string>)
    | InsertInto(table: string, columns: seq<string>, batch: Batch<V>)

  /** One entry of the upload route's `results` (one console line of the seeding script) */
  datatype SheetResult =
    | EmptySheet(sheet: string, table: string)
    | Loaded(sheet: string, table: string, inserted: nat, columnCount: nat)

  datatype ImportError = NoColumns

  /** A sheet: its name and the records `sheet_to_json` reads from it */
  type Sheet<V> = (string, seq<Record<V>>)

  const ChunkSize: nat := 500

  /** `ensureTable`: an error for an empty column list, otherwise the `CREATE TABLE` */
  function EnsureTable<V>(table: string, columns: seq<string>): (r: Result<Statement<V>, ImportError>)
    ensures r.Err? <==> columns == []
    ensures r.Ok? ==> r.value == CreateTable(table, columns)
  {
    if columns == [] then Err(NoColumns) else Ok(CreateTable(table, columns))
  }

  /** `${prefix}__${safeName(sheetName) || 'sheet'}` */
  function TableName(prefix: string, sheet: string): string
  {
    var n := SafeName(sheet);
    prefix + "__" + (if n == "" then "sheet" else n)
  }

  /** A table name is `prefix__` and a non-empty identifier, so it is safe whenever the prefix is */
  lemma TableNameShape(prefix: string, sheet: string)
    ensures var t := TableName(prefix, sheet);
      |t| > |prefix| + 2 && t[..|prefix| + 2] == prefix + "__" && IsIdentifier(t[|prefix| + 2..])
    ensures IsSafe(prefix) ==> IsSafe(TableName(prefix, sheet))
  {
    SafeNameShape(sheet);
    var t := TableName(prefix, sheet);
    var n := SafeName(sheet);
    var suffix := if n == "" then "sheet" else n;
    assert t == (prefix + "__") + suffix;
    assert t[|prefix| + 2..] == suffix;
  }

  /** One `INSERT` per batch */
  function Inserts<V>(table: string, columns: seq<string>, batches: seq<Batch<V>>): seq<Statement<V>>
  {
    seq(|batches|, k requires 0 <= k < |batches| => InsertInto(table, columns, batches[k]))
  }

  /** The loop body once a sheet is read: skipped when it has no columns, otherwise (dropped,) created and filled */
  function TablePlan<V>(name: string, table: string, replace: bool, columns: seq<string>, rows: seq<Fields<V>>): (SheetResult, seq<Statement<V>>)
  {
    if columns == [] then (EmptySheet(name, table), [])
    else
      (Loaded(name, table, |rows|, |columns|),
       (if replace then [DropTable(table)] else []) + [CreateTable(table, columns)] +
       Inserts(table, columns, BatchesOf(columns, rows, ChunkSize)))
  }

  /** The loop body for one sheet */
  function SheetPlan<V>(prefix: string, replace: bool, sheet: Sheet<V>): (SheetResult, seq<Statement<V>>)
  {
    var rs := SheetOf(sheet.1);
    TablePlan(sheet.0, TableName(prefix, sheet.0), replace, rs.0, rs.1)
  }

  /** All sheets in workbook order */
  function ImportOf<V>(prefix: string, replace: bool, sheets: seq<Sheet<V>>): (seq<SheetResult>, seq<Statement<V>>)
  {
    if sheets == [] then ([], [])
    else
      var (results, statements) := ImportOf(prefix, replace, sheets[..|sheets| - 1]);
      var (r, st) := SheetPlan(prefix, replace, sheets[|sheets| - 1]);
      (results + [r], statements + st)
  }

  /** Dropping, creating and filling one table */
  method LoadTable<V>(name: string, table: string, replace: bool, columns: seq<string>, rows: seq<Fields<V>>)
    returns (result: SheetResult, statements: seq<Statement<V>>)
    ensures (result, statements) == TablePlan(name, table, replace, columns, rows)
  {
    if |columns| == 0 {
      return EmptySheet(name, table), [];
    }
    statements := [];
    if replace {
      statements := statements + [DropTable(table)];
      assert statements == [DropTable(table)];
    }
    var created := EnsureTable(table, columns);
    statements := statements + [created.value];
    var inserted, batches := InsertRows(columns, rows, ChunkSize);
    statements := statements + Inserts(table, columns, batches);
    result := Loaded(name, table, inserted, |columns|);
  }

  method ImportSheet<V>(prefix: string, replace: bool, sheet: Sheet<V>) returns (result: SheetResult, statements: seq<Statement<V>>)
    ensures (result, statements) == SheetPlan(prefix, replace, sheet)
  {
    var (name, json) := sheet;
    var columns, rows := SheetToRows(json);
    result, statements := LoadTable(name, TableName(prefix, name), replace, columns, rows);
  }

  /** The `for (const sheetName of wb.SheetNames)` loop shared by the upload route and the seeding script */
  method ImportSheets<V>(prefix: string, replace: bool, sheets: seq<Sheet<V>>) returns (results: seq<SheetResult>, statements: seq<Statement<V>>)
    ensures (results, statements) == ImportOf(prefix, replace, sheets)
  {
    results, statements := [], [];
    for s := 0 to |sheets|
      invariant (results, statements) == ImportOf(prefix, replace, sheets[..s])
    {
      assert sheets[..s + 1][..s] == sheets[..s];
      var r, st := ImportSheet(prefix, replace, sheets[s]);
      results, statements := results + [r], statements + st;
    }
    assert sheets[..|sheets|] == sheets;
  }

  /**
   * What a read sheet yields: without columns it is reported and touches no
   * table; otherwise the table is dropped first exactly in replace mode,
   * then created with the sheet's columns and filled with all of its rows
   */
  lemma TablePlanSpec<V>(name: string, table: string, replace: bool, columns: seq<string>, rows: seq<Fields<V>>)
    ensures var (r, st) := TablePlan(name, table, replace, columns, rows);
      r.table == table && r.sheet == name &&
      (r.EmptySheet? <==> columns == []) &&
      (r.EmptySheet? ==> st == []) &&
      (r.Loaded? ==>
        r.inserted == |rows| && r.columnCount == |columns| && st != [] &&
        (st[0].DropTable? <==> replace) &&
        st[if replace then 1 else 0] == CreateTable(table, columns) &&
        forall i :: 0 <= i < |st| ==> st[i].table == table && (i > 0 ==> !st[i].DropTable?))
  {
  }

  /** A sheet is skipped exactly when it has no records or its first record has no keys */
  lemma SheetPlanSpec<V>(prefix: string, replace: bool, sheet: Sheet<V>)
    ensures var (r, _) := SheetPlan(prefix, replace, sheet);
      r.table == TableName(prefix, sheet.0) &&
      (r.EmptySheet? <==> sheet.1 == [] || sheet.1[0] == []) &&
      (r.Loaded? ==> r.inserted == |sheet.1| && r.columnCount == |sheet.1[0]|)
  {
    var rs := SheetOf(sheet.1);
    TablePlanSpec(sheet.0, TableName(prefix, sheet.0), replace, rs.0, rs.1);
  }

  /** One result per sheet, in order */
  lemma {:induction false} ImportResults<V>(prefix: string, replace: bool, sheets: seq<Sheet<V>>, k: nat)
    requires k < |sheets|
    ensures |ImportOf(prefix, replace, sheets).0| == |sheets|
    ensures ImportOf(prefix, replace, sheets).0[k] == SheetPlan(prefix, replace, sheets[k]).0
    decreases |sheets|
  {
    var n := |sheets| - 1;
    assert sheets[..n] + [sheets[n]] == sheets;
    if n == 0 {
      assert sheets[..n] == [];
    } else if k < n {
      ImportResults(prefix, replace, sheets[..n], k);
    } else {
      ImportResults(prefix, replace, sheets[..n], 0);
    }
  }

  /** Append mode never drops a table */
  lemma {:induction false} AppendNeverDrops<V>(prefix: string, sheets: seq<Sheet<V>>)
    ensures forall i :: 0 <= i < |ImportOf(prefix, false, sheets).1| ==> !ImportOf(prefix, false, sheets).1[i].DropTable?
    decreases |sheets|
  {
    if sheets != [] {
      AppendNeverDrops(prefix, sheets[..|sheets| - 1]);
      var sheet := sheets[|sheets| - 1];
      var rs := SheetOf(sheet.1);
      TablePlanSpec(sheet.0, TableName(prefix, sheet.0), false, rs.0, rs.1);
    }
  }
}
