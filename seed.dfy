/**
 * The seeding script of the backend: it imports three workbooks, each sheet
 * into a `prefix__sheet` table, replacing the tables. It shares the sheet
 * loop with the upload route but compares the mode without lower-casing it.
 */
module Seed {
  import opened Strings
  import opened TableImport

  /** `importExcel(path, prefix, mode)` on the workbook's sheets: the results it logs and the statements it issues */
  function ImportExcelOf<V>(prefix: string, mode: string, sheets: seq<Sheet<V>>): (seq<SheetResult>, seq<Statement<V>>)
  {
    ImportOf(SafeName(prefix), mode == "replace", sheets)
  }

  method ImportExcel<V>(prefix: string, mode: string, sheets: seq<Sheet<V>>) returns (results: seq<SheetResult>, statements: seq<Statement<V>>)
    ensures (results, statements) == ImportExcelOf(prefix, mode, sheets)
  {
    results, statements := ImportSheets(SafeName(prefix), mode == "replace", sheets);
  }

  /**
   * Sheet `k` goes to `safeName(prefix)__safeName(sheet)` (or `__sheet`),
   * and only the exact mode `replace` drops tables: `REPLACE` appends
   */
  lemma ImportExcelSpec<V>(prefix: string, mode: string, sheets: seq<Sheet<V>>, k: nat)
    requires k < |sheets|
    ensures var (results, statements) := ImportExcelOf(prefix, mode, sheets);
      |results| == |sheets| &&
      results[k].table == TableName(SafeName(prefix), sheets[k].0) &&
      (results[k].EmptySheet? <==> sheets[k].1 == [] || sheets[k].1[0] == []) &&
      (mode != "replace" ==> forall i :: 0 <= i < |statements| ==> !statements[i].DropTable?)
  {
    ImportResults(SafeName(prefix), mode == "replace", sheets, k);
    SheetPlanSpec(SafeName(prefix), mode == "replace", sheets[k]);
    AppendNeverDrops(SafeName(prefix), sheets);
  }

  /** The script's three imports, in order, each in replace mode */
  method SeedAll<V>(technicians: seq<Sheet<V>>, rotation: seq<Sheet<V>>, zips: seq<Sheet<V>>)
    returns (statements: seq<Statement<V>>)
    ensures statements == ImportExcelOf("ars_technician", "replace", technicians).1 +
                          ImportExcelOf("oncall_rotation", "replace", rotation).1 +
                          ImportExcelOf("uszips", "replace", zips).1
  {
    var _, a := ImportExcel("ars_technician", "replace", technicians);
    var _, b := ImportExcel("oncall_rotation", "replace", rotation);
    var _, c := ImportExcel("uszips", "replace", zips);
    statements := a + b + c;
  }

  /**
   * With a prefix that is already an identifier, as the script's three are,
   * every table is named `prefix__…`: `safeName` leaves the prefix unchanged
   */
  lemma TablesKeepPrefix<V>(prefix: string, mode: string, sheets: seq<Sheet<V>>, k: nat)
    requires IsIdentifier(prefix) && k < |sheets|
    ensures var results := ImportExcelOf(prefix, mode, sheets).0;
      |results| == |sheets| &&
      |results[k].table| > |prefix| + 2 && results[k].table[..|prefix| + 2] == prefix + "__"
  {
    SafeNameOfIdentifier(prefix);
    ImportExcelSpec(prefix, mode, sheets, k);
    TableNameShape(prefix, sheets[k].0);
  }
}
