/**
 * Database rows as both HTTP back ends see them: a JavaScript object is an
 * ordered list of keys and values, `null` and a missing key both reading as
 * `None`. Also the pieces both back ends share: the `limit` query clamp, the
 * array-of-arrays export and the shape of a ZIP row.
 */
module Records {
  import opened Wrappers
  import opened Strings

  /** A JavaScript object as an ordered list of keys and values */
  type Record<V> = seq<(string, Option<V>)>

  /** `obj[k]`: the value of the first entry with key `k`; `null` and `undefined` alike are `None` */
  function At<V>(r: Record<V>, k: string): Option<V>
  {
    if r == [] then None else if r[0].0 == k then r[0].1 else At(r[1..], k)
  }

  /** `Object.keys(obj)` */
  function Keys<V>(r: Record<V>): (ks: seq<string>)
    ensures |ks| == |r| && forall i :: 0 <= i < |r| ==> ks[i] == r[i].0
  {
    seq(|r|, i requires 0 <= i < |r| => r[i].0)
  }

  /** `String(v ?? '')` on a text value */
  function OrEmpty(v: Option<string>): string
  {
    if v.Some? then v.value else ""
  }

  /** `a || b || fallback` on query strings, where an absent parameter is the empty string */
  function FirstSet(a: string, b: string, fallback: string): (r: string)
    ensures a != "" ==> r == a
    ensures a == "" && b != "" ==> r == b
    ensures a == "" && b == "" ==> r == fallback
  {
    if a != "" then a else if b != "" then b else fallback
  }

  // ---------------------------------------------------------------------
  // The `limit` query parameter

  function Min(a: real, b: real): real { if a <= b then a else b }
  function Max(a: real, b: real): real { if a >= b then a else b }

  /**
   * `Math.max(1, Math.min(Number(raw || dflt), hi))`. `num` stands for
   * `Number` on a non-empty query string, `None` being `NaN`, which both
   * `Math` functions pass through. The edge function writes
   * `Math.min(Math.max(v, 1), hi)`, the same value whenever `hi >= 1`.
   */
  function LimitOf(raw: string, num: string -> Option<real>, dflt: real, hi: real): (r: Option<real>)
    ensures r.None? <==> raw != "" && num(raw).None?
    ensures r.Some? && hi >= 1.0 ==> 1.0 <= r.value <= hi
    ensures raw == "" && 1.0 <= dflt <= hi ==> r == Some(dflt)
    ensures raw != "" && num(raw).Some? && 1.0 <= num(raw).value <= hi ==> r == num(raw)
  {
    var v := if raw == "" then Some(dflt) else num(raw);
    if v.None? then None else Some(Max(1.0, Min(v.value, hi)))
  }

  // ---------------------------------------------------------------------
  // Array-of-arrays export

  /** `.filter(n => n !== '_id')` */
  function WithoutId(names: seq<string>): (r: seq<string>)
    ensures forall i :: 0 <= i < |r| ==> r[i] != "_id" && r[i] in names
    ensures forall i :: 0 <= i < |names| && names[i] != "_id" ==> names[i] in r
    ensures |r| <= |names|
  {
    if names == [] then []
    else (if names[0] == "_id" then [] else [names[0]]) + WithoutId(names[1..])
  }

  /** `rows.map(row => cols.map(c => row[c]))`, a missing value being `null` */
  function AoaRows<V>(cols: seq<string>, rows: seq<Record<V>>): (aoa: seq<seq<Option<V>>>)
    ensures |aoa| == |rows| && forall k :: 0 <= k < |aoa| ==> |aoa[k]| == |cols|
  {
    seq(|rows|, k requires 0 <= k < |rows| => seq(|cols|, j requires 0 <= j < |cols| => At(rows[k], cols[j])))
  }

  // ---------------------------------------------------------------------
  // ZIP rows

  /** One row of `ZIP_DB_ROWS`: zip, latitude, longitude, city, state */
  datatype ZipRow = ZipRow(zip: string, lat: Option<real>, lon: Option<real>, city: string, state: string)

  /** `Number(v)`, where `Number(null)` is 0 and `num` stands for `Number` on text */
  function NumberOf(v: Option<string>, num: string -> Option<real>): (r: Option<real>)
    ensures v.None? ==> r == Some(0.0)
  {
    if v.None? then Some(0.0) else num(v.value)
  }

  /** `trim().toLowerCase()` */
  function CityKey(s: string): string { Lower(Trim(s)) }

  /** `trim().toUpperCase()` */
  function StateKey(s: string): string { Upper(Trim(s)) }

  /** Text with no white space at either end */
  predicate Trimmed(s: string)
  {
    |s| == 0 || (!IsSpace(s[0]) && !IsSpace(s[|s| - 1]))
  }

  /** A served ZIP row: its city is trimmed lower case, its state trimmed upper case */
  predicate CaseFolded(z: ZipRow)
  {
    Trimmed(z.city) && (forall i :: 0 <= i < |z.city| ==> !IsUpper(z.city[i])) &&
    Trimmed(z.state) && (forall i :: 0 <= i < |z.state| ==> !IsLower(z.state[i]))
  }

  lemma CityKeyShape(s: string)
    ensures Trimmed(CityKey(s)) && forall i :: 0 <= i < |CityKey(s)| ==> !IsUpper(CityKey(s)[i])
    ensures Trim(CityKey(s)) == CityKey(s)
  {
    TrimShape(s);
    TrimNoEnds(CityKey(s));
  }

  lemma StateKeyShape(s: string)
    ensures Trimmed(StateKey(s)) && forall i :: 0 <= i < |StateKey(s)| ==> !IsLower(StateKey(s)[i])
    ensures Trim(StateKey(s)) == StateKey(s)
  {
    TrimShape(s);
    TrimNoEnds(StateKey(s));
  }

  /** A row built with `CityKey` and `StateKey` is case-folded, whatever the database held */
  lemma ZipRowCaseFolded(zip: string, lat: Option<real>, lon: Option<real>, city: string, state: string)
    ensures CaseFolded(ZipRow(zip, lat, lon, CityKey(city), StateKey(state)))
  {
    CityKeyShape(city);
    StateKeyShape(state);
  }
}
