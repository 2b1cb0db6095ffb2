/**
 * The reference tables of the on-call tool and the lookups over them: the
 * technician table `techMap` (filled by `loadBuiltInTechDb`), the ZIP table
 * `zipDB` (filled by the row loop of `loadBundledZipDb`), the city/state
 * reverse lookup `findZipByCityState` and the short-name lookup
 * `matchTechByInitialAndLast`. The tables and their loads live in the
 * `AppState` class; here are the values they hold and what the lookups mean.
 */
module Lookups {
  import opened Wrappers
  import opened Strings
  import opened Cells
  import opened Sorting
  import Records

  // ---------------------------------------------------------------------
  // Tables filled row by row

  /**
   * The map left by `for (row of rows) { e = entry(row); if (!e) continue;
   * map.set(e.key, e.value) }` on an empty map
   */
  function Keyed<R, V>(rows: seq<R>, entry: R -> Option<(string, V)>): map<string, V>
  {
    if rows == [] then map[]
    else
      var m := Keyed(rows[..|rows| - 1], entry);
      var e := entry(rows[|rows| - 1]);
      if e.None? then m else m[e.value.0 := e.value.1]
  }

  /** Row `i` gives key `k`, and no later row does */
  predicate LastWith<R, V>(rows: seq<R>, entry: R -> Option<(string, V)>, k: string, i: int)
  {
    0 <= i < |rows| && entry(rows[i]).Some? && entry(rows[i]).value.0 == k &&
    forall j :: i < j < |rows| ==> entry(rows[j]).None? || entry(rows[j]).value.0 != k
  }

  /** A key is in the table exactly when a row gives it, and it holds what the last such row gives */
  lemma {:induction false} KeyedSpec<R, V>(rows: seq<R>, entry: R -> Option<(string, V)>, k: string)
    ensures k in Keyed(rows, entry) <==>
      exists i :: 0 <= i < |rows| && entry(rows[i]).Some? && entry(rows[i]).value.0 == k
    ensures k in Keyed(rows, entry) ==>
      exists i :: LastWith(rows, entry, k, i) && Keyed(rows, entry)[k] == entry(rows[i]).value.1
    decreases |rows|
  {
    if rows != [] {
      var init := rows[..|rows| - 1];
      var n := |rows| - 1;
      KeyedSpec(init, entry, k);
      var e := entry(rows[n]);
      if e.Some? && e.value.0 == k {
        assert LastWith(rows, entry, k, n);
      } else {
        if exists i :: 0 <= i < |rows| && entry(rows[i]).Some? && entry(rows[i]).value.0 == k {
          var i :| 0 <= i < |rows| && entry(rows[i]).Some? && entry(rows[i]).value.0 == k;
          assert i < n && init[i] == rows[i];
        }
        if k in Keyed(rows, entry) {
          var i :| LastWith(init, entry, k, i) && Keyed(init, entry)[k] == entry(init[i]).value.1;
          assert init[i] == rows[i];
          assert LastWith(rows, entry, k, i);
        }
      }
    }
  }

  /** One more row: the table of the longer prefix is the shorter one's, updated by that row */
  lemma KeyedSnoc<R, V>(rows: seq<R>, entry: R -> Option<(string, V)>, i: nat)
    requires i < |rows|
    ensures Keyed(rows[..i + 1], entry) ==
      (var e := entry(rows[i]); if e.None? then Keyed(rows[..i], entry) else Keyed(rows[..i], entry)[e.value.0 := e.value.1])
  {
    assert rows[..i + 1][..i] == rows[..i];
  }

  /** The row loop shared by the table loaders: each row's entry, if any, overwrites its key */
  method FillTable<R, V>(rows: seq<R>, entry: R -> Option<(string, V)>) returns (m: map<string, V>)
    ensures m == Keyed(rows, entry)
  {
    m := map[];
    for i := 0 to |rows|
      invariant m == Keyed(rows[..i], entry)
    {
      KeyedSnoc(rows, entry, i);
      var e := entry(rows[i]);
      if e.Some? {
        m := m[e.value.0 := e.value.1];
      }
    }
    assert rows[..|rows|] == rows;
  }

  // ---------------------------------------------------------------------
  // The technician table

  /** A row of the technician table */
  datatype Tech = Tech(techId: string, firstName: string, lastName: string, region: string, zone: string,
                       kind: string, city: string, state: string, zip: Option<string>)

  /** `String(row[i] || '').trim()` */
  function Field(row: Row, i: nat): string
  {
    var v := Get(row, i);
    if Falsy(v) then "" else Trim(CellString(v))
  }

  /** What `loadBuiltInTechDb` stores for a row: nothing when its first cell is blank */
  function TechEntry(row: Row): Option<(string, Tech)>
  {
    var id := Field(row, 0);
    var z := Get(row, 8);
    if id == "" then None
    else
      Some((id, Tech(id, Field(row, 1), Field(row, 2), Field(row, 3), Field(row, 4), Field(row, 5),
                     Field(row, 6), Field(row, 7), NormalizeZip(if Falsy(z) then Text("") else z))))
  }

  /** `techMap` after `loadBuiltInTechDb` on the rows */
  function TechMapOf(rows: seq<Row>): map<string, Tech>
  {
    Keyed(rows, TechEntry)
  }

  /**
   * Every technician is filed under its own non-blank identifier, with a
   * ZIP that is five digits when present; an identifier is present exactly
   * when a row carries it, and the last such row wins
   */
  lemma TechMapSpec(rows: seq<Row>, id: string)
    ensures id in TechMapOf(rows) <==> id != "" && exists i :: 0 <= i < |rows| && Field(rows[i], 0) == id
    ensures id in TechMapOf(rows) ==> TechMapOf(rows)[id].techId == id
    ensures id in TechMapOf(rows) ==> var t := TechMapOf(rows)[id];
      t.zip.Some? ==> |t.zip.value| == 5 && AllDigits(t.zip.value)
    ensures id in TechMapOf(rows) ==>
      exists i :: LastWith(rows, TechEntry, id, i) && TechMapOf(rows)[id] == TechEntry(rows[i]).value.1
  {
    KeyedSpec(rows, TechEntry, id);
    if id != "" && exists i :: 0 <= i < |rows| && Field(rows[i], 0) == id {
      var i :| 0 <= i < |rows| && Field(rows[i], 0) == id;
      assert TechEntry(rows[i]).Some? && TechEntry(rows[i]).value.0 == id;
    }
    if id in TechMapOf(rows) {
      var i :| LastWith(rows, TechEntry, id, i) && TechMapOf(rows)[id] == TechEntry(rows[i]).value.1;
    }
  }

  /** `String(r[k] ?? '').trim()` on a row of `sheet_to_json` */
  function HeaderField(r: Records.Record<Cell>, k: string): string
  {
    var v := Records.At(r, k);
    if v.None? then "" else Trim(CellString(v.value))
  }

  /** `r[k]`, undefined reading as null */
  function HeaderCell(r: Records.Record<Cell>, k: string): Cell
  {
    var v := Records.At(r, k);
    if v.None? then Empty else v.value
  }

  /** A row `loadTechDb` keeps: its country is blank or `US`, in any case */
  predicate UsRow(r: Records.Record<Cell>)
  {
    var c := Upper(HeaderField(r, "Country"));
    c == "" || c == "US"
  }

  /**
   * What `loadTechDb` stores for a row of the workbook's first sheet, read
   * by header name: nothing without a Tech ID or for a row outside the US
   */
  function SheetTechEntry(r: Records.Record<Cell>): Option<(string, Tech)>
  {
    var id := HeaderField(r, "Tech ID");
    if id == "" || !UsRow(r) then None
    else
      Some((id, Tech(id, HeaderField(r, "First Name"), HeaderField(r, "Last Name"), HeaderField(r, "Region"),
                     HeaderField(r, "Zone"), HeaderField(r, "Type"), HeaderField(r, "City"),
                     HeaderField(r, "State"), NormalizeZip(HeaderCell(r, "Zip")))))
  }

  /** `techMap` after `loadTechDb` on the rows of the first sheet */
  function SheetTechMapOf(rows: seq<Records.Record<Cell>>): map<string, Tech>
  {
    Keyed(rows, SheetTechEntry)
  }

  /**
   * An identifier is loaded from a workbook exactly when some US row (blank
   * or `US` country) carries it as its Tech ID; it is filed under itself,
   * with a five-digit ZIP when there is one, and the last such row wins
   */
  lemma SheetTechMapSpec(rows: seq<Records.Record<Cell>>, id: string)
    ensures id in SheetTechMapOf(rows) <==>
      id != "" && exists i :: 0 <= i < |rows| && HeaderField(rows[i], "Tech ID") == id && UsRow(rows[i])
    ensures id in SheetTechMapOf(rows) ==> SheetTechMapOf(rows)[id].techId == id
    ensures id in SheetTechMapOf(rows) ==> var t := SheetTechMapOf(rows)[id];
      t.zip.Some? ==> |t.zip.value| == 5 && AllDigits(t.zip.value)
    ensures id in SheetTechMapOf(rows) ==>
      exists i :: LastWith(rows, SheetTechEntry, id, i) && SheetTechMapOf(rows)[id] == SheetTechEntry(rows[i]).value.1
  {
    KeyedSpec(rows, SheetTechEntry, id);
    if id != "" && exists i :: 0 <= i < |rows| && HeaderField(rows[i], "Tech ID") == id && UsRow(rows[i]) {
      var i :| 0 <= i < |rows| && HeaderField(rows[i], "Tech ID") == id && UsRow(rows[i]);
      assert SheetTechEntry(rows[i]).Some? && SheetTechEntry(rows[i]).value.0 == id;
    }
    if id in SheetTechMapOf(rows) {
      var i :| LastWith(rows, SheetTechEntry, id, i) && SheetTechMapOf(rows)[id] == SheetTechEntry(rows[i]).value.1;
    }
  }

  // ---------------------------------------------------------------------
  // The ZIP table

  /** Where a ZIP code lies and the city and state it belongs to */
  datatype ZipInfo = ZipInfo(lat: real, lon: real, city: string, state: string)

  /**
   * What the row loop of `loadBundledZipDb` stores for a row; `num` is
   * `Number(v)` where that is finite
   */
  function ZipEntry(row: Row, num: Cell -> Option<real>): Option<(string, ZipInfo)>
  {
    var z := NormalizeZip(Get(row, 0));
    var lat := num(Get(row, 1));
    var lon := num(Get(row, 2));
    if z.None? || lat.None? || lon.None? then None
    else Some((z.value, ZipInfo(lat.value, lon.value, Lower(Field(row, 3)), Upper(Field(row, 4)))))
  }

  /** `zipDB` after the row loop of `loadBundledZipDb` on the rows */
  function ZipDbOf(rows: seq<Row>, num: Cell -> Option<real>): map<string, ZipInfo>
  {
    Keyed(rows, row => ZipEntry(row, num))
  }

  /** Every ZIP table holds five-digit keys, lower-case cities and upper-case states */
  predicate ZipTable(db: map<string, ZipInfo>)
  {
    forall z :: z in db ==>
      |z| == 5 && AllDigits(z) && Lower(db[z].city) == db[z].city && Upper(db[z].state) == db[z].state
  }

  lemma LowerIdempotent(s: string)
    ensures Lower(Lower(s)) == Lower(s)
  {
  }

  lemma UpperTwice(s: string)
    ensures Upper(Upper(s)) == Upper(s)
  {
  }

  /** The loaded ZIP table is keyed by five-digit codes, with its cities and states normalised */
  lemma ZipDbSpec(rows: seq<Row>, num: Cell -> Option<real>)
    ensures ZipTable(ZipDbOf(rows, num))
  {
    var entry := row => ZipEntry(row, num);
    forall z | z in ZipDbOf(rows, num)
      ensures |z| == 5 && AllDigits(z)
      ensures Lower(ZipDbOf(rows, num)[z].city) == ZipDbOf(rows, num)[z].city
      ensures Upper(ZipDbOf(rows, num)[z].state) == ZipDbOf(rows, num)[z].state
    {
      KeyedSpec(rows, entry, z);
      var i :| LastWith(rows, entry, z, i) && Keyed(rows, entry)[z] == entry(rows[i]).value.1;
      LowerIdempotent(Field(rows[i], 3));
      UpperTwice(Field(rows[i], 4));
    }
  }

  // ---------------------------------------------------------------------
  // findZipByCityState

  /** `parseInt(z, 10)` on a ZIP code */
  function ZipValue(z: string): nat
  {
    if AllDigits(z) then DigitsValue(z) else 0
  }

  /** The comparator `(a, b) => parseInt(a) - parseInt(b)`, as "not after" */
  function ZipLe(a: string, b: string): bool
  {
    ZipValue(a) <= ZipValue(b)
  }

  /** The ZIP codes of the table whose city and state are `city` and `state` */
  function CityMatches(db: map<string, ZipInfo>, city: string, state: string): set<string>
  {
    set z | z in db && db[z].city == city && db[z].state == state
  }

  /** Two different five-digit codes have different numbers */
  lemma ZipValueInjective(a: string, b: string)
    requires |a| == 5 && AllDigits(a) && |b| == 5 && AllDigits(b) && a != b
    ensures ZipValue(a) != ZipValue(b)
  {
    StrLessTotal(a, b);
    DigitsLess(a, b);
    DigitsLess(b, a);
  }

  predicate Distinct<T(==)>(s: seq<T>)
  {
    forall i, j :: 0 <= i < j < |s| ==> s[i] != s[j]
  }

  function Elements<T>(s: seq<T>): set<T>
  {
    set x | x in s
  }

  lemma {:induction false} DistinctCard<T>(s: seq<T>)
    requires Distinct(s)
    ensures |Elements(s)| == |s|
    decreases |s|
  {
    if s != [] {
      var init := s[..|s| - 1];
      DistinctCard(init);
      assert Elements(s) == Elements(init) + {s[|s| - 1]};
      assert s[|s| - 1] !in Elements(init);
    }
  }

  /**
   * In a sorted run of distinct five-digit codes, exactly `k` codes lie
   * numerically below the one at position `k`
   */
  lemma RankOfSorted(t: seq<string>, k: nat)
    requires Distinct(t) && SortedBy(t, ZipLe) && k < |t|
    requires forall i :: 0 <= i < |t| ==> |t[i]| == 5 && AllDigits(t[i])
    ensures |set z | z in t && ZipValue(z) < ZipValue(t[k])| == k
  {
    var below := set z | z in t && ZipValue(z) < ZipValue(t[k]);
    var pre := t[..k];
    forall z | z in below
      ensures z in pre
    {
      var j :| 0 <= j < |t| && t[j] == z;
      assert j < k;
    }
    forall z | z in pre
      ensures z in below
    {
      var j :| 0 <= j < k && pre[j] == z;
      assert t[j] == z;
      assert ZipLe(t[j], t[k]);
      ZipValueInjective(t[j], t[k]);
    }
    assert below == Elements(pre);
    assert Distinct(pre);
    DistinctCard(pre);
  }

  lemma ZipLeOrder()
    ensures Total(ZipLe) && Transitive(ZipLe)
  {
  }

  /** A run without repeats holds each value at most once */
  lemma {:induction false} DistinctOnce<T>(s: seq<T>, x: T)
    requires Distinct(s)
    ensures multiset(s)[x] <= 1
    decreases |s|
  {
    if s != [] {
      var init := s[..|s| - 1];
      var last := s[|s| - 1];
      assert s == init + [last];
      assert Distinct(init);
      DistinctOnce(init, x);
    }
  }

  /** A reordering of a run without repeats has none */
  lemma SameMultisetDistinct<T>(a: seq<T>, b: seq<T>)
    requires Distinct(a) && multiset(a) == multiset(b)
    ensures Distinct(b)
  {
    forall i, j | 0 <= i < j < |b|
      ensures b[i] != b[j]
    {
      if b[i] == b[j] {
        assert b == b[..j] + [b[j]] + b[j + 1..];
        assert b[i] in b[..j];
        DistinctOnce(a, b[j]);
      }
    }
  }

  /**
   * The code `findZipByCityState` returns from the sorted matches: a match,
   * with exactly half of the matches (rounded down) numerically below it
   */
  lemma MedianRank(db: map<string, ZipInfo>, city: string, state: string, matches: seq<string>)
    requires ZipTable(db) && Distinct(matches) && matches != []
    requires forall z :: z in matches <==> z in CityMatches(db, city, state)
    ensures var t := InsertionSort(matches, ZipLe);
      t[|t| / 2] in CityMatches(db, city, state) &&
      |set z | z in CityMatches(db, city, state) && ZipValue(z) < ZipValue(t[|t| / 2])| == |CityMatches(db, city, state)| / 2
  {
    MedianOfMatches(matches, CityMatches(db, city, state));
  }

  /** The same on any set of five-digit codes the matches list without repeats */
  lemma MedianOfMatches(matches: seq<string>, cm: set<string>)
    requires Distinct(matches) && matches != []
    requires forall z :: z in matches <==> z in cm
    requires forall z :: z in cm ==> |z| == 5 && AllDigits(z)
    ensures var t := InsertionSort(matches, ZipLe);
      t[|t| / 2] in cm && |set z | z in cm && ZipValue(z) < ZipValue(t[|t| / 2])| == |cm| / 2
  {
    SortedMatches(matches, cm);
    MedianOfSorted(InsertionSort(matches, ZipLe), cm);
  }

  /** Sorting the matches keeps them distinct and the same codes, now in order */
  lemma SortedMatches(matches: seq<string>, cm: set<string>)
    requires Distinct(matches) && matches != []
    requires forall z :: z in matches <==> z in cm
    requires forall z :: z in cm ==> |z| == 5 && AllDigits(z)
    ensures var t := InsertionSort(matches, ZipLe);
      Distinct(t) && SortedBy(t, ZipLe) && t != [] && |cm| == |t|
      && (forall i :: 0 <= i < |t| ==> |t[i]| == 5 && AllDigits(t[i]))
      && (forall z :: z in t <==> z in cm)
  {
    var t := InsertionSort(matches, ZipLe);
    ZipLeOrder();
    InsertionSortSorted(matches, ZipLe);
    SameMultisetDistinct(matches, t);
    SameElements(matches, t);
    DistinctCard(matches);
    assert Elements(matches) == cm;
    forall i | 0 <= i < |t|
      ensures |t[i]| == 5 && AllDigits(t[i])
    {
      assert t[i] in cm;
    }
  }

  /** The middle of a sorted run without repeats of five-digit codes has half of the run's codes below it */
  lemma MedianOfSorted(t: seq<string>, cm: set<string>)
    requires Distinct(t) && SortedBy(t, ZipLe) && t != [] && |cm| == |t|
    requires forall i :: 0 <= i < |t| ==> |t[i]| == 5 && AllDigits(t[i])
    requires forall z :: z in t <==> z in cm
    ensures t[|t| / 2] in cm
    ensures |set z | z in cm && ZipValue(z) < ZipValue(t[|t| / 2])| == |cm| / 2
  {
    var k := |t| / 2;
    RankOfSorted(t, k);
    assert (set z | z in t && ZipValue(z) < ZipValue(t[k])) == (set z | z in cm && ZipValue(z) < ZipValue(t[k]));
  }

  /** Two sequences holding the same multiset hold the same elements */
  lemma SameElements<T>(a: seq<T>, b: seq<T>)
    requires multiset(a) == multiset(b)
    ensures forall z :: z in a <==> z in b
  {
    forall z
      ensures z in a <==> z in b
    {
      assert z in a <==> z in multiset(a);
      assert z in b <==> z in multiset(b);
    }
  }

  // ---------------------------------------------------------------------
  // matchTechByInitialAndLast

  /** `[A-Za-z'\-]` */
  predicate IsSurnameChar(c: char)
  {
    IsLetter(c) || c == '\'' || c == '-'
  }

  /**
   * `^([A-Za-z])\.?\s*([A-Za-z'\-]+)$` on the trimmed name with its white
   * space runs collapsed: the upper-cased initial and surname
   */
  function ShortName(name: string): Option<(char, string)>
  {
    ReadShort(CollapseSpaces(Trim(name)))
  }

  /** The initial and surname read from a trimmed, collapsed name */
  function ReadShort(s: string): Option<(char, string)>
  {
    if s == [] || !IsLetter(s[0]) then None
    else
      var i := if |s| > 1 && s[1] == '.' then 2 else 1;
      var last := SkipSpaces(s[i..]);
      if last != [] && forall k :: 0 <= k < |last| ==> IsSurnameChar(last[k])
      then Some((UpperChar(s[0]), Upper(last)))
      else None
  }

  /** The technician has that surname and a first name with that initial, in any case */
  predicate TechMatches(t: Tech, initial: char, surname: string)
  {
    Upper(t.lastName) == surname && t.firstName != "" && UpperChar(t.firstName[0]) == initial
  }

  function MatchingIds(techs: map<string, Tech>, initial: char, surname: string): set<string>
  {
    set id | id in techs && TechMatches(techs[id], initial, surname)
  }

  lemma {:induction false} CollapseNoSpace(s: string)
    requires NoSpace(s)
    ensures CollapseSpaces(s) == s
    decreases |s|
  {
    if s != [] {
      CollapseNoSpace(s[1..]);
      assert s == [s[0]] + s[1..];
    }
  }

  /**
   * "F. Oshinowo", "K Gibson", "F.Oshinowo", "FOshinowo": an initial, a
   * full stop or a space or both or neither, then a surname, read as that
   * initial and surname
   */
  lemma ShortNameOf(initial: char, gap: string, surname: string)
    requires IsLetter(initial) && (gap == "" || gap == "." || gap == " " || gap == ". ")
    requires surname != [] && forall k :: 0 <= k < |surname| ==> IsSurnameChar(surname[k])
    ensures ShortName([initial] + gap + surname) == Some((UpperChar(initial), Upper(surname)))
  {
    CollapseOneGap(initial, gap, surname);
    ReadShortOf(initial, gap, surname);
  }

  /** Reading an already collapsed short name */
  lemma ReadShortOf(initial: char, gap: string, surname: string)
    requires IsLetter(initial) && (gap == "" || gap == "." || gap == " " || gap == ". ")
    requires surname != [] && forall k :: 0 <= k < |surname| ==> IsSurnameChar(surname[k])
    ensures ReadShort([initial] + gap + surname) == Some((UpperChar(initial), Upper(surname)))
  {
    var s := [initial] + gap + surname;
    assert s[0] == initial;
    assert !IsSpace(surname[0]);
    assert SkipSpaces(surname) == surname;
    if gap == "" {
      assert s[1] == surname[0] && s[1..] == surname;
    } else if gap == "." {
      assert s[1] == '.' && s[2..] == surname;
    } else if gap == " " {
      assert s[1] == ' ' && s[1..] == [' '] + surname;
      assert SkipSpaces(s[1..]) == surname;
    } else {
      assert s[1] == '.' && s[2..] == [' '] + surname;
      assert SkipSpaces(s[2..]) == surname;
    }
  }

  lemma CollapseCons(c: char, rest: string)
    requires !IsSpace(c)
    ensures CollapseSpaces([c] + rest) == [c] + CollapseSpaces(rest)
  {
    assert ([c] + rest)[1..] == rest;
  }

  lemma CollapseOneGap(initial: char, gap: string, surname: string)
    requires IsLetter(initial) && (gap == "" || gap == "." || gap == " " || gap == ". ")
    requires surname != [] && forall k :: 0 <= k < |surname| ==> IsSurnameChar(surname[k])
    ensures CollapseSpaces(Trim([initial] + gap + surname)) == [initial] + gap + surname
  {
    var s := [initial] + gap + surname;
    assert NoSpace(surname);
    assert !IsSpace(s[0]) && s[|s| - 1] == surname[|surname| - 1];
    TrimNoEnds(s);
    CollapseNoSpace(surname);
    CollapseAfterGap(initial, gap, surname);
  }

  lemma CollapseAfterGap(initial: char, gap: string, surname: string)
    requires IsLetter(initial) && (gap == "" || gap == "." || gap == " " || gap == ". ")
    requires NoSpace(surname) && CollapseSpaces(surname) == surname
    ensures CollapseSpaces([initial] + gap + surname) == [initial] + gap + surname
  {
    if gap == "" {
      assert [initial] + gap + surname == [initial] + surname;
      CollapseCons(initial, surname);
    } else if gap == "." {
      CollapseDotGap(initial, surname);
    } else if gap == " " {
      CollapseSpaceGap(initial, surname);
    } else {
      CollapseDotSpaceGap(initial, surname);
    }
  }

  lemma CollapseDotGap(initial: char, surname: string)
    requires IsLetter(initial) && CollapseSpaces(surname) == surname
    ensures CollapseSpaces([initial] + "." + surname) == [initial] + "." + surname
  {
    var t := ['.'] + surname;
    assert [initial] + "." + surname == [initial] + t;
    CollapseCons('.', surname);
    CollapseCons(initial, t);
  }

  lemma CollapseSpaceGap(initial: char, surname: string)
    requires IsLetter(initial) && NoSpace(surname) && CollapseSpaces(surname) == surname
    ensures CollapseSpaces([initial] + " " + surname) == [initial] + " " + surname
  {
    var t := [' '] + surname;
    assert [initial] + " " + surname == [initial] + t;
    CollapseSpaced(surname);
    CollapseCons(initial, t);
  }

  lemma CollapseDotSpaceGap(initial: char, surname: string)
    requires IsLetter(initial) && NoSpace(surname) && CollapseSpaces(surname) == surname
    ensures CollapseSpaces([initial] + ". " + surname) == [initial] + ". " + surname
  {
    var t := ['.'] + ([' '] + surname);
    assert [initial] + ". " + surname == [initial] + t;
    CollapseSpaced(surname);
    CollapseCons('.', [' '] + surname);
    CollapseCons(initial, t);
  }

  lemma CollapseSpaced(surname: string)
    requires NoSpace(surname) && CollapseSpaces(surname) == surname
    ensures CollapseSpaces([' '] + surname) == [' '] + surname
  {
    var spaced := [' '] + surname;
    assert spaced[1..] == surname;
    assert SkipSpaces(surname) == surname;
  }
}
