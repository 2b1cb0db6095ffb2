/**
 * The page's state (`oncallSheetAOA`, `oncallMeta`, `techMap`, `zipDB`) and
 * the operations that fill it and read it: loading the bundled technician
 * and ZIP tables, the city/state and short-name lookups, and
 * `detectMarketForZip` with its loops written out.
 */
module App {
  import opened Wrappers
  import opened Strings
  import opened Cells
  import opened Markets
  import opened Rotation
  import opened Sorting
  import opened Lookups
  import opened Availability
  import opened Detection
  import Records

  // ---------------------------------------------------------------------
  // detectMarketForZip, loop by loop, over a snapshot of the state

  /** The first loop of `detectMarketForZip`: candidates, held-back candidates and the skip counters */
  method FirstPass(db: Db, ms: seq<Market>, col: nat, here: ZipInfo, dist: Distance, isToday: bool)
    returns (t: Tally)
    ensures t == TallyOf(ProbesOf(db, ms, col, here, dist, isToday))
  {
    var candidates: seq<Candidate> := [];
    var reservedCandidates: seq<Candidate> := [];
    var reservedSkipped, missingTechIdInOncall, missingTechInDb, missingTechZip, missingTechZipInZipDb := 0, 0, 0, 0, 0;
    for i := 0 to |ms|
      invariant Tally(Split(candidates, reservedCandidates), reservedSkipped, missingTechIdInOncall, missingTechInDb,
                      missingTechZip, missingTechZipInZipDb) == TallyOf(ProbesOf(db, ms[..i], col, here, dist, isToday))
    {
      ProbesSnoc(db, ms, i, col, here, dist, isToday);
      var p := ProbeOf(db, ms[i], col, here, dist, isToday);
      TallySnoc(ProbesOf(db, ms[..i], col, here, dist, isToday), p);
      candidates, reservedCandidates, reservedSkipped, missingTechIdInOncall, missingTechInDb, missingTechZip,
        missingTechZipInZipDb := CountProbe(candidates, reservedCandidates, reservedSkipped, missingTechIdInOncall,
                                            missingTechInDb, missingTechZip, missingTechZipInZipDb, p);
    }
    assert ms[..|ms|] == ms;
    t := Tally(Split(candidates, reservedCandidates), reservedSkipped, missingTechIdInOncall, missingTechInDb,
               missingTechZip, missingTechZipInZipDb);
  }

  /** The counting half of the first loop's body, on one market's probe */
  method CountProbe(candidates: seq<Candidate>, reservedCandidates: seq<Candidate>, reservedSkipped: nat,
                    missingTechIdInOncall: nat, missingTechInDb: nat, missingTechZip: nat, missingTechZipInZipDb: nat,
                    p: Probe)
    returns (candidates': seq<Candidate>, reservedCandidates': seq<Candidate>, reservedSkipped': nat,
             missingTechIdInOncall': nat, missingTechInDb': nat, missingTechZip': nat, missingTechZipInZipDb': nat)
    ensures Tally(Split(candidates', reservedCandidates'), reservedSkipped', missingTechIdInOncall', missingTechInDb',
                  missingTechZip', missingTechZipInZipDb') ==
            Count(Tally(Split(candidates, reservedCandidates), reservedSkipped, missingTechIdInOncall, missingTechInDb,
                        missingTechZip, missingTechZipInZipDb), p)
  {
    candidates', reservedCandidates', reservedSkipped' := candidates, reservedCandidates, reservedSkipped;
    missingTechIdInOncall', missingTechInDb' := missingTechIdInOncall, missingTechInDb;
    missingTechZip', missingTechZipInZipDb' := missingTechZip, missingTechZipInZipDb;
    match p {
      case NoTechId =>
        missingTechIdInOncall' := missingTechIdInOncall + 1;
      case TechUnknown =>
        missingTechInDb' := missingTechInDb + 1;
      case Seen(c, zs, held) =>
        if zs == NoTechZip {
          missingTechZip' := missingTechZip + 1;
        } else if zs == ZipUnknown {
          missingTechZipInZipDb' := missingTechZipInZipDb + 1;
        }
        if held {
          reservedSkipped' := reservedSkipped + 1;
          reservedCandidates' := reservedCandidates + [c];
        } else {
          candidates' := candidates + [c];
        }
    }
  }

  /** `collectForWeek(wk)` over the markets `ms` */
  method CollectForWeek(db: Db, ms: seq<Market>, wk: Week, here: ZipInfo, dist: Distance, isToday: bool)
    returns (s: Split)
    ensures s == SplitOf(ProbesOf(db, ms, wk.col, here, dist, isToday))
  {
    var cand: seq<Candidate> := [];
    var resCand: seq<Candidate> := [];
    for i := 0 to |ms|
      invariant Split(cand, resCand) == SplitOf(ProbesOf(db, ms[..i], wk.col, here, dist, isToday))
    {
      ProbesSnoc(db, ms, i, wk.col, here, dist, isToday);
      var p := ProbeOf(db, ms[i], wk.col, here, dist, isToday);
      SplitSnoc(ProbesOf(db, ms[..i], wk.col, here, dist, isToday), p);
      if p.Seen? && p.zip == Located {
        if p.held {
          resCand := resCand + [p.cand];
        } else {
          cand := cand + [p.cand];
        }
      }
    }
    assert ms[..|ms|] == ms;
    s := Split(cand, resCand);
  }

  /** The loop `for (const wk of tryWeeks)` that stops at the first week with candidates */
  method SwitchWeek(db: Db, ms: seq<Market>, tries: seq<Week>, here: ZipInfo, dist: Distance, isToday: bool)
    returns (alt: Option<(Week, Split)>)
    ensures alt == FirstNonEmpty(ms, tries, Collect(db, here, dist, isToday))
  {
    ghost var split := Collect(db, here, dist, isToday);
    alt := None;
    var k := 0;
    while k < |tries| && alt.None?
      invariant 0 <= k <= |tries|
      invariant alt.None? ==> FirstNonEmpty(ms, tries, split) == FirstNonEmpty(ms, tries[k..], split)
      invariant alt.Some? ==> alt == FirstNonEmpty(ms, tries, split)
      decreases |tries| - k
    {
      var s := CollectForWeek(db, ms, tries[k], here, dist, isToday);
      assert s == split(ms, tries[k]);
      assert tries[k..][1..] == tries[k + 1..];
      if Pool(s) != [] {
        alt := Some((tries[k], s));
      }
      k := k + 1;
    }
  }

  /** The fallback block of `detectMarketForZip`, run when the first pass found nobody */
  method FallbackSearch(db: Db, ms: seq<Market>, used: bool, week: Week, first: Split, here: ZipInfo, dist: Distance,
                        isToday: bool) returns (g: Result<Gathered, DetectError>)
    ensures g == Fallback(db.meta.weeks, db.meta.markets, ms, used, week, first, Collect(db, here, dist, isToday))
  {
    if Pool(first) != [] {
      return Ok(Gathered(first, week, []));
    }
    var tryWeeks := TryWeeks(db.meta.weeks, week.col);
    var alt := SwitchWeek(db, ms, tryWeeks, here, dist, isToday);
    if alt.Some? {
      return Ok(Gathered(alt.value.1, alt.value.0, [SwitchedWeek(alt.value.0)]));
    }
    if !used {
      return Err(NoCandidates);
    }
    var all := db.meta.markets;
    var altNow := CollectForWeek(db, all, week, here, dist, isToday);
    assert altNow == Collect(db, here, dist, isToday)(all, week);
    if Pool(altNow) != [] {
      return Ok(Gathered(altNow, week, [RetriedAllMarkets]));
    }
    var alt2 := SwitchWeek(db, all, tryWeeks, here, dist, isToday);
    if alt2.Some? {
      return Ok(Gathered(alt2.value.1, alt2.value.0, [RetriedAllMarkets, SwitchedWeek(alt2.value.0)]));
    }
    return Err(NoCandidates);
  }

  /** `detectMarketForZip` once the ZIP code `z` is located at `here` and a week is given */
  method SearchMarkets(db: Db, z: string, here: ZipInfo, selectedState: string, week: Week, isToday: bool,
                       dist: Distance) returns (r: Result<Detection, DetectError>)
    ensures r == Search(db, z, here, selectedState, week, isToday, dist)
  {
    var candidateMarkets := AcceptedMarkets(db.meta.markets, selectedState);
    var usedStateFilter := candidateMarkets != [];
    if !usedStateFilter {
      candidateMarkets := db.meta.markets;
    }
    var t := FirstPass(db, candidateMarkets, week.col, here, dist, isToday);
    var g := FallbackSearch(db, candidateMarkets, usedStateFilter, week, t.split, here, dist, isToday);
    r := Complete(z, here, usedStateFilter, t, g);
  }

  /** The loop of `matchTechByInitialAndLast` over the technicians: the only match, if exactly one */
  method UniqueMatch(techs: map<string, Tech>, ini: char, last: string) returns (r: Option<string>)
    ensures r.Some? <==> |MatchingIds(techs, ini, last)| == 1
    ensures r.Some? ==> MatchingIds(techs, ini, last) == {r.value}
  {
    var candidates: seq<string> := [];
    var rest := techs.Keys;
    while rest != {}
      invariant rest <= techs.Keys
      invariant Distinct(candidates)
      invariant forall id :: id in candidates <==> id in MatchingIds(techs, ini, last) && id !in rest
      decreases |rest|
    {
      var id :| id in rest;
      var t := techs[id];
      if Upper(t.lastName) == last && t.firstName != "" && UpperChar(t.firstName[0]) == ini {
        candidates := candidates + [id];
      }
      rest := rest - {id};
    }
    DistinctCard(candidates);
    assert Elements(candidates) == MatchingIds(techs, ini, last);
    if |candidates| == 1 {
      assert Elements(candidates) == {candidates[0]};
      return Some(candidates[0]);
    }
    return None;
  }

  // ---------------------------------------------------------------------
  // The page's state

  datatype ZipLoadError = ZipDbNotLoaded

  class AppState {
    /** `oncallSheetAOA`, the cleaned rotation grid */
    var grid: Grid
    /** `oncallMeta` */
    var meta: Meta
    /** `techMap` */
    var techs: map<string, Tech>
    /** `zipDB` */
    var zips: map<string, ZipInfo>
    /** `dailyAvailByDate` */
    var avail: map<string, seq<Entry>>

    /** Every technician is filed under its own identifier; the ZIP table is normalised */
    ghost predicate Valid()
      reads this
    {
      ZipTable(zips) && forall id :: id in techs ==> techs[id].techId == id
    }

    /** The state as the detection reads it */
    function Snapshot(): Db
      reads this
    {
      Db(grid, meta, techs, zips)
    }

    /** The page before anything is loaded */
    constructor()
      ensures Valid() && grid == [] && meta == Meta([], []) && techs == map[] && zips == map[] && avail == map[]
    {
      avail := map[];
      grid := [];
      meta := Meta([], []);
      techs := map[];
      zips := map[];
    }

    /**
     * `loadBuiltInTechDb`: `rows` is `window.TECH_DB_ROWS`, missing when
     * the bundled file did not load; the table is rebuilt from the rows
     */
    method LoadBuiltInTechDb(rows: Option<seq<Row>>) returns (count: nat, ok: bool)
      requires Valid()
      modifies this
      ensures Valid()
      ensures rows.None? ==> !ok && count == 0 && techs == old(techs)
      ensures rows.Some? ==> ok && techs == TechMapOf(rows.value) && count == |techs|
      ensures grid == old(grid) && meta == old(meta) && zips == old(zips) && avail == old(avail)
    {
      if rows.None? {
        return 0, false;
      }
      var rs := rows.value;
      techs := FillTable(rs, TechEntry);
      forall id | id in techs
        ensures techs[id].techId == id
      {
        TechMapSpec(rs, id);
      }
      return |techs|, true;
    }

    /**
     * `loadTechDb`: `rows` is `sheet_to_json` of the workbook's first sheet;
     * the table is cleared and rebuilt from its US rows
     */
    method LoadTechDb(rows: seq<Records.Record<Cell>>) returns (count: nat)
      requires Valid()
      modifies this
      ensures Valid()
      ensures techs == SheetTechMapOf(rows) && count == |techs|
      ensures grid == old(grid) && meta == old(meta) && zips == old(zips) && avail == old(avail)
    {
      techs := FillTable(rows, SheetTechEntry);
      forall id | id in techs
        ensures techs[id].techId == id
      {
        SheetTechMapSpec(rows, id);
      }
      return |techs|;
    }

    /**
     * The row loop of `loadBundledZipDb`: `rows` is `window.ZIP_DB_ROWS`
     * (a missing table is an error), `num` is `Number(v)` where finite
     */
    method LoadZipRows(rows: Option<seq<Row>>, num: Cell -> Option<real>) returns (r: Result<nat, ZipLoadError>)
      requires Valid()
      modifies this
      ensures Valid()
      ensures rows.None? ==> r == Err(ZipDbNotLoaded) && zips == old(zips)
      ensures rows.Some? ==> zips == ZipDbOf(rows.value, num) && r == Ok(|zips|)
      ensures grid == old(grid) && meta == old(meta) && techs == old(techs) && avail == old(avail)
    {
      if rows.None? {
        return Err(ZipDbNotLoaded);
      }
      var rs := rows.value;
      zips := FillTable(rs, row => ZipEntry(row, num));
      ZipDbSpec(rs, num);
      return Ok(|zips|);
    }

    /**
     * The first half of `loadOncall`: `daily` is the workbook's "Daily Tech
     * Availability" sheet when it has one; `generic` is the host's
     * `new Date(text)`
     */
    method LoadDailyAvailability(daily: Option<Grid>, generic: string -> Option<int>)
      modifies this`avail
      ensures avail == (if daily.Some? then DailyAvailability(daily.value, generic) else map[])
    {
      if daily.Some? {
        avail := ParseDailyAvailabilityWorksheet(daily.value, generic);
      } else {
        avail := map[];
      }
    }

    /**
     * The second half of `loadOncall` on the workbook's first sheet: the
     * grid is stored before it is parsed, so a parse error leaves the new
     * grid beside the old rotation
     */
    method LoadRotation(first: Grid, generic: string -> Option<int>, info: (Row, string, nat) -> string)
      returns (r: Result<Meta, OncallError>)
      modifies this`grid, this`meta
      ensures grid == CleanGrid(first)
      ensures r == OncallOf(grid, DateParser(generic), info)
      ensures meta == (if r.Ok? then r.value else old(meta))
    {
      var aoa := CleanGrid(first);
      grid := aoa;
      r := ParseOncall(aoa, DateParser(generic), info);
      if r.Ok? {
        meta := r.value;
      }
    }

    /**
     * `findZipByCityState`: among the codes of the city in the state, the
     * middle one by numeric value (of an even count, the upper middle)
     */
    method FindZipByCityState(city: string, state: string) returns (r: Option<string>)
      requires Valid()
      ensures var c := Lower(Trim(city)); var s := Upper(Trim(state));
        r.None? <==> c == "" || s == "" || CityMatches(zips, c, s) == {}
      ensures var c := Lower(Trim(city)); var s := Upper(Trim(state));
        r.Some? ==>
          r.value in CityMatches(zips, c, s) &&
          |set z | z in CityMatches(zips, c, s) && ZipValue(z) < ZipValue(r.value)| == |CityMatches(zips, c, s)| / 2
    {
      var c := Lower(Trim(city));
      var s := Upper(Trim(state));
      if c == "" || s == "" {
        return None;
      }
      var matches: seq<string> := [];
      var rest := zips.Keys;
      while rest != {}
        invariant rest <= zips.Keys
        invariant Distinct(matches)
        invariant forall z :: z in matches <==> z in CityMatches(zips, c, s) && z !in rest
        decreases |rest|
      {
        var z :| z in rest;
        if zips[z].city == c && zips[z].state == s {
          matches := matches + [z];
        }
        rest := rest - {z};
      }
      if matches == [] {
        return None;
      }
      MedianRank(zips, c, s, matches);
      var sorted := InsertionSort(matches, ZipLe);
      return Some(sorted[|sorted| / 2]);
    }

    /**
     * `matchTechByInitialAndLast`: the technician named by "F. Surname",
     * when exactly one matches
     */
    method MatchTechByInitialAndLast(shortName: string) returns (r: Option<Tech>)
      requires Valid()
      ensures r.Some? <==> ShortName(shortName).Some? &&
                           |MatchingIds(techs, ShortName(shortName).value.0, ShortName(shortName).value.1)| == 1
      ensures r.Some? ==>
        var n := ShortName(shortName).value;
        MatchingIds(techs, n.0, n.1) == {r.value.techId} && r.value.techId in techs && techs[r.value.techId] == r.value
    {
      var m := ShortName(shortName);
      if m.None? {
        return None;
      }
      var id := UniqueMatch(techs, m.value.0, m.value.1);
      if id.None? {
        return None;
      }
      return Some(techs[id.value]);
    }

    /**
     * `detectMarketForZip(inputZip, selectedState, week, dateStr)`, `today`
     * being `effectiveTodayYmd()` and `dist` the great-circle distance
     */
    method DetectMarketForZip(inputZip: Cell, selectedState: string, week: Option<Week>, dateStr: string,
                              today: string, dist: Distance) returns (r: Result<Detection, DetectError>)
      ensures r == Detect(Snapshot(), inputZip, selectedState, week, dateStr, today, dist)
    {
      var z := NormalizeZip(inputZip);
      if z.None? {
        return Err(InvalidZip);
      }
      if z.value !in zips {
        return Err(ZipNotFound);
      }
      if week.None? {
        return Err(NoWeek);
      }
      var isToday := dateStr == today;
      r := SearchMarkets(Snapshot(), z.value, zips[z.value], selectedState, week.value, isToday, dist);
    }
  }
}
