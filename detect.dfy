/**
 * `detectMarketForZip`: the market, and its on-call technician, closest to
 * a ticket's ZIP code in a week of the rotation, with a confidence grade;
 * the ETA policy (`kmToMarketHours` and the coverage buckets of
 * `confidenceNoticeHtml`); and the re-use of a detection when the
 * dispatcher picks one of its alternatives (`lookupWithChosenMarket`).
 *
 * The great-circle distance `haversineKm` is a parameter of type
 * `Distance`; distances are reals, and a distance that is missing (null in
 * the source) is `None`.
 */
module Detection {
  import opened Wrappers
  import opened Strings
  import opened Cells
  import opened Markets
  import opened Rotation
  import opened Lookups
  import opened Sorting

  /** `haversineKm(lat1, lon1, lat2, lon2)` */
  type Distance = (real, real, real, real) -> real

  /** The state the detection reads: the cleaned rotation grid, its parse, and the two tables */
  datatype Db = Db(grid: Grid, meta: Meta, techs: map<string, Tech>, zips: map<string, ZipInfo>)

  // ---------------------------------------------------------------------
  // ETA policy

  /** `kmToMarketHours`: a 25% road uplift at 95 km/h */
  function KmToMarketHours(km: real): real
  {
    km * 1.25 / 95.0
  }

  /** The thresholds of the policy, as distances: 3h 30m is 266 km, 3h is 228 km */
  lemma EtaThresholds(km: real)
    ensures KmToMarketHours(km) > 3.5 <==> km > 266.0
    ensures KmToMarketHours(km) > 3.0 <==> km > 228.0
    ensures KmToMarketHours(km) <= 3.0 <==> km <= 228.0
  {
  }

  /** How the ETA is graded in `confidenceNoticeHtml` */
  datatype Coverage = Supported | Verify | PossiblyUnsupported

  /**
   * The coverage bucket of `confidenceNoticeHtml(conf, distKm, _)`: none
   * (an empty notice) when the confidence text is empty; `Supported` when
   * the distance is missing
   */
  function CoverageOf(conf: string, dist: Option<real>): Option<Coverage>
  {
    if conf == "" then None
    else if dist.None? then Some(Supported)
    else
      var eta := KmToMarketHours(dist.value);
      if eta > 3.5 then Some(PossiblyUnsupported)
      else if eta > 3.0 then Some(Verify)
      else Some(Supported)
  }

  /** The buckets split the distances at 228 km and 266 km */
  lemma CoverageBuckets(conf: string, dist: Option<real>)
    requires conf != ""
    ensures CoverageOf(conf, dist) == Some(Supported) <==> dist.None? || dist.value <= 228.0
    ensures CoverageOf(conf, dist) == Some(Verify) <==> dist.Some? && 228.0 < dist.value <= 266.0
    ensures CoverageOf(conf, dist) == Some(PossiblyUnsupported) <==> dist.Some? && dist.value > 266.0
  {
    if dist.Some? {
      EtaThresholds(dist.value);
    }
  }

  // ---------------------------------------------------------------------
  // Confidence

  datatype Confidence = High | Medium | Low

  /** The grade from the gap between the best and the second-best distance */
  function GapConfidence(delta: Option<real>): Confidence
  {
    if delta.None? then High
    else if delta.value >= 150.0 then High
    else if delta.value >= 75.0 then Medium
    else Low
  }

  /** The cap by ETA: over 3h 30m is Low, over 3h is at most Medium */
  function CapByEta(c: Confidence, eta: real): Confidence
  {
    if eta > 3.5 then Low
    else if eta > 3.0 then (if c == High then Medium else c)
    else c
  }

  /** The final grade, read off the gap and the best distance */
  lemma ConfidenceSpec(delta: Option<real>, best: real)
    ensures CapByEta(GapConfidence(delta), KmToMarketHours(best)) == High <==>
      best <= 228.0 && (delta.None? || delta.value >= 150.0)
    ensures CapByEta(GapConfidence(delta), KmToMarketHours(best)) == Low <==>
      best > 266.0 || (delta.Some? && delta.value < 75.0)
  {
    EtaThresholds(best);
  }

  // ---------------------------------------------------------------------
  // Candidates

  /** A market with its on-call technician for the week, and how far that technician is */
  datatype Candidate = Candidate(market: Market, dist: Option<real>, techId: string,
                                 techZip: Option<string>, techName: Option<string>)

  /** `t.firstName ? `${t.firstName} ${t.lastName || ''}`.trim() : null` */
  function TechName(t: Tech): Option<string>
  {
    if t.firstName != "" then Some(Trim(t.firstName + " " + t.lastName)) else None
  }

  /** Whether the technician's ZIP code is known, and known to the ZIP table */
  datatype ZipState = NoTechZip | ZipUnknown | Located

  /**
   * What the loops learn about a market: no technician identifier in its
   * cell, an identifier the technician table lacks, or a candidate, held
   * back when it is reserved and the date is not today
   */
  datatype Probe = NoTechId | TechUnknown | Seen(cand: Candidate, zip: ZipState, held: bool)

  /** The market's cell in week column `col`, read against the tables */
  function ProbeOf(db: Db, m: Market, col: nat, here: ZipInfo, dist: Distance, isToday: bool): Probe
  {
    var cell := ParseTechCell(Get(GetRow(db.grid, m.row), col));
    if cell.None? || cell.value.techId.None? then NoTechId
    else
      var id := cell.value.techId.value;
      if id !in db.techs then TechUnknown
      else
        var t := db.techs[id];
        var zs := if t.zip.None? then NoTechZip else if t.zip.value !in db.zips then ZipUnknown else Located;
        var d := if zs == Located then Some(dist(here.lat, here.lon, db.zips[t.zip.value].lat, db.zips[t.zip.value].lon))
                 else None;
        var reserved := cell.value.reserved || MentionsReserv(m.info);
        Seen(Candidate(m, d, id, t.zip, TechName(t)), zs, reserved && !isToday)
  }

  /** A candidate has a distance exactly when its technician's ZIP code is located */
  lemma ProbeOfSpec(db: Db, m: Market, col: nat, here: ZipInfo, dist: Distance, isToday: bool)
    ensures var p := ProbeOf(db, m, col, here, dist, isToday);
      p.Seen? ==> p.cand.market == m && (p.cand.dist.Some? <==> p.zip == Located) && p.cand.techId in db.techs
  {
  }

  /** The probes of the markets, in order */
  function ProbesOf(db: Db, ms: seq<Market>, col: nat, here: ZipInfo, dist: Distance, isToday: bool): seq<Probe>
  {
    if ms == [] then []
    else ProbesOf(db, ms[..|ms| - 1], col, here, dist, isToday) + [ProbeOf(db, ms[|ms| - 1], col, here, dist, isToday)]
  }

  /** The normal candidates and those held back as reserved */
  datatype Split = Split(cands: seq<Candidate>, held: seq<Candidate>)

  /** `candidates.length ? candidates : reservedCandidates` */
  function Pool(s: Split): seq<Candidate>
  {
    if s.cands != [] then s.cands else s.held
  }

  /** The first pass: the split and the counts of skipped markets */
  datatype Tally = Tally(split: Split, reservedSkipped: nat, noTechId: nat, techUnknown: nat,
                         noTechZip: nat, zipUnknown: nat)

  function Count(t: Tally, p: Probe): Tally
  {
    match p
    case NoTechId => t.(noTechId := t.noTechId + 1)
    case TechUnknown => t.(techUnknown := t.techUnknown + 1)
    case Seen(c, zs, held) =>
      var t1 := if zs == NoTechZip then t.(noTechZip := t.noTechZip + 1)
                else if zs == ZipUnknown then t.(zipUnknown := t.zipUnknown + 1)
                else t;
      if held then t1.(reservedSkipped := t1.reservedSkipped + 1, split := Split(t1.split.cands, t1.split.held + [c]))
      else t1.(split := Split(t1.split.cands + [c], t1.split.held))
  }

  /** The first loop of `detectMarketForZip` over the probes */
  function TallyOf(ps: seq<Probe>): Tally
  {
    if ps == [] then Tally(Split([], []), 0, 0, 0, 0, 0)
    else Count(TallyOf(ps[..|ps| - 1]), ps[|ps| - 1])
  }

  /** The first loop keeps every candidate, with or without a distance, and counts every market */
  lemma {:induction false} TallySpec(ps: seq<Probe>)
    ensures var t := TallyOf(ps);
      forall c :: c in t.split.cands <==> exists i :: 0 <= i < |ps| && ps[i].Seen? && !ps[i].held && ps[i].cand == c
    ensures var t := TallyOf(ps);
      forall c :: c in t.split.held <==> exists i :: 0 <= i < |ps| && ps[i].Seen? && ps[i].held && ps[i].cand == c
    ensures var t := TallyOf(ps);
      |t.split.cands| + |t.split.held| + t.noTechId + t.techUnknown == |ps| && t.reservedSkipped == |t.split.held|
    decreases |ps|
  {
    if ps != [] {
      var init := ps[..|ps| - 1];
      TallySpec(init);
      forall i | 0 <= i < |init|
        ensures init[i] == ps[i]
      {
      }
    }
  }

  /** The probes of one more market */
  lemma ProbesSnoc(db: Db, ms: seq<Market>, i: nat, col: nat, here: ZipInfo, dist: Distance, isToday: bool)
    requires i < |ms|
    ensures ProbesOf(db, ms[..i + 1], col, here, dist, isToday) ==
      ProbesOf(db, ms[..i], col, here, dist, isToday) + [ProbeOf(db, ms[i], col, here, dist, isToday)]
  {
    assert ms[..i + 1][..i] == ms[..i];
  }

  /** The tally of one more probe */
  lemma TallySnoc(ps: seq<Probe>, p: Probe)
    ensures TallyOf(ps + [p]) == Count(TallyOf(ps), p)
  {
    assert (ps + [p])[..|ps|] == ps;
  }

  /** The split of one more probe */
  lemma SplitSnoc(ps: seq<Probe>, p: Probe)
    ensures SplitOf(ps + [p]) ==
      (var s := SplitOf(ps);
       if !p.Seen? || p.zip != Located then s
       else if p.held then Split(s.cands, s.held + [p.cand])
       else Split(s.cands + [p.cand], s.held))
  {
    assert (ps + [p])[..|ps|] == ps;
  }

  /** `collectForWeek`: only candidates whose technician is located */
  function SplitOf(ps: seq<Probe>): Split
  {
    if ps == [] then Split([], [])
    else
      var s := SplitOf(ps[..|ps| - 1]);
      var p := ps[|ps| - 1];
      if !p.Seen? || p.zip != Located then s
      else if p.held then Split(s.cands, s.held + [p.cand])
      else Split(s.cands + [p.cand], s.held)
  }

  /** `collectForWeek` keeps exactly the located candidates, split by whether they are held back */
  lemma {:induction false} SplitSpec(ps: seq<Probe>)
    ensures forall c :: c in SplitOf(ps).cands <==> exists i :: 0 <= i < |ps| && ps[i] == Seen(c, Located, false)
    ensures forall c :: c in SplitOf(ps).held <==> exists i :: 0 <= i < |ps| && ps[i] == Seen(c, Located, true)
    decreases |ps|
  {
    if ps != [] {
      var init := ps[..|ps| - 1];
      SplitSpec(init);
      forall i | 0 <= i < |init|
        ensures init[i] == ps[i]
      {
      }
    }
  }

  // ---------------------------------------------------------------------
  // The markets and weeks tried

  /** `markets.filter(m => marketAcceptsStateForMarket(m, st))` */
  function AcceptedMarkets(ms: seq<Market>, st: string): (r: seq<Market>)
    ensures forall m :: m in r <==> m in ms && MarketAcceptsStateForMarket(m, st)
  {
    if ms == [] then []
    else
      var last := ms[|ms| - 1];
      assert ms == ms[..|ms| - 1] + [last];
      AcceptedMarkets(ms[..|ms| - 1], st) + (if MarketAcceptsStateForMarket(last, st) then [last] else [])
  }

  /** `weeks.findIndex(w => w.col === col)` from `i` on */
  function WeekIndex(weeks: seq<Week>, col: nat, i: nat): (r: Option<nat>)
    requires i <= |weeks|
    ensures r.Some? ==> (i <= r.value < |weeks| && weeks[r.value].col == col &&
                         forall j :: i <= j < r.value ==> weeks[j].col != col)
    ensures r.None? ==> forall j :: i <= j < |weeks| ==> weeks[j].col != col
    decreases |weeks| - i
  {
    if i == |weeks| then None else if weeks[i].col == col then Some(i) else WeekIndex(weeks, col, i + 1)
  }

  /** The weeks tried when the selected week is empty: the next one, then the previous one */
  function TryWeeks(weeks: seq<Week>, col: nat): (r: seq<Week>)
    ensures |r| <= 2
  {
    var k := WeekIndex(weeks, col, 0);
    if k.None? then []
    else
      (if k.value + 1 < |weeks| then [weeks[k.value + 1]] else []) +
      (if k.value >= 1 then [weeks[k.value - 1]] else [])
  }

  /** The weeks tried are the neighbours of the first week with the selected column */
  lemma TryWeeksSpec(weeks: seq<Week>, col: nat, w: Week)
    requires w in TryWeeks(weeks, col)
    ensures exists k :: (0 <= k < |weeks| && weeks[k].col == col && (forall j :: 0 <= j < k ==> weeks[j].col != col) &&
                         ((k + 1 < |weeks| && w == weeks[k + 1]) || (k >= 1 && w == weeks[k - 1])))
  {
    var k := WeekIndex(weeks, col, 0).value;
    assert 0 <= k < |weeks| && weeks[k].col == col && forall j :: 0 <= j < k ==> weeks[j].col != col;
    if k + 1 < |weeks| && w == weeks[k + 1] {
    } else {
      assert k >= 1 && w == weeks[k - 1];
    }
  }

  /** The split of a week's candidates over some markets: `collectForWeek` */
  type Splitter = (seq<Market>, Week) -> Split

  /** `collectForWeek(ms, w.col)` against the tables, from the ticket's location */
  function Collect(db: Db, here: ZipInfo, dist: Distance, isToday: bool): Splitter
  {
    (ms: seq<Market>, w: Week) => SplitOf(ProbesOf(db, ms, w.col, here, dist, isToday))
  }

  /** The first of the weeks tried whose pool is not empty, with its split */
  function FirstNonEmpty(ms: seq<Market>, tries: seq<Week>, split: Splitter): Option<(Week, Split)>
  {
    if tries == [] then None
    else if Pool(split(ms, tries[0])) != [] then Some((tries[0], split(ms, tries[0])))
    else FirstNonEmpty(ms, tries[1..], split)
  }

  /** The week switched to is the first one tried with a non-empty pool */
  lemma {:induction false} FirstNonEmptySpec(ms: seq<Market>, tries: seq<Week>, split: Splitter)
    ensures var r := FirstNonEmpty(ms, tries, split);
      r.None? <==> forall k :: 0 <= k < |tries| ==> Pool(split(ms, tries[k])) == []
    ensures var r := FirstNonEmpty(ms, tries, split);
      r.Some? ==> (exists k :: 0 <= k < |tries| && r.value.0 == tries[k] && r.value.1 == split(ms, tries[k]) &&
                    Pool(r.value.1) != [] && forall j :: 0 <= j < k ==> Pool(split(ms, tries[j])) == [])
    decreases |tries|
  {
    if tries != [] && Pool(split(ms, tries[0])) == [] {
      var rest := tries[1..];
      FirstNonEmptySpec(ms, rest, split);
      forall k | 0 < k < |tries|
        ensures tries[k] == rest[k - 1]
      {
      }
      var r := FirstNonEmpty(ms, rest, split);
      if r.Some? {
        var k :| 0 <= k < |rest| && r.value.0 == rest[k] && r.value.1 == split(ms, rest[k]) &&
          Pool(r.value.1) != [] && forall j :: 0 <= j < k ==> Pool(split(ms, rest[j])) == [];
        assert r.value.0 == tries[k + 1];
      }
    }
  }

  // ---------------------------------------------------------------------
  // The fallback tiers

  /** Tags for the warnings the detection returns, with the counts they report */
  datatype Warning =
    | StateNotCovered
    | SwitchedWeek(week: Week)
    | RetriedAllMarkets
    | AllReserved
    | ReservedExcluded(n: nat)
    | MissingTechId(n: nat)
    | TechNotInDb(n: nat)
    | TechZipMissing(n: nat)
    | TechZipNotInZipDb(n: nat)

  datatype DetectError = InvalidZip | ZipNotFound | NoWeek | NoCandidates

  /** The candidates finally used, the week they come from, and the warnings the fallback adds */
  datatype Gathered = Gathered(split: Split, week: Week, warnings: seq<Warning>)

  /**
   * The fallback when the first pass over the markets `ms` finds no
   * candidate: the weeks adjacent to `week` over the same markets, then, if
   * a state filter was in force (`used`), the same week and then the
   * adjacent weeks over all markets
   */
  function Fallback(weeks: seq<Week>, all: seq<Market>, ms: seq<Market>, used: bool, week: Week, first: Split,
                    split: Splitter): (g: Result<Gathered, DetectError>)
    ensures g.Ok? ==> Pool(g.value.split) != []
  {
    if Pool(first) != [] then Ok(Gathered(first, week, []))
    else
      var tries := TryWeeks(weeks, week.col);
      var alt := FirstNonEmpty(ms, tries, split);
      if alt.Some? then
        FirstNonEmptySpec(ms, tries, split);
        Ok(Gathered(alt.value.1, alt.value.0, [SwitchedWeek(alt.value.0)]))
      else if !used then Err(NoCandidates)
      else if Pool(split(all, week)) != [] then Ok(Gathered(split(all, week), week, [RetriedAllMarkets]))
      else
        var alt2 := FirstNonEmpty(all, tries, split);
        if alt2.Some? then
          FirstNonEmptySpec(all, tries, split);
          Ok(Gathered(alt2.value.1, alt2.value.0, [RetriedAllMarkets, SwitchedWeek(alt2.value.0)]))
        else Err(NoCandidates)
  }

  /**
   * The fallback keeps a non-empty first pass, and fails only when every
   * tier is empty: the first pass, every adjacent week over the markets,
   * and, when the state filter was in force, the week and every adjacent
   * week over all markets
   */
  lemma FallbackSpec(weeks: seq<Week>, all: seq<Market>, ms: seq<Market>, used: bool, week: Week, first: Split,
                     split: Splitter)
    ensures Pool(first) != [] ==> Fallback(weeks, all, ms, used, week, first, split) == Ok(Gathered(first, week, []))
    ensures var tries := TryWeeks(weeks, week.col);
      Fallback(weeks, all, ms, used, week, first, split).Err? <==>
        (Pool(first) == [] && (forall w :: w in tries ==> Pool(split(ms, w)) == []) &&
         (used ==> Pool(split(all, week)) == [] && forall w :: w in tries ==> Pool(split(all, w)) == []))
  {
    var tries := TryWeeks(weeks, week.col);
    FirstNonEmptySpec(ms, tries, split);
    FirstNonEmptySpec(all, tries, split);
    forall w | w in tries
      ensures exists k :: 0 <= k < |tries| && tries[k] == w
    {
    }
  }

  /** A week reached by the fallback is the selected one or a neighbour of it in the rotation */
  lemma FallbackWeek(weeks: seq<Week>, all: seq<Market>, ms: seq<Market>, used: bool, week: Week, first: Split,
                     split: Splitter)
    requires Fallback(weeks, all, ms, used, week, first, split).Ok?
    ensures var g := Fallback(weeks, all, ms, used, week, first, split).value;
      g.week == week || g.week in TryWeeks(weeks, week.col)
  {
    var tries := TryWeeks(weeks, week.col);
    FirstNonEmptySpec(ms, tries, split);
    FirstNonEmptySpec(all, tries, split);
  }

  // ---------------------------------------------------------------------
  // The result

  /** The sort comparator: by distance, a missing distance counting as infinitely far */
  function DistLe(a: Candidate, b: Candidate): bool
  {
    b.dist.None? || (a.dist.Some? && a.dist.value <= b.dist.value)
  }

  lemma DistLeOrder()
    ensures Total(DistLe) && Transitive(DistLe)
  {
  }

  /** `poolFinal.sort(...)`: nearest first, missing distances last, ties in their order */
  function Ranked(pool: seq<Candidate>): seq<Candidate>
  {
    InsertionSort(pool, DistLe)
  }

  datatype Detection = Detection(
    zip: string, market: Market, dist: Option<real>, zipInfo: ZipInfo, confidence: Confidence,
    delta: Option<real>, candidatesCount: nat, allReserved: bool,
    secondMarket: Option<Market>, secondDist: Option<real>, alternatives: seq<Candidate>,
    techZip: Option<string>, techIdHint: string, techNameHint: Option<string>, warnings: seq<Warning>)

  /** The warnings about the markets the first pass skipped, in the source's order */
  function CountWarnings(t: Tally): seq<Warning>
  {
    (if t.reservedSkipped > 0 then [ReservedExcluded(t.reservedSkipped)] else []) +
    (if t.noTechId > 0 then [MissingTechId(t.noTechId)] else []) +
    (if t.techUnknown > 0 then [TechNotInDb(t.techUnknown)] else []) +
    (if t.noTechZip > 0 then [TechZipMissing(t.noTechZip)] else []) +
    (if t.zipUnknown > 0 then [TechZipNotInZipDb(t.zipUnknown)] else [])
  }

  /** The gap between the best and the second-best distance, when both exist */
  function Gap(best: Candidate, second: Option<Candidate>): Option<real>
  {
    if second.Some? && best.dist.Some? && second.value.dist.Some? then Some(second.value.dist.value - best.dist.value)
    else None
  }

  /** The result built from the final pool */
  function Finish(z: string, here: ZipInfo, split: Split, pre: seq<Warning>, t: Tally): Detection
    requires Pool(split) != []
  {
    var pool := Pool(split);
    var allReserved := split.cands == [] && split.held != [];
    var ranked := Ranked(pool);
    var best := ranked[0];
    var second := if |ranked| > 1 then Some(ranked[1]) else None;
    var delta := Gap(best, second);
    Detection(z, best.market, best.dist, here, CapByEta(GapConfidence(delta), KmToMarketHours(if best.dist.Some? then best.dist.value else 0.0)),
      delta, |pool|, allReserved,
      if second.Some? then Some(second.value.market) else None,
      if second.Some? then second.value.dist else None,
      [best] + (if second.Some? then [second.value] else []),
      best.techZip, best.techId, best.techName,
      pre + (if allReserved then [AllReserved] else []) + CountWarnings(t))
  }

  /** The detection proper, once the ZIP code `z` is located at `here` and a week is chosen */
  function Search(db: Db, z: string, here: ZipInfo, selectedState: string, week: Week, isToday: bool, dist: Distance)
    : Result<Detection, DetectError>
  {
    var accepted := AcceptedMarkets(db.meta.markets, selectedState);
    var used := accepted != [];
    var ms := if used then accepted else db.meta.markets;
    var t := TallyOf(ProbesOf(db, ms, week.col, here, dist, isToday));
    var g := Fallback(db.meta.weeks, db.meta.markets, ms, used, week, t.split, Collect(db, here, dist, isToday));
    Complete(z, here, used, t, g)
  }

  /** The result once the fallback has run: its error, or the detection over the pool it reached */
  function Complete(z: string, here: ZipInfo, used: bool, t: Tally, g: Result<Gathered, DetectError>)
    : Result<Detection, DetectError>
    requires g.Ok? ==> Pool(g.value.split) != []
  {
    if g.Err? then Err(g.error)
    else Ok(Finish(z, here, g.value.split, (if used then [] else [StateNotCovered]) + g.value.warnings, t))
  }

  /** What `detectMarketForZip(inputZip, selectedState, week, dateStr)` returns or throws, `today` being `effectiveTodayYmd()` */
  function Detect(db: Db, inputZip: Cell, selectedState: string, week: Option<Week>, dateStr: string, today: string,
                  dist: Distance): Result<Detection, DetectError>
  {
    var z := NormalizeZip(inputZip);
    if z.None? then Err(InvalidZip)
    else if z.value !in db.zips then Err(ZipNotFound)
    else if week.None? then Err(NoWeek)
    else Search(db, z.value, db.zips[z.value], selectedState, week.value, dateStr == today, dist)
  }

  // ---------------------------------------------------------------------
  // What the result promises

  /**
   * The best candidate is the nearest of the pool (a missing distance only
   * when every distance is missing), the alternatives are the best and the
   * runner-up, at most two, and the pool holds held-back candidates only
   * when it holds no normal one
   */
  lemma FinishSpec(z: string, here: ZipInfo, split: Split, pre: seq<Warning>, t: Tally)
    requires Pool(split) != []
    ensures var r := Finish(z, here, split, pre, t);
      var pool := Pool(split);
      1 <= |r.alternatives| <= 2 && |r.alternatives| == (if |pool| > 1 then 2 else 1) &&
      r.alternatives[0].market == r.market && r.alternatives[0].dist == r.dist &&
      multiset(r.alternatives) <= multiset(pool) && r.candidatesCount == |pool|
    ensures var r := Finish(z, here, split, pre, t);
      forall c :: c in Pool(split) ==> DistLe(r.alternatives[0], c)
    ensures var r := Finish(z, here, split, pre, t);
      r.dist.None? ==> forall c :: c in Pool(split) ==> c.dist.None?
    ensures var r := Finish(z, here, split, pre, t);
      |r.alternatives| == 2 ==>
        DistLe(r.alternatives[0], r.alternatives[1]) &&
        forall c :: c in Pool(split) && c != r.alternatives[0] ==>
          multiset(Pool(split))[r.alternatives[0]] > 1 || DistLe(r.alternatives[1], c)
    ensures var r := Finish(z, here, split, pre, t);
      r.delta.Some? ==> r.delta.value >= 0.0
    ensures var r := Finish(z, here, split, pre, t);
      (r.allReserved <==> split.cands == []) && (split.cands != [] ==> forall a :: a in r.alternatives ==> a in split.cands)
  {
    var pool := Pool(split);
    var ranked := Ranked(pool);
    RankedFirst(pool);
    var alts := Finish(z, here, split, pre, t).alternatives;
    if |pool| > 1 {
      RankedAlternatives(pool);
      assert alts == ranked[..2];
      forall a | a in alts
        ensures a in pool
      {
        assert a in multiset(ranked[..2]);
      }
    } else {
      assert alts == ranked[..1];
    }
  }

  /** The ranking puts a nearest candidate first */
  lemma RankedFirst(pool: seq<Candidate>)
    requires pool != []
    ensures |Ranked(pool)| == |pool| && Ranked(pool)[0] in pool
    ensures forall c :: c in pool ==> DistLe(Ranked(pool)[0], c)
  {
    var ranked := Ranked(pool);
    DistLeOrder();
    InsertionSortSorted(pool, DistLe);
    assert ranked[0] in multiset(pool);
    forall c | c in pool
      ensures DistLe(ranked[0], c)
    {
      assert c in multiset(ranked);
      var k :| 0 <= k < |ranked| && ranked[k] == c;
      if k > 0 {
        assert DistLe(ranked[0], ranked[k]);
      }
    }
  }

  /** The runner-up is nearest among the rest, and the first two come from the pool */
  lemma RankedAlternatives(pool: seq<Candidate>)
    requires |pool| > 1
    ensures var ranked := Ranked(pool);
      multiset(ranked[..2]) <= multiset(pool) && DistLe(ranked[0], ranked[1])
    ensures var ranked := Ranked(pool);
      forall c :: c in pool && c != ranked[0] ==> multiset(pool)[ranked[0]] > 1 || DistLe(ranked[1], c)
  {
    var ranked := Ranked(pool);
    DistLeOrder();
    InsertionSortSorted(pool, DistLe);
    assert ranked == ranked[..2] + ranked[2..];
    assert multiset(ranked[..2]) <= multiset(ranked);
    forall c | c in pool && c != ranked[0]
      ensures multiset(pool)[ranked[0]] > 1 || DistLe(ranked[1], c)
    {
      assert c in multiset(ranked);
      var k :| 0 <= k < |ranked| && ranked[k] == c;
      if k > 1 {
        assert DistLe(ranked[1], ranked[k]);
      }
    }
  }

  /**
   * A detection grades High only when the best technician is within 228 km
   * (3h) or has no distance, and when no runner-up is within 150 km of it;
   * Low exactly when the best is beyond 266 km (3h 30m) or a runner-up is
   * within 75 km
   */
  lemma DetectionConfidence(z: string, here: ZipInfo, split: Split, pre: seq<Warning>, t: Tally)
    requires Pool(split) != []
    ensures var r := Finish(z, here, split, pre, t);
      r.confidence == High <==> (r.dist.None? || r.dist.value <= 228.0) && (r.delta.None? || r.delta.value >= 150.0)
    ensures var r := Finish(z, here, split, pre, t);
      r.confidence == Low <==> (r.dist.Some? && r.dist.value > 266.0) || (r.delta.Some? && r.delta.value < 75.0)
    ensures var r := Finish(z, here, split, pre, t);
      r.confidence == High ==> CoverageOf("high", r.dist) == Some(Supported)
  {
    var r := Finish(z, here, split, pre, t);
    var best := if r.dist.Some? then r.dist.value else 0.0;
    ConfidenceSpec(r.delta, best);
    CoverageBuckets("high", r.dist);
  }

  lemma CompleteSpec(z: string, here: ZipInfo, used: bool, t: Tally, g: Result<Gathered, DetectError>)
    requires g.Ok? ==> Pool(g.value.split) != []
    ensures var r := Complete(z, here, used, t, g);
      r.Ok? ==>
        r.value.zip == z && r.value.zipInfo == here && 1 <= |r.value.alternatives| <= 2 &&
        r.value.alternatives[0].market == r.value.market
  {
    if g.Ok? {
      FinishSpec(z, here, g.value.split, (if used then [] else [StateNotCovered]) + g.value.warnings, t);
    }
  }

  /**
   * Once located, the detection fails only when every fallback tier is
   * empty, and otherwise reports the ZIP code, its location, and at most
   * two alternatives led by the market it picks
   */
  lemma SearchSpec(db: Db, z: string, here: ZipInfo, selectedState: string, week: Week, isToday: bool, dist: Distance)
    ensures var r := Search(db, z, here, selectedState, week, isToday, dist);
      r.Err? ==> r.error == NoCandidates
    ensures var r := Search(db, z, here, selectedState, week, isToday, dist);
      r.Ok? ==>
        r.value.zip == z && r.value.zipInfo == here && 1 <= |r.value.alternatives| <= 2 &&
        r.value.alternatives[0].market == r.value.market
  {
    var accepted := AcceptedMarkets(db.meta.markets, selectedState);
    var used := accepted != [];
    var ms := if used then accepted else db.meta.markets;
    var t := TallyOf(ProbesOf(db, ms, week.col, here, dist, isToday));
    var g := Fallback(db.meta.weeks, db.meta.markets, ms, used, week, t.split, Collect(db, here, dist, isToday));
    CompleteSpec(z, here, used, t, g);
  }

  /**
   * `detectMarketForZip` fails on an invalid or unknown ZIP code and on a
   * missing week, in that order
   */
  lemma DetectSpec(db: Db, inputZip: Cell, selectedState: string, week: Option<Week>, dateStr: string, today: string,
                   dist: Distance)
    ensures var r := Detect(db, inputZip, selectedState, week, dateStr, today, dist);
      var z := NormalizeZip(inputZip);
      (r == Err(InvalidZip) <==> z.None?) &&
      (r == Err(ZipNotFound) <==> z.Some? && z.value !in db.zips) &&
      (r == Err(NoWeek) <==> z.Some? && z.value in db.zips && week.None?)
    ensures var r := Detect(db, inputZip, selectedState, week, dateStr, today, dist);
      r.Ok? ==>
        r.value.zip == NormalizeZip(inputZip).value && r.value.zipInfo == db.zips[r.value.zip]
  {
    var z := NormalizeZip(inputZip);
    if z.Some? && z.value in db.zips && week.Some? {
      SearchSpec(db, z.value, db.zips[z.value], selectedState, week.value, dateStr == today, dist);
    }
  }

  // ---------------------------------------------------------------------
  // Re-using a detection for a chosen alternative

  /** The note shown about the technician of the chosen market */
  datatype TechIssue = NoIssue | IdNotInDb(id: string) | ZipMissingInDb

  /** `marketDetected` as rebuilt by `lookupWithChosenMarket`, with the technician shown and whether it is blocked */
  datatype Chosen = Chosen(
    zip: string, zipInfo: ZipInfo, market: Market, dist: Option<real>, techZip: Option<string>,
    techNameHint: Option<string>, confidence: Confidence, delta: Option<real>, candidatesCount: nat,
    secondMarket: Option<Market>, secondDist: Option<real>, alternatives: seq<Candidate>,
    techShown: Option<Tech>, blocked: bool, issue: TechIssue)

  /**
   * `lookupWithChosenMarket(choice)` after a detection `base`, `week` being
   * the week of the looked-up date: the chosen market's technician is read
   * again from the grid; the grading and the alternatives are the detection's
   */
  function ChooseMarket(db: Db, base: Detection, choice: Candidate, week: Week, isToday: bool): Chosen
  {
    var cell := ParseTechCell(Get(GetRow(db.grid, choice.market.row), week.col));
    var id := if cell.Some? then cell.value.techId else None;
    var tech := if id.Some? && id.value in db.techs then Some(db.techs[id.value]) else None;
    var issue := if tech.Some? && tech.value.zip.None? then ZipMissingInDb
                 else if id.Some? && tech.None? then IdNotInDb(id.value)
                 else NoIssue;
    var reserved := (cell.Some? && cell.value.reserved) || MentionsReserv(choice.market.info);
    var blocked := reserved && !isToday;
    Chosen(base.zip, base.zipInfo, choice.market, choice.dist,
      if tech.Some? then tech.value.zip else None,
      if tech.Some? then Some(Trim(tech.value.firstName + " " + tech.value.lastName)) else None,
      base.confidence, base.delta, base.candidatesCount, base.secondMarket, base.secondDist, base.alternatives,
      if blocked then None else tech, blocked, issue)
  }

  /**
   * Choosing a candidate the detection found in the same week agrees with
   * what the detection knew of it: the same technician ZIP code, no
   * technician note, and a block exactly when the candidate was held back;
   * the grading and the alternatives stay those of the detection
   */
  lemma ChooseMarketAgrees(db: Db, base: Detection, m: Market, week: Week, here: ZipInfo, dist: Distance,
                           isToday: bool)
    requires ProbeOf(db, m, week.col, here, dist, isToday).Seen?
    requires ProbeOf(db, m, week.col, here, dist, isToday).zip == Located
    ensures var p := ProbeOf(db, m, week.col, here, dist, isToday);
      var r := ChooseMarket(db, base, p.cand, week, isToday);
      r.market == m && r.dist == p.cand.dist && r.dist.Some? && r.techZip == p.cand.techZip &&
      r.issue == NoIssue && (r.blocked <==> p.held) && (r.techShown.Some? <==> !p.held) &&
      r.confidence == base.confidence && r.alternatives == base.alternatives && r.zip == base.zip
  {
  }

  /**
   * A technician is shown only when the chosen market is not reserved or
   * the date is today; a note is raised exactly for an identifier missing
   * from the table or a technician without a ZIP code
   */
  lemma ChooseMarketSpec(db: Db, base: Detection, choice: Candidate, week: Week, isToday: bool)
    ensures var r := ChooseMarket(db, base, choice, week, isToday);
      var cell := ParseTechCell(Get(GetRow(db.grid, choice.market.row), week.col));
      (r.blocked <==> !isToday && ((cell.Some? && cell.value.reserved) || MentionsReserv(choice.market.info))) &&
      (r.blocked ==> r.techShown.None?)
    ensures var r := ChooseMarket(db, base, choice, week, isToday);
      var cell := ParseTechCell(Get(GetRow(db.grid, choice.market.row), week.col));
      var id := if cell.Some? then cell.value.techId else None;
      (r.issue == NoIssue <==> id.None? || (id.value in db.techs && db.techs[id.value].zip.Some?)) &&
      (r.techShown.Some? ==> id.Some? && r.techShown == Some(db.techs[id.value]) && r.techZip == db.techs[id.value].zip)
  {
  }
}
