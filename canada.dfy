/**
 * The Canadian dispatch page: postal codes (normalising, formatting, finding
 * one in ticket text), the province and coordinates a postal code stands
 * for, at the best precision the offline tables allow, and the closest
 * technician with a road-adjusted distance and an ETA.
 *
 * The great-circle distance `haversineKm` is a parameter; coordinates and
 * distances are reals, so the non-finite values the page guards against
 * appear as `None`.
 */
module Canada {
  import opened Wrappers
  import opened Strings
  import opened Sorting
  import opened Lookups

  // ---------------------------------------------------------------------
  // Postal codes

  /** The six characters letter-digit-letter-digit-letter-digit, letters upper case */
  predicate IsPostal(p: string)
  {
    |p| == 6 && IsUpper(p[0]) && IsDigit(p[1]) && IsUpper(p[2]) && IsDigit(p[3]) && IsUpper(p[4]) && IsDigit(p[5])
  }

  /** `s.replace(/[^A-Z0-9]/g, '')` */
  function KeepAlnum(s: string): (r: string)
    ensures |r| <= |s|
  {
    if s == [] then []
    else (if IsUpper(s[0]) || IsDigit(s[0]) then [s[0]] else []) + KeepAlnum(s[1..])
  }

  lemma {:induction false} KeepAlnumAppend(a: string, b: string)
    ensures KeepAlnum(a + b) == KeepAlnum(a) + KeepAlnum(b)
    decreases |a|
  {
    if a == [] {
      assert a + b == b;
    } else {
      var x := if IsUpper(a[0]) || IsDigit(a[0]) then [a[0]] else [];
      assert (a + b)[0] == a[0];
      assert (a + b)[1..] == a[1..] + b;
      assert KeepAlnum(a + b) == x + KeepAlnum(a[1..] + b);
      assert KeepAlnum(a) == x + KeepAlnum(a[1..]);
      KeepAlnumAppend(a[1..], b);
      assert x + (KeepAlnum(a[1..]) + KeepAlnum(b)) == (x + KeepAlnum(a[1..])) + KeepAlnum(b);
    }
  }

  lemma {:induction false} KeepAlnumOfAlnum(s: string)
    requires forall i :: 0 <= i < |s| ==> IsUpper(s[i]) || IsDigit(s[i])
    ensures KeepAlnum(s) == s
    decreases |s|
  {
    if s != [] {
      KeepAlnumOfAlnum(s[1..]);
    }
  }

  /**
   * `normalizePostal`: upper-cased and trimmed, stripped to its letters and
   * digits, cut to six characters, and kept only when it has the shape of a
   * postal code
   */
  function NormalizePostal(s: string): string
  {
    var k := KeepAlnum(Trim(Upper(s)));
    var k6 := if |k| >= 6 then k[..6] else k;
    if |k6| != 6 || !IsPostal(k6) then "" else k6
  }

  /** The result is empty or a postal code */
  lemma NormalizePostalShape(s: string)
    ensures NormalizePostal(s) == "" || IsPostal(NormalizePostal(s))
  {
  }

  /** A postal code is its own normal form, so normalising twice changes nothing */
  lemma NormalizeOfPostal(p: string)
    requires IsPostal(p)
    ensures NormalizePostal(p) == p
  {
    assert Upper(p) == p;
    TrimNoEnds(p);
    KeepAlnumOfAlnum(p);
  }

  lemma NormalizePostalIdempotent(s: string)
    ensures NormalizePostal(NormalizePostal(s)) == NormalizePostal(s)
  {
    if NormalizePostal(s) != "" {
      NormalizeOfPostal(NormalizePostal(s));
    }
  }

  /** `formatPostal`: "A1A 1A1", or empty for an input that is not a postal code */
  function FormatPostal(s: string): (r: string)
    ensures r == "" <==> NormalizePostal(s) == ""
    ensures r != "" ==> |r| == 7 && r[3] == ' '
  {
    var p := NormalizePostal(s);
    if p == "" then "" else p[..3] + " " + p[3..]
  }

  /** A postal code written with a space after its third character normalises to itself */
  lemma NormalizeSpaced(p: string)
    requires IsPostal(p)
    ensures NormalizePostal(p[..3] + " " + p[3..]) == p
  {
    var f := p[..3] + " " + p[3..];
    SpacedUpperTrimmed(p);
    SpacedKeepAlnum(p);
    assert KeepAlnum(Trim(Upper(f))) == p;
  }

  /** The spaced form is already upper case and has no white space at its ends */
  lemma SpacedUpperTrimmed(p: string)
    requires IsPostal(p)
    ensures Trim(Upper(p[..3] + " " + p[3..])) == p[..3] + " " + p[3..]
  {
    var f := p[..3] + " " + p[3..];
    assert Upper(f) == f;
    TrimNoEnds(f);
  }

  /** A letters-and-digits string has only its letters and digits */
  predicate AllAlnum(s: string)
  {
    forall i :: 0 <= i < |s| ==> IsUpper(s[i]) || IsDigit(s[i])
  }

  /** Stripping a space between two letters-and-digits strings joins them */
  lemma KeepAlnumDropsSpace(a: string, b: string)
    requires AllAlnum(a) && AllAlnum(b)
    ensures KeepAlnum(a + " " + b) == a + b
  {
    assert a + " " + b == a + (" " + b);
    assert (" " + b)[0] == ' ' && (" " + b)[1..] == b;
    assert KeepAlnum(" " + b) == KeepAlnum(b);
    KeepAlnumAppend(a, " " + b);
    KeepAlnumOfAlnum(a);
    KeepAlnumOfAlnum(b);
  }

  /** Stripping the spaced form to letters and digits drops just the space */
  lemma SpacedKeepAlnum(p: string)
    requires IsPostal(p)
    ensures KeepAlnum(p[..3] + " " + p[3..]) == p
  {
    KeepAlnumDropsSpace(p[..3], p[3..]);
    assert p[..3] + p[3..] == p;
  }

  /** Normalising a formatted code gives back the normal form */
  lemma FormatRoundTrip(s: string)
    ensures NormalizePostal(FormatPostal(s)) == NormalizePostal(s)
  {
    NormalizePostalShape(s);
    if NormalizePostal(s) != "" {
      NormalizeSpaced(NormalizePostal(s));
    }
  }

  // ---------------------------------------------------------------------
  // Finding a postal code in text

  /** `[ABCEGHJ-NPRSTVXY]` under the `i` flag */
  predicate IsPostalLetter(c: char)
  {
    var u := UpperChar(c);
    ('A' <= u <= 'C') || u == 'E' || u == 'G' || u == 'H' || ('J' <= u <= 'N') || u == 'P' || ('R' <= u <= 'T') ||
    u == 'V' || u == 'X' || u == 'Y'
  }

  /** The end of the `\s*` run starting at `k` */
  function SpacesEnd(t: string, k: nat): (r: nat)
    requires k <= |t|
    ensures k <= r <= |t| && (r < |t| ==> !IsSpace(t[r]))
    ensures forall q :: k <= q < r ==> IsSpace(t[q])
    decreases |t| - k
  {
    if k < |t| && IsSpace(t[k]) then SpacesEnd(t, k + 1) else k
  }

  /**
   * Where `\b([L]\d[L])\s*(\d[L]\d)\b` matches at `i`, the start of its
   * second group (`L` the postal letters)
   */
  function MatchAt(t: string, i: nat): (r: Option<nat>)
    ensures r.Some? ==> i + 3 <= r.value && r.value + 3 <= |t|
    ensures r.Some? ==> IsPostalLetter(t[i]) && IsDigit(t[i + 1]) && IsPostalLetter(t[i + 2])
    ensures r.Some? ==> IsDigit(t[r.value]) && IsPostalLetter(t[r.value + 1]) && IsDigit(t[r.value + 2])
  {
    if i + 3 > |t| || (i > 0 && IsWordChar(t[i - 1])) then None
    else if !(IsPostalLetter(t[i]) && IsDigit(t[i + 1]) && IsPostalLetter(t[i + 2])) then None
    else
      var j := SpacesEnd(t, i + 3);
      if j + 3 > |t| then None
      else if !(IsDigit(t[j]) && IsPostalLetter(t[j + 1]) && IsDigit(t[j + 2])) then None
      else if j + 3 < |t| && IsWordChar(t[j + 3]) then None
      else Some(j)
  }

  /** The leftmost match at `i` or later */
  function FirstMatch(t: string, i: nat): (r: Option<(nat, nat)>)
    ensures r.Some? ==> i <= r.value.0 && MatchAt(t, r.value.0) == Some(r.value.1)
    decreases |t| - i
  {
    if i > |t| then None
    else
      var m := MatchAt(t, i);
      if m.Some? then Some((i, m.value)) else FirstMatch(t, i + 1)
  }

  /** The match found is the leftmost one, and none is found exactly when no position matches */
  lemma FirstMatchSpec(t: string, i: nat)
    ensures FirstMatch(t, i).Some? ==> forall k :: i <= k < FirstMatch(t, i).value.0 ==> MatchAt(t, k).None?
    ensures FirstMatch(t, i).None? <==> forall k :: i <= k <= |t| ==> MatchAt(t, k).None?
  {
    FirstMatchIsFirstSome(t, i);
    FirstSomeSpec(MatchesOf(t), i, |t|);
    if FirstMatch(t, i).Some? {
      forall k | i <= k < FirstMatch(t, i).value.0
        ensures MatchAt(t, k).None?
      {
        assert MatchesOf(t)(k).None?;
      }
    }
    if FirstMatch(t, i).None? {
      forall k | i <= k <= |t|
        ensures MatchAt(t, k).None?
      {
        assert MatchesOf(t)(k).None?;
      }
    }
  }

  /** `MatchAt` at every position of `t` */
  function MatchesOf(t: string): nat -> Option<nat>
  {
    (k: nat) => MatchAt(t, k)
  }

  /** The first position `k` from `i` up to `n` where `f(k)` holds something, with what it holds */
  function FirstSome(f: nat -> Option<nat>, i: nat, n: nat): Option<(nat, nat)>
    decreases n + 1 - i
  {
    if i > n then None
    else if f(i).Some? then Some((i, f(i).value))
    else FirstSome(f, i + 1, n)
  }

  /** `FirstSome` finds the leftmost position, and none exactly when there is none */
  lemma {:induction false} FirstSomeSpec(f: nat -> Option<nat>, i: nat, n: nat)
    ensures FirstSome(f, i, n).Some? ==> forall k :: i <= k < FirstSome(f, i, n).value.0 ==> f(k).None?
    ensures FirstSome(f, i, n).None? <==> forall k :: i <= k <= n ==> f(k).None?
    decreases n + 1 - i
  {
    if i <= n && f(i).None? {
      FirstSomeSpec(f, i + 1, n);
    }
  }

  /** The scan for a match is `FirstSome` over the positions of the text */
  lemma {:induction false} FirstMatchIsFirstSome(t: string, i: nat)
    ensures FirstMatch(t, i) == FirstSome(MatchesOf(t), i, |t|)
    decreases |t| - i
  {
    if i <= |t| && MatchAt(t, i).None? {
      FirstMatchIsFirstSome(t, i + 1);
    }
  }

  /** The two groups of a match at `i` whose second group starts at `j`, joined */
  function Groups(t: string, i: nat, j: nat): (r: string)
    requires i + 3 <= |t| && j + 3 <= |t|
    ensures |r| == 6
  {
    t[i..i + 3] + t[j..j + 3]
  }

  /** `extractPostalFromText`: the two groups of the first match, normalised */
  function ExtractPostal(text: string): string
  {
    var m := FirstMatch(text, 0);
    if m.None? then "" else NormalizePostal(Groups(text, m.value.0, m.value.1))
  }

  /** Six characters of the regular expression's shape normalise to their upper-cased form */
  lemma MatchedNormalizes(t: string, i: nat, j: nat)
    requires MatchAt(t, i) == Some(j)
    ensures NormalizePostal(Groups(t, i, j)) == Upper(Groups(t, i, j)) && IsPostal(Upper(Groups(t, i, j)))
  {
    var u := Upper(Groups(t, i, j));
    assert IsPostal(u);
    NormalizeOfPostal(u);
    assert Upper(u) == u;
  }

  /**
   * A code is extracted exactly when the text holds a match, and what is
   * extracted is a postal code: the leftmost match's groups, upper-cased
   */
  lemma ExtractPostalSpec(text: string)
    ensures ExtractPostal(text) == "" <==> forall k :: 0 <= k <= |text| ==> MatchAt(text, k).None?
    ensures ExtractPostal(text) != "" ==>
      IsPostal(ExtractPostal(text)) &&
      exists i: nat, j: nat :: MatchAt(text, i) == Some(j) && ExtractPostal(text) == Upper(Groups(text, i, j)) &&
        forall k :: 0 <= k < i ==> MatchAt(text, k).None?
  {
    FirstMatchSpec(text, 0);
    var m := FirstMatch(text, 0);
    if m.Some? {
      ExtractOfLeftmost(text, m.value.0, m.value.1);
    }
  }

  /** The leftmost match's groups, upper-cased, are what is extracted */
  lemma ExtractOfLeftmost(text: string, i: nat, j: nat)
    requires FirstMatch(text, 0) == Some((i, j))
    ensures MatchAt(text, i) == Some(j) && forall k :: 0 <= k < i ==> MatchAt(text, k).None?
    ensures ExtractPostal(text) == Upper(Groups(text, i, j)) && IsPostal(ExtractPostal(text))
  {
    FirstMatchSpec(text, 0);
    MatchedNormalizes(text, i, j);
  }

  // ---------------------------------------------------------------------
  // Provinces

  /** `provFromFirstLetter`: the usual province of a postal code's first letter */
  function ProvFromFirstLetter(ch: char): string
  {
    var c := UpperChar(ch);
    if c == 'A' then "NL"
    else if c == 'B' then "NS"
    else if c == 'C' then "PE"
    else if c == 'E' then "NB"
    else if c == 'G' || c == 'H' || c == 'J' then "QC"
    else if c == 'K' || c == 'L' || c == 'M' || c == 'N' || c == 'P' then "ON"
    else if c == 'R' then "MB"
    else if c == 'S' then "SK"
    else if c == 'T' then "AB"
    else if c == 'V' then "BC"
    else if c == 'X' then "NT"
    else if c == 'Y' then "YT"
    else ""
  }

  /** Every first letter a postal code may start with has a province, and no other letter does */
  lemma ProvFromFirstLetterSpec(ch: char)
    ensures ProvFromFirstLetter(ch) != "" <==> IsPostalLetter(ch)
    ensures ProvFromFirstLetter(ch) != "" ==> ProvFromFirstLetter(ch) in ProvCenter()
  {
  }

  /** `provForPostal`: the province table, `postalProv` (`CA_POSTAL_PROV`), then the first letter */
  function ProvForPostal(s: string, postalProv: map<string, string>): string
  {
    var p := NormalizePostal(s);
    if p == "" then ""
    else if p in postalProv && postalProv[p] != "" then Upper(postalProv[p])
    else ProvFromFirstLetter(p[0])
  }

  /**
   * No province for a string that is not a postal code; the table's entry
   * wins over the first-letter rule
   */
  lemma ProvForPostalSpec(s: string, postalProv: map<string, string>)
    ensures NormalizePostal(s) == "" ==> ProvForPostal(s, postalProv) == ""
    ensures var p := NormalizePostal(s);
      p != "" && p in postalProv && postalProv[p] != "" ==> ProvForPostal(s, postalProv) == Upper(postalProv[p])
    ensures var p := NormalizePostal(s);
      p != "" && (p !in postalProv || postalProv[p] == "") ==> ProvForPostal(s, postalProv) == ProvFromFirstLetter(p[0])
  {
  }

  // ---------------------------------------------------------------------
  // Coordinates

  datatype Coord = Coord(lat: real, lon: real)

  /** `PROV_CENTER`: each province's reference city */
  function ProvCenter(): map<string, Coord>
  {
    map[
      "NL" := Coord(47.5615, -52.7126), "NS" := Coord(44.6488, -63.5752), "PE" := Coord(46.2382, -63.1311),
      "NB" := Coord(45.9636, -66.6431), "QC" := Coord(45.5017, -73.5673), "ON" := Coord(43.6532, -79.3832),
      "MB" := Coord(49.8951, -97.1384), "SK" := Coord(50.4452, -104.6189), "AB" := Coord(53.5461, -113.4938),
      "BC" := Coord(49.2827, -123.1207), "NT" := Coord(62.4540, -114.3718), "NU" := Coord(63.7467, -68.5167),
      "YT" := Coord(60.7212, -135.0568)]
  }

  /** `CITY_COORD`, keyed by "CITY|PROVINCE" */
  function CityCoord(): map<string, Coord>
  {
    map[
      "FREDERICKTON|NB" := Coord(45.9636, -66.6431), "FREDERICTON|NB" := Coord(45.9636, -66.6431),
      "WINNIPEG|MB" := Coord(49.8951, -97.1384), "CALGARY|AB" := Coord(51.0447, -114.0719),
      "LAVAL|QC" := Coord(45.6066, -73.7124), "THORNHILL|ON" := Coord(43.8106, -79.4263),
      "EDMONTON|AB" := Coord(53.5461, -113.4938), "RICHMOND (VANCOUVER)|BC" := Coord(49.1666, -123.1336),
      "RICHMOND|BC" := Coord(49.1666, -123.1336), "SCARBOROUGH|ON" := Coord(43.7764, -79.2318)]
  }

  /** `PROV_PENALTY`: the extra road factor when a ticket is only placed at its province's centre */
  function ProvPenalty(): map<string, real>
  {
    map[
      "QC" := 5.40, "ON" := 6.00, "BC" := 8.00, "AB" := 7.00, "MB" := 6.50, "SK" := 6.50, "NB" := 5.80,
      "NS" := 5.80, "PE" := 5.80, "NL" := 6.20, "YT" := 8.50, "NT" := 9.00, "NU" := 9.50]
  }

  /** A technician of `CA_W2_TECHS` */
  datatype CaTech = CaTech(techId: string, name: string, city: string, province: string, postal: string)

  /** `String(v || '').toUpperCase().trim()` */
  function Key(v: string): string
  {
    Trim(Upper(v))
  }

  /** The entry a technician adds to `POSTAL_OVERRIDE`: its postal code, placed at its known city */
  function OverrideEntry(t: CaTech): Option<(string, Coord)>
  {
    var p := NormalizePostal(t.postal);
    var key := Key(t.city) + "|" + Key(t.province);
    if p == "" || key !in CityCoord() then None else Some((p, CityCoord()[key]))
  }

  /** `POSTAL_OVERRIDE` after the loop over the technicians, the last technician with a code winning */
  function OverrideOf(techs: seq<CaTech>): map<string, Coord>
  {
    Keyed(techs, OverrideEntry)
  }

  /**
   * A postal code is overridden exactly when some technician with that code
   * lives in a city of the table, and it takes the city of the last such
   * technician
   */
  lemma OverrideSpec(techs: seq<CaTech>, p: string)
    ensures p in OverrideOf(techs) <==>
      exists i :: 0 <= i < |techs| && NormalizePostal(techs[i].postal) == p && p != "" &&
        Key(techs[i].city) + "|" + Key(techs[i].province) in CityCoord()
    ensures p in OverrideOf(techs) ==>
      IsPostal(p) &&
      exists i :: LastWith(techs, OverrideEntry, p, i) &&
        OverrideOf(techs)[p] == CityCoord()[Key(techs[i].city) + "|" + Key(techs[i].province)]
  {
    KeyedSpec(techs, OverrideEntry, p);
    if p in OverrideOf(techs) {
      var i :| LastWith(techs, OverrideEntry, p, i) && OverrideOf(techs)[p] == OverrideEntry(techs[i]).value.1;
      NormalizePostalShape(techs[i].postal);
    }
  }

  /** The page's tables once its script has run: the technicians, `CA_POSTAL_PROV` and `POSTAL_OVERRIDE` */
  datatype Page = Page(techs: seq<CaTech>, postalProv: map<string, string>, override: map<string, Coord>)

  /** The page's start-up: the override loop over the technician list */
  method LoadPage(techs: seq<CaTech>, postalProv: map<string, string>) returns (pg: Page)
    ensures pg == Page(techs, postalProv, OverrideOf(techs))
  {
    var m := FillTable(techs, OverrideEntry);
    pg := Page(techs, postalProv, m);
  }

  /** How precisely a location is known */
  datatype Precision = ByPostal | ByCity | ByProvince

  datatype Loc = Loc(at: Coord, prec: Precision, prov: string, city: string)

  /**
   * `latLonForPostal(p6, cityHint, provHint)`, a blank hint counting as
   * none: the postal override, then the city table, then the province centre
   */
  function LatLonForPostal(pg: Page, p6: string, cityHint: string, provHint: string): Option<Loc>
  {
    var p := NormalizePostal(p6);
    if p == "" then None
    else
      var prov := if provHint != "" then Key(provHint) else ProvForPostal(p, pg.postalProv);
      var city := if cityHint != "" then Key(cityHint) else "";
      if p in pg.override then Some(Loc(pg.override[p], ByPostal, prov, city))
      else if city != "" && prov != "" && city + "|" + prov in CityCoord() then
        Some(Loc(CityCoord()[city + "|" + prov], ByCity, prov, city))
      else if prov != "" && prov in ProvCenter() then Some(Loc(ProvCenter()[prov], ByProvince, prov, ""))
      else None
  }

  /**
   * No location for a string that is not a postal code; a location is by
   * postal code exactly when the code is overridden, and then it is the
   * override's
   */
  lemma LatLonForPostalSpec(pg: Page, p6: string, cityHint: string, provHint: string)
    ensures NormalizePostal(p6) == "" ==> LatLonForPostal(pg, p6, cityHint, provHint).None?
    ensures NormalizePostal(p6) != "" && NormalizePostal(p6) in pg.override ==>
      LatLonForPostal(pg, p6, cityHint, provHint).Some? &&
      LatLonForPostal(pg, p6, cityHint, provHint).value.prec == ByPostal &&
      LatLonForPostal(pg, p6, cityHint, provHint).value.at == pg.override[NormalizePostal(p6)]
    ensures var r := LatLonForPostal(pg, p6, cityHint, provHint);
      r.Some? && r.value.prec == ByPostal ==> NormalizePostal(p6) in pg.override
  {
  }

  /**
   * Past the override, the city table is tried before the province centre,
   * and a location by province has no city
   */
  lemma LatLonFallbackSpec(pg: Page, p6: string, cityHint: string, provHint: string)
    ensures var r := LatLonForPostal(pg, p6, cityHint, provHint);
      r.Some? && r.value.prec == ByCity ==>
        r.value.city != "" && r.value.prov != "" && r.value.at == CityCoord()[r.value.city + "|" + r.value.prov]
    ensures var r := LatLonForPostal(pg, p6, cityHint, provHint);
      r.Some? && r.value.prec == ByProvince ==>
        r.value.city == "" && r.value.prov in ProvCenter() && r.value.at == ProvCenter()[r.value.prov] &&
        (cityHint == "" || Key(cityHint) == "" || Key(cityHint) + "|" + r.value.prov !in CityCoord())
  {
    var p := NormalizePostal(p6);
    if p != "" && p !in pg.override {
      var prov := if provHint != "" then Key(provHint) else ProvForPostal(p, pg.postalProv);
      var city := if cityHint != "" then Key(cityHint) else "";
      assert LatLonForPostal(pg, p6, cityHint, provHint) ==
        if city != "" && prov != "" && city + "|" + prov in CityCoord() then
          Some(Loc(CityCoord()[city + "|" + prov], ByCity, prov, city))
        else if prov != "" && prov in ProvCenter() then Some(Loc(ProvCenter()[prov], ByProvince, prov, ""))
        else None;
    }
  }

  /**
   * Without hints, a postal code whose first letter is one the post office
   * uses is always placed, at worst at its province's centre, provided the
   * province table names only known provinces
   */
  lemma TicketAlwaysPlaced(pg: Page, p6: string)
    requires NormalizePostal(p6) != "" && IsPostalLetter(NormalizePostal(p6)[0])
    requires forall k :: k in pg.postalProv ==> pg.postalProv[k] == "" || Upper(pg.postalProv[k]) in ProvCenter()
    ensures LatLonForPostal(pg, p6, "", "").Some?
  {
    var p := NormalizePostal(p6);
    NormalizePostalIdempotent(p6);
    ProvFromFirstLetterSpec(p[0]);
  }

  // ---------------------------------------------------------------------
  // Road factor and ETA

  /** `clamp(x, lo, hi)`, a non-finite `x` being `None` */
  function Clamp(x: Option<real>, lo: real, hi: real): (r: real)
    ensures r >= lo
    ensures lo <= hi ==> r <= hi
    ensures x.Some? && lo <= x.value <= hi ==> r == x.value
    ensures x.Some? && x.value < lo ==> r == lo
    ensures x.Some? && lo <= hi < x.value ==> r == hi
    ensures x.None? ==> r == lo
  {
    if x.None? then lo
    else
      var m := if hi < x.value then hi else x.value;
      if lo > m then lo else m
  }

  /**
   * `effectiveDriveFactor`: the base factor, raised where a location is only
   * a province centre, kept in [1, 12]
   */
  function EffectiveDriveFactor(base: real, ticket: Loc, tech: Loc): (r: real)
    ensures 1.0 <= r <= 12.0
  {
    var m1 := if ticket.prec == ByProvince then
                base * (if ticket.prov in ProvPenalty() then ProvPenalty()[ticket.prov] else 6.0)
              else base;
    var m2 := if tech.prec == ByProvince then m1 * 1.8 else m1;
    Clamp(Some(m2), 1.0, 12.0)
  }

  /**
   * With both locations known beyond their province the factor is the base
   * one, clamped; a technician placed only by province multiplies it by 1.8
   * before clamping
   */
  lemma DriveFactorSpec(base: real, ticket: Loc, tech: Loc)
    ensures ticket.prec != ByProvince && tech.prec != ByProvince ==>
      EffectiveDriveFactor(base, ticket, tech) == Clamp(Some(base), 1.0, 12.0)
    ensures ticket.prec != ByProvince && tech.prec == ByProvince ==>
      EffectiveDriveFactor(base, ticket, tech) == Clamp(Some(base * 1.8), 1.0, 12.0)
    ensures ticket.prec == ByProvince && ticket.prov !in ProvPenalty() && tech.prec != ByProvince ==>
      EffectiveDriveFactor(base, ticket, tech) == Clamp(Some(base * 6.0), 1.0, 12.0)
  {
  }

  /** What `etaFromKm` shows: a dash, minutes alone, or hours and minutes */
  datatype Eta = NoEta | Minutes(m: int) | HoursMinutes(h: int, m: int)

  /** `Math.round` */
  function Round(x: real): int
  {
    (x + 0.5).Floor
  }

  /** `etaFromKm(km, speed)` as written, a non-finite value being `None` */
  function EtaFromKmAsWritten(km: Option<real>, speed: Option<real>): Eta
  {
    if km.None? || speed.None? || speed.value <= 0.0 then NoEta
    else
      var hours := km.value / speed.value;
      var h := hours.Floor;
      var m := Round((hours - h as real) * 60.0);
      if h <= 0 then Minutes(m) else HoursMinutes(h, m)
  }

  /** Rounding the minutes after taking the whole hours shows "60m" just below a whole hour */
  lemma EtaShowsSixtyMinutes()
    ensures EtaFromKmAsWritten(Some(119.99), Some(60.0)) == HoursMinutes(1, 60)
    ensures EtaFromKmAsWritten(Some(59.99), Some(60.0)) == Minutes(60)
  {
    var hours := 119.99 / 60.0;
    assert 1.99 < hours < 2.0;
    assert hours.Floor == 1;
    assert 59.9 < (hours - 1.0) * 60.0;
    assert Round((hours - 1.0) * 60.0) == 60;
    var hours2 := 59.99 / 60.0;
    assert 0.99 < hours2 < 1.0;
    assert hours2.Floor == 0;
    assert Round((hours2 - 0.0) * 60.0) == 60;
  }

  /** `etaFromKm` with the trip rounded to the minute before the hours are taken */
  function EtaFromKm(km: Option<real>, speed: Option<real>): (r: Eta)
    ensures r.Minutes? ==> 0 <= r.m < 60
    ensures r.HoursMinutes? ==> r.h > 0 && 0 <= r.m < 60
  {
    if km.None? || speed.None? || speed.value <= 0.0 then NoEta
    else
      var total := Round(km.value / speed.value * 60.0);
      var h := total / 60;
      var m := total % 60;
      if h <= 0 then Minutes(m) else HoursMinutes(h, m)
  }

  /**
   * The corrected ETA shows a dash exactly when it cannot be computed, and
   * otherwise the trip's length rounded to the minute
   */
  lemma EtaFromKmSpec(km: Option<real>, speed: Option<real>)
    ensures EtaFromKm(km, speed) == NoEta <==> km.None? || speed.None? || speed.value <= 0.0
    ensures var r := EtaFromKm(km, speed);
      r.HoursMinutes? ==> r.h * 60 + r.m == Round(km.value / speed.value * 60.0)
    ensures var r := EtaFromKm(km, speed);
      r.Minutes? && km.value >= 0.0 ==> r.m == Round(km.value / speed.value * 60.0)
  {
    if km.Some? && speed.Some? && speed.value > 0.0 && km.value >= 0.0 {
      assert km.value / speed.value * 60.0 >= 0.0;
    }
  }

  // ---------------------------------------------------------------------
  // The closest technician

  /** A technician placed, with its straight-line distance to the ticket */
  datatype Scored = Scored(tech: CaTech, km: real, miles: real, loc: Loc)

  /** Where the page places a technician: its postal code, with its city and province as hints */
  function Placer(pg: Page): CaTech -> Option<Loc>
  {
    (t: CaTech) => LatLonForPostal(pg, t.postal, t.city, t.province)
  }

  /** The scoring loop of `findClosest`: every technician that can be placed, in list order */
  function ScoredOf(techs: seq<CaTech>, place: CaTech -> Option<Loc>, at: Coord, dist: (Coord, Coord) -> real)
    : seq<Scored>
  {
    if techs == [] then []
    else
      var s := ScoredOf(techs[..|techs| - 1], place, at, dist);
      var t := techs[|techs| - 1];
      var ll := place(t);
      if ll.None? then s
      else
        var km := dist(at, ll.value.at);
        s + [Scored(t, km, km * 0.621371, ll.value)]
  }

  /** Every technician that can be placed is scored, once per entry, with its distance and its location */
  lemma {:induction false} ScoredOfSpec(techs: seq<CaTech>, place: CaTech -> Option<Loc>, at: Coord,
                                        dist: (Coord, Coord) -> real, t: CaTech)
    ensures (exists s :: s in ScoredOf(techs, place, at, dist) && s.tech == t) <==> t in techs && place(t).Some?
    ensures forall s :: s in ScoredOf(techs, place, at, dist) ==>
      place(s.tech) == Some(s.loc) && s.km == dist(at, s.loc.at) && s.miles == s.km * 0.621371
    decreases |techs|
  {
    if techs != [] {
      var init := techs[..|techs| - 1];
      ScoredOfSpec(init, place, at, dist, t);
      assert techs == init + [techs[|techs| - 1]];
    }
  }

  /** The scoring loop written out */
  method ScoreTechs(techs: seq<CaTech>, place: CaTech -> Option<Loc>, at: Coord, dist: (Coord, Coord) -> real)
    returns (scored: seq<Scored>)
    ensures scored == ScoredOf(techs, place, at, dist)
  {
    scored := [];
    for i := 0 to |techs|
      invariant scored == ScoredOf(techs[..i], place, at, dist)
    {
      assert techs[..i + 1][..i] == techs[..i];
      var tech := techs[i];
      var ll := place(tech);
      if ll.Some? {
        var km := dist(at, ll.value.at);
        scored := scored + [Scored(tech, km, km * 0.621371, ll.value)];
      }
    }
    assert techs[..|techs|] == techs;
  }

  /** `sort((a, b) => a.km - b.km)` */
  function KmLe(a: Scored, b: Scored): bool
  {
    a.km <= b.km
  }

  lemma KmLeOrder()
    ensures Total(KmLe) && Transitive(KmLe)
  {
  }

  datatype FindError = NoPostal | NoTicketLocation | NoTechLocations

  /** What `findClosest` shows */
  datatype Closest = Closest(postal: string, ticket: Loc, best: Scored, factor: real, driveKm: real, driveMi: real,
                             eta: Eta, speed: real, top: seq<Scored>)

  /** The base factor field: `Math.max(0.8, Math.min(5, parseFloat(v || '1.25') || 1.25))` */
  function BaseFactor(parsed: Option<real>): (r: real)
    ensures 0.8 <= r <= 5.0
    ensures parsed.None? || parsed.value == 0.0 ==> r == 1.25
    ensures parsed.Some? && parsed.value != 0.0 && 0.8 <= parsed.value <= 5.0 ==> r == parsed.value
  {
    var v := if parsed.None? || parsed.value == 0.0 then 1.25 else parsed.value;
    Clamp(Some(v), 0.8, 5.0)
  }

  /** The speed field: `Math.max(20, Math.min(130, parseFloat(v || '80') || 80))` */
  function Speed(parsed: Option<real>): (r: real)
    ensures 20.0 <= r <= 130.0
    ensures parsed.None? || parsed.value == 0.0 ==> r == 80.0
    ensures parsed.Some? && 20.0 <= parsed.value <= 130.0 ==> r == parsed.value
  {
    var v := if parsed.None? || parsed.value == 0.0 then 80.0 else parsed.value;
    Clamp(Some(v), 20.0, 130.0)
  }

  /** The ticket's postal code: the field's, else the first one in the ticket text */
  function TicketPostal(postalInput: string, ticketText: string): string
  {
    var p := NormalizePostal(postalInput);
    if p != "" then p else ExtractPostal(ticketText)
  }

  /** The postal field after the search: rewritten, formatted, when the code came from the ticket text */
  function PostalField(postalInput: string, ticketText: string): string
  {
    if NormalizePostal(postalInput) == "" && ExtractPostal(ticketText) != "" then FormatPostal(ExtractPostal(ticketText))
    else postalInput
  }

  /** The ticket's code is a postal code, the field's when it holds one, else the text's first */
  lemma TicketPostalSpec(postalInput: string, ticketText: string)
    ensures var p := TicketPostal(postalInput, ticketText);
      (p == "" || IsPostal(p)) &&
      (NormalizePostal(postalInput) != "" ==> p == NormalizePostal(postalInput)) &&
      (NormalizePostal(postalInput) == "" ==> p == ExtractPostal(ticketText)) &&
      (p == "" <==> NormalizePostal(postalInput) == "" && forall k :: 0 <= k <= |ticketText| ==> MatchAt(ticketText, k).None?)
  {
    NormalizePostalShape(postalInput);
    ExtractPostalSpec(ticketText);
  }

  /** The postal field left on the page reads back as the ticket's code */
  lemma PostalFieldSpec(postalInput: string, ticketText: string)
    ensures NormalizePostal(PostalField(postalInput, ticketText)) == TicketPostal(postalInput, ticketText)
  {
    var e := ExtractPostal(ticketText);
    if NormalizePostal(postalInput) == "" && e != "" {
      FormatRoundTrip(e);
      ExtractPostalSpec(ticketText);
      NormalizeOfPostal(e);
    }
  }

  /** The ranking step of `findClosest`, once the ticket is placed and the technicians are scored */
  function Nearest(p: string, ticket: Loc, scored: seq<Scored>, base: real, speed: real): Result<Closest, FindError>
  {
    if scored == [] then Err(NoTechLocations)
    else
      var sorted := InsertionSort(scored, KmLe);
      var best := sorted[0];
      var f := EffectiveDriveFactor(base, ticket, best.loc);
      Ok(Closest(p, ticket, best, f, best.km * f, best.miles * f, EtaFromKm(Some(best.km * f), Some(speed)),
                 speed, sorted[..if |sorted| < 8 then |sorted| else 8]))
  }

  /**
   * `findClosest`: `factorIn` and `speedIn` are `parseFloat` of the two
   * fields (`None` for NaN), `dist` is `haversineKm`
   */
  function ClosestOf(pg: Page, postalInput: string, ticketText: string, factorIn: Option<real>, speedIn: Option<real>,
                     dist: (Coord, Coord) -> real): Result<Closest, FindError>
  {
    var p := TicketPostal(postalInput, ticketText);
    if p == "" then Err(NoPostal)
    else
      var ticket := LatLonForPostal(pg, p, "", "");
      if ticket.None? then Err(NoTicketLocation)
      else Nearest(p, ticket.value, ScoredOf(pg.techs, Placer(pg), ticket.value.at, dist), BaseFactor(factorIn),
                   Speed(speedIn))
  }

  /**
   * The technician reported is one nearest to the ticket; the list shows the
   * first eight, nearest first, of the scored technicians; the road distance
   * is the straight one times a factor in [1, 12]
   */
  lemma NearestSpec(p: string, ticket: Loc, scored: seq<Scored>, base: real, speed: real)
    ensures Nearest(p, ticket, scored, base, speed).Err? <==> scored == []
    ensures var r := Nearest(p, ticket, scored, base, speed);
      r.Ok? ==>
        r.value.best in scored && (forall s :: s in scored ==> r.value.best.km <= s.km) &&
        |r.value.top| == (if |scored| < 8 then |scored| else 8) && r.value.top[0] == r.value.best &&
        (forall i, j :: 0 <= i < j < |r.value.top| ==> r.value.top[i].km <= r.value.top[j].km) &&
        (forall s :: s in r.value.top ==> s in scored) &&
        1.0 <= r.value.factor <= 12.0 && r.value.driveKm == r.value.best.km * r.value.factor
  {
    if scored != [] {
      var n := if |scored| < 8 then |scored| else 8;
      KmRanking(scored, n);
      var sorted := InsertionSort(scored, KmLe);
      var r := Nearest(p, ticket, scored, base, speed);
      var f := EffectiveDriveFactor(base, ticket, sorted[0].loc);
      assert r.value.best == sorted[0] && r.value.factor == f;
      assert r.value.top == sorted[..n];
    }
  }

  /** The list shows a nearest eight (or all) of the scored technicians, none twice unless scored twice */
  lemma NearestTop(p: string, ticket: Loc, scored: seq<Scored>, base: real, speed: real)
    ensures var r := Nearest(p, ticket, scored, base, speed);
      r.Ok? ==> TopOf(scored, r.value.top)
  {
    if scored != [] {
      var n := if |scored| < 8 then |scored| else 8;
      var sorted := InsertionSort(scored, KmLe);
      KmLeOrder();
      InsertionSortSorted(scored, KmLe);
      KmTop(scored, sorted, n);
      assert Nearest(p, ticket, scored, base, speed).value.top == sorted[..n];
    }
  }

  /**
   * `top` is a selection of the scored technicians, each taken at most as
   * often as it was scored, and every scored one left out is no nearer than
   * the last one shown
   */
  predicate TopOf(scored: seq<Scored>, top: seq<Scored>)
  {
    |top| > 0 && multiset(top) <= multiset(scored)
    && forall s :: s in multiset(scored) - multiset(top) ==> top[|top| - 1].km <= s.km
  }

  /** The first `n` of the technicians sorted by distance are a nearest `n` of them */
  lemma KmTop(scored: seq<Scored>, sorted: seq<Scored>, n: nat)
    requires multiset(sorted) == multiset(scored) && SortedBy(sorted, KmLe) && 0 < n <= |sorted|
    ensures TopOf(scored, sorted[..n])
  {
    PrefixLeadsRest(sorted, KmLe, n);
  }

  /** Sorted by distance, the first technician is a nearest one, and the first `n` are nearest first and all scored */
  lemma KmRanking(scored: seq<Scored>, n: nat)
    requires scored != [] && n <= |scored|
    ensures var sorted := InsertionSort(scored, KmLe);
      |sorted| == |scored| && sorted[0] in scored && (forall s :: s in scored ==> sorted[0].km <= s.km) &&
      (forall i, j :: 0 <= i < j < n ==> sorted[..n][i].km <= sorted[..n][j].km) &&
      (forall s :: s in sorted[..n] ==> s in scored)
  {
    var sorted := InsertionSort(scored, KmLe);
    KmLeOrder();
    InsertionSortSorted(scored, KmLe);
    forall s | s in scored
      ensures sorted[0].km <= s.km
    {
      assert s in multiset(sorted);
      var k :| 0 <= k < |sorted| && sorted[k] == s;
      if k > 0 {
        assert KmLe(sorted[0], sorted[k]);
      }
    }
    assert sorted[0] in multiset(scored);
    forall s | s in sorted[..n]
      ensures s in scored
    {
      assert s in multiset(sorted);
    }
  }

  /**
   * The search fails for want of a postal code exactly when neither the
   * field nor the text holds one, for want of a ticket location only when
   * the code cannot be placed, and otherwise ranks every technician that
   * can be placed, with the factor and the speed in their ranges
   */
  lemma ClosestSpec(pg: Page, postalInput: string, ticketText: string, factorIn: Option<real>, speedIn: Option<real>,
                    dist: (Coord, Coord) -> real)
    ensures var r := ClosestOf(pg, postalInput, ticketText, factorIn, speedIn, dist);
      r == Err(NoPostal) <==> TicketPostal(postalInput, ticketText) == ""
    ensures var r := ClosestOf(pg, postalInput, ticketText, factorIn, speedIn, dist);
      r == Err(NoTicketLocation) <==>
        TicketPostal(postalInput, ticketText) != "" && LatLonForPostal(pg, TicketPostal(postalInput, ticketText), "", "").None?
    ensures var r := ClosestOf(pg, postalInput, ticketText, factorIn, speedIn, dist);
      r.Ok? ==>
        IsPostal(r.value.postal) && r.value.postal == TicketPostal(postalInput, ticketText) &&
        Some(r.value.ticket) == LatLonForPostal(pg, r.value.postal, "", "") &&
        r.value.best in ScoredOf(pg.techs, Placer(pg), r.value.ticket.at, dist) &&
        (forall s :: s in ScoredOf(pg.techs, Placer(pg), r.value.ticket.at, dist) ==> r.value.best.km <= s.km) &&
        20.0 <= r.value.speed <= 130.0
  {
    var p := TicketPostal(postalInput, ticketText);
    TicketPostalSpec(postalInput, ticketText);
    if p != "" {
      var ticket := LatLonForPostal(pg, p, "", "");
      if ticket.Some? {
        NearestSpec(p, ticket.value, ScoredOf(pg.techs, Placer(pg), ticket.value.at, dist), BaseFactor(factorIn),
                    Speed(speedIn));
      }
    }
  }

  /** `findClosest` as the page runs it: the result shown and the postal field left behind */
  method FindClosest(pg: Page, postalInput: string, ticketText: string, factorIn: Option<real>, speedIn: Option<real>,
                     dist: (Coord, Coord) -> real) returns (r: Result<Closest, FindError>, field: string)
    ensures r == ClosestOf(pg, postalInput, ticketText, factorIn, speedIn, dist)
    ensures field == PostalField(postalInput, ticketText)
  {
    var baseFactor := BaseFactor(factorIn);
    var speed := Speed(speedIn);
    field := postalInput;
    var p := NormalizePostal(postalInput);
    if p == "" {
      p := ExtractPostal(ticketText);
      if p != "" {
        field := FormatPostal(p);
      }
    }
    if p == "" {
      return Err(NoPostal), field;
    }
    var ticket := LatLonForPostal(pg, p, "", "");
    if ticket.None? {
      return Err(NoTicketLocation), field;
    }
    var scored := ScoreTechs(pg.techs, Placer(pg), ticket.value.at, dist);
    r := Nearest(p, ticket.value, scored, baseFactor, speed);
  }
}
