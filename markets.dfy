/**
 * Market names of the on-call application: the case-insensitive patterns
 * of `MARKET_STATE_GROUPS` and `replaceMarketNamesToZips`, the state filter
 * (`marketAcceptsState`, `marketAcceptsStateForMarket`) and the
 * market-name/ZIP tables.
 *
 * Every pattern the source uses is a list of alternatives, each a list of
 * literal chunks joined by `\s*`, matched with the `i` flag; that fragment
 * of regular expressions is modelled exactly.
 */
module Markets {
  import opened Wrappers
  import opened Strings
  import opened Cells

  /** `c1\s*c2\s*...\s*cn`: literal chunks separated by optional white space */
  type Alt = seq<string>
  /** `alt1|alt2|...` */
  type Pattern = seq<Alt>

  /** Each chunk is non-empty and does not start with white space */
  predicate WellFormedAlt(a: Alt)
  {
    |a| > 0 && forall k :: 0 <= k < |a| ==> |a[k]| > 0 && !IsSpace(a[k][0])
  }

  predicate AllSpace(s: string) { forall q :: 0 <= q < |s| ==> IsSpace(s[q]) }

  /** The chunk `c` occurs at `i`, ignoring ASCII case */
  predicate ChunkAt(s: string, i: int, c: string)
  {
    0 <= i && i + |c| <= |s| && Lower(s[i..i + |c|]) == Lower(c)
  }

  /** First index at or after `j` that is not white space (the end of a greedy `\s*`) */
  function SkipSpacesFrom(s: string, j: nat): (r: nat)
    requires j <= |s|
    ensures j <= r <= |s| && (r == |s| || !IsSpace(s[r]))
    ensures forall q :: j <= q < r ==> IsSpace(s[q])
    decreases |s| - j
  {
    if j < |s| && IsSpace(s[j]) then SkipSpacesFrom(s, j + 1) else j
  }

  /** Where a match of `a` that starts at `i` ends, with every `\s*` taken greedily */
  function AltEnd(s: string, i: nat, a: Alt): (r: Option<nat>)
    requires i <= |s|
    ensures r.Some? ==> i <= r.value <= |s|
    ensures r.Some? && |a| > 0 ==> r.value >= i + |a[0]|
    decreases |a|
  {
    if a == [] then Some(i)
    else if !ChunkAt(s, i, a[0]) then None
    else if |a| == 1 then Some(i + |a[0]|)
    else AltEnd(s, SkipSpacesFrom(s, i + |a[0]|), a[1..])
  }

  /**
   * The regular-expression meaning of `a`: it matches `s[i..e]` when its
   * chunks occur in order, separated by runs of white space of any length.
   */
  predicate AltMatches(s: string, i: int, a: Alt, e: int)
    decreases |a|
  {
    if a == [] then e == i
    else if |a| == 1 then ChunkAt(s, i, a[0]) && e == i + |a[0]|
    else
      ChunkAt(s, i, a[0]) &&
      exists j | i + |a[0]| <= j <= |s| :: AllSpace(s[i + |a[0]|..j]) && AltMatches(s, j, a[1..], e)
  }

  /** A character equal, in any case, to one that is not white space is not white space */
  lemma LowerNonSpace(x: char, y: char)
    requires LowerChar(x) == LowerChar(y) && !IsSpace(y)
    ensures !IsSpace(x)
  {
  }

  /** A greedy `\s*` runs through any run of white space */
  lemma {:induction false} SkipThroughSpaces(s: string, j0: nat, j: nat)
    requires j0 <= j <= |s| && AllSpace(s[j0..j])
    ensures SkipSpacesFrom(s, j0) == SkipSpacesFrom(s, j)
    decreases j - j0
  {
    if j0 < j {
      assert s[j0..j][0] == s[j0];
      assert s[j0 + 1..j] == s[j0..j][1..];
      SkipThroughSpaces(s, j0 + 1, j);
    }
  }

  lemma WellFormedTail(a: Alt)
    requires WellFormedAlt(a) && |a| > 1
    ensures WellFormedAlt(a[1..])
  {
    var t := a[1..];
    forall k | 0 <= k < |t| ensures |t[k]| > 0 && !IsSpace(t[k][0]) {
      assert t[k] == a[k + 1];
    }
  }

  /** Taking every `\s*` greedily gives a match */
  lemma {:induction false} AltEndSound(s: string, i: nat, a: Alt)
    requires i <= |s| && AltEnd(s, i, a).Some?
    ensures AltMatches(s, i, a, AltEnd(s, i, a).value)
    decreases |a|
  {
    if |a| > 1 {
      var t := a[1..];
      var j0 := i + |a[0]|;
      var g := SkipSpacesFrom(s, j0);
      AltEndSound(s, g, t);
      assert AllSpace(s[j0..g]) by {
        forall q | 0 <= q < g - j0 ensures IsSpace(s[j0..g][q]) {
          assert s[j0..g][q] == s[j0 + q];
        }
      }
    }
  }

  /** ... and the only one: a chunk cannot start inside a run of white space */
  lemma {:induction false} AltEndComplete(s: string, i: nat, a: Alt, e: int)
    requires i <= |s| && WellFormedAlt(a) && AltMatches(s, i, a, e)
    ensures AltEnd(s, i, a) == Some(e)
    decreases |a|
  {
    if |a| > 1 {
      var t := a[1..];
      WellFormedTail(a);
      var j0 := i + |a[0]|;
      var g := SkipSpacesFrom(s, j0);
      var j :| j0 <= j <= |s| && AllSpace(s[j0..j]) && AltMatches(s, j, t, e);
      SkipThroughSpaces(s, j0, j);
      assert Lower(s[j..j + |t[0]|])[0] == Lower(t[0])[0];
      LowerNonSpace(s[j], t[0][0]);
      assert g == j;
      AltEndComplete(s, j, t, e);
    }
  }

  /** The regular-expression meaning and the greedy matcher agree on well-formed patterns */
  lemma AltEndIsMatch(s: string, i: nat, a: Alt, e: int)
    requires i <= |s| && WellFormedAlt(a)
    ensures AltMatches(s, i, a, e) <==> AltEnd(s, i, a) == Some(e)
  {
    if AltMatches(s, i, a, e) {
      AltEndComplete(s, i, a, e);
    }
    if AltEnd(s, i, a) == Some(e) {
      AltEndSound(s, i, a);
    }
  }

  /** `a` matches at `i` */
  predicate MatchesAt(s: string, i: int, a: Alt)
  {
    0 <= i <= |s| && AltEnd(s, i, a).Some?
  }

  /** `re.test(s)` */
  predicate Test(s: string, p: Pattern)
  {
    exists i, k | 0 <= i <= |s| && 0 <= k < |p| :: MatchesAt(s, i, p[k])
  }

  // ---------------------------------------------------------------------
  // MARKET_STATE_GROUPS

  datatype Group = Group(pattern: Pattern, states: seq<string>)

  /** `MARKET_STATE_GROUPS`, in order */
  const StateGroups: seq<Group> := [
    Group([["Seattle"]], ["WA"]),
    Group([["San", "Francisco"]], ["CA"]),
    Group([["Los", "Angeles"]], ["CA"]),
    Group([["SE", "Cali"], ["San", "Diego"]], ["CA"]),
    Group([["Phoenix"]], ["AZ"]),
    Group([["Las", "Vegas"]], ["NV", "UT"]),
    Group([["Kansas", "City"]], ["MO", "KS"]),
    Group([["Denver"]], ["CO", "UT"]),
    Group([["Dallas"]], ["TX"]),
    Group([["Houston"]], ["TX"]),
    Group([["South", "Florida"]], ["FL"]),
    Group([["Central", "Florida"]], ["FL"]),
    Group([["Chicago"]], ["IL"]),
    Group([["Detroit"]], ["MI"]),
    Group([["Minnesota"]], ["MN", "ND", "SD"]),
    Group([["Northern", "Ohio"]], ["OH"]),
    Group([["St.", "Louis"], ["St", "Louis"]], ["MO"]),
    Group([["New", "York", "/", "New", "Jersey"], ["New", "York"], ["New", "Jersey"]], ["NY", "NJ"]),
    Group([["Connecticut"]], ["CT"]),
    Group([["Boston"]], ["MA"]),
    Group([["Philadelphia"]], ["PA"]),
    Group([["Nashville"]], ["TN"]),
    Group([["Atlanta"]], ["GA"]),
    Group([["Charlotte"]], ["NC"]),
    Group([["Raleigh"], ["Wilmington"], ["Fayetteville"]], ["NC"]),
    Group([["Richmond"]], ["VA"]),
    Group([["Washington", "DC"], ["Washington", "D.C."]], ["DC", "MD", "VA"])
  ]

  /** The loop of `marketAcceptsState` over `groups`: the first group whose pattern matches decides */
  function AcceptsFrom(groups: seq<Group>, name: string, state: string): bool
    decreases |groups|
  {
    if groups == [] then true
    else if Test(name, groups[0].pattern) then state in groups[0].states
    else AcceptsFrom(groups[1..], name, state)
  }

  /** `marketAcceptsState(displayName, st)` */
  function MarketAcceptsState(displayName: string, st: string): bool
  {
    var state := NormState(st);
    state == "" || AcceptsFrom(StateGroups, displayName, state)
  }

  /** The group that decides is the first whose pattern matches; with none, every state passes */
  lemma {:induction false} AcceptsFromFirstMatch(groups: seq<Group>, name: string, state: string)
    ensures (forall k :: 0 <= k < |groups| ==> !Test(name, groups[k].pattern)) ==> AcceptsFrom(groups, name, state)
    ensures forall k :: (0 <= k < |groups| && Test(name, groups[k].pattern)
      && (forall j :: 0 <= j < k ==> !Test(name, groups[j].pattern))) ==>
      (AcceptsFrom(groups, name, state) <==> state in groups[k].states)
    decreases |groups|
  {
    if groups != [] {
      AcceptsFromFirstMatch(groups[1..], name, state);
      forall k | 1 <= k < |groups| ensures groups[1..][k - 1] == groups[k] { }
    }
  }

  /** The state filter, stated through the first matching group of `MARKET_STATE_GROUPS` */
  lemma MarketAcceptsStateSpec(displayName: string, st: string)
    ensures NormState(st) == "" ==> MarketAcceptsState(displayName, st)
    ensures (forall k :: 0 <= k < |StateGroups| ==> !Test(displayName, StateGroups[k].pattern))
      ==> MarketAcceptsState(displayName, st)
    ensures forall k :: (0 <= k < |StateGroups| && Test(displayName, StateGroups[k].pattern)
      && (forall j :: 0 <= j < k ==> !Test(displayName, StateGroups[j].pattern))) ==>
      (MarketAcceptsState(displayName, st) <==> NormState(st) == "" || NormState(st) in StateGroups[k].states)
  {
    AcceptsFromFirstMatch(StateGroups, displayName, NormState(st));
  }

  /** A market of the rotation grid (`parseOncallAOA`'s `markets` entries) */
  datatype Market = Market(row: nat, centerZip: string, displayName: string, info: string,
                           stateHint: Option<string>, subIndex: Option<nat>)

  /** `marketAcceptsStateForMarket(market, st)` */
  function MarketAcceptsStateForMarket(m: Market, st: string): bool
  {
    var state := NormState(st);
    if state == "" then true
    else if m.stateHint.Some? && m.stateHint.value != "" then Upper(m.stateHint.value) == state
    else MarketAcceptsState(m.displayName, state)
  }

  lemma {:induction false} UpperIdempotent(s: string)
    ensures Upper(Upper(s)) == Upper(s)
  {
  }

  lemma TrimOfUpper(s: string)
    ensures Trim(Upper(Trim(s))) == Upper(Trim(s))
  {
    TrimShape(s);
    var t := Trim(s);
    var u := Upper(t);
    if |t| > 0 {
      assert u[0] == UpperChar(t[0]) && u[|u| - 1] == UpperChar(t[|t| - 1]);
    }
    TrimNoEnds(u);
  }

  lemma NormStateIdempotent(st: string)
    ensures NormState(NormState(st)) == NormState(st)
  {
    TrimOfUpper(st);
    UpperIdempotent(Trim(st));
  }

  /**
   * An empty state accepts every market, a non-empty `stateHint` decides
   * alone, and otherwise the market's display name goes through the groups.
   */
  lemma MarketAcceptsStateForMarketSpec(m: Market, st: string)
    ensures NormState(st) == "" ==> MarketAcceptsStateForMarket(m, st)
    ensures NormState(st) != "" && m.stateHint.Some? && m.stateHint.value != "" ==>
      (MarketAcceptsStateForMarket(m, st) <==> Upper(m.stateHint.value) == NormState(st))
    ensures m.stateHint.None? || m.stateHint == Some("") ==>
      MarketAcceptsStateForMarket(m, st) == MarketAcceptsState(m.displayName, st)
  {
    NormStateIdempotent(st);
  }

  // ---------------------------------------------------------------------
  // MARKET_NAME_TO_ZIP, MARKET_ZIP_TO_NAME, replaceMarketNamesToZips

  /** Market names are held as their words; the name is the words joined by single spaces */
  function JoinWords(a: Alt): string
  {
    if a == [] then "" else if |a| == 1 then a[0] else a[0] + " " + JoinWords(a[1..])
  }

  /**
   * `name.replace(/\s+/g, '\\s*')` turns a name back into its words: the
   * pattern `replaceMarketNamesToZips` builds for a name is the name's words
   * joined by `\s*`.
   */
  lemma {:induction false} SplitJoinWords(a: Alt)
    requires |a| > 0 && forall k, q :: 0 <= k < |a| && 0 <= q < |a[k]| ==> a[k][q] != ' '
    ensures Split(JoinWords(a), ' ') == a
    decreases |a|
  {
    if |a| == 1 {
      SplitNoSep(a[0], ' ');
    } else {
      SplitJoinWords(a[1..]);
      SplitJoin(a[0], ' ', JoinWords(a[1..]));
      assert a[0] + " " + JoinWords(a[1..]) == a[0] + [' '] + JoinWords(a[1..]);
      assert a == [a[0]] + a[1..];
    }
  }

  /** `MARKET_NAME_TO_ZIP`, in order; each name as its words */
  const NameToZip: seq<(Alt, string)> := [
    (["Seattle"], "98101"), (["San", "Francisco"], "94102"), (["Los", "Angeles"], "90001"),
    (["SE", "Cali", "(LA", "south/San", "Diego)"], "92101"), (["Phoenix"], "85001"), (["Las", "Vegas"], "89101"),
    (["Kansas", "City"], "64106"), (["Denver"], "80202"), (["Dallas"], "75201"), (["Houston"], "77002"),
    (["South", "Florida"], "33101"), (["Central", "Florida"], "32801"), (["Chicago"], "60601"), (["Detroit"], "48226"),
    (["Minnesota"], "55401"), (["Northern", "Ohio"], "44114"), (["St.", "Louis"], "63101"),
    (["New", "York/New", "Jersey"], "10001"), (["Connecticut"], "06103"), (["Boston"], "02108"), (["Philadelphia"], "19102"),
    (["Nashville,", "TN"], "37219"), (["Atlanta"], "30303"), (["Charlotte,", "NC"], "28202"), (["Raleigh"], "27601"),
    (["Wilmington"], "28401"), (["Fayetteville"], "28301"), (["Richmond,", "VA"], "23219"), (["Washington", "DC"], "20001")
  ]

  /** Building `MARKET_ZIP_TO_NAME` by setting zip -> name for each entry in turn */
  function ZipToNameOf(entries: seq<(Alt, string)>): map<string, string>
  {
    if entries == [] then map[]
    else ZipToNameOf(entries[..|entries| - 1])[entries[|entries| - 1].1 := JoinWords(entries[|entries| - 1].0)]
  }

  predicate DistinctZips(entries: seq<(Alt, string)>)
  {
    forall i, j :: 0 <= i < j < |entries| ==> entries[i].1 != entries[j].1
  }

  /** With distinct ZIP codes, the reverse map sends each market's ZIP back to its name, and has no other keys */
  lemma {:induction false} ZipToNameInverse(entries: seq<(Alt, string)>)
    requires DistinctZips(entries)
    ensures forall k :: 0 <= k < |entries| ==>
      (entries[k].1 in ZipToNameOf(entries) && ZipToNameOf(entries)[entries[k].1] == JoinWords(entries[k].0))
    ensures forall z :: z in ZipToNameOf(entries) ==> exists k :: 0 <= k < |entries| && entries[k].1 == z
    decreases |entries|
  {
    if entries != [] {
      var init := entries[..|entries| - 1];
      assert DistinctZips(init);
      ZipToNameInverse(init);
      forall z | z in ZipToNameOf(entries)
        ensures exists k :: 0 <= k < |entries| && entries[k].1 == z
      {
        if z != entries[|entries| - 1].1 {
          assert z in ZipToNameOf(init);
          var k :| 0 <= k < |init| && init[k].1 == z;
          assert entries[k].1 == z;
        }
      }
    }
  }

  lemma NameToZipDistinct()
    ensures DistinctZips(NameToZip)
  {
    forall i, j | 0 <= i < j < |NameToZip| ensures NameToZip[i].1 != NameToZip[j].1 {
      if i < 8 {
        ZipsDistinctBelow(i, j, 0, 8);
      } else if i < 15 {
        ZipsDistinctBelow(i, j, 8, 15);
      } else if i < 22 {
        ZipsDistinctBelow(i, j, 15, 22);
      } else {
        ZipsDistinctBelow(i, j, 22, 29);
      }
    }
  }

  /** The ZIP codes of entries `lo` to `hi - 1` of `MARKET_NAME_TO_ZIP` differ from every later one */
  lemma ZipsDistinctBelow(i: nat, j: nat, lo: nat, hi: nat)
    requires lo <= i < hi && i < j < |NameToZip|
    requires (lo, hi) in {(0, 8), (8, 15), (15, 22), (22, 29)}
    ensures NameToZip[i].1 != NameToZip[j].1
  {
  }

  /** `MARKET_ZIP_TO_NAME` */
  function ZipToName(): map<string, string>
  {
    ZipToNameOf(NameToZip)
  }

  /** `MARKET_ZIP_TO_NAME.get(zip) || 'Market ' + zip` */
  function DisplayName(zip: string): string
  {
    if zip in ZipToName() then ZipToName()[zip] else "Market " + zip
  }

  /** Every market of `MARKET_NAME_TO_ZIP` is displayed by its name */
  lemma DisplayNameOfMarketZip(k: nat)
    requires k < |NameToZip|
    ensures DisplayName(NameToZip[k].1) == JoinWords(NameToZip[k].0)
  {
    NameToZipDistinct();
    ZipToNameInverse(NameToZip);
  }

  /** Global, case-insensitive replacement of the matches of `a` by `rep`, left to right */
  function ReplaceAll(s: string, a: Alt, rep: string): string
    requires |a| > 0 && |a[0]| > 0
    decreases |s|
  {
    if s == [] then []
    else
      var m := AltEnd(s, 0, a);
      if m.Some? then rep + ReplaceAll(s[m.value..], a, rep)
      else [s[0]] + ReplaceAll(s[1..], a, rep)
  }

  /** A text in which the name does not occur is left as it is */
  lemma {:induction false} ReplaceAllNoMatch(s: string, a: Alt, rep: string)
    requires |a| > 0 && |a[0]| > 0
    requires forall i :: 0 <= i <= |s| ==> AltEnd(s, i, a).None?
    ensures ReplaceAll(s, a, rep) == s
    decreases |s|
  {
    if s != [] {
      forall i | 0 <= i <= |s| - 1 ensures AltEnd(s[1..], i, a).None? {
        AltEndSuffix([s[0]], s[1..], i, a, i + 1);
        assert [s[0]] + s[1..] == s;
      }
      ReplaceAllNoMatch(s[1..], a, rep);
      assert [s[0]] + s[1..] == s;
    }
  }

  /** A text that is exactly a market name becomes that market's ZIP */
  lemma ReplaceAllWhole(a: Alt, rep: string)
    requires WellFormedAlt(a)
    requires forall k, q :: 0 <= k < |a| && 0 <= q < |a[k]| ==> a[k][q] != ' '
    ensures ReplaceAll(JoinWords(a), a, rep) == rep
  {
    var s := JoinWords(a);
    AltEndJoinWords(a);
    assert s[|s|..] == [];
  }

  lemma {:induction false} AltEndJoinWords(a: Alt)
    requires WellFormedAlt(a)
    requires forall k, q :: 0 <= k < |a| && 0 <= q < |a[k]| ==> a[k][q] != ' '
    ensures |JoinWords(a)| > 0 && AltEnd(JoinWords(a), 0, a) == Some(|JoinWords(a)|)
    decreases |a|
  {
    if |a| == 1 {
      assert JoinWords(a)[0..|a[0]|] == a[0];
    } else {
      var t := a[1..];
      WellFormedTail(a);
      forall k, q | 0 <= k < |t| && 0 <= q < |t[k]| ensures t[k][q] != ' ' {
        assert t[k] == a[k + 1];
      }
      AltEndJoinWords(t);
      assert a == [a[0]] + t;
      AltEndAfterWord(JoinWords(a), a[0], JoinWords(t), a, t);
    }
  }

  /** A word, one space and a text that `t` matches to its end, is matched to its end by the word followed by `t` */
  lemma AltEndAfterWord(s: string, w: string, rest: string, a: Alt, t: Alt)
    requires s == w + " " + rest && a == [w] + t
    requires |w| > 0 && |rest| > 0 && |t| > 0 && !IsSpace(rest[0])
    requires AltEnd(rest, 0, t) == Some(|rest|)
    ensures AltEnd(s, 0, a) == Some(|s|)
  {
    assert a[0] == w && a[1..] == t;
    assert s[0..|w|] == w;
    assert s[|w|] == ' ' && s[|w| + 1] == rest[0];
    assert SkipSpacesFrom(s, |w| + 1) == |w| + 1;
    assert SkipSpacesFrom(s, |w|) == |w| + 1;
    AltEndStep(s, 0, a, |w|, |w| + 1);
    AltEndSuffix(w + " ", rest, 0, t, |w| + 1);
  }

  /** Past a first chunk found at `i`, the match goes on after the white space that follows it */
  lemma AltEndStep(s: string, i: nat, a: Alt, k: nat, j: nat)
    requires |a| > 1 && ChunkAt(s, i, a[0]) && k == i + |a[0]| && k <= |s| && j == SkipSpacesFrom(s, k)
    ensures AltEnd(s, i, a) == AltEnd(s, j, a[1..])
  {
  }

  function Shifted(o: Option<nat>, k: nat): Option<nat>
  {
    match o
    case Some(e) => Some(k + e)
    case None => None
  }

  /** The chunk `c` occurs at `|pre| + i` in `pre + rest` exactly when it occurs at `i` in `rest` */
  lemma ChunkAtSuffix(pre: string, rest: string, i: nat, c: string, j: nat)
    requires i <= |rest| && j == |pre| + i
    ensures ChunkAt(pre + rest, j, c) == ChunkAt(rest, i, c)
  {
    if i + |c| <= |rest| {
      assert (pre + rest)[j..j + |c|] == rest[i..i + |c|];
    }
  }

  /** Matching inside the tail `rest` of `pre + rest` is matching in `rest`, shifted */
  lemma {:induction false} AltEndSuffix(pre: string, rest: string, i: nat, a: Alt, j: nat)
    requires i <= |rest| && j == |pre| + i
    ensures AltEnd(pre + rest, j, a) == Shifted(AltEnd(rest, i, a), |pre|)
    decreases |a|
  {
    if a != [] {
      ChunkAtSuffix(pre, rest, i, a[0], j);
      if ChunkAt(rest, i, a[0]) && |a| > 1 {
        var k := SkipSpacesFrom(pre + rest, j + |a[0]|);
        SkipSuffix(pre, rest, i + |a[0]|, j + |a[0]|);
        AltEndSuffix(pre, rest, SkipSpacesFrom(rest, i + |a[0]|), a[1..], k);
      }
    }
  }

  lemma {:induction false} SkipSuffix(pre: string, rest: string, i: nat, j: nat)
    requires i <= |rest| && j == |pre| + i
    ensures SkipSpacesFrom(pre + rest, j) == |pre| + SkipSpacesFrom(rest, i)
    decreases |rest| - i
  {
    if i < |rest| && IsSpace(rest[i]) {
      SkipSuffix(pre, rest, i + 1, j + 1);
    }
  }

  /** The loop of `replaceMarketNamesToZips` over the table entries */
  function ReplaceNames(s: string, entries: seq<(Alt, string)>): string
    requires forall k :: 0 <= k < |entries| ==> |entries[k].0| > 0 && |entries[k].0[0]| > 0
    decreases |entries|
  {
    if entries == [] then s
    else ReplaceNames(ReplaceAll(s, entries[0].0, entries[0].1), entries[1..])
  }

  /** `replaceMarketNamesToZips(cell)`: only text cells change */
  function ReplaceMarketNamesToZips(v: Cell): (r: Cell)
    ensures !v.Text? ==> r == v
    ensures v.Text? ==> r.Text?
  {
    if v.Text? then Text(ReplaceNames(v.s, NameToZip)) else v
  }

  /** A text that mentions no market name is unchanged */
  lemma {:induction false} ReplaceNamesNoMatch(s: string, entries: seq<(Alt, string)>)
    requires forall k :: 0 <= k < |entries| ==> |entries[k].0| > 0 && |entries[k].0[0]| > 0
    requires forall k, i :: 0 <= k < |entries| && 0 <= i <= |s| ==> AltEnd(s, i, entries[k].0).None?
    ensures ReplaceNames(s, entries) == s
    decreases |entries|
  {
    if entries != [] {
      ReplaceAllNoMatch(s, entries[0].0, entries[0].1);
      forall k, i | 0 <= k < |entries| - 1 && 0 <= i <= |s| ensures AltEnd(s, i, entries[1..][k].0).None? {
        assert entries[1..][k] == entries[k + 1];
      }
      ReplaceNamesNoMatch(s, entries[1..]);
    }
  }

  /** The rotation sheet as the application parses it: every text cell with market names replaced */
  function CleanGrid(g: Grid): (r: Grid)
    ensures |r| == |g| && forall i :: 0 <= i < |g| ==> |r[i]| == |g[i]|
    ensures forall i, j :: 0 <= i < |g| && 0 <= j < |g[i]| ==> r[i][j] == ReplaceMarketNamesToZips(g[i][j])
  {
    seq(|g|, i requires 0 <= i < |g| => seq(|g[i]|, j requires 0 <= j < |g[i]| => ReplaceMarketNamesToZips(g[i][j])))
  }

  /** `/New\s*York\s*\/\s*New\s*Jersey/i`: the merged New York / New Jersey market */
  const NyNjPattern: Pattern := [["New", "York", "/", "New", "Jersey"]]

  predicate IsNyNj(displayName: string)
  {
    Test(displayName, NyNjPattern)
  }
}
