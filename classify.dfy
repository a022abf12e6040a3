/** The classifiers and filters the dashboard applies to a hospital and its
    entry in the distance table: EVT desert, zero capability, the distance
    bands of the nearest-center view, the marker colour and size, the
    checkbox and search filter, the advanced filter, the quick filters, the
    transfer-estimate availability and the executive-summary counts. */
module Classifiers {
  import opened HospitalData
  import opened NearestFacility

  /** Every hospital of `hs` has an entry in the distance table. */
  predicate AllIndexed(hs: seq<Hospital>, table: map<string, DistanceRecord>)
  {
    forall h :: h in hs ==> h.cmsId in table
  }

  // ---------------------------------------------------------------------
  // EVT desert and zero capability

  /** `nearestEVTDistance > 100`: strictly more than 100 miles from the
      nearest other EVT center, or no other EVT center at all. */
  predicate IsEvtDesert(evtDistance: Miles)
  {
    Exceeds(evtDistance, 100.0)
  }

  /** Exactly 100 miles is not a desert; anything further, and `Infinity`, is. */
  lemma EvtDesertBoundary(d: real)
    ensures !IsEvtDesert(Fin(100.0))
    ensures IsEvtDesert(Inf)
    ensures IsEvtDesert(Fin(d)) <==> d > 100.0
  {
  }

  /** No stroke certification and not a UW partner. */
  predicate IsZeroCapability(h: Hospital)
  {
    !HasCertification(h) && !h.uwPartner
  }

  /** Any certified hospital, partner or not, has some capability. */
  lemma CertifiedIsNeverZeroCapability(h: Hospital)
    requires HasCertification(h)
    ensures !IsZeroCapability(h) && !IsZeroCapability(h.(uwPartner := !h.uwPartner))
  {
  }

  /** The hospital's nearest other EVT center is more than 100 miles away
      according to the distance index. */
  function InEvtDesert(table: map<string, DistanceRecord>): Hospital -> bool
  {
    (h: Hospital) => h.cmsId in table && IsEvtDesert(table[h.cmsId].evt.distance)
  }

  /** `identifyEVTDeserts`: the hospitals more than 100 miles from EVT. */
  function EvtDesertHospitals(hs: seq<Hospital>, table: map<string, DistanceRecord>): (r: seq<Hospital>)
    requires AllIndexed(hs, table)
    ensures forall h :: h in r <==> h in hs && IsEvtDesert(table[h.cmsId].evt.distance)
  {
    Select(hs, InEvtDesert(table))
  }

  // ---------------------------------------------------------------------
  // Distance bands of the nearest-advanced-center view

  /** The marker classes of `showNearestAdvancedCenter`: a distance of
      `Infinity` or 0 is painted as a center itself; otherwise green below
      50 miles, yellow up to and including 100, red beyond. */
  datatype Band = CenterItself | Under50 | Within100 | Over100

  function AdvancedBand(d: Miles): (b: Band)
    ensures b == CenterItself <==> d == Inf || d == Fin(0.0)
    ensures b == Under50 <==> d.Fin? && d.value != 0.0 && d.value < 50.0
    ensures b == Within100 <==> d.Fin? && 50.0 <= d.value <= 100.0
    ensures b == Over100 <==> d.Fin? && d.value > 100.0
  {
    if d == Inf || d == Fin(0.0) then CenterItself
    else if d.value < 50.0 then Under50
    else if d.value <= 100.0 then Within100
    else Over100
  }

  function BandRank(b: Band): nat
  {
    match b
    case CenterItself => 0
    case Under50 => 1
    case Within100 => 2
    case Over100 => 3
  }

  /** For positive finite distances the bands are ordered like the distances. */
  lemma BandMonotone(a: real, b: real)
    requires 0.0 < a <= b
    ensures BandRank(AdvancedBand(Fin(a))) <= BandRank(AdvancedBand(Fin(b)))
  {
  }

  /** The three counts the nearest-center view reports. */
  datatype BandStats = BandStats(under50: nat, between50And100: nat, over100: nat)

  /** The counts as the source computes them: the `> 100` count has no
      guard against `Infinity`, unlike the `< 50` count. */
  function BandStatsAsWritten(hs: seq<Hospital>, table: map<string, DistanceRecord>): (s: BandStats)
    requires AllIndexed(hs, table)
    ensures s.under50 + s.between50And100 <= |hs|
    ensures s.under50 <= |hs| && s.between50And100 <= |hs| && s.over100 <= |hs|
  {
    CountDisjoint(hs, ByAdvancedDistance(table, AsWrittenUnder50), ByAdvancedDistance(table, AsWrittenWithin100),
      (h: Hospital) => h.cmsId in table && (AsWrittenUnder50(table[h.cmsId].advanced.distance) || AsWrittenWithin100(table[h.cmsId].advanced.distance)));
    BandStats(
      Count(hs, ByAdvancedDistance(table, AsWrittenUnder50)),
      Count(hs, ByAdvancedDistance(table, AsWrittenWithin100)),
      Count(hs, ByAdvancedDistance(table, AsWrittenOver100)))
  }

  /** The hospitals whose distance to the nearest other advanced center,
      looked up in the index, passes `p`. */
  function ByAdvancedDistance(table: map<string, DistanceRecord>, p: Miles -> bool): Hospital -> bool
  {
    (h: Hospital) => h.cmsId in table && p(table[h.cmsId].advanced.distance)
  }

  predicate AsWrittenUnder50(d: Miles) { d.Fin? && d.value > 0.0 && d.value < 50.0 }
  predicate AsWrittenWithin100(d: Miles) { d.Fin? && d.value >= 50.0 && d.value <= 100.0 }
  predicate AsWrittenOver100(d: Miles) { Exceeds(d, 100.0) }
  predicate InMiddleBand(d: Miles) { AdvancedBand(d) == Within100 }
  predicate InFarBand(d: Miles) { AdvancedBand(d) == Over100 }
  predicate IsInfinite(d: Miles) { d == Inf }

  /** A data set whose only hospital is its only advanced center: the popup
      calls it "a CSC/TSC facility", yet the `> 100` count includes it. */
  lemma BandStatsCountCenterAsFar(h: Hospital, dist: (Hospital, Hospital) -> real)
    requires IsAdvancedCenter(h)
    ensures var table := BuildIndex([h], AdvancedCenters([h]), EvtCenters([h]), dist);
      && AllIndexed([h], table)
      && AdvancedBand(table[h.cmsId].advanced.distance) == CenterItself
      && BandStatsAsWritten([h], table).over100 == 1
  {
    OnlyAdvancedCenterIsInfinitelyFar([h], dist, 0);
    InfinitelyFarCountsOver100(h, BuildIndex([h], AdvancedCenters([h]), EvtCenters([h]), dist));
  }

  /** A hospital with no nearest advanced center falls in the `> 100` count. */
  lemma InfinitelyFarCountsOver100(h: Hospital, table: map<string, DistanceRecord>)
    requires h.cmsId in table && table[h.cmsId].advanced.distance == Inf
    ensures BandStatsAsWritten([h], table).over100 == 1
  {
    SelectSingleton(h, ByAdvancedDistance(table, AsWrittenOver100));
  }

  /** The counts with the `> 100` count restricted to finite distances, as
      the marker colouring of the same view does. */
  function BandStatsCorrected(hs: seq<Hospital>, table: map<string, DistanceRecord>): (s: BandStats)
    requires AllIndexed(hs, table)
  {
    BandStats(
      Count(hs, ByAdvancedDistance(table, AsWrittenUnder50)),
      Count(hs, ByAdvancedDistance(table, AsWrittenWithin100)),
      Count(hs, ByAdvancedDistance(table, InFarBand)))
  }

  /** The corrected 50–100 count is the yellow-band count, and the source's
      `> 100` count exceeds the red-band count by exactly the hospitals
      whose distance is `Infinity`. */
  lemma BandStatsCorrection(hs: seq<Hospital>, table: map<string, DistanceRecord>)
    requires AllIndexed(hs, table)
    ensures BandStatsCorrected(hs, table).between50And100
      == Count(hs, ByAdvancedDistance(table, InMiddleBand))
    ensures BandStatsAsWritten(hs, table).over100
      == BandStatsCorrected(hs, table).over100 + Count(hs, ByAdvancedDistance(table, IsInfinite))
  {
    var within, middle := ByAdvancedDistance(table, AsWrittenWithin100), ByAdvancedDistance(table, InMiddleBand);
    var far, infinite, over := ByAdvancedDistance(table, InFarBand), ByAdvancedDistance(table, IsInfinite),
      ByAdvancedDistance(table, AsWrittenOver100);
    forall x ensures within(x) == middle(x) && !(far(x) && infinite(x)) && over(x) == (far(x) || infinite(x)) {
      if x.cmsId in table {
        var d := table[x.cmsId].advanced.distance;
        assert within(x) == AsWrittenWithin100(d) && middle(x) == InMiddleBand(d);
        assert far(x) == InFarBand(d) && infinite(x) == IsInfinite(d) && over(x) == AsWrittenOver100(d);
      }
    }
    SelectSamePredicate(hs, within, middle);
    CountDisjoint(hs, ByAdvancedDistance(table, InFarBand), ByAdvancedDistance(table, IsInfinite),
      ByAdvancedDistance(table, AsWrittenOver100));
  }

  // ---------------------------------------------------------------------
  // Marker colour and size

  const Red := "#dc2626"
  const Orange := "#ea580c"
  const Amber := "#f59e0b"
  const Lime := "#84cc16"
  const Blue := "#3b82f6"
  const Gray := "#6b7280"

  /** `getMarkerColor`: the certification decides first, then partnership. */
  function MarkerColor(h: Hospital): (c: string)
    ensures c in {Red, Orange, Amber, Lime, Blue, Gray}
    ensures c == Blue <==> !IsKnownCertification(h.strokeCertificationType) && h.uwPartner
  {
    var certType := h.strokeCertificationType;
    if certType == CSC then Red
    else if certType == TSC then Orange
    else if certType == PSC then Amber
    else if certType == ASR then Lime
    else if h.uwPartner then Blue
    else Gray
  }

  /** `getMarkerSize`, with the same precedence. */
  function MarkerSize(h: Hospital): (size: int)
    ensures 7 <= size <= 12
    ensures size >= 9 <==> IsKnownCertification(h.strokeCertificationType) || h.uwPartner
  {
    var certType := h.strokeCertificationType;
    if certType == CSC then 12
    else if certType == TSC then 11
    else if certType == PSC then 10
    else if certType == ASR then 9
    else if h.uwPartner then 9
    else 7
  }

  predicate IsKnownCertification(certType: string)
  {
    certType == CSC || certType == TSC || certType == PSC || certType == ASR
  }

  /** A recognised certification decides colour and size whatever the
      partnership; a grey, smallest marker means neither a recognised
      certification nor a partnership; and every zero-capability hospital
      is grey (the converse fails for an unrecognised certification). */
  lemma MarkerPrecedence(h: Hospital)
    ensures IsKnownCertification(h.strokeCertificationType) ==>
      var other := h.(uwPartner := !h.uwPartner);
      MarkerColor(other) == MarkerColor(h) && MarkerSize(other) == MarkerSize(h)
    ensures MarkerColor(h) == Gray <==> !IsKnownCertification(h.strokeCertificationType) && !h.uwPartner
    ensures MarkerSize(h) == 7 <==> MarkerColor(h) == Gray
    ensures IsZeroCapability(h) ==> MarkerColor(h) == Gray
  {
  }

  /** Size is a function of colour: larger markers for higher tiers. */
  lemma MarkerSizeFollowsColor(h: Hospital)
    ensures MarkerSize(h) == (if MarkerColor(h) == Red then 12
      else if MarkerColor(h) == Orange then 11
      else if MarkerColor(h) == Amber then 10
      else if MarkerColor(h) == Gray then 7
      else 9)
  {
  }

  // ---------------------------------------------------------------------
  // Checkbox and search filter of `renderMarkers`

  /** ASCII case mapping of `toLowerCase`. */
  function LowerChar(c: char): char
  {
    if 'A' <= c <= 'Z' then (c as int + 32) as char else c
  }

  function Lower(s: string): (r: string)
    ensures |r| == |s|
  {
    seq(|s|, i requires 0 <= i < |s| => LowerChar(s[i]))
  }

  /** Lower-casing twice is lower-casing once, so a search term that is
      already lower case matches exactly as typed. */
  lemma LowerIdempotent(s: string)
    ensures Lower(Lower(s)) == Lower(s)
  {
    assert forall i :: 0 <= i < |s| ==> LowerChar(LowerChar(s[i])) == LowerChar(s[i]);
  }

  /** `String.prototype.includes`: `t` occurs in `s` at some position. */
  function Includes(s: string, t: string): bool
    decreases |s|
  {
    |t| <= |s| && (s[..|t|] == t || (|s| > 0 && Includes(s[1..], t)))
  }

  /** `t` occurs in `s` starting at position `i`. */
  predicate OccursAt(s: string, t: string, i: int)
  {
    0 <= i <= |s| - |t| && s[i..i + |t|] == t
  }

  /** The recursive search finds `t` exactly when it occurs somewhere. */
  lemma {:induction false} IncludesIff(s: string, t: string)
    ensures Includes(s, t) <==> exists i :: OccursAt(s, t, i)
    decreases |s|
  {
    if |t| <= |s| && s[..|t|] == t {
      assert OccursAt(s, t, 0);
    } else if |t| <= |s| && |s| > 0 {
      IncludesIff(s[1..], t);
      if exists i :: OccursAt(s, t, i) {
        var i :| OccursAt(s, t, i);
        assert i > 0;
        assert OccursAt(s[1..], t, i - 1);
      }
      if exists i :: OccursAt(s[1..], t, i) {
        var i :| OccursAt(s[1..], t, i);
        assert OccursAt(s, t, i + 1);
      }
    }
  }

  /** The six checkboxes of the certification and designation filters. */
  datatype MarkerFilters = MarkerFilters(csc: bool, tsc: bool, psc: bool, asr: bool, uwPartner: bool, evt: bool)

  /** No search term, or the term occurs in the lower-cased name or address. */
  predicate MatchesSearch(h: Hospital, searchTerm: string)
  {
    searchTerm == "" || Includes(Lower(h.name), searchTerm) || Includes(Lower(h.address), searchTerm)
  }

  /** The test of some checked box holds for the hospital. */
  predicate MeetsCheckedBox(h: Hospital, f: MarkerFilters)
  {
    || (f.csc && IsCsc(h)) || (f.tsc && IsTsc(h)) || (f.psc && IsPsc(h)) || (f.asr && IsAsr(h))
    || (f.uwPartner && h.uwPartner) || (f.evt && Truthy(h.hasElvo))
  }

  /** The six configurations with exactly one box checked. */
  const CscBox := MarkerFilters(true, false, false, false, false, false)
  const TscBox := MarkerFilters(false, true, false, false, false, false)
  const PscBox := MarkerFilters(false, false, true, false, false, false)
  const AsrBox := MarkerFilters(false, false, false, true, false, false)
  const PartnerBox := MarkerFilters(false, false, false, false, true, false)
  const EvtBox := MarkerFilters(false, false, false, false, false, true)

  predicate AnyFilterActive(f: MarkerFilters)
  {
    f.csc || f.tsc || f.psc || f.asr || f.uwPartner || f.evt
  }

  /** The filter callback of `renderMarkers`; `searchTerm` is the
      lower-cased contents of the search box. */
  predicate PassesMarkerFilter(h: Hospital, f: MarkerFilters, searchTerm: string): (shown: bool)
    ensures shown <==> MatchesSearch(h, searchTerm) && (!AnyFilterActive(f) || MeetsCheckedBox(h, f))
  {
    if searchTerm != "" && !Includes(Lower(h.name), searchTerm) && !Includes(Lower(h.address), searchTerm) then false
    else if !AnyFilterActive(f) then true
    else
      var certType := h.strokeCertificationType;
      (f.csc && certType == CSC) || (f.tsc && certType == TSC)
      || (f.psc && certType == PSC) || (f.asr && certType == ASR)
      || (f.uwPartner && h.uwPartner) || (f.evt && Truthy(h.hasElvo))
  }

  /** With no box checked and no search term every hospital is shown. */
  lemma MarkerFilterDefaultShowsAll(hs: seq<Hospital>)
    ensures Select(hs, (h: Hospital) => PassesMarkerFilter(h, MarkerFilters(false, false, false, false, false, false), "")) == hs
  {
    var p := (h: Hospital) => PassesMarkerFilter(h, MarkerFilters(false, false, false, false, false, false), "");
    SelectAll(hs, p);
  }

  lemma {:induction false} SelectAll<T(!new)>(s: seq<T>, p: T -> bool)
    requires forall x :: p(x)
    ensures Select(s, p) == s
    decreases |s|
  {
    if s != [] {
      SelectAll(s[..|s| - 1], p);
      assert s == s[..|s| - 1] + [s[|s| - 1]];
    }
  }

  /** Once a box is checked, checking more boxes never hides a hospital; a search term only ever hides hospitals, and a shown
      hospital's name or address contains the term. */
  lemma MarkerFilterMonotone(h: Hospital, f: MarkerFilters, g: MarkerFilters, searchTerm: string)
    requires AnyFilterActive(f)
    requires (f.csc ==> g.csc) && (f.tsc ==> g.tsc) && (f.psc ==> g.psc)
    requires (f.asr ==> g.asr) && (f.uwPartner ==> g.uwPartner) && (f.evt ==> g.evt)
    ensures PassesMarkerFilter(h, f, searchTerm) ==> PassesMarkerFilter(h, g, searchTerm)
    ensures PassesMarkerFilter(h, f, searchTerm) ==> PassesMarkerFilter(h, f, "")
    ensures PassesMarkerFilter(h, f, searchTerm) && searchTerm != "" ==>
      Includes(Lower(h.name), searchTerm) || Includes(Lower(h.address), searchTerm)
  {
  }

  /** Once a box is checked, a hospital is shown exactly when it would be
      shown with one of the checked boxes alone: the boxes combine by union. */
  lemma MarkerFilterUnion(h: Hospital, f: MarkerFilters, searchTerm: string)
    requires AnyFilterActive(f)
    ensures PassesMarkerFilter(h, f, searchTerm) <==>
      || (f.csc && PassesMarkerFilter(h, CscBox, searchTerm))
      || (f.tsc && PassesMarkerFilter(h, TscBox, searchTerm))
      || (f.psc && PassesMarkerFilter(h, PscBox, searchTerm))
      || (f.asr && PassesMarkerFilter(h, AsrBox, searchTerm))
      || (f.uwPartner && PassesMarkerFilter(h, PartnerBox, searchTerm))
      || (f.evt && PassesMarkerFilter(h, EvtBox, searchTerm))
  {
  }

  /** An EVT flag that is truthy without being the boolean `true` passes the
      EVT checkbox, yet the hospital is not an EVT center of the distance
      index. */
  lemma EvtCheckboxAdmitsNonCenter(hs: seq<Hospital>, h: Hospital)
    requires h.hasElvo == Other(true)
    ensures PassesMarkerFilter(h, EvtBox, "") && h !in EvtCenters(hs)
  {
    TruthyElvoIsNotEvtCenter(h);
  }

  /** With only the CSC box checked and no search, exactly the CSCs are shown. */
  lemma MarkerFilterCscOnly(h: Hospital)
    ensures PassesMarkerFilter(h, MarkerFilters(true, false, false, false, false, false), "")
      <==> h.strokeCertificationType == CSC
  {
  }

  // ---------------------------------------------------------------------
  // Advanced filter of `applyAdvancedFilters`

  /** The controls of the advanced filter panel; the two distances are the
      `parseInt` of the slider values. */
  datatype AdvancedFilters = AdvancedFilters(
    notUwPartner: bool, noCert: bool, zeroCapability: bool,
    cscDistance: int, evtDistance: int, state: string)

  /** The panel after `clearAdvancedFilters`. */
  const ClearedFilters := AdvancedFilters(false, false, false, 0, 0, "ALL")

  /** Distance test of one slider: reject `Infinity`, 0 and anything within
      the slider's value. */
  predicate FartherThan(d: Miles, limit: int)
  {
    !(d == Inf || d == Fin(0.0) || d.value <= limit as real)
  }

  /** The filter callback of `applyAdvancedFilters`. */
  predicate PassesAdvancedFilter(h: Hospital, rec: DistanceRecord, f: AdvancedFilters): (passes: bool)
    ensures passes <==>
      && (f.zeroCapability ==> IsZeroCapability(h))
      && (f.notUwPartner ==> !h.uwPartner)
      && (f.noCert ==> !HasCertification(h))
      && (f.cscDistance > 0 ==> FartherThan(rec.advanced.distance, f.cscDistance))
      && (f.evtDistance > 0 ==> FartherThan(rec.evt.distance, f.evtDistance))
      && (f.state == "ALL" || h.state == f.state)
  {
    if f.zeroCapability && (HasCertification(h) || h.uwPartner) then false
    else if f.notUwPartner && h.uwPartner then false
    else if f.noCert && HasCertification(h) then false
    else if f.cscDistance > 0 && !FartherThan(rec.advanced.distance, f.cscDistance) then false
    else if f.evtDistance > 0 && !FartherThan(rec.evt.distance, f.evtDistance) then false
    else if f.state != "ALL" && h.state != f.state then false
    else true
  }

  /** The cleared panel lets everything through. */
  lemma ClearedFiltersPassAll(h: Hospital, rec: DistanceRecord)
    ensures PassesAdvancedFilter(h, rec, ClearedFilters)
  {
  }

  /** With the zero-capability box checked only zero-capability hospitals
      pass; with that box alone, exactly those pass. */
  lemma ZeroCapabilityFilterExact(h: Hospital, rec: DistanceRecord, f: AdvancedFilters)
    ensures f.zeroCapability && PassesAdvancedFilter(h, rec, f) ==> IsZeroCapability(h)
    ensures PassesAdvancedFilter(h, rec, ClearedFilters.(zeroCapability := true)) <==> IsZeroCapability(h)
  {
  }

  /** A positive advanced-center slider lets through exactly the hospitals
      with a finite distance beyond it: the `=== 0` test is subsumed. */
  lemma CscDistanceFilterExact(h: Hospital, rec: DistanceRecord, limit: int)
    requires limit > 0
    ensures PassesAdvancedFilter(h, rec, ClearedFilters.(cscDistance := limit))
      <==> rec.advanced.distance.Fin? && rec.advanced.distance.value > limit as real
  {
  }

  // ---------------------------------------------------------------------
  // Quick filters

  /** The `switch` of `quickFilter`. Only `EVT_DESERT` reads the distance
      table. */
  function QuickFilter(hs: seq<Hospital>, table: map<string, DistanceRecord>, filterType: string): (r: seq<Hospital>)
    requires filterType == "EVT_DESERT" ==> AllIndexed(hs, table)
    ensures |r| <= |hs|
  {
    match filterType
    case "AK" => Select(hs, InState("AK"))
    case "ID" => Select(hs, InState("ID"))
    case "WA" => Select(hs, InState("WA"))
    case "NO_CERT" => Select(hs, Uncertified)
    case "UW_ONLY" => Select(hs, IsUwPartner)
    case "EVT_DESERT" => Select(hs, InEvtDesert(table))
    case "EXPANSION" => Select(hs, IsZeroCapability)
    case _ => hs
  }

  /** The quick filters select by the same predicates as the analyses: the
      EVT-desert filter is the desert analysis, the expansion filter is the
      zero-capability set, the partner and state filters keep exactly the
      partners and the state's hospitals, and an unknown name shows
      everything. */
  lemma QuickFilterAgrees(hs: seq<Hospital>, table: map<string, DistanceRecord>, other: string)
    requires AllIndexed(hs, table)
    requires other !in {"AK", "ID", "WA", "NO_CERT", "UW_ONLY", "EVT_DESERT", "EXPANSION"}
    ensures QuickFilter(hs, table, "EVT_DESERT") == EvtDesertHospitals(hs, table)
    ensures forall h :: h in QuickFilter(hs, table, "EXPANSION") <==> h in hs && IsZeroCapability(h)
    ensures forall h :: h in QuickFilter(hs, table, "NO_CERT") <==> h in hs && !HasCertification(h)
    ensures forall h :: h in QuickFilter(hs, table, "UW_ONLY") <==> h in hs && h.uwPartner
    ensures forall h :: h in QuickFilter(hs, table, "AK") <==> h in hs && h.state == "AK"
    ensures forall h :: h in QuickFilter(hs, table, "ID") <==> h in hs && h.state == "ID"
    ensures forall h :: h in QuickFilter(hs, table, "WA") <==> h in hs && h.state == "WA"
    ensures QuickFilter(hs, table, other) == hs
  {
  }

  // ---------------------------------------------------------------------
  // Transfer estimates

  const HarborviewName := "HARBORVIEW MEDICAL CENTER"

  /** `Array.prototype.find` by name: the first hospital so named. */
  function FindByName(hs: seq<Hospital>, name: string): (r: Option<Hospital>)
    ensures r.None? <==> forall h :: h in hs ==> h.name != name
    ensures r.Some? ==> r.value in hs && r.value.name == name
  {
    if hs == [] then None
    else if hs[0].name == name then Some(hs[0])
    else FindByName(hs[1..], name)
  }

  /** `find` returns the first match in list order. */
  lemma {:induction false} FindByNameFirst(hs: seq<Hospital>, name: string, k: int)
    requires 0 <= k < |hs| && hs[k].name == name
    requires forall j :: 0 <= j < k ==> hs[j].name != name
    ensures FindByName(hs, name) == Some(hs[k])
  {
    if k > 0 {
      FindByNameFirst(hs[1..], name, k - 1);
    }
  }

  /** The part of an estimate that is not float rounding or formatting:
      the reference center's label and the distance to it. */
  datatype TransferEstimate = TransferEstimate(nearestCenter: string, distance: real)

  /** `getTransferTimeEstimates`: no estimate without a Harborview record,
      none for Harborview itself (matched by id), otherwise the distance
      to the first record named Harborview. */
  function TransferTimeEstimates(hs: seq<Hospital>, h: Hospital, dist: (Hospital, Hospital) -> real): (r: Option<TransferEstimate>)
    ensures r.Some? ==> exists x :: x in hs && x.name == HarborviewName && x.cmsId != h.cmsId && r.value.distance == dist(h, x)
  {
    var harborview := FindByName(hs, HarborviewName);
    if harborview.None? then None
    else if h.cmsId == harborview.value.cmsId then None
    else Some(TransferEstimate("Harborview Medical Center", dist(h, harborview.value)))
  }

  /** The estimate is missing iff Harborview is absent from the data or the
      subject carries the id of the first record named Harborview; when
      present it is the distance to that record. */
  lemma TransferEstimateAvailability(hs: seq<Hospital>, h: Hospital, dist: (Hospital, Hospital) -> real, k: int)
    requires 0 <= k < |hs| && hs[k].name == HarborviewName
    requires forall j :: 0 <= j < k ==> hs[j].name != HarborviewName
    ensures TransferTimeEstimates(hs, h, dist).None? <==> h.cmsId == hs[k].cmsId
    ensures TransferTimeEstimates(hs, h, dist).Some? ==>
      TransferTimeEstimates(hs, h, dist).value.distance == dist(h, hs[k])
  {
    FindByNameFirst(hs, HarborviewName, k);
  }

  /** Without any Harborview record no hospital gets an estimate. */
  lemma NoHarborviewNoEstimates(hs: seq<Hospital>, h: Hospital, dist: (Hospital, Hospital) -> real)
    requires forall x :: x in hs ==> x.name != HarborviewName
    ensures TransferTimeEstimates(hs, h, dist) == None
  {
  }

  // ---------------------------------------------------------------------
  // Executive summary counts

  /** The counts of `generateExecutiveSummary` (percentages left out),
      with the three per-state triples of its "by state" section. */
  datatype SummaryCounts = SummaryCounts(
    total: nat, uwPartners: nat, certified: nat,
    csc: nat, tsc: nat, psc: nat, asr: nat,
    noCert: nat, notUw: nat, evtDeserts: nat, zeroCapability: nat,
    wa: StateCounts, id: StateCounts, ak: StateCounts)

  /** The hospitals of one state, the certified ones and the partners. */
  datatype StateCounts = StateCounts(hospitals: nat, certified: nat, partners: nat)

  /** `h.state === state` */
  function InState(state: string): Hospital -> bool
  {
    (h: Hospital) => h.state == state
  }

  function CertifiedIn(state: string): Hospital -> bool
  {
    (h: Hospital) => h.state == state && HasCertification(h)
  }

  function PartnersIn(state: string): Hospital -> bool
  {
    (h: Hospital) => h.state == state && h.uwPartner
  }

  function NonPartnersIn(state: string): Hospital -> bool
  {
    (h: Hospital) => h.state == state && !h.uwPartner
  }

  /** One state's triple: its certified hospitals and its partners are
      among its hospitals. */
  function StateSummary(hs: seq<Hospital>, state: string): (c: StateCounts)
    ensures c.certified <= c.hospitals && c.partners <= c.hospitals
  {
    CountMonotone(hs, CertifiedIn(state), InState(state));
    CountMonotone(hs, PartnersIn(state), InState(state));
    StateCounts(Count(hs, InState(state)), Count(hs, CertifiedIn(state)), Count(hs, PartnersIn(state)))
  }

  /** The per-hospital tests the summary counts by. */
  predicate IsUwPartner(h: Hospital) { h.uwPartner }
  predicate NotUwPartner(h: Hospital) { !h.uwPartner }
  predicate Uncertified(h: Hospital) { !HasCertification(h) }
  predicate IsCsc(h: Hospital) { h.strokeCertificationType == CSC }
  predicate IsTsc(h: Hospital) { h.strokeCertificationType == TSC }
  predicate IsPsc(h: Hospital) { h.strokeCertificationType == PSC }
  predicate IsAsr(h: Hospital) { h.strokeCertificationType == ASR }

  function Summarize(hs: seq<Hospital>, table: map<string, DistanceRecord>): (s: SummaryCounts)
    requires AllIndexed(hs, table)
    ensures s.uwPartners <= s.total && s.certified <= s.total && s.evtDeserts <= s.total
    ensures s.csc <= s.total && s.tsc <= s.total && s.psc <= s.total && s.asr <= s.total
    ensures s.wa.hospitals <= s.total && s.id.hospitals <= s.total && s.ak.hospitals <= s.total
  {
    SummaryCounts(
      |hs|,
      Count(hs, IsUwPartner),
      Count(hs, HasCertification),
      Count(hs, IsCsc),
      Count(hs, IsTsc),
      Count(hs, IsPsc),
      Count(hs, IsAsr),
      Count(hs, Uncertified),
      Count(hs, NotUwPartner),
      Count(hs, InEvtDesert(table)),
      Count(hs, IsZeroCapability),
      StateSummary(hs, "WA"), StateSummary(hs, "ID"), StateSummary(hs, "AK"))
  }

  /** The summary's counts are consistent with each other and with the
      quick filters: certified and uncertified, partners and non-partners
      each add up to the total; zero capability is within both gaps; the
      four tiers are among the certified; the EVT-desert and zero-capability
      counts are the sizes of the corresponding quick filters. */
  lemma SummaryConsistent(hs: seq<Hospital>, table: map<string, DistanceRecord>)
    requires AllIndexed(hs, table)
    ensures var s := Summarize(hs, table);
      && s.certified + s.noCert == s.total
      && s.uwPartners + s.notUw == s.total
      && s.zeroCapability <= s.noCert && s.zeroCapability <= s.notUw
      && s.csc + s.tsc + s.psc + s.asr <= s.certified
      && s.evtDeserts == |QuickFilter(hs, table, "EVT_DESERT")|
      && s.zeroCapability == |QuickFilter(hs, table, "EXPANSION")|
  {
    assert QuickFilter(hs, table, "EVT_DESERT") == Select(hs, InEvtDesert(table));
    assert QuickFilter(hs, table, "EXPANSION") == Select(hs, IsZeroCapability);
    SummaryGapsAddUp(hs);
    TiersAmongCertified(hs);
  }

  /** Certified and uncertified, partners and non-partners each add up to
      the total, and zero capability lies within both gaps. */
  lemma SummaryGapsAddUp(hs: seq<Hospital>)
    ensures Count(hs, HasCertification) + Count(hs, Uncertified) == |hs|
    ensures Count(hs, IsUwPartner) + Count(hs, NotUwPartner) == |hs|
    ensures Count(hs, IsZeroCapability) <= Count(hs, Uncertified)
    ensures Count(hs, IsZeroCapability) <= Count(hs, NotUwPartner)
  {
    CountComplement(hs, HasCertification, Uncertified);
    CountComplement(hs, IsUwPartner, NotUwPartner);
    CountMonotone(hs, IsZeroCapability, Uncertified);
    CountMonotone(hs, IsZeroCapability, NotUwPartner);
  }

  /** The four certification tiers are disjoint and all certified. */
  lemma TiersAmongCertified(hs: seq<Hospital>)
    ensures Count(hs, IsCsc)
      + Count(hs, IsTsc)
      + Count(hs, IsPsc)
      + Count(hs, IsAsr)
      <= Count(hs, HasCertification)
  {
    var upToTsc := (h: Hospital) => IsCsc(h) || IsTsc(h);
    var upToPsc := (h: Hospital) => upToTsc(h) || IsPsc(h);
    var upToAsr := (h: Hospital) => upToPsc(h) || IsAsr(h);
    CountDisjoint(hs, IsCsc, IsTsc, upToTsc);
    CountDisjoint(hs, upToTsc, IsPsc, upToPsc);
    CountDisjoint(hs, upToPsc, IsAsr, upToAsr);
    CountMonotone(hs, upToAsr, HasCertification);
  }

  /** The per-state counts: the three states together are within the total,
      each state's count is the size of its quick filter, a state's
      certified hospitals and partners are among all certified hospitals
      and all partners, and the "non-partner hospitals" figure of the
      recommendations (hospitals minus partners) counts the state's
      hospitals that are not partners. */
  lemma StateCountsConsistent(hs: seq<Hospital>, table: map<string, DistanceRecord>, state: string)
    requires AllIndexed(hs, table)
    ensures var s := Summarize(hs, table);
      && s.wa.hospitals + s.id.hospitals + s.ak.hospitals <= s.total
      && s.wa.hospitals == |QuickFilter(hs, table, "WA")|
      && s.id.hospitals == |QuickFilter(hs, table, "ID")|
      && s.ak.hospitals == |QuickFilter(hs, table, "AK")|
    ensures StateSummary(hs, state).certified <= Count(hs, HasCertification)
    ensures StateSummary(hs, state).partners <= Count(hs, IsUwPartner)
    ensures StateSummary(hs, state).hospitals - StateSummary(hs, state).partners == Count(hs, NonPartnersIn(state))
  {
    assert QuickFilter(hs, table, "WA") == Select(hs, InState("WA"));
    assert QuickFilter(hs, table, "ID") == Select(hs, InState("ID"));
    assert QuickFilter(hs, table, "AK") == Select(hs, InState("AK"));
    StatesDisjoint(hs);
    StateWithinTotals(hs, state);
  }

  /** Washington, Idaho and Alaska share no hospital. */
  lemma StatesDisjoint(hs: seq<Hospital>)
    ensures Count(hs, InState("WA")) + Count(hs, InState("ID")) + Count(hs, InState("AK")) <= |hs|
  {
    var waOrId := (h: Hospital) => h.state == "WA" || h.state == "ID";
    var any := (h: Hospital) => waOrId(h) || h.state == "AK";
    CountDisjoint(hs, InState("WA"), InState("ID"), waOrId);
    CountDisjoint(hs, waOrId, InState("AK"), any);
  }

  /** A state's certified hospitals and partners are among all of them, and
      its partners and non-partners make up its hospitals. */
  lemma StateWithinTotals(hs: seq<Hospital>, state: string)
    ensures Count(hs, CertifiedIn(state)) <= Count(hs, HasCertification)
    ensures Count(hs, PartnersIn(state)) <= Count(hs, IsUwPartner)
    ensures Count(hs, PartnersIn(state)) + Count(hs, NonPartnersIn(state)) == Count(hs, InState(state))
  {
    CountMonotone(hs, CertifiedIn(state), HasCertification);
    CountMonotone(hs, PartnersIn(state), IsUwPartner);
    CountDisjoint(hs, PartnersIn(state), NonPartnersIn(state), InState(state));
  }
}
