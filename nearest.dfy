/** The nearest-facility index: for every hospital of the working set, the
    nearest advanced center (CSC or TSC) and the nearest EVT center other
    than the hospital itself, found by a brute-force scan in list order.
    The great-circle distance is a parameter `dist`: every property proved
    here holds for any distance function. */
module NearestFacility {
  import opened HospitalData

  /** A distance in miles, or JavaScript's `Infinity`. */
  datatype Miles = Inf | Fin(value: real)

  /** `d > t` for a finite threshold `t`: `Infinity > t` always holds. */
  predicate Exceeds(d: Miles, t: real)
  {
    d.Inf? || d.value > t
  }

  /** `a < b` on distances: a finite distance is below `Infinity`. */
  predicate Shorter(a: real, b: Miles)
  {
    b.Inf? || a < b.value
  }

  /** The running minimum of one category: the center found so far, its
      distance and its name (`nearestAdvanced`, `nearestAdvancedDistance`,
      `nearestAdvancedName`, and the same three for EVT). */
  datatype Nearest = Nearest(center: Option<Hospital>, distance: Miles, name: string)

  /** The value every field starts with before the scan: `null`, `Infinity`, `''`. */
  const Unset := Nearest(None, Inf, "")

  /** One entry of `hospitalDistances`. */
  datatype DistanceRecord = DistanceRecord(advanced: Nearest, evt: Nearest)

  /** One step of the scan: skip a candidate with the subject's own id,
      otherwise keep the candidate only when it is strictly closer. */
  function Consider(h: Hospital, cur: Nearest, c: Hospital, dist: (Hospital, Hospital) -> real): Nearest
  {
    if c.cmsId == h.cmsId then cur
    else if Shorter(dist(h, c), cur.distance) then Nearest(Some(c), Fin(dist(h, c)), c.name)
    else cur
  }

  /** The running minimum after scanning the candidates `cs` in order. */
  function NearestOf(h: Hospital, cs: seq<Hospital>, dist: (Hospital, Hospital) -> real): (r: Nearest)
    ensures r.center.Some? ==> r.center.value in cs
    ensures r.distance.Fin? ==> r.center.Some?
    decreases |cs|
  {
    if cs == [] then Unset
    else Consider(h, NearestOf(h, cs[..|cs| - 1], dist), cs[|cs| - 1], dist)
  }

  /** A candidate the scan may select: any center with another id. */
  predicate Eligible(h: Hospital, c: Hospital)
  {
    c.cmsId != h.cmsId
  }

  /** The recorded center is one of the candidates, never has the subject's
      own id, and the distance and the name recorded are its own. Without a
      center, the distance is `Infinity` and the name is still `''`. */
  lemma {:induction false} NearestIsCandidate(h: Hospital, cs: seq<Hospital>, dist: (Hospital, Hospital) -> real)
    ensures var r := NearestOf(h, cs, dist);
      && (r.center.None? <==> r.distance.Inf?)
      && (r.center.None? ==> r.name == "")
      && (r.center.Some? ==>
            && r.center.value in cs
            && Eligible(h, r.center.value)
            && r.distance == Fin(dist(h, r.center.value))
            && r.name == r.center.value.name)
    decreases |cs|
  {
    if cs != [] {
      NearestIsCandidate(h, cs[..|cs| - 1], dist);
    }
  }

  /** The recorded distance is at most the distance to every candidate with
      another id. */
  lemma {:induction false} NearestIsMinimal(h: Hospital, cs: seq<Hospital>, dist: (Hospital, Hospital) -> real, c: Hospital)
    requires c in cs && Eligible(h, c)
    ensures var r := NearestOf(h, cs, dist);
      r.distance.Fin? && r.distance.value <= dist(h, c)
    decreases |cs|
  {
    var init := cs[..|cs| - 1];
    var last := cs[|cs| - 1];
    if c in init {
      NearestIsMinimal(h, init, dist, c);
    } else {
      assert c == last;
    }
  }

  /** The distance stays `Infinity` exactly when no candidate has another id:
      the category is empty, or the subject is its only member. */
  lemma {:induction false} NearestInfIff(h: Hospital, cs: seq<Hospital>, dist: (Hospital, Hospital) -> real)
    ensures NearestOf(h, cs, dist).distance == Inf <==> forall c :: c in cs ==> !Eligible(h, c)
    ensures NearestOf(h, cs, dist).distance == Inf ==> NearestOf(h, cs, dist) == Unset
    decreases |cs|
  {
    if cs != [] {
      var init := cs[..|cs| - 1];
      NearestInfIff(h, init, dist);
      if exists c :: c in cs && Eligible(h, c) {
        var c :| c in cs && Eligible(h, c);
        NearestIsMinimal(h, cs, dist, c);
      } else {
        assert forall c :: c in init ==> c in cs;
        assert cs[|cs| - 1] in cs;
      }
    }
  }

  /** Position `k` holds the first candidate, in scan order, at minimum
      distance among the candidates with another id. */
  ghost predicate IsFirstNearest(h: Hospital, cs: seq<Hospital>, dist: (Hospital, Hospital) -> real, k: int)
  {
    && 0 <= k < |cs|
    && Eligible(h, cs[k])
    && (forall j :: 0 <= j < |cs| && Eligible(h, cs[j]) ==> dist(h, cs[k]) <= dist(h, cs[j]))
    && (forall j :: 0 <= j < k && Eligible(h, cs[j]) ==> dist(h, cs[k]) < dist(h, cs[j]))
  }

  /** Extending the list by a candidate that is not strictly closer keeps
      the first nearest candidate where it was. */
  lemma FirstNearestKept(h: Hospital, cs: seq<Hospital>, dist: (Hospital, Hospital) -> real, k: int)
    requires |cs| > 0 && IsFirstNearest(h, cs[..|cs| - 1], dist, k)
    requires Eligible(h, cs[|cs| - 1]) ==> dist(h, cs[k]) <= dist(h, cs[|cs| - 1])
    ensures IsFirstNearest(h, cs, dist, k)
  {
    assert forall j :: 0 <= j < |cs| - 1 ==> cs[j] == cs[..|cs| - 1][j];
  }

  /** Extending the list by a candidate strictly closer than every earlier
      one makes the new candidate the first nearest. */
  lemma FirstNearestReplaced(h: Hospital, cs: seq<Hospital>, dist: (Hospital, Hospital) -> real)
    requires |cs| > 0 && Eligible(h, cs[|cs| - 1])
    requires forall j :: 0 <= j < |cs| - 1 && Eligible(h, cs[j]) ==> dist(h, cs[|cs| - 1]) < dist(h, cs[j])
    ensures IsFirstNearest(h, cs, dist, |cs| - 1)
  {
  }

  /** Because the comparison is strict, of several equally near candidates
      the earliest one in the list is kept: the scan records exactly the
      first nearest candidate. */
  lemma {:induction false} NearestIsFirstOfTies(h: Hospital, cs: seq<Hospital>, dist: (Hospital, Hospital) -> real)
    requires exists c :: c in cs && Eligible(h, c)
    ensures exists k :: (IsFirstNearest(h, cs, dist, k)
      && NearestOf(h, cs, dist) == Nearest(Some(cs[k]), Fin(dist(h, cs[k])), cs[k].name))
    decreases |cs|
  {
    var init := cs[..|cs| - 1];
    var last := cs[|cs| - 1];
    var prev := NearestOf(h, init, dist);
    assert NearestOf(h, cs, dist) == Consider(h, prev, last, dist);
    if exists c :: c in init && Eligible(h, c) {
      NearestIsFirstOfTies(h, init, dist);
      var k :| IsFirstNearest(h, init, dist, k)
        && prev == Nearest(Some(init[k]), Fin(dist(h, init[k])), init[k].name);
      assert init[k] == cs[k];
      if Eligible(h, last) && dist(h, last) < dist(h, init[k]) {
        forall j | 0 <= j < |cs| - 1 && Eligible(h, cs[j])
          ensures dist(h, last) < dist(h, cs[j])
        {
          assert cs[j] == init[j];
        }
        FirstNearestReplaced(h, cs, dist);
        assert IsFirstNearest(h, cs, dist, |cs| - 1);
      } else {
        FirstNearestKept(h, cs, dist, k);
        assert IsFirstNearest(h, cs, dist, k);
      }
    } else {
      NearestInfIff(h, init, dist);
      forall j | 0 <= j < |cs| - 1
        ensures !Eligible(h, cs[j])
      {
        assert cs[j] in init;
      }
      assert Eligible(h, last);
      FirstNearestReplaced(h, cs, dist);
      assert IsFirstNearest(h, cs, dist, |cs| - 1);
    }
  }

  /** The first nearest candidate is unique: the scan's choice is determined
      by the candidate list and the distances alone. */
  lemma FirstNearestUnique(h: Hospital, cs: seq<Hospital>, dist: (Hospital, Hospital) -> real, k1: int, k2: int)
    requires IsFirstNearest(h, cs, dist, k1) && IsFirstNearest(h, cs, dist, k2)
    ensures k1 == k2
  {
  }

  /** The inner `forEach` of `preCalculateDistances`: start from the
      initial record and overwrite it with every strictly closer candidate
      that is not the hospital itself. */
  method ScanNearest(h: Hospital, cs: seq<Hospital>, dist: (Hospital, Hospital) -> real) returns (best: Nearest)
    ensures best == NearestOf(h, cs, dist)
  {
    best := Unset;
    var i := 0;
    while i < |cs|
      invariant 0 <= i <= |cs|
      invariant best == NearestOf(h, cs[..i], dist)
    {
      var center := cs[i];
      assert cs[..i + 1][..i] == cs[..i];
      if center.cmsId != h.cmsId {
        var distance := dist(h, center);
        if Shorter(distance, best.distance) {
          best := Nearest(Some(center), Fin(distance), center.name);
        }
      }
      i := i + 1;
    }
    assert cs[..i] == cs;
  }

  /** The record one hospital receives. */
  function RecordFor(h: Hospital, advanced: seq<Hospital>, evt: seq<Hospital>, dist: (Hospital, Hospital) -> real): DistanceRecord
  {
    DistanceRecord(NearestOf(h, advanced, dist), NearestOf(h, evt, dist))
  }

  /** `hospitalDistances` after the outer loop over `hs`: one entry per id,
      a later hospital with the same id replacing an earlier one. */
  function BuildIndex(hs: seq<Hospital>, advanced: seq<Hospital>, evt: seq<Hospital>, dist: (Hospital, Hospital) -> real): (t: map<string, DistanceRecord>)
    ensures forall k :: k in t ==> exists h :: h in hs && h.cmsId == k && t[k] == RecordFor(h, advanced, evt, dist)
    decreases |hs|
  {
    if hs == [] then map[]
    else
      var h := hs[|hs| - 1];
      BuildIndex(hs[..|hs| - 1], advanced, evt, dist)[h.cmsId := RecordFor(h, advanced, evt, dist)]
  }

  /** The index has an entry for exactly the ids of the working set. */
  lemma {:induction false} BuildIndexKeys(hs: seq<Hospital>, advanced: seq<Hospital>, evt: seq<Hospital>, dist: (Hospital, Hospital) -> real)
    ensures BuildIndex(hs, advanced, evt, dist).Keys == set h | h in hs :: h.cmsId
    decreases |hs|
  {
    if hs != [] {
      var init := hs[..|hs| - 1];
      BuildIndexKeys(init, advanced, evt, dist);
      assert forall h :: h in hs <==> h in init || h == hs[|hs| - 1];
    }
  }

  /** The entry of a hospital that no later hospital shares an id with is
      that hospital's own record. */
  lemma {:induction false} BuildIndexEntry(hs: seq<Hospital>, advanced: seq<Hospital>, evt: seq<Hospital>, dist: (Hospital, Hospital) -> real, i: int)
    requires 0 <= i < |hs|
    requires forall j :: i < j < |hs| ==> hs[j].cmsId != hs[i].cmsId
    ensures hs[i].cmsId in BuildIndex(hs, advanced, evt, dist)
    ensures BuildIndex(hs, advanced, evt, dist)[hs[i].cmsId] == RecordFor(hs[i], advanced, evt, dist)
    decreases |hs|
  {
    if i < |hs| - 1 {
      BuildIndexEntry(hs[..|hs| - 1], advanced, evt, dist, i);
    }
  }

  /** The ids of `hs` are pairwise distinct. */
  predicate UniqueIds(hs: seq<Hospital>)
  {
    forall i, j :: 0 <= i < j < |hs| ==> hs[i].cmsId != hs[j].cmsId
  }

  /** With distinct ids, every hospital of the working set finds its own
      record under its id, and that record's advanced-center entry is
      never the hospital itself and is the nearest other advanced center. */
  lemma IndexedNearestAdvanced(hs: seq<Hospital>, dist: (Hospital, Hospital) -> real, i: int, c: Hospital)
    requires UniqueIds(hs) && 0 <= i < |hs|
    requires c in AdvancedCenters(hs) && c.cmsId != hs[i].cmsId
    ensures var t := BuildIndex(hs, AdvancedCenters(hs), EvtCenters(hs), dist);
      && hs[i].cmsId in t
      && t[hs[i].cmsId].advanced.center.Some?
      && t[hs[i].cmsId].advanced.center.value.cmsId != hs[i].cmsId
      && IsAdvancedCenter(t[hs[i].cmsId].advanced.center.value)
      && t[hs[i].cmsId].advanced.distance.Fin?
      && t[hs[i].cmsId].advanced.distance.value <= dist(hs[i], c)
  {
    var adv := AdvancedCenters(hs);
    BuildIndexEntry(hs, adv, EvtCenters(hs), dist, i);
    NearestIsMinimal(hs[i], adv, dist, c);
    NearestIsCandidate(hs[i], adv, dist);
  }

  /** A hospital that is the only advanced center of the data set has no
      nearest advanced center: its distance stays `Infinity`. */
  lemma OnlyAdvancedCenterIsInfinitelyFar(hs: seq<Hospital>, dist: (Hospital, Hospital) -> real, i: int)
    requires UniqueIds(hs) && 0 <= i < |hs|
    requires forall c :: c in hs && IsAdvancedCenter(c) ==> c == hs[i]
    ensures var t := BuildIndex(hs, AdvancedCenters(hs), EvtCenters(hs), dist);
      hs[i].cmsId in t && t[hs[i].cmsId].advanced == Unset
  {
    var adv := AdvancedCenters(hs);
    BuildIndexEntry(hs, adv, EvtCenters(hs), dist, i);
    NearestInfIff(hs[i], adv, dist);
  }
}
