/** The dashboard's module-level state: the working set `HOSPITALS`, the
    two center lists and the `hospitalDistances` table, filled once after
    the data file is loaded. */
module Dashboard {
  import opened HospitalData
  import opened NearestFacility

  class Dashboard {
    var hospitals: seq<Hospital>
    var advancedCenters: seq<Hospital>
    var evtCenters: seq<Hospital>
    var hospitalDistances: map<string, DistanceRecord>

    /** The state before any data is loaded: every list and the table empty. */
    constructor ()
      ensures hospitals == [] && advancedCenters == [] && evtCenters == []
      ensures hospitalDistances == map[]
    {
      hospitals := [];
      advancedCenters := [];
      evtCenters := [];
      hospitalDistances := map[];
    }

    /** The data-loaded callback: keep the records with both coordinates and
        derive the advanced and EVT center lists from them. */
    method Load(data: seq<Hospital>)
      modifies this
      ensures hospitals == WorkingSet(data)
      ensures advancedCenters == AdvancedCenters(hospitals)
      ensures evtCenters == EvtCenters(hospitals)
      ensures hospitalDistances == old(hospitalDistances)
    {
      hospitals := WorkingSet(data);
      advancedCenters := AdvancedCenters(hospitals);
      evtCenters := EvtCenters(hospitals);
    }

    /** The body of the outer loop for one hospital: reset its entry, then
        store the nearest advanced center and the nearest EVT center in it.
        Only that entry changes. */
    method CalculateEntry(hospital: Hospital, dist: (Hospital, Hospital) -> real)
      modifies this
      ensures hospitalDistances == old(hospitalDistances)[hospital.cmsId := RecordFor(hospital, advancedCenters, evtCenters, dist)]
      ensures hospitals == old(hospitals)
      ensures advancedCenters == old(advancedCenters) && evtCenters == old(evtCenters)
    {
      var hospitalId := hospital.cmsId;
      ghost var before := hospitalDistances;
      hospitalDistances := hospitalDistances[hospitalId := DistanceRecord(Unset, Unset)];
      var advanced := ScanNearest(hospital, advancedCenters, dist);
      hospitalDistances := hospitalDistances[hospitalId := hospitalDistances[hospitalId].(advanced := advanced)];
      var evt := ScanNearest(hospital, evtCenters, dist);
      hospitalDistances := hospitalDistances[hospitalId := hospitalDistances[hospitalId].(evt := evt)];
      assert hospitalDistances == before[hospitalId := DistanceRecord(advanced, evt)];
    }

    /** `preCalculateDistances`: for each hospital in turn, reset its entry
        to the initial record, then scan the advanced centers and the EVT
        centers. Entries are added to whatever the table already held. */
    method PreCalculateDistances(dist: (Hospital, Hospital) -> real)
      modifies this
      ensures hospitalDistances == old(hospitalDistances) + BuildIndex(hospitals, advancedCenters, evtCenters, dist)
      ensures hospitals == old(hospitals)
      ensures advancedCenters == old(advancedCenters) && evtCenters == old(evtCenters)
      ensures forall h :: h in hospitals ==> h.cmsId in hospitalDistances
    {
      var i := 0;
      while i < |hospitals|
        invariant 0 <= i <= |hospitals|
        invariant hospitals == old(hospitals)
        invariant advancedCenters == old(advancedCenters) && evtCenters == old(evtCenters)
        invariant hospitalDistances == old(hospitalDistances) + BuildIndex(hospitals[..i], advancedCenters, evtCenters, dist)
      {
        var hospital := hospitals[i];
        ghost var record := RecordFor(hospital, advancedCenters, evtCenters, dist);
        CalculateEntry(hospital, dist);
        BuildIndexStep(hospitals, advancedCenters, evtCenters, dist, i);
        UpdateAfterUnion(old(hospitalDistances), BuildIndex(hospitals[..i], advancedCenters, evtCenters, dist), hospital.cmsId, record);
        i := i + 1;
      }
      assert hospitals[..i] == hospitals;
      BuildIndexKeys(hospitals, advancedCenters, evtCenters, dist);
    }
  }

  /** One more hospital scanned puts its record into the index. */
  lemma BuildIndexStep(hs: seq<Hospital>, advanced: seq<Hospital>, evt: seq<Hospital>, dist: (Hospital, Hospital) -> real, i: nat)
    requires i < |hs|
    ensures BuildIndex(hs[..i + 1], advanced, evt, dist)
      == BuildIndex(hs[..i], advanced, evt, dist)[hs[i].cmsId := RecordFor(hs[i], advanced, evt, dist)]
  {
    assert hs[..i + 1][..i] == hs[..i];
  }

  /** Updating a union updates its right operand. */
  lemma UpdateAfterUnion<K, V>(a: map<K, V>, b: map<K, V>, k: K, v: V)
    ensures (a + b)[k := v] == a + b[k := v]
  {
  }
}
