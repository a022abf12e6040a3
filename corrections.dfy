/** The record patcher run once over the hospital data file: two guarded
    corrections applied in place to the list of records, the log of the
    corrections made, the grouping of names by CMS id and the duplicate
    ids that grouping reveals. Reading and writing the JSON file and the
    console report are not part of this model. */
module Corrections {
  import opened HospitalData

  /** One record of the data file as the patcher sees it: the two fields
      it tests and rewrites, the state it counts by, and every other
      attribute by key. `cmsId` is `None` when the key is missing or null. */
  datatype Record = Record(name: string, cmsId: Option<string>, state: string, fields: map<string, string>)

  /** The two shapes of correction loop: give the records with a name and
      an id a new id, or give the records with an id and a name a new name. */
  datatype Fix =
    | ReassignId(name: string, oldId: string, newId: string)
    | Rename(id: string, oldName: string, newName: string)

  /** Fix 1: MultiCare Allenmore Hospital carried Island Hospital's id. */
  const AllenmoreFix := ReassignId("MULTICARE ALLENMORE HOSPITAL", "500007", "500129")
  const AllenmoreMessage := "FIXED: MultiCare Allenmore Hospital CMS ID: 500007 → 500129 (was duplicate with Island Hospital)"

  /** Fix 2: St. Joseph Hospital in Bellingham gets its PeaceHealth name. */
  const StJosephFix := Rename("500030", "ST JOSEPH HOSPITAL", "PEACEHEALTH ST JOSEPH MEDICAL CENTER")
  const StJosephMessage := "FIXED: Renamed 'ST JOSEPH HOSPITAL' → 'PEACEHEALTH ST JOSEPH MEDICAL CENTER' (Bellingham)"

  /** The guard of a correction loop. */
  predicate Matches(fix: Fix, r: Record)
  {
    match fix
    case ReassignId(name, oldId, _) => r.name == name && r.cmsId == Some(oldId)
    case Rename(id, oldName, _) => r.cmsId == Some(id) && r.name == oldName
  }

  /** The assignment a correction loop makes to a matching record. */
  function Corrected(fix: Fix, r: Record): Record
  {
    match fix
    case ReassignId(_, _, newId) => r.(cmsId := Some(newId))
    case Rename(_, _, newName) => r.(name := newName)
  }

  /** The new value differs from the one the guard asks for. */
  predicate Effective(fix: Fix)
  {
    match fix
    case ReassignId(_, oldId, newId) => oldId != newId
    case Rename(_, oldName, newName) => oldName != newName
  }

  /** One record after a correction loop has visited it. */
  function Patch(fix: Fix, r: Record): Record
  {
    if Matches(fix, r) then Corrected(fix, r) else r
  }

  /** The list after a correction loop. */
  function PatchAll(fix: Fix, s: seq<Record>): (r: seq<Record>)
    ensures |r| == |s|
  {
    seq(|s|, i requires 0 <= i < |s| => Patch(fix, s[i]))
  }

  /** The number of records a correction's guard accepts. */
  function CountMatching(fix: Fix, s: seq<Record>): (n: nat)
    ensures n <= |s|
    decreases |s|
  {
    if s == [] then 0
    else CountMatching(fix, s[..|s| - 1]) + (if Matches(fix, s[|s| - 1]) then 1 else 0)
  }

  /** `n` copies of a log entry. */
  function Repeat(message: string, n: nat): (log: seq<string>)
    ensures |log| == n
    ensures forall m :: m in log ==> m == message
  {
    if n == 0 then [] else Repeat(message, n - 1) + [message]
  }

  /** The number of positions at which two lists of equal length differ. */
  function CountChanged(s: seq<Record>, t: seq<Record>): nat
    requires |s| == |t|
    decreases |s|
  {
    if s == [] then 0
    else CountChanged(s[..|s| - 1], t[..|t| - 1]) + (if s[|s| - 1] != t[|t| - 1] then 1 else 0)
  }

  /** The number of records in a state. */
  function CountInState(s: seq<Record>, state: string): nat
    decreases |s|
  {
    if s == [] then 0
    else CountInState(s[..|s| - 1], state) + (if s[|s| - 1].state == state then 1 else 0)
  }

  /** One correction loop: every record that passes the guard is rewritten
      in place and `message` is logged once for it; every other record is
      left as it was. */
  method ApplyFix(fix: Fix, message: string, hospitals: array<Record>, correctionsMade: seq<string>)
    returns (made: seq<string>)
    modifies hospitals
    ensures hospitals[..] == PatchAll(fix, old(hospitals[..]))
    ensures made == correctionsMade + Repeat(message, CountMatching(fix, old(hospitals[..])))
  {
    ghost var s := hospitals[..];
    made := correctionsMade;
    var i := 0;
    while i < hospitals.Length
      invariant 0 <= i <= hospitals.Length
      invariant forall m :: 0 <= m < i ==> hospitals[m] == Patch(fix, s[m])
      invariant forall m :: i <= m < hospitals.Length ==> hospitals[m] == s[m]
      invariant made == correctionsMade + Repeat(message, CountMatching(fix, s[..i]))
    {
      assert s[..i + 1][..i] == s[..i];
      RepeatOneMore(correctionsMade, message, CountMatching(fix, s[..i]));
      made := PatchAt(fix, message, hospitals, i, made);
      i := i + 1;
    }
    assert s[..i] == s;
    PatchedEverywhere(fix, hospitals[..], s);
  }

  /** A list that holds the patched record at every position is the
      patched list. */
  lemma PatchedEverywhere(fix: Fix, b: seq<Record>, s: seq<Record>)
    requires |b| == |s|
    requires forall m :: 0 <= m < |b| ==> b[m] == Patch(fix, s[m])
    ensures b == PatchAll(fix, s)
  {
  }

  /** One iteration of a correction loop: record `i` is patched, and the
      message is logged exactly when the guard accepts it. */
  method PatchAt(fix: Fix, message: string, hospitals: array<Record>, i: nat, log: seq<string>)
    returns (made: seq<string>)
    requires i < hospitals.Length
    modifies hospitals
    ensures hospitals[i] == Patch(fix, old(hospitals[i]))
    ensures forall m :: 0 <= m < hospitals.Length && m != i ==> hospitals[m] == old(hospitals[m])
    ensures made == if Matches(fix, old(hospitals[i])) then log + [message] else log
  {
    made := log;
    if Matches(fix, hospitals[i]) {
      hospitals[i] := Corrected(fix, hospitals[i]);
      made := made + [message];
    }
  }

  /** Logging one more entry extends the run of entries by one. */
  lemma RepeatOneMore(log: seq<string>, message: string, n: nat)
    ensures log + Repeat(message, n) + [message] == log + Repeat(message, n + 1)
  {
  }

  /** Both correction loops of the patcher, in order, sharing one log. */
  method RunCorrections(hospitals: array<Record>) returns (correctionsMade: seq<string>)
    modifies hospitals
    ensures hospitals[..] == PatchAll(StJosephFix, PatchAll(AllenmoreFix, old(hospitals[..])))
    ensures correctionsMade ==
      Repeat(AllenmoreMessage, CountMatching(AllenmoreFix, old(hospitals[..])))
      + Repeat(StJosephMessage, CountMatching(StJosephFix, PatchAll(AllenmoreFix, old(hospitals[..]))))
    ensures |correctionsMade| == CountChanged(old(hospitals[..]), hospitals[..])
  {
    correctionsMade := ApplyFix(AllenmoreFix, AllenmoreMessage, hospitals, []);
    correctionsMade := ApplyFix(StJosephFix, StJosephMessage, hospitals, correctionsMade);
    PatcherLogCountsChanged(old(hospitals[..]));
  }

  /** A correction touches only the field it assigns, and only on records
      its guard accepts: an id correction keeps the name, a renaming keeps
      the id, and the state and other attributes never change. When the
      new value differs from the guarded one, a record changes exactly
      when the guard accepts it. */
  lemma PatchChangesOnlyMatching(fix: Fix, r: Record)
    ensures Patch(fix, r).state == r.state && Patch(fix, r).fields == r.fields
    ensures fix.ReassignId? ==>
      Patch(fix, r).name == r.name
      && Patch(fix, r).cmsId == (if Matches(fix, r) then Some(fix.newId) else r.cmsId)
    ensures fix.Rename? ==>
      Patch(fix, r).cmsId == r.cmsId
      && Patch(fix, r).name == (if Matches(fix, r) then fix.newName else r.name)
    ensures Effective(fix) ==> (Patch(fix, r) != r <==> Matches(fix, r))
  {
  }

  /** Both corrections of the patcher assign a new value, and they act on
      records with different names, neither producing the other's name. */
  lemma PatcherFixes()
    ensures Effective(AllenmoreFix) && Effective(StJosephFix)
    ensures Independent(AllenmoreFix, StJosephFix)
  {
    assert AllenmoreFix.oldId[3] != AllenmoreFix.newId[3];
  }

  /** No record passes a correction's guard once that correction has run,
      so a second pass appends nothing to the log. */
  lemma {:induction false} NothingMatchesAfterFix(fix: Fix, s: seq<Record>)
    requires Effective(fix)
    ensures CountMatching(fix, PatchAll(fix, s)) == 0
    decreases |s|
  {
    if s != [] {
      var init := s[..|s| - 1];
      assert PatchAll(fix, s)[..|s| - 1] == PatchAll(fix, init);
      NothingMatchesAfterFix(fix, init);
    }
  }

  /** A correction that assigns a new value is idempotent. */
  lemma FixIdempotent(fix: Fix, s: seq<Record>)
    requires Effective(fix)
    ensures PatchAll(fix, PatchAll(fix, s)) == PatchAll(fix, s)
  {
    forall i | 0 <= i < |s|
      ensures PatchAll(fix, PatchAll(fix, s))[i] == PatchAll(fix, s)[i]
    {
      assert !Matches(fix, Patch(fix, s[i]));
    }
  }

  /** The log grows by one entry per record the correction changed, so the
      reported total equals the number of records changed. */
  lemma {:induction false} LogCountsChangedRecords(fix: Fix, s: seq<Record>)
    requires Effective(fix)
    ensures CountChanged(s, PatchAll(fix, s)) == CountMatching(fix, s)
    decreases |s|
  {
    if s != [] {
      var init := s[..|s| - 1];
      assert PatchAll(fix, s)[..|s| - 1] == PatchAll(fix, init);
      LogCountsChangedRecords(fix, init);
      PatchChangesOnlyMatching(fix, s[|s| - 1]);
    }
  }

  /** Under independent corrections that each assign a new value, a record
      is changed by the pair exactly when one of the two guards accepts it,
      and never both accept it. */
  lemma PairChangesOnce(f: Fix, g: Fix, r: Record)
    requires Effective(f) && Effective(g) && Independent(f, g)
    ensures (if Patch(g, Patch(f, r)) != r then 1 else 0)
      == (if Matches(f, r) then 1 else 0) + (if Matches(g, Patch(f, r)) then 1 else 0)
  {
    PatchChangesOnlyMatching(f, r);
    PatchChangesOnlyMatching(g, Patch(f, r));
  }

  /** Both loops share one log, so the total reported after the two
      corrections equals the number of records the pair changed. */
  lemma {:induction false} TwoFixesLogCountsChanged(f: Fix, g: Fix, s: seq<Record>)
    requires Effective(f) && Effective(g) && Independent(f, g)
    ensures CountChanged(s, PatchAll(g, PatchAll(f, s))) == CountMatching(f, s) + CountMatching(g, PatchAll(f, s))
    decreases |s|
  {
    if s != [] {
      var init := s[..|s| - 1];
      assert PatchAll(f, s)[..|s| - 1] == PatchAll(f, init);
      assert PatchAll(g, PatchAll(f, s))[..|s| - 1] == PatchAll(g, PatchAll(f, init));
      TwoFixesLogCountsChanged(f, g, init);
      PairChangesOnce(f, g, s[|s| - 1]);
    }
  }

  /** The total the patcher prints is the number of records its two loops
      changed. */
  lemma PatcherLogCountsChanged(s: seq<Record>)
    ensures CountChanged(s, PatchAll(StJosephFix, PatchAll(AllenmoreFix, s)))
      == CountMatching(AllenmoreFix, s) + CountMatching(StJosephFix, PatchAll(AllenmoreFix, s))
  {
    PatcherFixes();
    TwoFixesLogCountsChanged(AllenmoreFix, StJosephFix, s);
  }

  /** A correction never changes how many records lie in a state. */
  lemma {:induction false} FixKeepsStateCounts(fix: Fix, s: seq<Record>, state: string)
    ensures CountInState(PatchAll(fix, s), state) == CountInState(s, state)
    decreases |s|
  {
    if s != [] {
      var init := s[..|s| - 1];
      assert PatchAll(fix, s)[..|s| - 1] == PatchAll(fix, init);
      FixKeepsStateCounts(fix, init, state);
      PatchChangesOnlyMatching(fix, s[|s| - 1]);
    }
  }

  /** An id correction and a renaming that never touch the name the id
      correction looks for. */
  predicate Independent(f: Fix, g: Fix)
  {
    f.ReassignId? && g.Rename? && f.name != g.oldName && f.name != g.newName
  }

  /** Independent corrections give the same list in either order. */
  lemma FixesCommute(f: Fix, g: Fix, s: seq<Record>)
    requires Independent(f, g)
    ensures PatchAll(g, PatchAll(f, s)) == PatchAll(f, PatchAll(g, s))
  {
  }

  // ---------------------------------------------------------------------
  // Grouping names by CMS id

  /** `cms_id and cms_id != 'None'`: a present, non-empty id other than the
      string "None". */
  predicate Qualifies(id: Option<string>)
  {
    id.Some? && id.value != "" && id.value != "None"
  }

  /** The qualifying ids carried by some record. */
  ghost function QualifyingIds(s: seq<Record>): set<string>
  {
    set r | r in s && Qualifies(r.cmsId) :: r.cmsId.value
  }

  /** The names of the records carrying id `k`, in list order. */
  function NamesWithId(s: seq<Record>, k: string): seq<string>
    decreases |s|
  {
    if s == [] then []
    else NamesWithId(s[..|s| - 1], k) + (if s[|s| - 1].cmsId == Some(k) then [s[|s| - 1].name] else [])
  }

  /** The grouping the patcher builds: each qualifying id to its names. */
  ghost function Grouping(s: seq<Record>): map<string, seq<string>>
  {
    map k | k in QualifyingIds(s) :: NamesWithId(s, k)
  }

  /** The `cms_ids` loop: append each qualifying record's name to the list
      of its id, creating the list on the id's first occurrence. */
  method GroupNamesById(hospitals: seq<Record>) returns (cmsIds: map<string, seq<string>>)
    ensures cmsIds == Grouping(hospitals)
  {
    cmsIds := map[];
    var i := 0;
    while i < |hospitals|
      invariant 0 <= i <= |hospitals|
      invariant cmsIds == Grouping(hospitals[..i])
    {
      var h := hospitals[i];
      var cmsId := h.cmsId;
      if Qualifies(cmsId) {
        GroupingAdd(hospitals[..i], h);
        if cmsId.value in cmsIds {
          cmsIds := cmsIds[cmsId.value := cmsIds[cmsId.value] + [h.name]];
        } else {
          cmsIds := cmsIds[cmsId.value := [h.name]];
        }
      } else {
        GroupingSkip(hospitals[..i], h);
      }
      assert hospitals[..i + 1] == hospitals[..i] + [h];
      i := i + 1;
    }
    assert hospitals[..i] == hospitals;
  }

  /** Appending a record adds its name to the names of its id. */
  lemma NamesWithIdAppend(s: seq<Record>, h: Record, k: string)
    ensures NamesWithId(s + [h], k) == NamesWithId(s, k) + (if h.cmsId == Some(k) then [h.name] else [])
  {
    assert (s + [h])[..|s|] == s;
  }

  /** A record whose id does not qualify leaves the grouping unchanged. */
  lemma GroupingSkip(s: seq<Record>, h: Record)
    requires !Qualifies(h.cmsId)
    ensures Grouping(s + [h]) == Grouping(s)
  {
    QualifyingIdsAppend(s, h);
    forall k | k in QualifyingIds(s)
      ensures Grouping(s + [h])[k] == Grouping(s)[k]
    {
      NamesWithIdAppend(s, h, k);
    }
  }

  /** A record with a qualifying id appends its name to that id's list,
      creating the list when the id is new. */
  lemma GroupingAdd(s: seq<Record>, h: Record)
    requires Qualifies(h.cmsId)
    ensures Grouping(s + [h]) == Grouping(s)[h.cmsId.value :=
      if h.cmsId.value in Grouping(s) then Grouping(s)[h.cmsId.value] + [h.name] else [h.name]]
  {
    var id := h.cmsId.value;
    QualifyingIdsAppend(s, h);
    if id !in Grouping(s) {
      NoNamesWithoutId(s, id);
    }
    forall k | k in QualifyingIds(s + [h])
      ensures Grouping(s + [h])[k] == Grouping(s)[id :=
        if id in Grouping(s) then Grouping(s)[id] + [h.name] else [h.name]][k]
    {
      NamesWithIdAppend(s, h, k);
    }
  }

  /** Appending a record adds its id, when it qualifies, to the ids. */
  lemma QualifyingIdsAppend(s: seq<Record>, h: Record)
    ensures QualifyingIds(s + [h]) == QualifyingIds(s) + (if Qualifies(h.cmsId) then {h.cmsId.value} else {})
  {
    assert forall r :: r in s + [h] <==> r in s || r == h;
  }

  /** An id no record carries has no names. */
  lemma {:induction false} NoNamesWithoutId(s: seq<Record>, k: string)
    requires Qualifies(Some(k)) && k !in QualifyingIds(s)
    ensures NamesWithId(s, k) == []
    decreases |s|
  {
    if s != [] {
      var init := s[..|s| - 1];
      assert forall r :: r in init ==> r in s;
      assert QualifyingIds(init) <= QualifyingIds(s);
      NoNamesWithoutId(init, k);
      assert s[|s| - 1] in s;
    }
  }

  /** The `duplicates` comprehension: the ids listed with more than one name. */
  function Duplicates(cmsIds: map<string, seq<string>>): (dups: map<string, seq<string>>)
    ensures forall k :: k in dups <==> k in cmsIds && |cmsIds[k]| > 1
    ensures forall k :: k in dups ==> dups[k] == cmsIds[k]
  {
    map k | k in cmsIds && |cmsIds[k]| > 1 :: cmsIds[k]
  }

  /** Two records carry the same qualifying id. */
  ghost predicate SharedId(s: seq<Record>, k: string)
  {
    exists i, j :: 0 <= i < j < |s| && s[i].cmsId == Some(k) && s[j].cmsId == Some(k)
  }

  /** Some record carries id `k`. */
  predicate CarriesId(s: seq<Record>, k: string)
  {
    exists i :: 0 <= i < |s| && s[i].cmsId == Some(k)
  }

  /** A list carries an id when its front does or its last record does. */
  lemma CarriesIdSnoc(s: seq<Record>, k: string)
    requires s != []
    ensures CarriesId(s, k) <==> CarriesId(s[..|s| - 1], k) || s[|s| - 1].cmsId == Some(k)
  {
    var init := s[..|s| - 1];
    if CarriesId(s, k) && s[|s| - 1].cmsId != Some(k) {
      var i :| 0 <= i < |s| && s[i].cmsId == Some(k);
      assert init[i] == s[i];
    }
    if CarriesId(init, k) {
      var i :| 0 <= i < |init| && init[i].cmsId == Some(k);
      assert s[i] == init[i];
    }
  }

  /** Two records of a list share an id when two of its front do, or
      its last record carries an id its front carries. */
  lemma SharedIdSnoc(s: seq<Record>, k: string)
    requires s != []
    ensures SharedId(s, k) <==>
      SharedId(s[..|s| - 1], k) || (CarriesId(s[..|s| - 1], k) && s[|s| - 1].cmsId == Some(k))
  {
    if SharedId(s, k) {
      SharedIdFront(s, k);
    }
    if SharedId(s[..|s| - 1], k) || (CarriesId(s[..|s| - 1], k) && s[|s| - 1].cmsId == Some(k)) {
      SharedIdExtend(s, k);
    }
  }

  /** A pair sharing an id lies in the front, or ends at the last record. */
  lemma SharedIdFront(s: seq<Record>, k: string)
    requires s != [] && SharedId(s, k)
    ensures SharedId(s[..|s| - 1], k) || (CarriesId(s[..|s| - 1], k) && s[|s| - 1].cmsId == Some(k))
  {
    var init := s[..|s| - 1];
    var i, j :| 0 <= i < j < |s| && s[i].cmsId == Some(k) && s[j].cmsId == Some(k);
    assert init[i] == s[i];
    if j < |s| - 1 {
      assert init[j] == s[j];
    }
  }

  /** Appending a record keeps a shared id, and makes one of an id the
      front already carries. */
  lemma SharedIdExtend(s: seq<Record>, k: string)
    requires s != []
    requires SharedId(s[..|s| - 1], k) || (CarriesId(s[..|s| - 1], k) && s[|s| - 1].cmsId == Some(k))
    ensures SharedId(s, k)
  {
    var init := s[..|s| - 1];
    if SharedId(init, k) {
      var i, j :| 0 <= i < j < |init| && init[i].cmsId == Some(k) && init[j].cmsId == Some(k);
      assert s[i] == init[i] && s[j] == init[j];
    } else {
      var i :| 0 <= i < |init| && init[i].cmsId == Some(k);
      assert s[i] == init[i];
    }
  }

  /** An id lists some name exactly when a record carries it. */
  lemma {:induction false} SomeNamesIff(s: seq<Record>, k: string)
    ensures |NamesWithId(s, k)| > 0 <==> CarriesId(s, k)
    decreases |s|
  {
    if s != [] {
      SomeNamesIff(s[..|s| - 1], k);
      CarriesIdSnoc(s, k);
    }
  }

  /** An id lists more than one name exactly when two records carry it. */
  lemma {:induction false} ManyNamesIff(s: seq<Record>, k: string)
    ensures |NamesWithId(s, k)| > 1 <==> SharedId(s, k)
    decreases |s|
  {
    if s != [] {
      ManyNamesIff(s[..|s| - 1], k);
      SomeNamesIff(s[..|s| - 1], k);
      SharedIdSnoc(s, k);
    }
  }

  /** An id is reported as a duplicate exactly when two records carry it. */
  lemma DuplicateIff(s: seq<Record>, k: string)
    requires Qualifies(Some(k))
    ensures k in Duplicates(Grouping(s)) <==> SharedId(s, k)
  {
    ManyNamesIff(s, k);
    if SharedId(s, k) {
      var i, j :| 0 <= i < j < |s| && s[i].cmsId == Some(k) && s[j].cmsId == Some(k);
      assert s[i] in s;
      assert k in QualifyingIds(s);
    }
  }

  /** No duplicates are reported exactly when no two records share a
      qualifying id. */
  lemma NoDuplicatesIff(s: seq<Record>)
    ensures Duplicates(Grouping(s)) == map[] <==>
      forall k :: Qualifies(Some(k)) ==> !SharedId(s, k)
  {
    forall k | Qualifies(Some(k))
      ensures k in Duplicates(Grouping(s)) <==> SharedId(s, k)
    {
      DuplicateIff(s, k);
    }
    forall k | k in Duplicates(Grouping(s))
      ensures Qualifies(Some(k))
    {
      assert k in QualifyingIds(s);
    }
  }
}
