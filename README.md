# Telestroke map: expansion-planning core

This project models the logic of the Pacific Northwest telestroke map that
decides where stroke care is missing, and it proves properties of that model.
It also models the one-off script that patches the hospital data file.

- **Working set and centers** (`hospital.dfy`). Only records with truthy
  coordinates are kept. The advanced centers are the CSC and TSC hospitals.
  The EVT centers are the hospitals whose `hasELVO` is the boolean `true`.
- **Nearest-facility index** (`nearest.dfy`, `dashboard.dfy`). For every
  hospital, `preCalculateDistances` scans the advanced centers and the EVT
  centers. It skips candidates with the hospital's own CMS id and keeps the
  strictly nearer one, starting from `Infinity`. The dashboard's
  module-level state is a class whose methods reassign its fields.
- **Classifiers and filters** (`classify.dfy`):
  - EVT desert and zero capability;
  - distance bands and their counts;
  - marker colour and size;
  - the checkbox and search filter, the advanced filter panel and the quick filters;
  - availability of the Harborview transfer estimate;
  - the counts of the executive summary, including its per-state
    counts (percentages and text are left out).
- **Expansion ranking** (`ranking.dfy`). The additive expansion score,
  built by the same successive additions as both copies in the source. The
  in-place stable sort by descending score, and the top-N slice.
- **Record patcher** (`corrections.dfy`). Two guarded in-place corrections
  over an array of records, with their log. The grouping of names by CMS id
  and the duplicate ids it reveals.

The haversine distance is a parameter `dist: (Hospital, Hospital) -> real`
of every operation that needs it. Every selection property holds for any
distance function. `Infinity` is the `Inf` case of `Miles`. A missing string
attribute is the empty string. Both are falsy, so this is exact wherever
the source tests a field's truthiness; for `cmsId` it is not (see
"## Left out").

## Model

| member | source | states |
|---|---|---|
| HospitalData.Select | complete_hospitals.js:19 | `filter`: an element is kept iff it is in the list and satisfies the predicate; never longer than the list |
| HospitalData.WorkingSet | complete_hospitals.js:19 | the working set holds exactly the records whose latitude and longitude are both present and non-zero |
| HospitalData.AdvancedCenters | complete_hospitals.js:25 | exactly the hospitals of type CSC or TSC |
| HospitalData.EvtCenters | complete_hospitals.js:26 | exactly the hospitals whose `hasELVO` is the boolean `true` |
| HospitalData.ZeroCoordinateDropped | complete_hospitals.js:19 | a record with latitude or longitude 0 is not in the working set |
| HospitalData.WorkingSetStable | complete_hospitals.js:19 | filtering the working set by coordinates again changes nothing |
| HospitalData.TruthyElvoIsNotEvtCenter | complete_hospitals.js:26 | a `hasELVO` that is truthy without being `true` does not make its hospital an EVT center |
| NearestFacility.NearestOf | complete_hospitals.js:393-404 | the running minimum of one scan: a recorded center is one of the candidates, and a finite distance always comes with a center |
| NearestFacility.NearestIsCandidate | complete_hospitals.js:381-418 | the recorded center is a candidate with another id, and the recorded distance and name are its own; without a center the distance is `Infinity` and the name `''` |
| NearestFacility.NearestIsMinimal | complete_hospitals.js:393-404 | the recorded distance is at most the distance to every candidate with another id |
| NearestFacility.NearestInfIff | complete_hospitals.js:381-418 | the distance stays `Infinity` iff no candidate has another id, and then the entry is the initial one |
| NearestFacility.NearestIsFirstOfTies | complete_hospitals.js:399-403 | with a strict `<`, the scan records the first candidate in list order at minimum distance |
| NearestFacility.FirstNearestUnique | complete_hospitals.js:399-403 | the first nearest candidate is unique, so the scan's choice is determined |
| NearestFacility.ScanNearest | complete_hospitals.js:393-404 | the imperative scan loop computes the specified running minimum |
| NearestFacility.BuildIndex | complete_hospitals.js:381-419 | the table after the outer loop: every entry is the nearest-center record of some hospital carrying that id |
| NearestFacility.BuildIndexKeys | complete_hospitals.js:381-390 | the table has an entry for exactly the ids of the working set |
| NearestFacility.BuildIndexEntry | complete_hospitals.js:381-390 | a hospital whose id no later hospital shares gets its own record; for duplicate ids the last one wins |
| NearestFacility.IndexedNearestAdvanced | complete_hospitals.js:378-422 | with distinct ids, a hospital's nearest advanced center is an advanced center other than itself and no farther than any other |
| NearestFacility.OnlyAdvancedCenterIsInfinitelyFar | complete_hospitals.js:378-422 | the only advanced center of the data set keeps `Infinity` and no center |
| Dashboard.Dashboard.constructor | complete_hospitals.js:19-26 | before loading, every list and the distance table are empty |
| Dashboard.Dashboard.Load | complete_hospitals.js:19-26 | loading sets the working set and derives both center lists from it |
| Dashboard.Dashboard.CalculateEntry | complete_hospitals.js:382-418 | one hospital's entry becomes its specified nearest-center record; no other entry and no list changes |
| Dashboard.Dashboard.PreCalculateDistances | complete_hospitals.js:378-422 | the table becomes the old table updated with one entry per working-set id, each the specified nearest-center record; every working-set hospital then has an entry; the lists are unchanged |
| Classifiers.EvtDesertBoundary | complete_hospitals.js:518-521 | a desert is strictly more than 100 miles: exactly 100 is not one, and `Infinity` is |
| Classifiers.CertifiedIsNeverZeroCapability | complete_hospitals.js:1021 | a certified hospital is never zero-capability, whether it is a partner or not |
| Classifiers.EvtDesertHospitals | complete_hospitals.js:513-521 | the desert list holds exactly the hospitals whose EVT distance exceeds 100 |
| Classifiers.AdvancedBand | complete_hospitals.js:444-452 | `Infinity` or 0 is the center band, under 50 green, 50 to 100 yellow, beyond 100 red, each as an iff |
| Classifiers.BandMonotone | complete_hospitals.js:444-452 | for positive distances the band never gets closer as the distance grows |
| Classifiers.BandStatsAsWritten | complete_hospitals.js:493-504 | the three counts as written; the `< 50` and 50–100 counts are disjoint, so together they stay within the list |
| Classifiers.BandStatsCountCenterAsFar | complete_hospitals.js:493-504 | a lone advanced center is in the center band, yet the `> 100` count includes it |
| Classifiers.BandStatsCorrection | complete_hospitals.js:493-504 | the 50–100 count matches the yellow band; the source's `> 100` count is the red-band count plus the hospitals at `Infinity` |
| Classifiers.MarkerColor | complete_hospitals.js:61-75 | the colour is one of the six palette entries, and blue iff a partner without a recognised certification |
| Classifiers.MarkerSize | complete_hospitals.js:77-91 | the size lies in 7..12, and is at least 9 iff the hospital has a recognised certification or is a partner |
| Classifiers.MarkerPrecedence | complete_hospitals.js:61-91 | a recognised certification decides colour and size; gray iff unrecognised and not a partner; size 7 iff gray; zero capability is gray |
| Classifiers.MarkerSizeFollowsColor | complete_hospitals.js:61-91 | size is a function of colour: 12, 11, 10, 9, 9, 7 |
| Classifiers.LowerIdempotent | complete_hospitals.js:109-119 | lower-casing twice equals lower-casing once |
| Classifiers.IncludesIff | complete_hospitals.js:120 | `includes` holds iff the term occurs at some position |
| Classifiers.PassesMarkerFilter | complete_hospitals.js:115-146 | a hospital is shown exactly when the search is empty or occurs in its lower-cased name or address, and either no box is checked or the test of some checked box (its tier, the partnership, a truthy EVT flag) holds |
| Classifiers.MarkerFilterUnion | complete_hospitals.js:129-145 | once a box is checked, a hospital is shown exactly when it is shown with one of the checked boxes alone |
| Classifiers.EvtCheckboxAdmitsNonCenter | complete_hospitals.js:143 | a hospital whose `hasELVO` is truthy without being `true` passes the EVT checkbox but is not an EVT center (those are the `=== true` hospitals) |
| Classifiers.MarkerFilterDefaultShowsAll | complete_hospitals.js:112-127 | with no box checked and no search term, every hospital is shown |
| Classifiers.MarkerFilterMonotone | complete_hospitals.js:112-146 | once a box is checked, checking more never hides a hospital; a search only narrows |
| Classifiers.MarkerFilterCscOnly | complete_hospitals.js:129-146 | with only the CSC box checked, exactly the CSCs are shown |
| Classifiers.PassesAdvancedFilter | complete_hospitals.js:858-901 | the chain of early returns passes a hospital iff it meets every active criterion: zero capability, not a partner, no certification, each slider, and the state |
| Classifiers.ClearedFiltersPassAll | complete_hospitals.js:858-901 | the panel as cleared by `clearAdvancedFilters` lets every hospital through |
| Classifiers.ZeroCapabilityFilterExact | complete_hospitals.js:862-867 | with the zero-capability box checked, only zero-capability hospitals pass; alone, exactly those pass |
| Classifiers.CscDistanceFilterExact | complete_hospitals.js:879-885 | a positive slider passes exactly the hospitals whose finite, non-zero advanced distance exceeds it |
| Classifiers.QuickFilter | complete_hospitals.js:1251-1278 | every quick filter returns at most the working set |
| Classifiers.QuickFilterAgrees | complete_hospitals.js:1251-1278 | EVT_DESERT is the desert analysis, EXPANSION is zero capability, NO_CERT is no certification, UW_ONLY is the partners, AK, ID and WA are exactly that state's hospitals, an unknown type is everything |
| Classifiers.FindByName | complete_hospitals.js:1095 | `find` returns nothing iff no record has the name, otherwise a record with it |
| Classifiers.FindByNameFirst | complete_hospitals.js:1095 | `find` returns the first record with the name |
| Classifiers.TransferTimeEstimates | complete_hospitals.js:1093-1105 | an estimate, when given, is the distance to a listed Harborview record that has another id |
| Classifiers.TransferEstimateAvailability | complete_hospitals.js:1093-1105 | given Harborview, the estimate is missing iff the subject has Harborview's id; otherwise it is the distance to Harborview |
| Classifiers.NoHarborviewNoEstimates | complete_hospitals.js:1097-1100 | without a Harborview record no hospital gets an estimate |
| Classifiers.Summarize | complete_hospitals.js:1419-1444 | every count of the summary, and each state's hospital count, is at most the total |
| Classifiers.StateSummary | complete_hospitals.js:1434-1444 | a state's certified hospitals and its partners are among its hospitals |
| Classifiers.SummaryConsistent | complete_hospitals.js:1419-1431 | certified plus uncertified and partners plus non-partners each make the total; zero capability lies within both gaps; the four tiers are among the certified; the desert and zero-capability counts equal the quick-filter sizes |
| Classifiers.SummaryGapsAddUp | complete_hospitals.js:1419-1431 | certified plus uncertified and partners plus non-partners each count the whole list; zero capability is within both gaps |
| Classifiers.TiersAmongCertified | complete_hospitals.js:1419-1431 | the CSC, TSC, PSC and ASR counts together are at most the certified count |
| Classifiers.StateCountsConsistent | complete_hospitals.js:1434-1444 | the three states together are within the total; each state's count is its quick filter's size; a state's certified and partner counts are within the overall ones; hospitals minus partners (line 1504) counts the state's non-partners |
| Classifiers.StatesDisjoint | complete_hospitals.js:1434-1444 | the Washington, Idaho and Alaska counts add up to at most the list's length |
| Classifiers.StateWithinTotals | complete_hospitals.js:1434-1444 | a state's certified and partner counts are within the overall ones, and its partners and non-partners make up its hospitals |
| Ranking.ExpansionScore | complete_hospitals.js:626-651 | the score lies in [-1, 8], and a certified hospital scores at most 5 |
| Ranking.ScoreExtremes | complete_hospitals.js:626-651 | 8 iff zero capability, beyond 75 miles and in an EVT desert; -1 iff an ASR/PSC partner within both distances |
| Ranking.ScoreMonotoneInDistance | complete_hospitals.js:637-646 | lying farther from centers never lowers the score |
| Ranking.ScoreCandidate | complete_hospitals.js:622-658 | the successive additions compute the expansion score and keep the two distances |
| Ranking.SummaryScoreCandidate | complete_hospitals.js:1448-1460 | the summary's copy of the formula computes the same score |
| Ranking.ScoredList | complete_hospitals.js:621-659 | one entry per hospital, in order, each with its score and its two indexed distances |
| Ranking.StableSortCorrect | complete_hospitals.js:662 | the sort is a permutation, has non-increasing scores, and keeps equal scores in input order |
| Ranking.StableSortUnique | complete_hospitals.js:662 | any sorted, stable result equals the model's sort, whatever stable algorithm the engine uses |
| Ranking.InsertNext | complete_hospitals.js:662 | one in-place pass inserts the next entry into the sorted prefix and leaves the rest alone |
| Ranking.ShiftBelow | complete_hospitals.js:662 | the shifting loop moves the entries scoring below the inserted one up by one slot, stops at an entry scoring at least as much, and leaves the rest of the array alone |
| Ranking.SortByScore | complete_hospitals.js:662 | the array ends up as the stable descending sort of its old contents |
| Ranking.TopN | complete_hospitals.js:665 | `slice(0, n)` has length min(n, count) and is a prefix |
| Ranking.RankingCorrect | complete_hospitals.js:617-665 | the ranking is a permutation of the scored list, sorted and stable; the slice has length min(n, count) |
| Ranking.RankExpansionCandidates | complete_hospitals.js:617-665 | the ranked list is the stable sort of the scored list, and the shown list is its first 20 |
| Ranking.SummaryTopCandidates | complete_hospitals.js:1447-1463 | the summary's top 10 is the first 10 of the same ranking |
| Corrections.PatchChangesOnlyMatching | fix_critical_errors.py:17-32 | a correction rewrites only the field it assigns, and only on records its guard accepts; state and other attributes never change; when the new value differs from the guarded one, a record changes iff its guard holds |
| Corrections.PatcherFixes | fix_critical_errors.py:17-32 | both corrections assign a value different from the one their guard tests, and the renaming never touches the name the id correction looks for |
| Corrections.PatchAt | fix_critical_errors.py:18-22 | one iteration rewrites its record iff the guard holds, logs the message iff so, and leaves every other record alone |
| Corrections.ApplyFix | fix_critical_errors.py:17-32 | a correction loop leaves every record patched in place and appends the message once per record its guard accepted |
| Corrections.RunCorrections | fix_critical_errors.py:14-32 | the list ends as the id correction followed by the renaming; the log holds one id message per match, then one rename message per match in the corrected list, and its length is the number of records changed |
| Corrections.NothingMatchesAfterFix | fix_critical_errors.py:17-32 | after a correction with a new value no record passes its guard, so a second pass logs nothing |
| Corrections.FixIdempotent | fix_critical_errors.py:17-32 | running a correction with a new value twice is running it once |
| Corrections.LogCountsChangedRecords | fix_critical_errors.py:14-22 | for one correction loop that assigns a new value, the records it changes are exactly the ones it logs |
| Corrections.PairChangesOnce | fix_critical_errors.py:14-32 | under the two independent corrections, a record is changed by the pair exactly when one guard accepts it, and never both do |
| Corrections.TwoFixesLogCountsChanged | fix_critical_errors.py:14-32 | for independent corrections that assign new values, the shared log of both loops has one entry per record the pair changed |
| Corrections.PatcherLogCountsChanged | fix_critical_errors.py:14-57 | the total the patcher prints equals the number of records its two loops changed |
| Corrections.FixKeepsStateCounts | fix_critical_errors.py:62-67 | a correction never changes how many records lie in a state |
| Corrections.FixesCommute | fix_critical_errors.py:17-32 | an id correction and a renaming that never touches the name it looks for give the same list in either order |
| Corrections.GroupNamesById | fix_critical_errors.py:35-42 | the map's keys are exactly the qualifying ids, each with the names carrying it, in list order |
| Corrections.Duplicates | fix_critical_errors.py:44-48 | an id is a duplicate iff its name list has more than one entry, and it keeps that whole name list |
| Corrections.SomeNamesIff | fix_critical_errors.py:35-42 | an id lists some name iff some record carries it |
| Corrections.ManyNamesIff | fix_critical_errors.py:35-44 | an id lists several names iff two records carry it |
| Corrections.DuplicateIff | fix_critical_errors.py:44 | a qualifying id is reported iff two records share it |
| Corrections.NoDuplicatesIff | fix_critical_errors.py:44-50 | no duplicates are reported iff no two records share a qualifying id |

## Left out

- The haversine body (complete_hospitals.js:366-375) uses trigonometry on floats. It is the parameter `dist`, and no property of it is assumed.
- Rounding and formatting are not modelled: `toFixed`, the transfer-time arithmetic (complete_hospitals.js:1113-1126) and the summary's percentages.
- `NaN` coordinates and distances are not modelled; coordinates are present or absent reals.
- `toLowerCase` is modelled on ASCII letters only.
- DOM access, Leaflet markers, pop-ups, alerts, CSV/PNG export, URL state and `console` output are not modelled. Controls appear as parameters: the checkboxes, the search term, the slider values already parsed to integers, and the state selector.
- `sortDistanceMatrix` (complete_hospitals.js:791-796) is a placeholder with no logic.
- The patcher's JSON reading and writing and its console report are not modelled. The log is the `corrections_made` list; the reported total is its length.
- A record without a `name` or without a `state` makes the Python script raise `KeyError` (fix_critical_errors.py:18, 27, 40, 62-67); every record here has both. A `cmsId` that is not a string is not modelled.
- A `cmsId` that is `null`, missing or `''` is the empty string in the dashboard model. The source compares ids with `===` (complete_hospitals.js:394, 408, 1103) and uses them as table keys (383), where those are three different values. So a hospital whose id is `null` and a center with no id are compared there, while the model skips the center as sharing the hospital's id. Records with distinct present ids behave the same in both.
- The two correction loops are one loop over a `Fix` value, run once per correction with its log message. The `print` after each correction is not modelled.
- The same Python dict appearing twice in the list (aliasing) is not modelled: each array slot is its own record.
- Python dict key order in the duplicate report is not modelled; `Duplicates` is a map.
- Ranking.SortByScore: the engine's sort algorithm is not modelled. Stability is required by the language standard since ECMAScript 2019. `StableSortUnique` shows every stable sort by score yields this same list.

## Findings

| source | as written | input that shows it | evidently intended | confidence | as-written member | corrected member |
|---|---|---|---|---|---|---|
| complete_hospitals.js:501-504 | the `> 100` count of the nearest-center view is `dist > 100` with no `Infinity` guard, so it counts hospitals with no other advanced center | a data set whose only hospital is a CSC: its marker and popup treat it as "a CSC/TSC facility" (lines 444-445 and 473-474), yet the `> 100 miles` count is 1 | the `> 100` count holds the red-band hospitals, as the marker colouring at lines 444-452 does | medium, not executed | Classifiers.BandStatsCountCenterAsFar | Classifiers.BandStatsCorrection |
