/** Expansion-priority ranking: the additive score of every hospital of the
    working set, the list sorted by descending score, and its first N
    entries. The source calls `Array.prototype.sort`, which the language
    standard requires to be stable; the sort here is an in-place stable
    insertion sort, and any stable sort by score yields the same list. */
module Ranking {
  import opened HospitalData
  import opened NearestFacility
  import opened Classifiers

  /** One element of `scored`: the hospital, its score and the two cached
      distances. */
  datatype Scored = Scored(hospital: Hospital, score: int, distToAdvanced: Miles, distToEvt: Miles)

  /** Holds one of the two lowest certification tiers. */
  predicate HasPartialCapability(h: Hospital)
  {
    h.strokeCertificationType == ASR || h.strokeCertificationType == PSC
  }

  /** The expansion score: +3 without certification, +2 for a non-partner,
      +2 beyond 75 miles from an advanced center, +1 beyond 100 miles from
      EVT, -1 for ASR or PSC. */
  function ExpansionScore(h: Hospital, distToAdvanced: Miles, distToEvt: Miles): (score: int)
    ensures -1 <= score <= 8
    ensures HasCertification(h) ==> score <= 5
  {
    (if !HasCertification(h) then 3 else 0)
    + (if !h.uwPartner then 2 else 0)
    + (if Exceeds(distToAdvanced, 75.0) then 2 else 0)
    + (if Exceeds(distToEvt, 100.0) then 1 else 0)
    - (if HasPartialCapability(h) then 1 else 0)
  }

  /** The top score 8 is reached exactly by zero-capability hospitals more
      than 75 miles from an advanced center in an EVT desert; -1 exactly by
      ASR or PSC partners within both distances. */
  lemma ScoreExtremes(h: Hospital, distToAdvanced: Miles, distToEvt: Miles)
    ensures ExpansionScore(h, distToAdvanced, distToEvt) == 8
      <==> IsZeroCapability(h) && Exceeds(distToAdvanced, 75.0) && IsEvtDesert(distToEvt)
    ensures ExpansionScore(h, distToAdvanced, distToEvt) == -1
      <==> HasPartialCapability(h) && h.uwPartner && !Exceeds(distToAdvanced, 75.0) && !IsEvtDesert(distToEvt)
  {
  }

  /** Lying farther from centers never lowers the score. */
  lemma ScoreMonotoneInDistance(h: Hospital, a1: Miles, a2: Miles, e1: Miles, e2: Miles)
    requires Exceeds(a1, 75.0) ==> Exceeds(a2, 75.0)
    requires Exceeds(e1, 100.0) ==> Exceeds(e2, 100.0)
    ensures ExpansionScore(h, a1, e1) <= ExpansionScore(h, a2, e2)
  {
  }

  /** The callback of `rankExpansionCandidates`' `map`: the score built
      up by successive additions. */
  method ScoreCandidate(hospital: Hospital, rec: DistanceRecord) returns (item: Scored)
    ensures item == Scored(hospital, ExpansionScore(hospital, rec.advanced.distance, rec.evt.distance),
      rec.advanced.distance, rec.evt.distance)
  {
    var distToAdvanced := rec.advanced.distance;
    var distToEvt := rec.evt.distance;
    var score := 0;
    if !HasCertification(hospital) {
      score := score + 3;
    }
    if !hospital.uwPartner {
      score := score + 2;
    }
    if Exceeds(distToAdvanced, 75.0) {
      score := score + 2;
    }
    if Exceeds(distToEvt, 100.0) {
      score := score + 1;
    }
    if hospital.strokeCertificationType == ASR || hospital.strokeCertificationType == PSC {
      score := score - 1;
    }
    item := Scored(hospital, score, distToAdvanced, distToEvt);
  }

  /** The second copy of the callback, in `generateExecutiveSummary`,
      written with one-line conditionals: it computes the same score. */
  method SummaryScoreCandidate(hospital: Hospital, rec: DistanceRecord) returns (item: Scored)
    ensures item == Scored(hospital, ExpansionScore(hospital, rec.advanced.distance, rec.evt.distance),
      rec.advanced.distance, rec.evt.distance)
  {
    var distToAdvanced := rec.advanced.distance;
    var distToEvt := rec.evt.distance;
    var score := 0;
    if !HasCertification(hospital) { score := score + 3; }
    if !hospital.uwPartner { score := score + 2; }
    if Exceeds(distToAdvanced, 75.0) { score := score + 2; }
    if Exceeds(distToEvt, 100.0) { score := score + 1; }
    if hospital.strokeCertificationType == ASR || hospital.strokeCertificationType == PSC { score := score - 1; }
    item := Scored(hospital, score, distToAdvanced, distToEvt);
  }

  /** The scored list: one entry per hospital, in list order. */
  function ScoredList(hs: seq<Hospital>, table: map<string, DistanceRecord>): (r: seq<Scored>)
    requires AllIndexed(hs, table)
    ensures |r| == |hs|
    ensures forall i :: 0 <= i < |hs| ==>
      (r[i].hospital == hs[i]
       && r[i].score == ExpansionScore(hs[i], table[hs[i].cmsId].advanced.distance, table[hs[i].cmsId].evt.distance)
       && r[i].distToAdvanced == table[hs[i].cmsId].advanced.distance
       && r[i].distToEvt == table[hs[i].cmsId].evt.distance)
  {
    seq(|hs|, i requires 0 <= i < |hs| =>
      var rec := table[hs[i].cmsId];
      Scored(hs[i], ExpansionScore(hs[i], rec.advanced.distance, rec.evt.distance), rec.advanced.distance, rec.evt.distance))
  }

  // ---------------------------------------------------------------------
  // Stable sort by descending score

  /** Non-increasing scores. */
  predicate SortedDesc(s: seq<Scored>)
  {
    forall i, j :: 0 <= i < j < |s| ==> s[i].score >= s[j].score
  }

  /** The entries with score `k`, in order. */
  function WithScore(s: seq<Scored>, k: int): seq<Scored>
    decreases |s|
  {
    if s == [] then []
    else WithScore(s[..|s| - 1], k) + (if s[|s| - 1].score == k then [s[|s| - 1]] else [])
  }

  lemma {:induction false} WithScoreMember(s: seq<Scored>, k: int, y: Scored)
    ensures y in WithScore(s, k) <==> y in s && y.score == k
    decreases |s|
  {
    if s != [] {
      WithScoreMember(s[..|s| - 1], k, y);
      assert s == s[..|s| - 1] + [s[|s| - 1]];
    }
  }

  /** Stability: for every score, the entries carrying it appear in the
      same relative order in `r` as in `s`. */
  ghost predicate SameOrderWithinScores(s: seq<Scored>, r: seq<Scored>)
  {
    forall k :: WithScore(r, k) == WithScore(s, k)
  }

  /** Place `x` after every entry whose score is at least its own. */
  function InsertByScore(t: seq<Scored>, x: Scored): seq<Scored>
    decreases |t|
  {
    if t == [] then [x]
    else if t[0].score < x.score then [x] + t
    else [t[0]] + InsertByScore(t[1..], x)
  }

  /** Insertion sort of `s` in list order: the specification of the sort. */
  function StableSortDesc(s: seq<Scored>): seq<Scored>
    decreases |s|
  {
    if s == [] then [] else InsertByScore(StableSortDesc(s[..|s| - 1]), s[|s| - 1])
  }

  lemma {:induction false} InsertPermutes(t: seq<Scored>, x: Scored)
    ensures multiset(InsertByScore(t, x)) == multiset(t) + multiset{x}
    ensures |InsertByScore(t, x)| == |t| + 1
    decreases |t|
  {
    if t != [] && t[0].score >= x.score {
      InsertPermutes(t[1..], x);
      assert t == [t[0]] + t[1..];
    }
  }

  lemma {:induction false} InsertSorted(t: seq<Scored>, x: Scored)
    requires SortedDesc(t)
    ensures SortedDesc(InsertByScore(t, x))
    ensures forall y :: y in InsertByScore(t, x) <==> y in t || y == x
    decreases |t|
  {
    if t != [] && t[0].score >= x.score {
      var rest := InsertByScore(t[1..], x);
      InsertSorted(t[1..], x);
      assert forall y :: y in t <==> y == t[0] || y in t[1..];
      forall m | 0 <= m < |rest|
        ensures t[0].score >= rest[m].score
      {
        assert rest[m] in rest;
      }
      assert InsertByScore(t, x) == [t[0]] + rest;
    }
  }

  lemma {:induction false} WithScoreAppend(a: seq<Scored>, b: seq<Scored>, k: int)
    ensures WithScore(a + b, k) == WithScore(a, k) + WithScore(b, k)
    decreases |b|
  {
    if b == [] {
      assert a + b == a;
    } else {
      assert (a + b)[..|a + b| - 1] == a + b[..|b| - 1];
      WithScoreAppend(a, b[..|b| - 1], k);
    }
  }

  lemma WithScoreSingle(y: Scored, k: int)
    ensures WithScore([y], k) == if y.score == k then [y] else []
  {
    assert [y][..0] == [];
  }

  lemma {:induction false} InsertStable(t: seq<Scored>, x: Scored, k: int)
    requires SortedDesc(t)
    ensures WithScore(InsertByScore(t, x), k) == WithScore(t, k) + (if x.score == k then [x] else [])
    decreases |t|
  {
    if t == [] {
      WithScoreSingle(x, k);
    } else if t[0].score < x.score {
      InsertStableFront(t, x, k);
    } else {
      SortedTail(t);
      InsertStable(t[1..], x, k);
      InsertStableBehind(t, x, k);
    }
  }

  /** `x` goes in front of a sorted list whose head scores below it. */
  lemma InsertStableFront(t: seq<Scored>, x: Scored, k: int)
    requires SortedDesc(t) && t != [] && t[0].score < x.score
    ensures WithScore(InsertByScore(t, x), k) == WithScore(t, k) + (if x.score == k then [x] else [])
  {
    assert InsertByScore(t, x) == [x] + t;
    WithScoreSingle(x, k);
    WithScoreAppend([x], t, k);
    if x.score == k {
      NoneWithScore(t, k);
    }
  }

  /** `x` goes behind the head of the list: the head's entry comes first. */
  lemma InsertStableBehind(t: seq<Scored>, x: Scored, k: int)
    requires t != [] && t[0].score >= x.score
    requires WithScore(InsertByScore(t[1..], x), k) == WithScore(t[1..], k) + (if x.score == k then [x] else [])
    ensures WithScore(InsertByScore(t, x), k) == WithScore(t, k) + (if x.score == k then [x] else [])
  {
    var tail := t[1..];
    var rest := InsertByScore(tail, x);
    var xs := if x.score == k then [x] else [];
    assert InsertByScore(t, x) == [t[0]] + rest;
    assert [t[0]] + tail == t;
    WithScoreAppend([t[0]], rest, k);
    WithScoreAppend([t[0]], tail, k);
    var w0 := WithScore([t[0]], k);
    var wt := WithScore(tail, k);
    assert w0 + (wt + xs) == (w0 + wt) + xs;
  }

  lemma SortedTail(t: seq<Scored>)
    requires SortedDesc(t) && t != []
    ensures SortedDesc(t[1..])
  {
  }

  /** No entry of a sorted list headed by a score below `k` scores `k`. */
  lemma NoneWithScore(t: seq<Scored>, k: int)
    requires SortedDesc(t) && t != [] && t[0].score < k
    ensures WithScore(t, k) == []
  {
    forall y | y in t
      ensures y.score != k
    {
      var i :| 0 <= i < |t| && t[i] == y;
      assert i == 0 || t[0].score >= t[i].score;
    }
    WithScoreNone(t, k);
  }

  lemma {:induction false} WithScoreNone(s: seq<Scored>, k: int)
    requires forall y :: y in s ==> y.score != k
    ensures WithScore(s, k) == []
    decreases |s|
  {
    if s != [] {
      assert forall y :: y in s[..|s| - 1] ==> y in s;
      WithScoreNone(s[..|s| - 1], k);
      assert s[|s| - 1] in s;
    }
  }

  /** The specification sort returns a permutation of its input, sorted by
      descending score, with equal scores in input order. */
  lemma {:induction false} StableSortCorrect(s: seq<Scored>)
    ensures |StableSortDesc(s)| == |s|
    ensures multiset(StableSortDesc(s)) == multiset(s)
    ensures SortedDesc(StableSortDesc(s))
    ensures SameOrderWithinScores(s, StableSortDesc(s))
    decreases |s|
  {
    if s != [] {
      var init := s[..|s| - 1];
      var x := s[|s| - 1];
      StableSortCorrect(init);
      InsertPermutes(StableSortDesc(init), x);
      StableSortSorted(s);
      assert s == init + [x];
      forall k
        ensures WithScore(StableSortDesc(s), k) == WithScore(s, k)
      {
        InsertStable(StableSortDesc(init), x, k);
      }
    }
  }

  /** The specification sort returns a list with non-increasing scores.
      Kept apart from `StableSortCorrect`, which uses it, so that the loop
      of `SortByScore` can rely on sortedness alone and its proof stays
      small. */
  lemma {:induction false} StableSortSorted(s: seq<Scored>)
    ensures SortedDesc(StableSortDesc(s))
    decreases |s|
  {
    if s != [] {
      StableSortSorted(s[..|s| - 1]);
      InsertSorted(StableSortDesc(s[..|s| - 1]), s[|s| - 1]);
    }
  }

  /** Inserting into a sorted list at the position the in-place sort finds
      (after the last entry scoring at least `x`) is `InsertByScore`. */
  lemma {:induction false} InsertAt(t: seq<Scored>, x: Scored, j: int)
    requires SortedDesc(t) && 0 <= j <= |t|
    requires forall m :: j <= m < |t| ==> t[m].score < x.score
    requires j > 0 ==> t[j - 1].score >= x.score
    ensures InsertByScore(t, x) == t[..j] + [x] + t[j..]
    decreases |t|
  {
    if j > 0 {
      InsertAt(t[1..], x, j - 1);
      assert t[1..][..j - 1] == t[1..j];
      assert t[1..][j - 1..] == t[j..];
      assert t[..j] == [t[0]] + t[1..j];
    } else if t != [] {
      assert t[..0] == [];
    }
  }

  /** One pass of the insertion sort: shift the entries of the sorted
      prefix `a[..i]` that score below `a[i]` one place right and drop
      `a[i]` into the gap. */
  method InsertNext(a: array<Scored>, i: int)
    requires 0 <= i < a.Length && SortedDesc(a[..i])
    modifies a
    ensures a[..i + 1] == InsertByScore(old(a[..i]), old(a[i]))
    ensures a[i + 1..] == old(a[i + 1..])
  {
    ghost var t := a[..i];
    ghost var rest := a[i + 1..];
    var x := a[i];
    var j := ShiftBelow(a, i, x);
    a[j] := x;
    InsertAt(t, x, j);
    InsertedPrefix(a[..i + 1], t, x, j);
    SameSuffix(a[i + 1..], rest);
  }

  /** The shifting loop: move the entries just before position `i` that
      score below `x` one place right, from the back, and return the
      position of the gap. */
  method ShiftBelow(a: array<Scored>, i: int, x: Scored) returns (j: int)
    requires 0 <= i < a.Length
    modifies a
    ensures 0 <= j <= i
    ensures forall m :: 0 <= m < j ==> a[m] == old(a[m])
    ensures forall m :: j < m <= i ==> a[m] == old(a[m - 1])
    ensures forall m :: i < m < a.Length ==> a[m] == old(a[m])
    ensures forall m :: j <= m < i ==> old(a[m]).score < x.score
    ensures j > 0 ==> old(a[j - 1]).score >= x.score
  {
    j := i;
    while j > 0 && a[j - 1].score < x.score
      invariant 0 <= j <= i
      invariant forall m :: 0 <= m < j ==> a[m] == old(a[m])
      invariant forall m :: j < m <= i ==> a[m] == old(a[m - 1])
      invariant forall m :: i < m < a.Length ==> a[m] == old(a[m])
      invariant forall m :: j <= m < i ==> old(a[m]).score < x.score
    {
      a[j] := a[j - 1];
      j := j - 1;
    }
  }

  /** A list that agrees with `t` before `j`, holds `x` at `j` and agrees
      with `t` shifted by one after `j` is `t` with `x` inserted at `j`. */
  lemma InsertedPrefix(b: seq<Scored>, t: seq<Scored>, x: Scored, j: int)
    requires 0 <= j <= |t| && |b| == |t| + 1
    requires forall m :: 0 <= m < j ==> b[m] == t[m]
    requires b[j] == x
    requires forall m :: j < m < |b| ==> b[m] == t[m - 1]
    ensures b == t[..j] + [x] + t[j..]
  {
    var u := t[..j] + [x] + t[j..];
    forall m | 0 <= m < |b|
      ensures b[m] == u[m]
    {
      if m < j {
        assert u[m] == t[m];
      } else if m > j {
        assert u[m] == t[m - 1];
      }
    }
  }

  lemma SameSuffix(b: seq<Scored>, c: seq<Scored>)
    requires |b| == |c| && forall m :: 0 <= m < |b| ==> b[m] == c[m]
    ensures b == c
  {
  }

  /** `scored.sort((a, b) => b.score - a.score)`, in place and stable. */
  method SortByScore(a: array<Scored>)
    modifies a
    ensures a[..] == StableSortDesc(old(a[..]))
  {
    ghost var s := a[..];
    var i := 0;
    while i < a.Length
      invariant 0 <= i <= a.Length
      invariant a[..i] == StableSortDesc(s[..i])
      invariant a[i..] == s[i..]
    {
      StableSortSorted(s[..i]);
      assert a[i] == a[i..][0] == s[i];
      InsertNext(a, i);
      assert s[..i + 1][..i] == s[..i];
      assert a[i + 1..] == s[i + 1..];
      i := i + 1;
    }
    assert s[..a.Length] == s;
  }

  /** `slice(0, n)`. */
  function TopN(s: seq<Scored>, n: nat): (r: seq<Scored>)
    ensures |r| == if n < |s| then n else |s|
    ensures r == s[..|r|]
  {
    if n < |s| then s[..n] else s
  }

  /** Everything `rankExpansionCandidates` promises about its lists: the
      ranking is a permutation of the scored list, has non-increasing
      scores, keeps equal scores in working-set order, and the shown slice
      is its first min(n, count) entries. */
  lemma RankingCorrect(hs: seq<Hospital>, table: map<string, DistanceRecord>, n: nat)
    requires AllIndexed(hs, table)
    ensures var ranked := StableSortDesc(ScoredList(hs, table));
      && multiset(ranked) == multiset(ScoredList(hs, table))
      && SortedDesc(ranked)
      && SameOrderWithinScores(ScoredList(hs, table), ranked)
      && |TopN(ranked, n)| == (if n < |hs| then n else |hs|)
  {
    StableSortCorrect(ScoredList(hs, table));
  }

  /** Any other sort that is a permutation, sorted and stable returns the
      same list: the model's insertion sort stands for the engine's sort. */
  lemma {:induction false} StableSortUnique(s: seq<Scored>, r: seq<Scored>)
    requires SortedDesc(r) && SameOrderWithinScores(s, r)
    ensures r == StableSortDesc(s)
    decreases |s|
  {
    StableSortCorrect(s);
    SortedStableEqual(r, StableSortDesc(s));
  }

  /** Two sorted lists with the same entries per score are equal. */
  lemma {:induction false} SortedStableEqual(r1: seq<Scored>, r2: seq<Scored>)
    requires SortedDesc(r1) && SortedDesc(r2)
    requires SameOrderWithinScores(r2, r1)
    ensures r1 == r2
    decreases |r1|
  {
    NonEmptyFollows(r1, r2);
    NonEmptyFollows(r2, r1);
    if r1 != [] {
      LastIsMinimum(r1, r2, r1[|r1| - 1].score, r2[|r2| - 1].score);
      SameLastEntry(r1, r2);
      SortedPrefix(r1);
      SortedPrefix(r2);
      SortedStableEqual(r1[..|r1| - 1], r2[..|r2| - 1]);
      assert r1 == r1[..|r1| - 1] + [r1[|r1| - 1]];
      assert r2 == r2[..|r2| - 1] + [r2[|r2| - 1]];
    }
  }

  lemma SortedPrefix(r: seq<Scored>)
    requires SortedDesc(r) && r != []
    ensures SortedDesc(r[..|r| - 1])
  {
  }

  /** `WithScore` of a non-empty list, by its last entry. */
  lemma WithScoreLast(r: seq<Scored>, k: int)
    requires r != []
    ensures WithScore(r, k) == WithScore(r[..|r| - 1], k) + (if r[|r| - 1].score == k then [r[|r| - 1]] else [])
  {
  }

  /** Two non-empty lists with the same entries per score whose last
      entries score alike end in the same entry, and what precedes it has
      the same entries per score. */
  lemma SameLastEntry(r1: seq<Scored>, r2: seq<Scored>)
    requires r1 != [] && r2 != [] && r1[|r1| - 1].score == r2[|r2| - 1].score
    requires SameOrderWithinScores(r2, r1)
    ensures r1[|r1| - 1] == r2[|r2| - 1]
    ensures SameOrderWithinScores(r2[..|r2| - 1], r1[..|r1| - 1])
  {
    var k := r1[|r1| - 1].score;
    var i1 := r1[..|r1| - 1];
    var i2 := r2[..|r2| - 1];
    WithScoreLast(r1, k);
    WithScoreLast(r2, k);
    assert WithScore(r1, k) == WithScore(r2, k);
    SnocInjective(WithScore(i1, k), r1[|r1| - 1], WithScore(i2, k), r2[|r2| - 1]);
    forall m
      ensures WithScore(i1, m) == WithScore(i2, m)
    {
      WithScoreLast(r1, m);
      WithScoreLast(r2, m);
      assert WithScore(r1, m) == WithScore(r2, m);
      if m != k {
        assert WithScore(r1, m) == WithScore(i1, m) + [] == WithScore(i1, m);
        assert WithScore(r2, m) == WithScore(i2, m) + [] == WithScore(i2, m);
      } else {
        assert WithScore(i1, k) == WithScore(i2, k);
      }
    }
  }

  lemma SnocInjective<T>(a: seq<T>, x: T, b: seq<T>, y: T)
    requires a + [x] == b + [y]
    ensures a == b && x == y
  {
    assert (a + [x])[|a|] == x;
    assert a == (a + [x])[..|a|];
    assert b == (b + [y])[..|b|];
  }

  /** A list with an entry has, at that entry's score, an entry in the
      other list as well. */
  lemma NonEmptyFollows(r1: seq<Scored>, r2: seq<Scored>)
    requires SameOrderWithinScores(r2, r1)
    ensures r1 != [] ==> r2 != []
  {
    if r1 != [] {
      WithScoreMember(r1, r1[0].score, r1[0]);
      WithScoreMember(r2, r1[0].score, r1[0]);
    }
  }

  /** The last entries of two sorted lists with the same entries per score
      carry the same score: the minimum. */
  lemma LastIsMinimum(r1: seq<Scored>, r2: seq<Scored>, k1: int, k2: int)
    requires SortedDesc(r1) && SortedDesc(r2) && r1 != [] && r2 != []
    requires SameOrderWithinScores(r2, r1)
    requires k1 == r1[|r1| - 1].score && k2 == r2[|r2| - 1].score
    ensures k1 == k2
  {
    WithScoreMember(r1, k1, r1[|r1| - 1]);
    WithScoreMember(r2, k1, r1[|r1| - 1]);
    WithScoreMember(r2, k2, r2[|r2| - 1]);
    WithScoreMember(r1, k2, r2[|r2| - 1]);
    var i1 :| 0 <= i1 < |r1| && r1[i1] == r2[|r2| - 1];
    var i2 :| 0 <= i2 < |r2| && r2[i2] == r1[|r1| - 1];
    assert k2 >= k1;
    assert k1 >= k2;
  }

  /** `rankExpansionCandidates`: score every hospital, sort in place, and
      keep the whole ranking (it colours every marker) and its first 20. */
  method RankExpansionCandidates(hospitals: seq<Hospital>, hospitalDistances: map<string, DistanceRecord>)
    returns (ranked: seq<Scored>, top20: seq<Scored>)
    requires AllIndexed(hospitals, hospitalDistances)
    ensures ranked == StableSortDesc(ScoredList(hospitals, hospitalDistances))
    ensures top20 == TopN(ranked, 20)
  {
    var scored := new Scored[|hospitals|];
    var i := 0;
    while i < |hospitals|
      invariant 0 <= i <= |hospitals|
      invariant scored[..i] == ScoredList(hospitals, hospitalDistances)[..i]
    {
      scored[i] := ScoreCandidate(hospitals[i], hospitalDistances[hospitals[i].cmsId]);
      i := i + 1;
    }
    assert scored[..] == ScoredList(hospitals, hospitalDistances);
    SortByScore(scored);
    ranked := scored[..];
    top20 := if 20 < |ranked| then ranked[..20] else ranked;
  }

  /** The ranking part of `generateExecutiveSummary`, with its own copy of
      the score: the same ranking, cut at 10. */
  method SummaryTopCandidates(hospitals: seq<Hospital>, hospitalDistances: map<string, DistanceRecord>)
    returns (top10: seq<Scored>)
    requires AllIndexed(hospitals, hospitalDistances)
    ensures top10 == TopN(StableSortDesc(ScoredList(hospitals, hospitalDistances)), 10)
  {
    var scored := new Scored[|hospitals|];
    var i := 0;
    while i < |hospitals|
      invariant 0 <= i <= |hospitals|
      invariant scored[..i] == ScoredList(hospitals, hospitalDistances)[..i]
    {
      scored[i] := SummaryScoreCandidate(hospitals[i], hospitalDistances[hospitals[i].cmsId]);
      i := i + 1;
    }
    assert scored[..] == ScoredList(hospitals, hospitalDistances);
    SortByScore(scored);
    top10 := if 10 < scored.Length then scored[..10] else scored[..];
  }
}
