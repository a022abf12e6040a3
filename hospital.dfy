/** The hospital record of the dashboard, the JavaScript truthiness rules the
    dashboard applies to its fields, and the three hospital sets it derives
    once the data is loaded: the working set, the advanced centers and the
    EVT centers. */
module HospitalData {

  datatype Option<+T> = None | Some(value: T)

  /** A JSON attribute tested both with `=== true` and by truthiness
      (`hasELVO`): `True` and `False` are the JSON booleans, `Missing` an
      absent or null attribute, `Other` any other value with its truthiness. */
  datatype Flag = True | False | Missing | Other(truthy: bool)

  predicate IsTrue(f: Flag) { f == True }

  predicate Truthy(f: Flag)
  {
    match f
    case True => true
    case False => false
    case Missing => false
    case Other(t) => t
  }

  /** A coordinate is present and truthy: JavaScript treats a missing value
      and the number 0 alike as false. */
  predicate CoordinateTruthy(c: Option<real>)
  {
    c.Some? && c.value != 0.0
  }

  /** One record of the hospital data file. A missing or null string
      attribute is the empty string: both are falsy in JavaScript. */
  datatype Hospital = Hospital(
    cmsId: string,
    name: string,
    address: string,
    state: string,
    latitude: Option<real>,
    longitude: Option<real>,
    strokeCertificationType: string,
    hasElvo: Flag,
    uwPartner: bool)

  const CSC := "CSC"
  const TSC := "TSC"
  const PSC := "PSC"
  const ASR := "ASR"

  /** `!!h.strokeCertificationType`: the hospital holds some certification. */
  predicate HasCertification(h: Hospital)
  {
    h.strokeCertificationType != ""
  }

  predicate IsAdvancedCenter(h: Hospital)
  {
    h.strokeCertificationType == CSC || h.strokeCertificationType == TSC
  }

  predicate IsEvtCenter(h: Hospital)
  {
    IsTrue(h.hasElvo)
  }

  predicate HasCoordinates(h: Hospital)
  {
    CoordinateTruthy(h.latitude) && CoordinateTruthy(h.longitude)
  }

  /** `Array.prototype.filter`: the elements of `s` that satisfy `p`, in order. */
  function Select<T(!new)>(s: seq<T>, p: T -> bool): (r: seq<T>)
    ensures |r| <= |s|
    ensures forall x :: x in r <==> x in s && p(x)
  {
    if s == [] then []
    else Select(s[..|s| - 1], p) + (if p(s[|s| - 1]) then [s[|s| - 1]] else [])
  }

  /** `filter(p).length` */
  function Count<T(!new)>(s: seq<T>, p: T -> bool): (n: nat)
    ensures n <= |s|
  {
    |Select(s, p)|
  }

  /** Selecting by a predicate keeps exactly the positions that satisfy it:
      `Select(s, p)` is `s` with the rejected elements taken out, in order. */
  lemma {:induction false} SelectAppend<T(!new)>(s: seq<T>, t: seq<T>, p: T -> bool)
    ensures Select(s + t, p) == Select(s, p) + Select(t, p)
    decreases |t|
  {
    if t == [] {
      assert s + t == s;
    } else {
      var init, last := t[..|t| - 1], t[|t| - 1];
      var tail := if p(last) then [last] else [];
      assert (s + t)[..|s + t| - 1] == s + init;
      assert (s + t)[|s + t| - 1] == last;
      calc {
        Select(s + t, p);
        Select(s + init, p) + tail;
        { SelectAppend(s, init, p); }
        Select(s, p) + Select(init, p) + tail;
        Select(s, p) + (Select(init, p) + tail);
      }
    }
  }

  /** A one-element list is kept whole or emptied. */
  lemma SelectSingleton<T(!new)>(x: T, p: T -> bool)
    ensures Select([x], p) == if p(x) then [x] else []
  {
    assert [x][..0] == [];
  }

  /** Selecting twice by the same predicate changes nothing more. */
  lemma {:induction false} SelectIdempotent<T(!new)>(s: seq<T>, p: T -> bool)
    ensures Select(Select(s, p), p) == Select(s, p)
    decreases |s|
  {
    if s != [] {
      var last := s[|s| - 1];
      SelectIdempotent(s[..|s| - 1], p);
      SelectAppend(Select(s[..|s| - 1], p), if p(last) then [last] else [], p);
      if p(last) {
        assert Select([last], p) == Select([], p) + [last];
      }
    }
  }

  /** Predicates that agree on every element select the same elements. */
  lemma {:induction false} SelectSamePredicate<T(!new)>(s: seq<T>, p: T -> bool, q: T -> bool)
    requires forall x :: x in s ==> p(x) == q(x)
    ensures Select(s, p) == Select(s, q)
    decreases |s|
  {
    if s != [] {
      SelectSamePredicate(s[..|s| - 1], p, q);
    }
  }

  /** Every element satisfies exactly one of `p` and its negation. */
  lemma {:induction false} CountComplement<T(!new)>(s: seq<T>, p: T -> bool, q: T -> bool)
    requires forall x :: q(x) == !p(x)
    ensures Count(s, p) + Count(s, q) == |s|
    decreases |s|
  {
    if s != [] {
      CountComplement(s[..|s| - 1], p, q);
    }
  }

  /** A weaker predicate counts at least as many elements. */
  lemma {:induction false} CountMonotone<T(!new)>(s: seq<T>, p: T -> bool, q: T -> bool)
    requires forall x :: p(x) ==> q(x)
    ensures Count(s, p) <= Count(s, q)
    decreases |s|
  {
    if s != [] {
      CountMonotone(s[..|s| - 1], p, q);
    }
  }

  /** Two predicates that never hold together count, in sum, the elements
      that satisfy their disjunction `r`. */
  lemma {:induction false} CountDisjoint<T(!new)>(s: seq<T>, p: T -> bool, q: T -> bool, r: T -> bool)
    requires forall x :: !(p(x) && q(x))
    requires forall x :: r(x) == (p(x) || q(x))
    ensures Count(s, p) + Count(s, q) == Count(s, r)
    decreases |s|
  {
    if s != [] {
      CountDisjoint(s[..|s| - 1], p, q, r);
    }
  }

  /** `data.filter(h => h.latitude && h.longitude)`: the working set. */
  function WorkingSet(data: seq<Hospital>): (hs: seq<Hospital>)
    ensures forall h :: h in hs <==> h in data && HasCoordinates(h)
  {
    Select(data, HasCoordinates)
  }

  /** `HOSPITALS.filter(h => h.strokeCertificationType === 'CSC' || ... 'TSC')` */
  function AdvancedCenters(hs: seq<Hospital>): (cs: seq<Hospital>)
    ensures forall h :: h in cs <==> h in hs && IsAdvancedCenter(h)
  {
    Select(hs, IsAdvancedCenter)
  }

  /** `HOSPITALS.filter(h => h.hasELVO === true)` */
  function EvtCenters(hs: seq<Hospital>): (cs: seq<Hospital>)
    ensures forall h :: h in cs <==> h in hs && IsEvtCenter(h)
  {
    Select(hs, IsEvtCenter)
  }

  /** A record whose latitude or longitude is 0 is dropped from the working
      set just like one that has no coordinate at all. */
  lemma ZeroCoordinateDropped(data: seq<Hospital>, h: Hospital)
    requires h.latitude == Some(0.0) || h.longitude == Some(0.0)
    ensures h !in WorkingSet(data)
  {
  }

  /** Filtering the working set again by coordinates is a no-op: every
      hospital the rest of the dashboard sees has both coordinates. */
  lemma WorkingSetStable(data: seq<Hospital>)
    ensures WorkingSet(WorkingSet(data)) == WorkingSet(data)
  {
    SelectIdempotent(data, HasCoordinates);
  }

  /** An EVT flag that is truthy without being the boolean `true` (a string
      "true", the number 1) makes a hospital pass the EVT checkbox filter
      but does not make it an EVT center for the distance index. */
  lemma TruthyElvoIsNotEvtCenter(h: Hospital)
    requires h.hasElvo == Other(true)
    ensures Truthy(h.hasElvo) && !IsEvtCenter(h)
  {
  }
}
