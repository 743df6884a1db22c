/**
 * The result ordering of frontend/src/components/clinics/ClinicList.tsx: a stable
 * sort of a copy of the clinics with a comparator chosen by `sortBy`. Sequences are
 * values, so the caller's list is untouched, as the spread copy guarantees there.
 */
module ClinicList {
  import opened StableSort

  /** The fields of a search result that the list uses (frontend/src/types/clinic.ts). */
  datatype Clinic = Clinic(id: string, name: string, address: string, rating: real,
                           reviewsCount: int, isOpen: bool, distance: real,
                           services: seq<string>)

  /** The criterion the list starts with: 1, by distance. */
  const DefaultSortBy: int := 1

  /** The comparator passed to `sort`: negative puts `a` first, 0 keeps the order. */
  function Compare(sortBy: int, a: Clinic, b: Clinic): (r: real)
    ensures sortBy == 1 ==> (r < 0.0 <==> a.distance < b.distance) && (r == 0.0 <==> a.distance == b.distance)
    ensures sortBy == 2 ==> (r < 0.0 <==> a.rating > b.rating) && (r == 0.0 <==> a.rating == b.rating)
    ensures sortBy == 3 ==> (r < 0.0 <==> a.reviewsCount > b.reviewsCount) &&
                            (r == 0.0 <==> a.reviewsCount == b.reviewsCount)
    ensures sortBy != 1 && sortBy != 2 && sortBy != 3 ==> r == 0.0
  {
    if sortBy == 1 then a.distance - b.distance
    else if sortBy == 2 then b.rating - a.rating
    else if sortBy == 3 then (b.reviewsCount - a.reviewsCount) as real
    else 0.0
  }

  /** A key whose difference is the comparator, so that sorting by it sorts by `Compare`. */
  function SortKey(sortBy: int, c: Clinic): real
  {
    if sortBy == 1 then c.distance
    else if sortBy == 2 then -c.rating
    else if sortBy == 3 then -(c.reviewsCount as real)
    else 0.0
  }

  function KeyOf(sortBy: int): Clinic -> real
  {
    c => SortKey(sortBy, c)
  }

  lemma CompareIsKeyDifference(sortBy: int, a: Clinic, b: Clinic)
    ensures Compare(sortBy, a, b) == SortKey(sortBy, a) - SortKey(sortBy, b)
  {
  }

  /**
   * `sortedClinics`: a permutation of the input; nearest first for 1, highest rating
   * first for 2, most reviews first for 3, the input order for any other value; and
   * clinics that tie on the chosen key keep their input order.
   */
  function SortedClinics(clinics: seq<Clinic>, sortBy: int): (r: seq<Clinic>)
    ensures |r| == |clinics| && multiset(r) == multiset(clinics)
    ensures sortBy == 1 ==> forall i, j :: 0 <= i < j < |r| ==> r[i].distance <= r[j].distance
    ensures sortBy == 2 ==> forall i, j :: 0 <= i < j < |r| ==> r[i].rating >= r[j].rating
    ensures sortBy == 3 ==> forall i, j :: 0 <= i < j < |r| ==> r[i].reviewsCount >= r[j].reviewsCount
    ensures sortBy != 1 && sortBy != 2 && sortBy != 3 ==> r == clinics
    ensures forall k :: WithKey(r, KeyOf(sortBy), k) == WithKey(clinics, KeyOf(sortBy), k)
  {
    var key := KeyOf(sortBy);
    var r := SortByKey(clinics, key);
    assert |r| == |multiset(r)| == |multiset(clinics)| == |clinics|;
    NeutralKeepsOrder(clinics, sortBy);
    r
  }

  /** Any other criterion makes every comparison 0, and the stable sort changes nothing. */
  lemma {:induction false} NeutralKeepsOrder(clinics: seq<Clinic>, sortBy: int)
    ensures sortBy != 1 && sortBy != 2 && sortBy != 3 ==> SortByKey(clinics, KeyOf(sortBy)) == clinics
  {
    if sortBy != 1 && sortBy != 2 && sortBy != 3 {
      SortSorted(clinics, KeyOf(sortBy));
    }
  }

  /** The list as first shown: by ascending distance. */
  function InitialOrder(clinics: seq<Clinic>): (r: seq<Clinic>)
    ensures multiset(r) == multiset(clinics)
    ensures forall i, j :: 0 <= i < j < |r| ==> r[i].distance <= r[j].distance
  {
    SortedClinics(clinics, DefaultSortBy)
  }

  function Sample(id: string, rating: real, reviewsCount: int, distance: real): Clinic
  {
    Clinic(id, "", "", rating, reviewsCount, true, distance, [])
  }

  /** By distance, 500 m and 100 m come out as the 100 m clinic first. */
  lemma {:induction false} NearerFirstExample()
    ensures var a, b := Sample("1", 0.0, 0, 500.0), Sample("2", 0.0, 0, 100.0);
      SortedClinics([a, b], 1) == [b, a]
  {
    var a, b := Sample("1", 0.0, 0, 500.0), Sample("2", 0.0, 0, 100.0);
    var r := SortedClinics([a, b], 1);
    assert a in multiset(r) && b in multiset(r);
  }

  /** By review count, two clinics with 10 reviews each stay in their input order. */
  lemma {:induction false} TiesKeepOrderExample()
    ensures var a, b := Sample("1", 0.0, 10, 0.0), Sample("2", 0.0, 10, 0.0);
      SortedClinics([a, b], 3) == [a, b]
  {
    var a, b := Sample("1", 0.0, 10, 0.0), Sample("2", 0.0, 10, 0.0);
    SortSorted([a, b], KeyOf(3));
  }
}
