/**
 * `VetClinic.find_nearest` of backend/clinics/models.py: the active clinics paired
 * with their distance, stably sorted by distance and cut to `limit`. The haversine
 * distance is an opaque function of the clinic (the query point is fixed in it).
 */
module ClinicModels {
  import opened StableSort
  import opened Sequences

  /** The fields of the clinic model that `find_nearest` reads. */
  datatype VetClinic = VetClinic(name: string, isActive: bool)

  /** A clinic with its computed distance, the tuples `find_nearest` returns. */
  type Ranked = (VetClinic, real)

  const DefaultLimit: int := 10

  function ByDistance(): Ranked -> real
  {
    (p: Ranked) => p.1
  }

  /** `cls.objects.filter(is_active=True)`, keeping the queryset order. */
  function Active(clinics: seq<VetClinic>): (r: seq<VetClinic>)
    ensures Subsequence(r, clinics)
    ensures forall i :: 0 <= i < |r| ==> r[i].isActive
    ensures forall c :: c in clinics && c.isActive ==> c in r
    ensures forall c :: multiset(r)[c] == if c.isActive then multiset(clinics)[c] else 0
    decreases |clinics|
  {
    if clinics == [] then []
    else
      assert clinics == [clinics[0]] + clinics[1..];
      if clinics[0].isActive then [clinics[0]] + Active(clinics[1..])
      else Active(clinics[1..])
  }

  /** `[(clinic, clinic.calculate_distance(lat, lon)) for clinic in clinics]` over the active ones. */
  function Candidates(clinics: seq<VetClinic>, distance: VetClinic -> real): (r: seq<Ranked>)
    ensures |r| == |Active(clinics)|
    ensures forall i :: 0 <= i < |r| ==> r[i] == (Active(clinics)[i], distance(Active(clinics)[i]))
  {
    var active := Active(clinics);
    seq(|active|, i requires 0 <= i < |active| => (active[i], distance(active[i])))
  }

  /**
   * `sorted(distances, key=lambda x: x[1])[:limit]`: only active clinics, each with its
   * own distance, in ascending distance; no clinic left out is nearer than one
   * returned; `min(limit, active)` entries for a non-negative limit; and among equal
   * distances the entries are the first ones in queryset order.
   */
  function FindNearest(clinics: seq<VetClinic>, distance: VetClinic -> real, limit: int): (r: seq<Ranked>)
    ensures forall i :: 0 <= i < |r| ==> r[i].0 in clinics && r[i].0.isActive && r[i].1 == distance(r[i].0)
    ensures forall i, j :: 0 <= i < j < |r| ==> r[i].1 <= r[j].1
    ensures 0 <= limit ==> |r| == if limit < |Active(clinics)| then limit else |Active(clinics)|
    ensures multiset(r) <= multiset(Candidates(clinics, distance))
    ensures forall i, p :: 0 <= i < |r| && p in multiset(Candidates(clinics, distance)) - multiset(r) ==> r[i].1 <= p.1
    ensures forall k :: WithKey(r, ByDistance(), k) <= WithKey(Candidates(clinics, distance), ByDistance(), k)
  {
    var pairs := Candidates(clinics, distance);
    var sorted := SortByKey(pairs, ByDistance());
    var r := PyPrefix(sorted, limit);
    PrefixOfSorted(pairs, sorted, r);
    PrefixIsNearest(pairs, sorted, r);
    PrefixTies(pairs, sorted, r);
    CandidatesAreActive(clinics, distance);
    r
  }

  lemma CandidatesAreActive(clinics: seq<VetClinic>, distance: VetClinic -> real)
    ensures forall p :: p in Candidates(clinics, distance) ==> p.0 in clinics && p.0.isActive && p.1 == distance(p.0)
  {
    var active := Active(clinics);
    forall p | p in Candidates(clinics, distance) ensures p.0 in clinics {
      var i :| 0 <= i < |active| && Candidates(clinics, distance)[i] == p;
      SubsequenceMembers(active, clinics, active[i]);
    }
  }

  /** A prefix of the sorted candidates holds candidates only, in ascending distance. */
  lemma {:induction false} PrefixOfSorted(pairs: seq<Ranked>, sorted: seq<Ranked>, r: seq<Ranked>)
    requires sorted == SortByKey(pairs, ByDistance())
    requires r <= sorted
    ensures |sorted| == |pairs|
    ensures forall i :: 0 <= i < |r| ==> r[i] in pairs
    ensures forall i, j :: 0 <= i < j < |r| ==> r[i].1 <= r[j].1
    ensures multiset(r) <= multiset(pairs)
  {
    assert SortedBy(sorted, ByDistance()) && multiset(sorted) == multiset(pairs);
    PrefixOfPermutation(pairs, sorted, r);
    PrefixAscending(sorted, r);
  }

  /** A prefix of a rearrangement of `pairs` takes its entries from `pairs`. */
  lemma PrefixOfPermutation(pairs: seq<Ranked>, sorted: seq<Ranked>, r: seq<Ranked>)
    requires multiset(sorted) == multiset(pairs)
    requires r <= sorted
    ensures |sorted| == |pairs|
    ensures forall i :: 0 <= i < |r| ==> r[i] in pairs
    ensures multiset(r) <= multiset(pairs)
  {
    assert sorted == r + sorted[|r|..];
    assert |sorted| == |multiset(sorted)| == |multiset(pairs)| == |pairs|;
    assert multiset(sorted) == multiset(r) + multiset(sorted[|r|..]);
    forall i | 0 <= i < |r| ensures r[i] in pairs {
      assert r[i] in multiset(sorted);
    }
  }

  /** A prefix of a sequence sorted by distance is sorted by distance. */
  lemma PrefixAscending(sorted: seq<Ranked>, r: seq<Ranked>)
    requires SortedBy(sorted, ByDistance())
    requires r <= sorted
    ensures forall i, j :: 0 <= i < j < |r| ==> r[i].1 <= r[j].1
  {
    forall i, j | 0 <= i < j < |r| ensures r[i].1 <= r[j].1 {
      assert ByDistance()(sorted[i]) <= ByDistance()(sorted[j]);
    }
  }

  /** Whatever a prefix of the sorted candidates leaves out is at least as far. */
  lemma {:induction false} PrefixIsNearest(pairs: seq<Ranked>, sorted: seq<Ranked>, r: seq<Ranked>)
    requires sorted == SortByKey(pairs, ByDistance())
    requires r <= sorted
    ensures forall i, p :: 0 <= i < |r| && p in multiset(pairs) - multiset(r) ==> r[i].1 <= p.1
  {
    var rest := sorted[|r|..];
    assert sorted == r + rest;
    assert multiset(pairs) == multiset(r) + multiset(rest);
    forall i, p | 0 <= i < |r| && p in multiset(pairs) - multiset(r) ensures r[i].1 <= p.1 {
      assert p in multiset(rest);
      var j :| 0 <= j < |rest| && rest[j] == p;
      assert sorted[|r| + j] == p && sorted[i] == r[i];
      assert ByDistance()(sorted[i]) <= ByDistance()(sorted[|r| + j]);
    }
  }

  /** Among equal distances a prefix of the stable sort keeps the first in input order. */
  lemma {:induction false} PrefixTies(pairs: seq<Ranked>, sorted: seq<Ranked>, r: seq<Ranked>)
    requires sorted == SortByKey(pairs, ByDistance())
    requires r <= sorted
    ensures forall k :: WithKey(r, ByDistance(), k) <= WithKey(pairs, ByDistance(), k)
  {
    var rest := sorted[|r|..];
    assert sorted == r + rest;
    forall k ensures WithKey(r, ByDistance(), k) <= WithKey(pairs, ByDistance(), k) {
      WithKeyAppend(r, rest, ByDistance(), k);
    }
  }

  /** With the default limit at most ten clinics are returned. */
  lemma DefaultLimitAtMostTen(clinics: seq<VetClinic>, distance: VetClinic -> real)
    ensures |FindNearest(clinics, distance, DefaultLimit)| <= 10
  {
  }
}
