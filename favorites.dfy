/**
 * The favourites slice of frontend/src/store/slices/favoritesSlice.ts: a list of
 * clinic ids that the reducers change in place. The pure functions say what each
 * reducer does to the list; the class holds the state and applies them.
 */
module Favorites {
  import opened Sequences

  /** `addToFavorites` on a list: append `id` only when it is absent. */
  function Added(clinics: seq<int>, id: int): (r: seq<int>)
    ensures id in r
    ensures forall x :: x in r <==> x in clinics || x == id
    ensures clinics <= r && |r| <= |clinics| + 1
    ensures id in clinics ==> r == clinics
  {
    if id in clinics then clinics else clinics + [id]
  }

  /** `clinics.filter(x => x !== id)`: every occurrence of `id` goes, the rest keep their order. */
  function Without(clinics: seq<int>, id: int): (r: seq<int>)
    ensures id !in r
    ensures forall x :: x != id ==> (x in r <==> x in clinics)
    ensures multiset(r) == multiset(clinics)[id := 0]
    ensures Subsequence(r, clinics)
    decreases |clinics|
  {
    if clinics == [] then []
    else
      var rest := Without(clinics[1..], id);
      assert clinics == [clinics[0]] + clinics[1..];
      if clinics[0] == id then rest
      else
        var r := [clinics[0]] + rest;
        assert r[1..] == rest;
        r
  }

  /** Adding an id that is already there changes nothing; so adding twice is adding once. */
  lemma AddIdempotent(clinics: seq<int>, id: int)
    ensures id in clinics ==> Added(clinics, id) == clinics
    ensures Added(Added(clinics, id), id) == Added(clinics, id)
  {
  }

  lemma {:induction false} AddKeepsNoDuplicates(clinics: seq<int>, id: int)
    requires NoDuplicates(clinics)
    ensures NoDuplicates(Added(clinics, id))
  {
    if id !in clinics {
      var r := clinics + [id];
      forall i, j | 0 <= i < j < |r| ensures r[i] != r[j] {
        if j == |clinics| {
          assert r[i] == clinics[i];
        }
      }
    }
  }

  lemma {:induction false} RemoveKeepsNoDuplicates(clinics: seq<int>, id: int)
    requires NoDuplicates(clinics)
    ensures NoDuplicates(Without(clinics, id))
    decreases |clinics|
  {
    if clinics != [] {
      RemoveKeepsNoDuplicates(clinics[1..], id);
      var rest := Without(clinics[1..], id);
      if clinics[0] != id {
        var r := [clinics[0]] + rest;
        assert clinics[0] !in clinics[1..];
        forall i, j | 0 <= i < j < |r| ensures r[i] != r[j] {
          if i == 0 {
            assert r[j] in rest;
          } else {
            assert r[i] == rest[i - 1] && r[j] == rest[j - 1];
          }
        }
      }
    }
  }

  /** Removing an id that is not in the list is a no-op. */
  lemma {:induction false} RemoveAbsent(clinics: seq<int>, id: int)
    requires id !in clinics
    ensures Without(clinics, id) == clinics
    decreases |clinics|
  {
    if clinics != [] {
      RemoveAbsent(clinics[1..], id);
      assert clinics == [clinics[0]] + clinics[1..];
    }
  }

  /** Removing distributes over appending. */
  lemma {:induction false} RemoveAppend(a: seq<int>, b: seq<int>, id: int)
    ensures Without(a + b, id) == Without(a, id) + Without(b, id)
    decreases |a|
  {
    if a == [] {
      assert a + b == b;
    } else {
      assert (a + b)[1..] == a[1..] + b;
      RemoveAppend(a[1..], b, id);
    }
  }

  /** Adding an absent id and then removing it restores the list. */
  lemma {:induction false} AddThenRemove(clinics: seq<int>, id: int)
    requires id !in clinics
    ensures Without(Added(clinics, id), id) == clinics
  {
    RemoveAppend(clinics, [id], id);
    RemoveAbsent(clinics, id);
    assert Without([id], id) == [];
  }

  /** The favourites state: `state.clinics`. */
  class FavoritesState {
    var clinics: seq<int>

    /** The invariant the reducers keep: no id is listed twice. */
    ghost predicate Valid()
      reads this
    {
      NoDuplicates(clinics)
    }

    /** `initialState`: no favourites. */
    constructor ()
      ensures clinics == [] && Valid()
    {
      clinics := [];
    }

    /** `addToFavorites`: `push` the id when `includes` says it is absent. */
    method AddToFavorites(id: int)
      modifies this
      ensures clinics == Added(old(clinics), id)
      ensures old(Valid()) ==> Valid()
    {
      if id !in clinics {
        if Valid() {
          AddKeepsNoDuplicates(clinics, id);
        }
        clinics := clinics + [id];
      }
    }

    /** `removeFromFavorites`: reassign the filtered list. */
    method RemoveFromFavorites(id: int)
      modifies this
      ensures clinics == Without(old(clinics), id)
      ensures old(Valid()) ==> Valid()
    {
      if Valid() {
        RemoveKeepsNoDuplicates(clinics, id);
      }
      clinics := Without(clinics, id);
    }

    /** `clearFavorites`: reassign the empty list. */
    method ClearFavorites()
      modifies this
      ensures clinics == [] && Valid()
    {
      clinics := [];
    }
  }
}
