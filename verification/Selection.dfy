/** What it means to pick elements out of a list, independently of how it is done. */
module Selection {

  /** `r` consists of the elements of `all` at these places, in order. */
  ghost predicate AtPlaces<T>(all: seq<T>, places: seq<nat>, r: seq<T>) {
    && |places| == |r|
    && (forall k :: 0 <= k < |places| ==> places[k] < |all| && r[k] == all[places[k]])
    && (forall k, l :: 0 <= k < l < |places| ==> places[k] < places[l])
  }

  /** The places are those of the elements that are picked. */
  ghost predicate ArePicked<T>(all: seq<T>, picked: T -> bool, places: seq<nat>) {
    forall i :: 0 <= i < |all| ==> (picked(all[i]) <==> i in places)
  }

  /** `r` consists of exactly those elements of `all` that are picked, in order. */
  ghost predicate Selects<T>(all: seq<T>, picked: T -> bool, r: seq<T>) {
    exists places: seq<nat> :: AtPlaces(all, places, r) && ArePicked(all, picked, places)
  }

  lemma SelectsNothing<T>(picked: T -> bool)
    ensures Selects([], picked, [])
  {
    assert AtPlaces<T>([], [], []) && ArePicked<T>([], picked, []);
  }

  lemma SelectsNext<T>(all: seq<T>, picked: T -> bool, r: seq<T>, x: T)
    requires Selects(all, picked, r)
    ensures Selects(all + [x], picked, r + if picked(x) then [x] else [])
  {
    var places: seq<nat> :| AtPlaces(all, places, r) && ArePicked(all, picked, places);
    if picked(x) {
      PlacesNext(all, places, r, x);
      PickedNext(all, picked, places, r, x);
      assert Selects(all + [x], picked, r + [x]);
    } else {
      PlacesStay(all, places, r, x);
      PickedStay(all, picked, places, r, x);
      assert r + [] == r;
    }
  }

  lemma PlacesNext<T>(all: seq<T>, places: seq<nat>, r: seq<T>, x: T)
    requires AtPlaces(all, places, r)
    ensures AtPlaces(all + [x], places + [|all|], r + [x])
  {
  }

  lemma PlacesStay<T>(all: seq<T>, places: seq<nat>, r: seq<T>, x: T)
    requires AtPlaces(all, places, r)
    ensures AtPlaces(all + [x], places, r)
  {
  }

  lemma PickedNext<T>(all: seq<T>, picked: T -> bool, places: seq<nat>, r: seq<T>, x: T)
    requires ArePicked(all, picked, places) && picked(x)
    ensures ArePicked(all + [x], picked, places + [|all|])
  {
    forall i | 0 <= i < |all + [x]| ensures picked((all + [x])[i]) <==> i in places + [|all|] {
      if i < |all| {
        assert (all + [x])[i] == all[i];
      }
    }
  }

  lemma PickedStay<T>(all: seq<T>, picked: T -> bool, places: seq<nat>, r: seq<T>, x: T)
    requires AtPlaces(all, places, r) && ArePicked(all, picked, places) && !picked(x)
    ensures ArePicked(all + [x], picked, places)
  {
    assert |all| !in places;
    forall i | 0 <= i < |all + [x]| ensures picked((all + [x])[i]) <==> i in places {
      if i < |all| {
        assert (all + [x])[i] == all[i];
      }
    }
  }

  lemma SelectsBefore<T>(all: seq<T>, picked: T -> bool, r: seq<T>, x: T)
    requires Selects(all, picked, r)
    ensures Selects([x] + all, picked, (if picked(x) then [x] else []) + r)
  {
    var places: seq<nat> :| AtPlaces(all, places, r) && ArePicked(all, picked, places);
    var shifted := Shifted(places);
    if picked(x) {
      PlacesBefore(all, places, r, x);
      PickedBefore(all, picked, places, x);
      assert Selects([x] + all, picked, [x] + r);
    } else {
      PlacesBehind(all, places, r, x);
      PickedBehind(all, picked, places, x);
      assert [] + r == r;
    }
  }

  ghost function Shifted(places: seq<nat>): (r: seq<nat>)
    ensures |r| == |places| && forall k :: 0 <= k < |r| ==> r[k] == places[k] + 1
  {
    seq(|places|, k requires 0 <= k < |places| => places[k] + 1)
  }

  lemma InShifted(places: seq<nat>, i: nat)
    ensures i + 1 in Shifted(places) <==> i in places
    ensures 0 !in Shifted(places)
  {
    if i in places {
      var k :| 0 <= k < |places| && places[k] == i;
      assert Shifted(places)[k] == i + 1;
    }
  }

  lemma PlacesBehind<T>(all: seq<T>, places: seq<nat>, r: seq<T>, x: T)
    requires AtPlaces(all, places, r)
    ensures AtPlaces([x] + all, Shifted(places), r)
  {
  }

  lemma PlacesBefore<T>(all: seq<T>, places: seq<nat>, r: seq<T>, x: T)
    requires AtPlaces(all, places, r)
    ensures AtPlaces([x] + all, [0] + Shifted(places), [x] + r)
  {
  }

  lemma PickedBehind<T>(all: seq<T>, picked: T -> bool, places: seq<nat>, x: T)
    requires ArePicked(all, picked, places) && !picked(x)
    ensures ArePicked([x] + all, picked, Shifted(places))
  {
    forall i | 0 <= i < |[x] + all| ensures picked(([x] + all)[i]) <==> i in Shifted(places) {
      if i == 0 {
        InShifted(places, 0);
      } else {
        InShifted(places, i - 1);
        assert ([x] + all)[i] == all[i - 1];
      }
    }
  }

  lemma PickedBefore<T>(all: seq<T>, picked: T -> bool, places: seq<nat>, x: T)
    requires ArePicked(all, picked, places) && picked(x)
    ensures ArePicked([x] + all, picked, [0] + Shifted(places))
  {
    forall i | 0 <= i < |[x] + all| ensures picked(([x] + all)[i]) <==> i in [0] + Shifted(places) {
      if i > 0 {
        InShifted(places, i - 1);
        assert ([x] + all)[i] == all[i - 1];
      }
    }
  }
}
