/** The Go reconciler: the saved snapshot (VIN -> price and whether photos
    existed), the comparison of a freshly fetched inventory against it, the
    stand-in records for vehicles that vanished, and the rebuild of the
    snapshot from the reconciled records. */
module TeslaUtils {
  import opened Listing

  /** One car record: the listing fields plus the comparison fields that
      reconciliation fills in. */
  datatype Car = Car(
    details: Details,
    vin: string,
    price: real,
    photos: seq<string>,
    isNew: bool,
    priceChanged: bool,
    priceChange: real,
    photosAdded: bool,
    missing: bool)

  /** One entry of the persisted snapshot. */
  datatype SavedCar = SavedCar(vin: string, price: real, photos: bool)

  /** The snapshot, keyed by VIN. An absent or unreadable snapshot file leaves
      Go a nil map, which reads exactly like the empty map. */
  type Snapshot = map<string, SavedCar>

  /** A listing as the inventory decoder produces it: every comparison field
      still has its zero value. */
  predicate Unannotated(c: Car)
  {
    !c.isNew && !c.priceChanged && c.priceChange == 0.0 && !c.photosAdded && !c.missing
  }

  /** The summary of a car that goes into the snapshot. */
  function SaveData(c: Car): (s: SavedCar)
    ensures s.vin == c.vin && s.price == c.price
    ensures s.photos <==> |c.photos| > 0
  {
    SavedCar(c.vin, c.price, |c.photos| > 0)
  }

  /** The comparison applied to one listing of the inventory: a VIN that is not
      saved is new; a saved one is not new, records a price change with its
      signed delta, and records photos appearing where the snapshot had none.
      Fields the comparison does not set keep the value they had. */
  function Classify(c: Car, loaded: Snapshot): (r: Car)
    ensures r.details == c.details && r.vin == c.vin && r.price == c.price
    ensures r.photos == c.photos && r.missing == c.missing
    ensures r.isNew <==> c.vin !in loaded
    ensures c.vin !in loaded ==>
      r.priceChanged == c.priceChanged && r.priceChange == c.priceChange && r.photosAdded == c.photosAdded
    ensures c.vin in loaded ==>
      && (c.price != loaded[c.vin].price ==> r.priceChanged && r.priceChange == c.price - loaded[c.vin].price)
      && (c.price == loaded[c.vin].price ==> r.priceChanged == c.priceChanged && r.priceChange == c.priceChange)
      && (r.photosAdded <==> c.photosAdded || (|c.photos| > 0 && !loaded[c.vin].photos))
  {
    if c.vin in loaded then
      var saved := loaded[c.vin];
      var seen := c.(isNew := false);
      var priced := if c.price != saved.price
                    then seen.(priceChanged := true, priceChange := c.price - saved.price)
                    else seen;
      if |c.photos| > 0 && !saved.photos then priced.(photosAdded := true) else priced
    else
      c.(isNew := true)
  }

  /** The VINs of a sequence of records. */
  function VinsOf(cars: seq<Car>): set<string>
  {
    set i | 0 <= i < |cars| :: cars[i].vin
  }

  /** Saved VINs that match no VIN of the fetched inventory. */
  function Vanished(fetched: seq<Car>, loaded: Snapshot): set<string>
  {
    loaded.Keys - VinsOf(fetched)
  }

  /** The stand-in appended for a saved VIN that is no longer listed: that VIN,
      the saved price, "missing" set and every other field at its zero value. */
  function MissingCar(vin: string, saved: SavedCar): Car
  {
    Car(NoDetails, vin, saved.price, [], false, false, 0.0, false, true)
  }

  /** `tail` holds one stand-in per VIN of `vanished`, in some order, and no
      other record. */
  ghost predicate MissingTail(tail: seq<Car>, vanished: set<string>, loaded: Snapshot)
  {
    && (forall j :: 0 <= j < |tail| ==>
          tail[j].vin in vanished && tail[j].vin in loaded && tail[j] == MissingCar(tail[j].vin, loaded[tail[j].vin]))
    && (forall j, k :: 0 <= j < k < |tail| ==> tail[j].vin != tail[k].vin)
    && VinsOf(tail) == vanished
  }

  /** `result` is a reconciliation of `fetched` against `loaded`: the fetched
      records classified in place and in order, followed by one stand-in per
      vanished VIN (in the unspecified order of Go's map iteration). */
  ghost predicate Reconciled(fetched: seq<Car>, loaded: Snapshot, result: seq<Car>)
  {
    && |fetched| <= |result|
    && (forall i :: 0 <= i < |fetched| ==> result[i] == Classify(fetched[i], loaded))
    && MissingTail(result[|fetched|..], Vanished(fetched, loaded), loaded)
  }

  /** `LoadSavedCars`: classifies every listing of `inventory` in place, then
      appends a stand-in for every saved VIN that no record matches. The
      search for a VIN runs over the records gathered so far, stand-ins
      included, as the source does. */
  method LoadSavedCars(inventory: array<Car>, loaded: Snapshot) returns (result: seq<Car>)
    modifies inventory
    ensures forall i :: 0 <= i < inventory.Length ==> inventory[i] == Classify(old(inventory[i]), loaded)
    ensures Reconciled(old(inventory[..]), loaded, result)
    ensures |result| >= inventory.Length && result[..inventory.Length] == inventory[..]
  {
    CompareWithSaved(inventory, loaded);
    ghost var fetched := old(inventory[..]);
    var n := inventory.Length;
    result := inventory[..];
    ghost var annotated := result;
    var todo := loaded.Keys;
    while todo != {}
      invariant todo <= loaded.Keys
      invariant n <= |result| && result[..n] == annotated
      invariant MissingTail(result[n..], Vanished(fetched, loaded) - todo, loaded)
      decreases todo
      modifies {}
    {
      var vin :| vin in todo;
      var found := false;
      var j := 0;
      while j < |result|
        invariant 0 <= j <= |result|
        invariant forall k :: 0 <= k < j ==> result[k].vin != vin
      {
        if result[j].vin == vin {
          found := true;
          break;
        }
        j := j + 1;
      }
      assert forall k :: 0 <= k < n ==> result[k].vin == annotated[k].vin == fetched[k].vin;
      MissingStep(fetched, loaded, result, n, vin, todo, found);
      if !found {
        result := result + [MissingCar(vin, loaded[vin])];
      }
      todo := todo - {vin};
    }
  }

  /** The first loop of `LoadSavedCars`: each listing is compared in place
      with its saved entry, field by field. */
  method CompareWithSaved(inventory: array<Car>, loaded: Snapshot)
    modifies inventory
    ensures forall i :: 0 <= i < inventory.Length ==> inventory[i] == Classify(old(inventory[i]), loaded)
  {
    for i := 0 to inventory.Length
      invariant forall k :: 0 <= k < i ==> inventory[k] == Classify(old(inventory[k]), loaded)
      invariant forall k :: i <= k < inventory.Length ==> inventory[k] == old(inventory[k])
    {
      var car := inventory[i];
      if car.vin in loaded {
        inventory[i] := inventory[i].(isNew := false);
        if car.price != loaded[car.vin].price {
          inventory[i] := inventory[i].(priceChanged := true, priceChange := car.price - loaded[car.vin].price);
        }
        if |car.photos| > 0 && !loaded[car.vin].photos {
          inventory[i] := inventory[i].(photosAdded := true);
        }
      } else {
        inventory[i] := inventory[i].(isNew := true);
      }
    }
  }

  /** One visit of the missing-car search: a VIN still to visit is appended as
      a stand-in exactly when no record gathered so far carries it, and the
      stand-ins then cover one more vanished VIN (or none more, if it was found
      among the listings). */
  lemma MissingStep(fetched: seq<Car>, loaded: Snapshot, result: seq<Car>, n: nat, vin: string, todo: set<string>, found: bool)
    requires n == |fetched| <= |result|
    requires forall k :: 0 <= k < n ==> result[k].vin == fetched[k].vin
    requires MissingTail(result[n..], Vanished(fetched, loaded) - todo, loaded)
    requires vin in todo && todo <= loaded.Keys
    requires found <==> exists k :: 0 <= k < |result| && result[k].vin == vin
    ensures var next := if found then result else result + [MissingCar(vin, loaded[vin])];
      && n <= |next| && next[..n] == result[..n]
      && MissingTail(next[n..], Vanished(fetched, loaded) - (todo - {vin}), loaded)
  {
    FoundIffListed(fetched, loaded, result, n, vin, todo);
    if !found {
      var next := result + [MissingCar(vin, loaded[vin])];
      assert next[n..] == result[n..] + [MissingCar(vin, loaded[vin])];
      VinsOfAppend(result[n..], MissingCar(vin, loaded[vin]));
    }
  }

  /** In the missing-car search: a VIN still to visit occurs among the records
      gathered so far exactly when it occurs among the fetched listings. */
  lemma FoundIffListed(fetched: seq<Car>, loaded: Snapshot, result: seq<Car>, n: nat, vin: string, todo: set<string>)
    requires n == |fetched| <= |result|
    requires forall k :: 0 <= k < n ==> result[k].vin == fetched[k].vin
    requires MissingTail(result[n..], Vanished(fetched, loaded) - todo, loaded)
    requires vin in todo && todo <= loaded.Keys
    ensures (exists k :: 0 <= k < |result| && result[k].vin == vin) <==> vin !in Vanished(fetched, loaded)
  {
    var tail := result[n..];
    if k :| 0 <= k < |result| && result[k].vin == vin {
      if k < n {
        assert vin in VinsOf(fetched);
      }
    }
    if vin !in Vanished(fetched, loaded) {
      var k :| 0 <= k < n && fetched[k].vin == vin;
      assert result[k].vin == vin;
    }
  }

  lemma VinsOfAppend(cars: seq<Car>, c: Car)
    ensures VinsOf(cars + [c]) == VinsOf(cars) + {c.vin}
  {
    var s := cars + [c];
    assert s[|cars|].vin == c.vin;
    forall v | v in VinsOf(cars) ensures v in VinsOf(s) {
      var i :| 0 <= i < |cars| && cars[i].vin == v;
      assert s[i].vin == v;
    }
  }

  /** The new snapshot built from `records`: every record that is not a
      stand-in, keyed by its VIN, later records overwriting earlier ones. */
  function SnapshotOf(records: seq<Car>): (m: Snapshot)
    ensures m.Keys == set i | 0 <= i < |records| && !records[i].missing :: records[i].vin
  {
    if records == [] then map[]
    else
      var prior := records[..|records| - 1];
      var last := records[|records| - 1];
      var m := SnapshotOf(prior);
      assert forall i :: 0 <= i < |prior| ==> prior[i] == records[i];
      if last.missing then m else m[last.vin := SaveData(last)]
  }

  /** `i` is the last record that is not a stand-in among those with VIN `v`. */
  ghost predicate LastSavedAt(records: seq<Car>, v: string, i: int)
  {
    && 0 <= i < |records| && records[i].vin == v && !records[i].missing
    && forall j :: i < j < |records| && records[j].vin == v ==> records[j].missing
  }

  /** `SaveCars`: fills a fresh map from every record that is not a stand-in. */
  method SaveCars(inventory: seq<Car>) returns (saved: Snapshot)
    ensures saved == SnapshotOf(inventory)
  {
    saved := map[];
    for i := 0 to |inventory|
      invariant saved == SnapshotOf(inventory[..i])
    {
      assert inventory[..i + 1][..i] == inventory[..i];
      var car := inventory[i];
      if car.missing {
        continue;
      }
      saved := saved[car.vin := SaveData(car)];
    }
    assert inventory[..|inventory|] == inventory;
  }
}
