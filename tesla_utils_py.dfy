/** The legacy Python reconciler: each vehicle of the response becomes a car
    compared against the loaded snapshot when it is built, the new and the
    changed cars are filtered out in order, and the snapshot is rewritten from
    the current fetch alone. There is no detection of vanished vehicles. */
module LegacyReconciler {
  import opened Listing
  import TeslaUtils

  datatype Option<T> = None | Some(value: T)

  /** One value of the saved snapshot: `{"vin", "price", "photos"}`. */
  datatype SaveEntry = SaveEntry(vin: string, price: real, photos: bool)

  type LoadedCars = map<string, SaveEntry>

  /** One vehicle of the inventory response. */
  datatype Vehicle = Vehicle(details: Details, vin: string, price: real, photoUrls: seq<string>)

  /** A built car: the listing, its photo list (`None` when there are none),
      what it would save, and its comparison against the loaded snapshot. */
  datatype PyCar = PyCar(
    details: Details,
    vin: string,
    price: real,
    photos: Option<seq<string>>,
    saveData: SaveEntry,
    isNew: bool,
    priceChanged: bool,
    priceChange: real,
    photosAdded: bool)

  /** The constructor of a car. The comparison fields start at their defaults
      (false, 0) and are set only for a VIN that is loaded. */
  function NewCar(data: Vehicle, loadedCars: LoadedCars): (car: PyCar)
    ensures car.vin == data.vin && car.price == data.price && car.details == data.details
    ensures car.photos == None <==> |data.photoUrls| == 0
    ensures car.photos.Some? ==> car.photos.value == data.photoUrls
    ensures car.saveData.vin == data.vin && car.saveData.price == data.price
    ensures car.saveData.photos <==> |data.photoUrls| > 0
    ensures car.isNew <==> data.vin !in loadedCars
    ensures car.priceChanged <==> data.vin in loadedCars && loadedCars[data.vin].price != data.price
    ensures car.priceChange == if car.priceChanged then data.price - loadedCars[data.vin].price else 0.0
    ensures car.photosAdded <==> data.vin in loadedCars && !loadedCars[data.vin].photos && |data.photoUrls| > 0
  {
    var photos := if |data.photoUrls| > 0 then Some(data.photoUrls) else None;
    var saveData := SaveEntry(data.vin, data.price, photos.Some?);
    var isNew := data.vin !in loadedCars;
    if data.vin in loadedCars then
      var saved := loadedCars[data.vin];
      var changed := saved.price != data.price;
      PyCar(data.details, data.vin, data.price, photos, saveData, isNew,
            changed, if changed then data.price - saved.price else 0.0,
            !saved.photos && photos.Some?)
    else
      PyCar(data.details, data.vin, data.price, photos, saveData, isNew, false, 0.0, false)
  }

  /** The inventory list: one car per vehicle of the response, in order. */
  function BuildInventory(results: seq<Vehicle>, loadedCars: LoadedCars): (cars: seq<PyCar>)
    ensures |cars| == |results|
    ensures forall i :: 0 <= i < |cars| ==> cars[i] == NewCar(results[i], loadedCars)
  {
    seq(|results|, i requires 0 <= i < |results| => NewCar(results[i], loadedCars))
  }

  predicate IsNewCar(c: PyCar) { c.isNew }

  predicate IsChangedCar(c: PyCar) { c.priceChanged || c.photosAdded }

  /** The elements of `s` that satisfy `p`, in their order in `s`. */
  function Filter<T(!new)>(p: T -> bool, s: seq<T>): (r: seq<T>)
    ensures |r| <= |s|
    ensures forall k :: 0 <= k < |r| ==> p(r[k])
  {
    if s == [] then []
    else
      var init, last := s[..|s| - 1], s[|s| - 1];
      assert s == init + [last];
      Filter(p, init) + (if p(last) then [last] else [])
  }

  /** Filter keeps exactly the elements of `s` that satisfy `p`. */
  lemma {:induction false} FilterMembers<T(!new)>(p: T -> bool, s: seq<T>)
    ensures forall x :: x in Filter(p, s) <==> x in s && p(x)
  {
    if s != [] {
      var init, last := s[..|s| - 1], s[|s| - 1];
      FilterMembers(p, init);
      assert s == init + [last];
    }
  }

  /** Filter keeps order: filtering a concatenation gives the filtered
      first part followed by the filtered second part. */
  lemma {:induction false} FilterKeepsOrder<T(!new)>(p: T -> bool, a: seq<T>, b: seq<T>)
    ensures Filter(p, a + b) == Filter(p, a) + Filter(p, b)
  {
    if b == [] {
      assert a + b == a;
    } else {
      var init, last := b[..|b| - 1], b[|b| - 1];
      FilterKeepsOrder(p, a, init);
      assert (a + b)[..|a + b| - 1] == a + init;
    }
  }

  /** `identify_new_and_changed`: one pass over the inventory appending to
      two lists. */
  method IdentifyNewAndChanged(inventory: seq<PyCar>) returns (newCars: seq<PyCar>, changedCars: seq<PyCar>)
    ensures newCars == Filter(IsNewCar, inventory)
    ensures changedCars == Filter(IsChangedCar, inventory)
  {
    newCars, changedCars := [], [];
    for i := 0 to |inventory|
      invariant newCars == Filter(IsNewCar, inventory[..i])
      invariant changedCars == Filter(IsChangedCar, inventory[..i])
    {
      assert inventory[..i + 1][..i] == inventory[..i];
      var car := inventory[i];
      if car.isNew {
        newCars := newCars + [car];
      }
      if car.priceChanged || car.photosAdded {
        changedCars := changedCars + [car];
      }
    }
    assert inventory[..|inventory|] == inventory;
  }

  /** No car of a built inventory is both new and changed. */
  lemma NewAndChangedDisjoint(results: seq<Vehicle>, loadedCars: LoadedCars)
    ensures var inventory := BuildInventory(results, loadedCars);
      forall c :: c in Filter(IsNewCar, inventory) ==> c !in Filter(IsChangedCar, inventory)
  {
    var inventory := BuildInventory(results, loadedCars);
    FilterMembers(IsNewCar, inventory);
    FilterMembers(IsChangedCar, inventory);
  }

  // The Python cars are a record type of their own, so the VIN set and the
  // last-position predicate of the Go side are restated here for them. They
  // take a prefix bound `n` instead of a slice, which keeps the proof of the
  // rewrite loop small.

  /** `i` is the last position of VIN `v` among the first `n` cars. */
  ghost predicate LastWithVin(cars: seq<PyCar>, n: int, v: string, i: int)
    requires n <= |cars|
  {
    0 <= i < n && cars[i].vin == v && forall j :: i < j < n ==> cars[j].vin != v
  }

  /** The VINs of the first `n` cars. */
  ghost function VinsBefore(cars: seq<PyCar>, n: int): set<string>
    requires n <= |cars|
  {
    set i | 0 <= i < n :: cars[i].vin
  }

  /** Each key of `output` maps to the save data of the last of the first `n`
      cars with that VIN. */
  ghost predicate LastWins(inventory: seq<PyCar>, n: int, output: LoadedCars)
    requires n <= |inventory|
  {
    forall v :: v in output ==> exists i :: LastWithVin(inventory, n, v, i) && output[v] == inventory[i].saveData
  }

  /** The snapshot rewritten from the first `n` cars: exactly their VINs, each
      mapped to the save data of its last car. */
  ghost predicate IsRewrite(inventory: seq<PyCar>, n: int, output: LoadedCars)
    requires n <= |inventory|
  {
    output.Keys == VinsBefore(inventory, n) && LastWins(inventory, n, output)
  }

  /** The snapshot rewrite of `get_tesla_inventory`: a dict filled from every
      car, later cars overwriting earlier ones. */
  method RewriteSnapshot(inventory: seq<PyCar>) returns (output: LoadedCars)
    ensures IsRewrite(inventory, |inventory|, output)
  {
    output := map[];
    for i := 0 to |inventory|
      invariant IsRewrite(inventory, i, output)
    {
      var car := inventory[i];
      VinsBeforeStep(inventory, i);
      LastWinsStep(inventory, i, output);
      output := output[car.vin := car.saveData];
    }
  }

  /** Writing the next car over the snapshot of the cars before it keeps each
      key at the save data of its last car. */
  lemma LastWinsStep(inventory: seq<PyCar>, i: nat, output: LoadedCars)
    requires i < |inventory| && LastWins(inventory, i, output)
    ensures LastWins(inventory, i + 1, output[inventory[i].vin := inventory[i].saveData])
  {
    var car := inventory[i];
    var after := output[car.vin := car.saveData];
    forall v | v in after
      ensures exists k :: LastWithVin(inventory, i + 1, v, k) && after[v] == inventory[k].saveData
    {
      if v == car.vin {
        assert LastWithVin(inventory, i + 1, v, i);
      } else {
        var k :| LastWithVin(inventory, i, v, k) && output[v] == inventory[k].saveData;
        assert LastWithVin(inventory, i + 1, v, k);
      }
    }
  }

  lemma VinsBeforeStep(cars: seq<PyCar>, i: nat)
    requires i < |cars|
    ensures VinsBefore(cars, i + 1) == VinsBefore(cars, i) + {cars[i].vin}
  {
    forall v | v in VinsBefore(cars, i + 1) ensures v in VinsBefore(cars, i) + {cars[i].vin} {
      var k :| 0 <= k < i + 1 && cars[k].vin == v;
      if k < i {
        assert v in VinsBefore(cars, i);
      }
    }
  }

  /** Rebuilding from the rewritten snapshot finds nothing: every VIN is known,
      and the last car of each VIN shows no price change and no added photos. */
  lemma ReloadAfterRewrite(results: seq<Vehicle>, loadedCars: LoadedCars, output: LoadedCars)
    requires IsRewrite(BuildInventory(results, loadedCars), |results|, output)
    ensures forall i :: 0 <= i < |results| && (forall j :: i < j < |results| ==> results[j].vin != results[i].vin) ==>
      var again := NewCar(results[i], output);
      !again.isNew && !again.priceChanged && !again.photosAdded
  {
    var inventory := BuildInventory(results, loadedCars);
    forall i | 0 <= i < |results| && (forall j :: i < j < |results| ==> results[j].vin != results[i].vin)
      ensures var again := NewCar(results[i], output);
              !again.isNew && !again.priceChanged && !again.photosAdded
    {
      var v := results[i].vin;
      assert inventory[i].vin == v;
      assert v in VinsBefore(inventory, |results|);
      var k :| LastWithVin(inventory, |results|, v, k) && output[v] == inventory[k].saveData;
      forall j | i < j < |inventory| ensures inventory[j].vin != v {
        assert inventory[j].vin == results[j].vin;
      }
      assert LastWithVin(inventory, |results|, v, i);
      assert k == i;
    }
  }

  /** On a freshly decoded listing the legacy classification agrees with the
      Go one, given the same snapshot; only the Go side adds stand-ins. */
  lemma AgreesWithGo(data: Vehicle, loadedCars: LoadedCars)
    ensures
      var goCar := TeslaUtils.Car(data.details, data.vin, data.price, data.photoUrls, false, false, 0.0, false, false);
      var goLoaded := map v | v in loadedCars :: TeslaUtils.SavedCar(loadedCars[v].vin, loadedCars[v].price, loadedCars[v].photos);
      var go, py := TeslaUtils.Classify(goCar, goLoaded), NewCar(data, loadedCars);
      && go.isNew == py.isNew && go.priceChanged == py.priceChanged
      && go.priceChange == py.priceChange && go.photosAdded == py.photosAdded
      && TeslaUtils.SaveData(goCar) == TeslaUtils.SavedCar(py.saveData.vin, py.saveData.price, py.saveData.photos)
  {
  }
}
