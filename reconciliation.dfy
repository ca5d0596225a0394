/** What the Go reconciler promises: how each fetched listing is classified,
    that the fetched records keep their place, that every vanished VIN gets
    exactly one stand-in, the length of the result, and what the rebuilt
    snapshot holds. */
module Reconciliation {
  import opened Listing
  import opened TeslaUtils

  /** Records whose VINs are pairwise different have as many VINs as records. */
  lemma {:induction false} DistinctVinsCount(cars: seq<Car>)
    requires forall j, k :: 0 <= j < k < |cars| ==> cars[j].vin != cars[k].vin
    ensures |VinsOf(cars)| == |cars|
  {
    if cars != [] {
      var init, last := cars[..|cars| - 1], cars[|cars| - 1];
      DistinctVinsCount(init);
      assert cars == init + [last];
      VinsOfAppend(init, last);
    }
  }

  /** A freshly decoded listing gets exactly these flags: new iff its VIN is
      not saved; a price change, with the signed delta, iff it is saved at a
      different price; photos added iff it is saved without photos and now has
      some (so photos going away is never flagged); never missing. */
  lemma FreshListingFlags(c: Car, loaded: Snapshot)
    requires Unannotated(c)
    ensures var r := Classify(c, loaded);
      && (r.isNew <==> c.vin !in loaded)
      && (r.priceChanged <==> c.vin in loaded && c.price != loaded[c.vin].price)
      && r.priceChange == (if r.priceChanged then c.price - loaded[c.vin].price else 0.0)
      && (r.photosAdded <==> c.vin in loaded && !loaded[c.vin].photos && |c.photos| > 0)
      && !r.missing
  {
  }

  /** The fetched records open the result in their own order, with the same
      VIN, price, photos and descriptive fields; only comparison fields change. */
  lemma PrefixPreserved(fetched: seq<Car>, loaded: Snapshot, result: seq<Car>)
    requires Reconciled(fetched, loaded, result)
    ensures |result| >= |fetched|
    ensures forall i :: 0 <= i < |fetched| ==>
      && result[i].vin == fetched[i].vin && result[i].price == fetched[i].price
      && result[i].photos == fetched[i].photos && result[i].details == fetched[i].details
      && result[i].missing == fetched[i].missing
    ensures VinsOf(result[..|fetched|]) == VinsOf(fetched)
  {
    var prefix := result[..|fetched|];
    forall v | v in VinsOf(fetched) ensures v in VinsOf(prefix) {
      var i :| 0 <= i < |fetched| && fetched[i].vin == v;
      assert prefix[i].vin == v;
    }
  }

  /** Each saved VIN that the fetch lacks gets exactly one appended stand-in,
      carrying that VIN and the saved price and nothing else; no stand-in is
      appended for a VIN that the fetch lists. */
  lemma MissingRecords(fetched: seq<Car>, loaded: Snapshot, result: seq<Car>)
    requires Reconciled(fetched, loaded, result)
    ensures forall v :: v in loaded && v !in VinsOf(fetched) ==>
      exists j :: |fetched| <= j < |result| && result[j].vin == v
    ensures forall j :: |fetched| <= j < |result| ==>
      && result[j].vin in loaded && result[j].vin !in VinsOf(fetched)
      && result[j].missing && !result[j].isNew && !result[j].priceChanged && !result[j].photosAdded
      && result[j].price == loaded[result[j].vin].price && result[j].photos == [] && result[j].details == NoDetails
    ensures forall j, k :: |fetched| <= j < k < |result| ==> result[j].vin != result[k].vin
  {
    var vanished := Vanished(fetched, loaded);
    TailInPlace(result, |fetched|, vanished, loaded);
    forall v | v in loaded && v !in VinsOf(fetched)
      ensures exists j :: |fetched| <= j < |result| && result[j].vin == v
    {
      assert v in vanished;
    }
  }

  /** The stand-in tail read at its positions in the whole result. */
  lemma {:induction false} TailInPlace(result: seq<Car>, n: nat, vanished: set<string>, loaded: Snapshot)
    requires n <= |result| && MissingTail(result[n..], vanished, loaded)
    ensures forall v :: v in vanished ==> exists j :: n <= j < |result| && result[j].vin == v
    ensures forall j :: n <= j < |result| ==>
      && result[j].vin in vanished && result[j].vin in loaded
      && result[j] == MissingCar(result[j].vin, loaded[result[j].vin])
    ensures forall j, k :: n <= j < k < |result| ==> result[j].vin != result[k].vin
  {
    var tail := result[n..];
    forall v | v in vanished ensures exists j :: n <= j < |result| && result[j].vin == v {
      assert v in VinsOf(tail);
      var t :| 0 <= t < |tail| && tail[t].vin == v;
      assert result[n + t].vin == v;
    }
    forall j | n <= j < |result|
      ensures result[j].vin in vanished && result[j].vin in loaded
      ensures result[j] == MissingCar(result[j].vin, loaded[result[j].vin])
    {
      assert result[j] == tail[j - n];
    }
    forall j, k | n <= j < k < |result| ensures result[j].vin != result[k].vin {
      assert result[j] == tail[j - n] && result[k] == tail[k - n];
    }
  }

  /** The appended records are stand-ins that carry no other flag. This is
      the flag part of MissingRecords on its own, for callers that need only
      that and whose proof would grow with the rest. */
  lemma StandInsAllMissing(fetched: seq<Car>, loaded: Snapshot, result: seq<Car>)
    requires Reconciled(fetched, loaded, result)
    ensures forall j :: |fetched| <= j < |result| ==>
      result[j].missing && !result[j].isNew && !result[j].priceChanged && !result[j].photosAdded
  {
    TailInPlace(result, |fetched|, Vanished(fetched, loaded), loaded);
  }

  /** A snapshot rebuilt from stand-ins alone is empty. */
  lemma {:induction false} NothingSavedFromStandIns(records: seq<Car>)
    requires forall j :: 0 <= j < |records| ==> records[j].missing
    ensures SnapshotOf(records) == map[]
  {
    if records != [] {
      NothingSavedFromStandIns(records[..|records| - 1]);
    }
  }

  /** Length law: the result is the fetch plus one record per vanished VIN. */
  lemma LengthLaw(fetched: seq<Car>, loaded: Snapshot, result: seq<Car>)
    requires Reconciled(fetched, loaded, result)
    ensures |result| == |fetched| + |Vanished(fetched, loaded)|
  {
    DistinctVinsCount(result[|fetched|..]);
  }

  /** With no usable snapshot every listing is new and nothing is appended. */
  lemma NoSnapshotAllNew(fetched: seq<Car>, result: seq<Car>)
    requires Reconciled(fetched, map[], result)
    ensures |result| == |fetched|
    ensures forall i :: 0 <= i < |result| ==> result[i].isNew && result[i].vin == fetched[i].vin
  {
    LengthLaw(fetched, map[], result);
  }

  /** Two reconciliations of the same inputs differ at most in the order of
      their stand-ins, which follows Go's unspecified map iteration order. */
  lemma SameUpToMissingOrder(fetched: seq<Car>, loaded: Snapshot, r1: seq<Car>, r2: seq<Car>)
    requires Reconciled(fetched, loaded, r1) && Reconciled(fetched, loaded, r2)
    ensures |r1| == |r2|
    ensures r1[..|fetched|] == r2[..|fetched|]
    ensures forall c :: c in r1[|fetched|..] <==> c in r2[|fetched|..]
  {
    var n := |fetched|;
    TailsAgree(r1[n..], r2[n..], Vanished(fetched, loaded), loaded);
    assert r1[..n] == r2[..n];
  }

  /** Two complete tails of stand-ins for the same VINs have the same length
      and the same records. */
  lemma TailsAgree(t1: seq<Car>, t2: seq<Car>, vanished: set<string>, loaded: Snapshot)
    requires MissingTail(t1, vanished, loaded) && MissingTail(t2, vanished, loaded)
    ensures |t1| == |t2|
    ensures forall c :: c in t1 <==> c in t2
  {
    DistinctVinsCount(t1);
    DistinctVinsCount(t2);
    StandInsContained(t1, t2, vanished, loaded);
    StandInsContained(t2, t1, vanished, loaded);
  }

  /** Every stand-in of one complete tail of stand-ins is in any other. */
  lemma StandInsContained(t1: seq<Car>, t2: seq<Car>, vanished: set<string>, loaded: Snapshot)
    requires MissingTail(t1, vanished, loaded) && MissingTail(t2, vanished, loaded)
    ensures forall c :: c in t1 ==> c in t2
  {
    forall c | c in t1 ensures c in t2 {
      var j :| 0 <= j < |t1| && t1[j] == c;
      assert c.vin in VinsOf(t2);
      var k :| 0 <= k < |t2| && t2[k].vin == c.vin;
      assert t2[k] == c;
    }
  }

  /** Starting from undecoded comparison fields, every record has exactly one
      provenance (new, stand-in, or matched to a saved entry), and a new record
      or a stand-in never carries a price change or added photos. */
  lemma Provenance(fetched: seq<Car>, loaded: Snapshot, result: seq<Car>)
    requires forall i :: 0 <= i < |fetched| ==> Unannotated(fetched[i])
    requires Reconciled(fetched, loaded, result)
    ensures forall i :: 0 <= i < |result| ==>
      && (result[i].isNew ==> !result[i].missing && result[i].vin !in loaded)
      && (result[i].missing ==> !result[i].isNew && result[i].vin in loaded && i >= |fetched|)
      && (!result[i].isNew && !result[i].missing ==> result[i].vin in loaded && i < |fetched|)
      && (result[i].isNew || result[i].missing ==> !result[i].priceChanged && !result[i].photosAdded)
  {
    MissingRecords(fetched, loaded, result);
  }

  /** Last-wins: each key of the rebuilt snapshot holds the summary of the last
      record with that VIN that is not a stand-in. */
  lemma {:induction false} SnapshotLastWins(records: seq<Car>, v: string)
    requires v in SnapshotOf(records)
    ensures exists i :: LastSavedAt(records, v, i) && SnapshotOf(records)[v] == SaveData(records[i])
  {
    var n := |records|;
    var prior, last := records[..n - 1], records[n - 1];
    var m := SnapshotOf(prior);
    assert SnapshotOf(records) == if last.missing then m else m[last.vin := SaveData(last)];
    if last.vin == v && !last.missing {
      assert LastSavedAt(records, v, n - 1);
    } else {
      assert v in m;
      SnapshotLastWins(prior, v);
      var i :| LastSavedAt(prior, v, i) && m[v] == SaveData(prior[i]);
      assert prior[i] == records[i];
      forall j | i < j < n && records[j].vin == v ensures records[j].missing {
        if j < n - 1 {
          assert prior[j] == records[j];
        }
      }
      assert LastSavedAt(records, v, i);
    }
  }

  /** The last such record is unique. */
  lemma LastSavedAtUnique(records: seq<Car>, v: string, i: int, j: int)
    requires LastSavedAt(records, v, i) && LastSavedAt(records, v, j)
    ensures i == j
  {
  }

  /** `i` is the last position of its VIN in `cars`. */
  ghost predicate LastOfVin(cars: seq<Car>, i: int)
  {
    0 <= i < |cars| && forall j :: i < j < |cars| ==> cars[j].vin != cars[i].vin
  }

  /** Saving a reconciliation and reconciling the same fetch against what was
      saved finds nothing: no vanished VIN, and no new, repriced or newly
      photographed listing among the last listing of each VIN. Stand-ins are
      not carried into the new snapshot. */
  lemma ReloadAfterSave(fetched: seq<Car>, loaded: Snapshot, result: seq<Car>)
    requires forall i :: 0 <= i < |fetched| ==> Unannotated(fetched[i])
    requires Reconciled(fetched, loaded, result)
    ensures SnapshotOf(result).Keys == VinsOf(fetched)
    ensures Vanished(fetched, SnapshotOf(result)) == {}
    ensures forall i :: LastOfVin(fetched, i) ==>
      var again := Classify(fetched[i], SnapshotOf(result));
      !again.isNew && !again.priceChanged && !again.photosAdded
  {
    var saved := SnapshotOf(result);
    SavedKeys(fetched, loaded, result);
    forall i | LastOfVin(fetched, i)
      ensures var again := Classify(fetched[i], saved);
              !again.isNew && !again.priceChanged && !again.photosAdded
    {
      var v := fetched[i].vin;
      LastListingSaved(fetched, loaded, result, i);
      SnapshotLastWins(result, v);
      var k :| LastSavedAt(result, v, k) && saved[v] == SaveData(result[k]);
      LastSavedAtUnique(result, v, i, k);
    }
  }

  /** The rebuilt snapshot holds exactly the VINs of the fetch. */
  lemma SavedKeys(fetched: seq<Car>, loaded: Snapshot, result: seq<Car>)
    requires forall i :: 0 <= i < |fetched| ==> Unannotated(fetched[i])
    requires Reconciled(fetched, loaded, result)
    ensures SnapshotOf(result).Keys == VinsOf(fetched)
  {
    var n := |fetched|;
    MissingRecords(fetched, loaded, result);
    forall v | v in SnapshotOf(result).Keys ensures v in VinsOf(fetched) {
      var i :| 0 <= i < |result| && !result[i].missing && result[i].vin == v;
      assert i < n;
      assert fetched[i].vin == v;
    }
    forall v | v in VinsOf(fetched) ensures v in SnapshotOf(result).Keys {
      var i :| 0 <= i < n && fetched[i].vin == v;
      assert !result[i].missing && result[i].vin == v;
    }
  }

  /** The last listing of a VIN is the last saved record of that VIN. */
  lemma LastListingSaved(fetched: seq<Car>, loaded: Snapshot, result: seq<Car>, i: int)
    requires forall i :: 0 <= i < |fetched| ==> Unannotated(fetched[i])
    requires Reconciled(fetched, loaded, result)
    requires LastOfVin(fetched, i)
    ensures LastSavedAt(result, fetched[i].vin, i)
  {
    var n, v := |fetched|, fetched[i].vin;
    MissingRecords(fetched, loaded, result);
    forall j | i < j < n ensures result[j].vin != v {
      assert result[j].vin == fetched[j].vin;
    }
  }

  /** Only the last listing of a VIN is spared: when the fetch lists a VIN
      twice at different prices, the snapshot keeps the later price, and
      reconciling the earlier listing against it again reports a price change. */
  lemma DuplicateListingReflagged(result: seq<Car>)
    requires Reconciled([Car(NoDetails, "A", 100.0, [], false, false, 0.0, false, false),
                         Car(NoDetails, "A", 200.0, [], false, false, 0.0, false, false)], map[], result)
    ensures var again := Classify(Car(NoDetails, "A", 100.0, [], false, false, 0.0, false, false), SnapshotOf(result));
      again.priceChanged && again.priceChange == -100.0
  {
    var first := Car(NoDetails, "A", 100.0, [], false, false, 0.0, false, false);
    var second := Car(NoDetails, "A", 200.0, [], false, false, 0.0, false, false);
    NoSnapshotAllNew([first, second], result);
    assert result == [Classify(first, map[]), Classify(second, map[])];
    assert result[..1] == [Classify(first, map[])];
    assert SnapshotOf(result)["A"] == SavedCar("A", 200.0, false);
  }
}
