/** The notification loop of `main` and the commit gate after it: each
    reconciled record is announced on the new-car or the changed-car thread,
    or not at all, and the snapshot is rewritten only when no send failed.
    Sending itself is outside the model; whether the send for a record fails
    is an input. */
module Dispatch {
  import opened TeslaUtils
  import Reconciliation

  /** The two chat threads a message can go to. */
  datatype Thread = NewCarThread | ChangedCarThread

  /** The two message builders: the full listing message and the reduced one
      for a vehicle that is no longer listed. */
  datatype Sender = CarMessage | MissingMessage

  /** What happens to one record: no message, or one message of some kind on
      some thread. */
  datatype Route = Silent | Send(sender: Sender, thread: Thread)

  /** The routing rule: new cars to the new-car thread; otherwise a price
      change or added photos to the changed-car thread; otherwise a stand-in,
      with the reduced message, to the changed-car thread; anything else is not
      announced. */
  function RouteOf(c: Car): (r: Route)
    ensures r == Send(CarMessage, NewCarThread) <==> c.isNew
    ensures r == Send(CarMessage, ChangedCarThread) <==> !c.isNew && (c.priceChanged || c.photosAdded)
    ensures r == Send(MissingMessage, ChangedCarThread) <==>
      !c.isNew && !c.priceChanged && !c.photosAdded && c.missing
    ensures r == Silent <==> !c.isNew && !c.priceChanged && !c.photosAdded && !c.missing
    ensures r != Send(MissingMessage, NewCarThread)
  {
    if c.isNew then Send(CarMessage, NewCarThread)
    else if c.priceChanged || c.photosAdded then Send(CarMessage, ChangedCarThread)
    else if c.missing then Send(MissingMessage, ChangedCarThread)
    else Silent
  }

  /** One message sent: for which record, built how, and on which thread. */
  datatype Notification = Notification(record: nat, sender: Sender, thread: Thread)

  /** When the error flag is set after the first `i` records: some of them
      was sent and its send failed, or the fetch failed and the first record
      sends nothing, so that the fetch's error is still in the shared error
      variable when the flag is first checked. */
  ghost predicate FlaggedThrough(inventory: seq<Car>, fetchFailed: bool, failsAt: nat -> bool, i: nat)
    requires i <= |inventory|
  {
    || (exists j :: 0 <= j < i && RouteOf(inventory[j]).Send? && failsAt(j))
    || (fetchFailed && i > 0 && RouteOf(inventory[0]) == Silent)
  }

  /** The error flag after the whole loop. */
  ghost predicate ErrorFlagged(inventory: seq<Car>, fetchFailed: bool, failsAt: nat -> bool)
  {
    FlaggedThrough(inventory, fetchFailed, failsAt, |inventory|)
  }

  /** `sent` lists, in inventory order, one message for every one of the first
      `i` records that routes somewhere and none for any other record. */
  ghost predicate SentThrough(inventory: seq<Car>, sent: seq<Notification>, i: nat)
    requires i <= |inventory|
  {
    && (forall k :: 0 <= k < |sent| ==>
          sent[k].record < i && RouteOf(inventory[sent[k].record]) == Send(sent[k].sender, sent[k].thread))
    && (forall k, l :: 0 <= k < l < |sent| ==> sent[k].record < sent[l].record)
    && (forall j :: 0 <= j < i && RouteOf(inventory[j]).Send? ==>
          exists k :: 0 <= k < |sent| && sent[k].record == j)
  }

  /** The messages of the whole loop. */
  ghost predicate SentInOrder(inventory: seq<Car>, sent: seq<Notification>)
  {
    SentThrough(inventory, sent, |inventory|)
  }

  /** The loop over the reconciled inventory and the conditional save that
      follows it. `fetchFailed` is the error left by the inventory fetch in
      the variable the loop reuses; `failsAt(i)` says whether the send for
      record `i` returns an error. */
  method NotifyAndCommit(inventory: seq<Car>, fetchFailed: bool, failsAt: nat -> bool, previous: Snapshot)
    returns (sent: seq<Notification>, anyErrorsSending: bool, stored: Snapshot)
    ensures SentInOrder(inventory, sent)
    ensures anyErrorsSending <==> ErrorFlagged(inventory, fetchFailed, failsAt)
    ensures stored == if anyErrorsSending then previous else SnapshotOf(inventory)
  {
    sent, anyErrorsSending := NotifyAll(inventory, fetchFailed, failsAt);
    if !anyErrorsSending {
      stored := SaveCars(inventory);
    } else {
      stored := previous;
    }
  }

  /** The notification loop alone. `lastSent` is the last record sent so far,
      -1 before the first: the error variable holds its send's outcome, or the
      fetch's error while nothing was sent. */
  method NotifyAll(inventory: seq<Car>, fetchFailed: bool, failsAt: nat -> bool)
    returns (sent: seq<Notification>, anyErrorsSending: bool)
    ensures SentInOrder(inventory, sent)
    ensures anyErrorsSending <==> ErrorFlagged(inventory, fetchFailed, failsAt)
  {
    sent := [];
    var err := fetchFailed;
    anyErrorsSending := false;
    ghost var lastSent := -1;
    for i := 0 to |inventory|
      invariant SentThrough(inventory, sent, i)
      invariant ErrorHeld(inventory, fetchFailed, failsAt, i, err, lastSent)
      invariant anyErrorsSending <==> FlaggedThrough(inventory, fetchFailed, failsAt, i)
    {
      var car := inventory[i];
      AnnounceStep(inventory, sent, i);
      FlagStep(inventory, fetchFailed, failsAt, i, err, lastSent);
      if car.isNew {
        sent := sent + [Notification(i, CarMessage, NewCarThread)];
        err := failsAt(i);
        lastSent := i;
      } else if car.priceChanged || car.photosAdded {
        sent := sent + [Notification(i, CarMessage, ChangedCarThread)];
        err := failsAt(i);
        lastSent := i;
      } else if car.missing {
        sent := sent + [Notification(i, MissingMessage, ChangedCarThread)];
        err := failsAt(i);
        lastSent := i;
      }
      if err {
        anyErrorsSending := true;
      }
    }
  }

  /** What the error variable holds after the first `i` records: the outcome
      of the send for `lastSent`, or the fetch's error if no record was sent. */
  ghost predicate ErrorHeld(inventory: seq<Car>, fetchFailed: bool, failsAt: nat -> bool, i: nat, err: bool, lastSent: int)
    requires i <= |inventory|
  {
    && -1 <= lastSent < i
    && (lastSent >= 0 ==> RouteOf(inventory[lastSent]).Send? && err == failsAt(lastSent))
    && (lastSent < 0 ==> err == fetchFailed && forall j :: 0 <= j < i ==> RouteOf(inventory[j]) == Silent)
  }

  /** One step of the loop keeps the messages in order and complete. */
  lemma AnnounceStep(inventory: seq<Car>, sent: seq<Notification>, i: nat)
    requires i < |inventory| && SentThrough(inventory, sent, i)
    ensures var r := RouteOf(inventory[i]);
      && (r.Send? ==> SentThrough(inventory, sent + [Notification(i, r.sender, r.thread)], i + 1))
      && (r == Silent ==> SentThrough(inventory, sent, i + 1))
  {
    var r := RouteOf(inventory[i]);
    if r.Send? {
      var after := sent + [Notification(i, r.sender, r.thread)];
      forall j | 0 <= j < i + 1 && RouteOf(inventory[j]).Send?
        ensures exists k :: 0 <= k < |after| && after[k].record == j
      {
        if j == i {
          assert after[|sent|].record == i;
        } else {
          var k :| 0 <= k < |sent| && sent[k].record == j;
          assert after[k] == sent[k];
        }
      }
    }
  }

  /** One step of the loop: the flag after record `i` is the flag before it or
      the error variable once record `i` has been handled. */
  lemma FlagStep(inventory: seq<Car>, fetchFailed: bool, failsAt: nat -> bool, i: nat, err: bool, lastSent: int)
    requires i < |inventory| && ErrorHeld(inventory, fetchFailed, failsAt, i, err, lastSent)
    ensures var sends := RouteOf(inventory[i]).Send?;
      && (sends ==> ErrorHeld(inventory, fetchFailed, failsAt, i + 1, failsAt(i), i))
      && (!sends ==> ErrorHeld(inventory, fetchFailed, failsAt, i + 1, err, lastSent))
      && (FlaggedThrough(inventory, fetchFailed, failsAt, i + 1) <==>
          FlaggedThrough(inventory, fetchFailed, failsAt, i) || (if sends then failsAt(i) else err))
  {
    if lastSent >= 0 && err {
      assert RouteOf(inventory[lastSent]).Send? && failsAt(lastSent);
    }
  }

  /** The fetch reports an error only together with an empty inventory, so
      after reconciliation every record is a stand-in that is announced and
      overwrites the fetch's error: the flag then means exactly that a send
      failed. */
  lemma FlagMeansSendFailed(inventory: seq<Car>, loaded: Snapshot, fetchFailed: bool, failsAt: nat -> bool)
    requires fetchFailed ==> Reconciled([], loaded, inventory)
    ensures ErrorFlagged(inventory, fetchFailed, failsAt) <==>
      exists i :: 0 <= i < |inventory| && RouteOf(inventory[i]).Send? && failsAt(i)
  {
    if fetchFailed && |inventory| > 0 {
      Reconciliation.MissingRecords([], loaded, inventory);
      assert inventory[0].missing && !inventory[0].isNew;
    }
  }

  /** A listing that was saved with the same price, and whose photos did not go
      from none to some, sends nothing. */
  lemma UnchangedListingIsSilent(c: Car, loaded: Snapshot)
    requires Unannotated(c) && c.vin in loaded
    requires c.price == loaded[c.vin].price
    requires loaded[c.vin].photos || |c.photos| == 0
    ensures RouteOf(Classify(c, loaded)) == Silent
  {
  }

  /** Every stand-in for a vanished vehicle is announced with the reduced
      message on the changed-car thread. */
  lemma StandInsAreAnnounced(fetched: seq<Car>, loaded: Snapshot, result: seq<Car>)
    requires Reconciled(fetched, loaded, result)
    ensures forall j :: |fetched| <= j < |result| ==> RouteOf(result[j]) == Send(MissingMessage, ChangedCarThread)
  {
    Reconciliation.MissingRecords(fetched, loaded, result);
  }

  /** A failed fetch yields no listings, so every saved car comes back as a
      stand-in announced as missing, and the snapshot saved afterwards is
      empty: the next run then reports every listed car as new. */
  lemma FailedFetchClearsSnapshot(loaded: Snapshot, result: seq<Car>)
    requires Reconciled([], loaded, result)
    ensures |result| == |loaded.Keys|
    ensures forall j :: 0 <= j < |result| ==> RouteOf(result[j]) == Send(MissingMessage, ChangedCarThread)
    ensures SnapshotOf(result) == map[]
  {
    assert Vanished([], loaded) == loaded.Keys;
    Reconciliation.LengthLaw([], loaded, result);
    Reconciliation.StandInsAllMissing([], loaded, result);
    Reconciliation.NothingSavedFromStandIns(result);
  }
}
