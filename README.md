# Tesla inventory tracker: snapshot reconciliation

This project models the core of a tracker for used-car listings. Each run fetches the current listings, compares them with the snapshot saved by the previous run, announces what changed, and saves a new snapshot. The snapshot maps each VIN to its price and to whether the listing had photos.

The model covers four pieces.

- **The Go reconciler** (`utils/tesla_utils.go`, module `TeslaUtils`).
  - `LoadSavedCars` flags each fetched listing in place as new, repriced (with the signed delta) or newly photographed.
  - It then appends one "missing" stand-in record for every saved VIN the fetch no longer lists.
  - `SaveCars` / `SaveData` rebuild the snapshot from every record that is not a stand-in; the last record of a VIN wins.
  - The array is updated in place, as in the source. The nested search for a saved VIN runs over the records gathered so far. Go's map iteration order is an arbitrary choice, so the order of the stand-ins is left open.
- **What the Go reconciler promises** (module `Reconciliation`). Lemmas cover:
  - the classification of each listing;
  - that the fetched records keep their place;
  - that each vanished VIN gets exactly one stand-in;
  - the length of the result;
  - that two runs differ only in the order of the stand-ins;
  - what the rebuilt snapshot holds;
  - that reconciling the same fetch again against the snapshot just saved finds no vanished VIN and flags nothing on the last listing of each VIN. An earlier listing of a VIN the fetch lists twice at different prices is reported again as a price change (`Reconciliation.DuplicateListingReflagged`).
- **`main` in `main.go`** (modules `Config` and `Dispatch`).
  - The year list is built from the comma-separated `YEARS_ENV`, using `strings.Split` and `strconv.Atoi`.
  - The notification loop routes each record to the new-car thread, to the changed-car thread, or nowhere.
  - The snapshot is saved only when the error flag is still clear after the loop.
  - Whether a send fails is an input (`failsAt`).
  - The loop reuses the error variable of the inventory fetch, and the model keeps that. A fetch error can stay in the variable only while no record has been sent. `Dispatch.FlagMeansSendFailed` proves it cannot affect the flag, because a failed fetch returns no listings.
- **The legacy Python reconciler** (`tesla_utils.py`, module `LegacyReconciler`).
  - The comparison in the `Car` constructor and `identify_new_and_changed`, modelled as order-preserving filters.
  - The snapshot rewrite, which keeps only the VINs of the current fetch. It has no missing detection.
  - A lemma shows that on a freshly decoded listing the legacy classification agrees with the Go one.

Prices are exact `real` numbers. The Go nil map that an unreadable snapshot leaves behind reads like the empty map, so it is modelled as `map[]`.

A year field that fails to parse is not skipped: the code appends the value 0 that `strconv.Atoi` returns with its error (main.go:211-215), and the model does the same. `Config.SplitKeepsSpaces` and `Config.SpaceAfterCommaGivesZero` show that `"2024, 2025"` gives the years 2024 and 0.

## Model

| member | source | states |
|---|---|---|
| TeslaUtils.SaveData | utils/tesla_utils.go:70-76 | the saved summary copies VIN and price; `photos` is true iff the car has at least one photo |
| TeslaUtils.Classify | utils/tesla_utils.go:184-200 | new iff the VIN is not saved; a saved VIN is not new, gets the price flag and delta current − saved when the price differs and keeps both fields otherwise, and gains the photos flag when it has photos and the saved entry had none; identity, price, photos and the missing flag are untouched |
| TeslaUtils.CompareWithSaved | utils/tesla_utils.go:184-200 | the comparison loop leaves every array element equal to the classification of its old value |
| TeslaUtils.LoadSavedCars | utils/tesla_utils.go:171-221 | the array is classified in place and the result is that array followed by exactly one stand-in per saved VIN absent from the fetch (`Reconciled`) |
| TeslaUtils.FoundIffListed | utils/tesla_utils.go:203-209 | during the missing-car search a saved VIN still to visit is found among the gathered records iff the fetch lists it |
| TeslaUtils.MissingStep | utils/tesla_utils.go:202-219 | one visit of the search appends a stand-in exactly for a vanished VIN and keeps the fetched prefix |
| TeslaUtils.SnapshotOf | utils/tesla_utils.go:223-231 | the keys of the rebuilt snapshot are exactly the VINs of the records that are not stand-ins |
| TeslaUtils.SaveCars | utils/tesla_utils.go:223-231 | the map filled by the loop, skipping stand-ins, is the snapshot of the records |
| Reconciliation.FreshListingFlags | utils/tesla_utils.go:184-200 | for a freshly decoded listing: new iff unsaved; price change iff saved at another price, with the signed delta, else delta 0; photos added iff saved without photos and now with some; never missing |
| Reconciliation.PrefixPreserved | utils/tesla_utils.go:184-200 | the result starts with the fetched records in order with the same VINs, prices, photos and details |
| Reconciliation.MissingRecords | utils/tesla_utils.go:202-218 | every saved VIN absent from the fetch has a stand-in; every stand-in is for such a VIN, carries the saved price, no photos, only the missing flag; no two stand-ins share a VIN |
| Reconciliation.LengthLaw | utils/tesla_utils.go:202-220 | result length = fetched length + number of saved VINs the fetch lacks |
| Reconciliation.NoSnapshotAllNew | utils/tesla_utils.go:173-182 | with an absent or unreadable snapshot (empty map) every listing is new and nothing is appended |
| Reconciliation.SameUpToMissingOrder | utils/tesla_utils.go:202 | two reconciliations of the same inputs have the same length, the same prefix and the same stand-ins, differing only in their order |
| Reconciliation.Provenance | utils/tesla_utils.go:184-218 | from fresh listings each record is new, a stand-in, or matched to a saved VIN, exclusively; new records and stand-ins carry no change flags |
| Reconciliation.SnapshotLastWins | utils/tesla_utils.go:225-231 | each snapshot value is `SaveData` of the last non-stand-in record with that VIN |
| Reconciliation.NothingSavedFromStandIns | utils/tesla_utils.go:226-229 | a snapshot rebuilt from stand-ins alone is empty |
| Reconciliation.SavedKeys | utils/tesla_utils.go:225-231 | the snapshot saved after a reconciliation holds exactly the VINs of the fetch |
| Reconciliation.ReloadAfterSave | utils/tesla_utils.go:184-231 | reconciling the same fetch against the snapshot just saved finds no vanished VIN and flags nothing on the last listing of each VIN |
| Reconciliation.DuplicateListingReflagged | utils/tesla_utils.go:184-231 | a fetch listing VIN A at 100 then at 200 saves A at 200, and the listing at 100 reconciled against it again shows a price change of −100 |
| Config.Split | main.go:210 | `strings.Split` gives one more field than separators and no field holds the separator |
| Config.JoinSplit | main.go:210 | joining the fields of a split gives back the string |
| Config.SplitJoin | main.go:210 | splitting a join of separator-free fields gives back the fields |
| Config.Atoi | main.go:211 | `strconv.Atoi`: a success lies in Go's `int` range; a failure gives 0 or a clamped bound; anything that is not an optional sign followed by digits fails with 0 |
| Config.AtoiItoa | main.go:211 | every in-range integer written in decimal parses back to itself without error |
| Config.BuildYears | main.go:207-216 | one year per comma-separated field, in order, each the value `Atoi` gives for it, failed parses included |
| Config.SplitKeepsSpaces | main.go:210 | `"2024, 2025"` splits into `"2024"` and `" 2025"` |
| Config.SpaceAfterCommaGivesZero | main.go:211-215 | `" 2025"` fails to parse and contributes 0 while `"2024"` parses |
| Dispatch.RouteOf | main.go:228-234 | new → car message on the new-car thread; otherwise price change or photos added → car message on the changed-car thread; otherwise missing → missing message on the changed-car thread; otherwise no message |
| Dispatch.NotifyAll | main.go:225-239 | the messages sent are, in inventory order, one per record that routes somewhere and none for others; the flag is set iff a send failed (or the fetch failed and the first record sends nothing) |
| Dispatch.AnnounceStep | main.go:228-234 | handling one more record keeps the sent messages ordered, routed and complete |
| Dispatch.FlagStep | main.go:229-238 | after one more record the flag is the old flag or the error variable, which holds the last send's outcome or the fetch error |
| Dispatch.NotifyAndCommit | main.go:225-243 | the loop as above, then the stored snapshot is the rebuilt one when the flag is clear and the previous one otherwise |
| Dispatch.FlagMeansSendFailed | main.go:218-238 | when a failed fetch means an empty fetch, the flag is set iff some send failed |
| Dispatch.UnchangedListingIsSilent | main.go:227-234 | a saved listing at the same price, whose photos did not appear, sends nothing |
| Dispatch.StandInsAreAnnounced | main.go:232-233 | every stand-in is announced with the missing message on the changed-car thread |
| Dispatch.FailedFetchClearsSnapshot | main.go:218-243 | after a failed fetch every saved car is announced as missing and the snapshot saved afterwards is empty |
| LegacyReconciler.NewCar | tesla_utils.py:37-63 | photos `None` iff the list is empty; save data copies VIN and price with `photos` iff some photo; new iff unsaved; price change with delta iff saved at another price, else false and 0; photos added iff saved without photos and now with some |
| LegacyReconciler.BuildInventory | tesla_utils.py:105 | one car per vehicle of the response, in order |
| LegacyReconciler.Filter | tesla_utils.py:116-126 | a filter is no longer than its input and keeps only elements satisfying the predicate |
| LegacyReconciler.FilterMembers | tesla_utils.py:116-126 | an element is kept iff it is in the input and satisfies the predicate |
| LegacyReconciler.FilterKeepsOrder | tesla_utils.py:116-126 | filtering a concatenation is the concatenation of the filters, so order is kept |
| LegacyReconciler.IdentifyNewAndChanged | tesla_utils.py:116-126 | the two lists are the order-preserving filters of new cars and of changed cars |
| LegacyReconciler.NewAndChangedDisjoint | tesla_utils.py:51-63 | no built car is in both the new and the changed list |
| LegacyReconciler.RewriteSnapshot | tesla_utils.py:107-111 | the rewritten snapshot has exactly the VINs of the fetch, each mapped to the save data of its last car |
| LegacyReconciler.LastWinsStep | tesla_utils.py:109-110 | writing one more car keeps each key at the save data of its last car |
| LegacyReconciler.ReloadAfterRewrite | tesla_utils.py:105-111 | building the last car of each VIN again against the rewritten snapshot flags nothing |
| LegacyReconciler.AgreesWithGo | tesla_utils.py:50-63 | on a freshly decoded listing the legacy flags, delta and save data equal the Go ones |

## Left out

- Network I/O is not modelled: the inventory fetch (`GetTeslaInventory`, `requests.get`) and the Discord posts. The fetch's result and error are inputs, and so is each send's outcome (`failsAt`).
- File and JSON I/O is not modelled: reading and writing `cars.json` and decoding responses. The loaded snapshot is an input map and the stored snapshot is a result. A malformed file that makes Python raise is not modelled.
- Discord message building (`sendCarToDiscord`, `sendMissingToDiscord`, `send_to_discord.py`) is string formatting. Only which builder and which thread a record goes to is modelled.
- Dispatch.NotifyAll: every send is modelled as returning, with success or an error (`failsAt`). `sendCarToDiscord` reads `car.Photos[1]` (main.go:138), which panics for a car with exactly one photo, and slices `car.Photos[2:5]` (main.go:140), which panics when the slice's capacity is below 5. Such a panic ends the loop (main.go:227-239) and skips `SaveCars` (main.go:241-243). The model does not capture that crash, so its promise that every routed record is announced holds only for sends that return.
- Floating point is not modelled: prices are exact reals, so float64 rounding of `current − saved` is not captured.
- Go map iteration order is unspecified. `LoadSavedCars` visits saved VINs in an arbitrary order, so only the set of stand-ins is fixed.
- Config.Atoi: for a string that overflows before a later non-digit character, Go reports a range error with a clamped value; the model reports a syntax error with 0. Years never reach that length.
- The listing's descriptive fields (model, year, plate, trim, options, location) are carried as one opaque `Details` value and are never inspected.
- The Python `__str__`, the order link and the `__main__` printing are output only.
- The `TRIMS_ENV` split (main.go:208) uses the same `strings.Split` as the years and feeds only the fetch, which is not modelled.
