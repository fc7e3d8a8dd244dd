# Smart parking lot: the slot registry

This project models the in-memory slot registry of a small parking-lot service,
the `ParkingLotManager` class. The registry holds a list of parking slots and a
counter that gives each new slot its id. Each slot has an id, a slot number, two
fixed amenities (covered, EV charging) and an occupancy state with a vehicle id.
The registry offers six operations:

- add a free slot;
- list all slots by slot number, reordering the stored list in place;
- list the free slots that meet optional EV and cover requirements;
- park a vehicle in the matching free slot with the lowest slot number;
- remove a vehicle from the slot with a given id;
- look a slot up by id.

The model also covers the checks the create-slot request makes before it calls
the registry: a non-zero slot number, at least one amenity, and no duplicate
slot number.

Files:

- `wrappers.dfy`: `Option`, used where the source has `null`/`undefined`.
- `slots.dfy` (module `Slots`): the `Slot` record and the pure queries over a
  sequence of slots. These are the availability filter, the stable sort by slot
  number (the source uses the built-in `sort` with a `slotNo` comparator) and the
  lookup by id or by slot number. The module also holds the lemmas about them:
  the filter's counts and order, sortedness, permutation, stability,
  idempotence, independence from stored and from creation order, lowest-first
  choice, and preservation of the registry invariant.
- `vehicle_ids.dfy` (module `VehicleIds`): the vehicle id `VEHICLE_<millis>`, with
  the clock reading as a parameter.
- `parking_lot.dfy` (module `ParkingLot`): the class `ParkingLotManager`. It has
  the fields `slots: seq<Slot>` and `nextSlotId: int`, an invariant `Valid()`, and
  one method per operation that changes state. The two queries are functions.
- `boundary.dfy` (module `Boundary`): the create-slot request's validation.
- `scenarios.dfy` (module `Scenarios`): callers that use only the contracts. They
  cover a two-slot example, park-then-remove-twice, and list-twice.

Modelling decisions:

- In the source, the slot that `parkVehicle` takes from the sorted list is the
  stored record itself, and the method changes that record's fields. The model
  holds slots as values. It finds the stored slot by its id and replaces it. The
  invariant makes ids distinct, so this finds the same record.
- The built-in `sort` is stable, so it is modelled as a stable insertion sort.
  Slot numbers are `int`.
- `Date.now()` becomes the parameter `now: nat` of `ParkVehicle`.
- The create-slot check refuses only slot number 0 (`!slotNo` on a number), so
  negative slot numbers are accepted, and the model accepts them too.

## Model

| member | source | states |
|---|---|---|
| ParkingLot.ParkingLotManager.constructor | backend/parkingLotManager.js:2-5 | a new registry has no slots, `nextSlotId == 1`, and satisfies the invariant |
| ParkingLot.ParkingLotManager.AddSlot | backend/parkingLotManager.js:8-19 | the new slot gets id = old `nextSlotId`, the given attributes, free and no vehicle id. The id is not held by any earlier slot. The slot is appended with earlier slots untouched, the counter goes up by exactly 1, and the invariant (ids exactly 1..nextSlotId-1, distinct, occupancy consistent) is kept |
| ParkingLot.ParkingLotManager.GetAllSlots | backend/parkingLotManager.js:22-24 | the stored sequence becomes its stable sort by slot number and is returned; the result is sorted and a permutation of the old slots, so no slot's fields change; the counter and the invariant are kept |
| ParkingLot.ParkingLotManager.GetAvailableSlots | backend/parkingLotManager.js:27-33 | the result is sorted by slot number and contains exactly the stored slots that are free, EV-charging if EV is needed, and covered if cover is needed, each as many times as it is stored and no other slot; being a function it cannot change the registry |
| ParkingLot.ParkingLotManager.ParkVehicle | backend/parkingLotManager.js:36-57 | fails exactly when no slot matches, then reports "No slot available" with no slot and changes nothing. Otherwise it chooses the head of the available list, a matching free slot with minimal slot number, and among the stored slots with that number the first matching one in stored order. That slot becomes occupied with vehicle id `VEHICLE_<now>`, and every other slot stays as it was. The result reports success with the updated slot, and lookup by id now returns it |
| ParkingLot.ParkingLotManager.RemoveVehicle | backend/parkingLotManager.js:60-85 | an unknown id gives "Slot not found" (in particular any id below 1 or not yet issued), and a free slot gives "Slot is already empty"; neither changes state. Success happens exactly when the slot exists and is occupied. It frees that slot only, clearing its vehicle id, and returns it; a lookup afterwards shows it free |
| ParkingLot.ParkingLotManager.GetSlotById | backend/parkingLotManager.js:88-90 | returns a stored slot with that id, or nothing when no stored slot has it |
| Slots.FilterAvailable | backend/parkingLotManager.js:28-31 | keeps exactly the slots that satisfy the availability predicate, and no more slots than it was given |
| Slots.FilterCounts | backend/parkingLotManager.js:28-31 | each matching slot appears in the filtered list as many times as it is stored, and every other slot not at all |
| Slots.FilterAppend | backend/parkingLotManager.js:28-31 | filtering a concatenation is concatenating the filtered parts |
| Slots.FilterKeepsOrder | backend/parkingLotManager.js:28-31 | the filter keeps stored order: for every slot number, the filtered slots with that number are, in order, the matching ones among the stored slots with that number |
| Slots.InsertBySlotNo | backend/parkingLotManager.js:23 | inserting adds exactly the one slot to the multiset of slots |
| Slots.InsertKeepsSorted | backend/parkingLotManager.js:23 | inserting into a sequence sorted by slot number keeps it sorted |
| Slots.SortBySlotNo | backend/parkingLotManager.js:23 | the sort returns a permutation (same multiset) of its input, sorted ascending by slot number |
| Slots.SortIsStable | backend/parkingLotManager.js:23 | for every slot number, the slots carrying it appear in the sorted result in their original order |
| Slots.SortOfSortedIsIdentity | backend/parkingLotManager.js:22-24 | sorting an already sorted sequence returns it unchanged, so listing all slots twice in a row gives identical sequences |
| Slots.SortKeepsDistinct | backend/parkingLotManager.js:23 | if ids (or slot numbers) are distinct before sorting they are distinct after |
| Slots.SortKeepsWellFormed | backend/parkingLotManager.js:22-24 | sorting keeps the registry invariant: ids in range, distinct, occupancy consistent |
| Slots.StrictlySortedUnique | backend/parkingLotManager.js:23 | two strictly ascending sequences holding the same slots are equal |
| Slots.ListingIndependentOfStoredOrder | backend/parkingLotManager.js:22-24 | with distinct slot numbers, two sequences holding the same slot records in different orders (for instance before and after an earlier listing) list identically |
| Slots.InsertIgnoresIds | backend/parkingLotManager.js:23 | insertion looks only at slot numbers: erasing ids before or after inserting gives the same sequence |
| Slots.SortIgnoresIds | backend/parkingLotManager.js:23 | erasing ids before or after sorting gives the same sequence |
| Slots.ListingIndependentOfCreationOrder | backend/parkingLotManager.js:8-24 | with distinct slot numbers, two registries built from the same create-slot requests in any two orders (so holding different ids) list the same slots in the same order once ids are set aside |
| Slots.FindIndexBy | backend/parkingLotManager.js:61 | finds the first position whose id (or, for the duplicate check at backend/server.js:32, slot number) equals the value, or reports that no position holds it |
| Slots.ReplaceKeepsWellFormed | backend/parkingLotManager.js:49-50 | replacing a slot by one with the same id and consistent occupancy keeps the invariant. Since no other position holds that id, this is the same as replacing every slot with that id, and lookup by the id finds the replaced position |
| Slots.ChosenIsStored | backend/parkingLotManager.js:48-50 | with distinct ids, looking up the id of the head of the available list finds that very stored slot, so changing it by id changes the record the source changes |
| Slots.FirstAvailableIsLowest | backend/parkingLotManager.js:37-48 | the sorted available list is empty exactly when no slot matches. Otherwise its head is a stored matching slot whose slot number is minimal among matching slots, and among the stored slots with that number it is the first matching one in stored order |
| Slots.ParkChoice | backend/parkingLotManager.js:37-50 | the chosen head is stored at the position its id is found, is matching, minimal and first in stored order, and occupying it there keeps the invariant and changes that slot only |
| VehicleIds.Decimal | backend/parkingLotManager.js:50 | the decimal text of a number is non-empty, all digits, and has no leading zero |
| VehicleIds.DecimalRoundTrip | backend/parkingLotManager.js:50 | reading the decimal text back gives the number |
| VehicleIds.VehicleIdFor | backend/parkingLotManager.js:50 | the vehicle id starts with `VEHICLE_` followed by at least one character |
| VehicleIds.VehicleIdsCollideExactlyOnSameTime | backend/parkingLotManager.js:50 | two vehicle ids are equal exactly when their clock readings are equal, so two vehicles parked in the same millisecond get the same id |
| Boundary.ValidateNewSlot | backend/server.js:22-35 | passes exactly when the slot number is non-zero, an amenity is chosen, and no stored slot has that number. Otherwise it reports the first failing check's message: invalid number, no amenity, or duplicate |
| Boundary.AcceptedSlotKeepsSlotNosDistinct | backend/server.js:22-37 | a slot that passed the checks keeps slot numbers distinct when appended and has at least one amenity |
| Scenarios.CreateTwoSlots | backend/parkingLotManager.js:8-19 | adding slots 101 (covered) and 102 (EV) to a new registry gives ids 1 and 2 |
| Scenarios.ParkFirstEV | backend/parkingLotManager.js:36-57 | with 101 covered and 102 EV, an EV request takes slot 102 and gives it the vehicle id of the clock reading |
| Scenarios.ParkSecondEV | backend/parkingLotManager.js:36-45 | once 102 is occupied, an EV request gets "No slot available" and nothing changes |
| Scenarios.ParkTwiceForEV | backend/parkingLotManager.js:36-57 | with 101 covered and 102 EV, an EV request takes 102 and a second EV request gets "No slot available" |
| Scenarios.RemoveFromSlotTwo | backend/parkingLotManager.js:60-85 | removing from occupied slot 2 succeeds and clears its vehicle id; again gives "Slot is already empty"; id 3 gives "Slot not found" |
| Scenarios.TwoSlotExample | backend/parkingLotManager.js:8-85 | the worked example on one new registry: create 101 and 102, park an EV in 102, a second EV finds nothing, remove from slot 2 succeeds, again reports already empty, slot 3 is not found |
| Scenarios.ParkThenRemoveTwice | backend/parkingLotManager.js:36-85 | after a successful park, removing from that slot succeeds once, and a second removal reports "Slot is already empty" |
| Scenarios.ListTwice | backend/parkingLotManager.js:22-24 | two listings with nothing in between return the same sequence |

## Left out

- Object aliasing: in the source, the slots returned by every operation are live references to the stored records, so a caller that changes them changes the registry. The model returns values.
- The JavaScript number type: slot numbers and ids are unbounded integers. The model does not cover a `slotNo` comparator on non-numeric or NaN values, or `parseInt` giving NaN for a malformed slot id (that lookup fails with "Slot not found" either way).
- The amenity flags may be arbitrary truthy or falsy JSON values in the source; here they are booleans.
- `Date.now()` is the parameter `now`; the wall clock itself is not modelled.
- HTTP routing, status codes, body parsing, the `try`/`catch` that turns exceptions into status 500, and the server start-up (backend/server.js) are not modelled. Only the create-slot checks are.
- The browser front end (frontend/script.js) is UI and network code and is not part of this model.
- Concurrency: the registry is used by one request at a time.
