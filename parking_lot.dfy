/**
  The in-memory slot registry: the sequence of slot records in the order the
  registry holds them, and the counter that gives each new slot its id.
 */
module ParkingLot {
  import opened Wrappers
  import opened Slots
  import opened VehicleIds

  const NoSlotAvailable: string := "No slot available"
  const VehicleParked: string := "Vehicle parked successfully"
  const SlotNotFound: string := "Slot not found"
  const SlotAlreadyEmpty: string := "Slot is already empty"
  const VehicleRemoved: string := "Vehicle removed successfully"

  /** What parking and removing report: success, a message, and the slot
      concerned (absent on failure). */
  datatype Outcome = Outcome(success: bool, message: string, slot: Option<Slot>)

  class ParkingLotManager {
    var slots: seq<Slot>
    var nextSlotId: int

    /** The registry invariant. Ids start at 1 and are handed out one by one and
        never removed, so the slots carry exactly the ids below `nextSlotId`, each
        once; and a slot is occupied exactly when it holds a vehicle id. */
    ghost predicate Valid()
      reads this
    {
      && nextSlotId >= 1
      && |slots| == nextSlotId - 1
      && WellFormed(slots, nextSlotId)
    }

    constructor ()
      ensures Valid()
      ensures slots == [] && nextSlotId == 1
    {
      slots := [];
      nextSlotId := 1;
    }

    /** Appends a free slot with the next id. The registry accepts any values;
        the checks on them belong to the create-slot request (see `Boundary`). */
    method AddSlot(slotNo: int, isCovered: bool, isEVCharging: bool) returns (slot: Slot)
      requires Valid()
      modifies this
      ensures Valid()
      ensures slot == Slot(old(nextSlotId), slotNo, isCovered, isEVCharging, false, None)
      ensures forall x :: x in old(slots) ==> x.id != slot.id
      ensures slots == old(slots) + [slot]
      ensures nextSlotId == old(nextSlotId) + 1
    {
      slot := Slot(nextSlotId, slotNo, isCovered, isEVCharging, false, None);
      nextSlotId := nextSlotId + 1;
      slots := slots + [slot];
    }

    /** Reorders the stored slots by slot number, in place, and returns them. */
    method GetAllSlots() returns (r: seq<Slot>)
      requires Valid()
      modifies this
      ensures Valid()
      ensures r == slots && slots == SortBySlotNo(old(slots))
      ensures SortedBySlotNo(r) && multiset(r) == multiset(old(slots))
      ensures nextSlotId == old(nextSlotId)
    {
      SortKeepsWellFormed(slots, nextSlotId);
      slots := SortBySlotNo(slots);
      r := slots;
    }

    /** The free slots that meet the requirements, ordered by slot number; the
        stored sequence is left as it is. */
    function GetAvailableSlots(needsEV: bool, needsCover: bool): (r: seq<Slot>)
      reads this
      ensures SortedBySlotNo(r)
      ensures forall x :: x in r <==> x in slots && Matches(x, needsEV, needsCover)
      ensures forall x :: multiset(r)[x] == if Matches(x, needsEV, needsCover) then multiset(slots)[x] else 0
    {
      var r := SortBySlotNo(FilterAvailable(slots, needsEV, needsCover));
      assert forall x :: x in r <==> x in multiset(r);
      FilterCounts(slots, needsEV, needsCover);
      r
    }

    /** The slot with the given id, if there is one. */
    function GetSlotById(slotId: int): (r: Option<Slot>)
      reads this
      ensures r.Some? ==> r.value in slots && r.value.id == slotId
      ensures r.None? ==> forall x :: x in slots ==> x.id != slotId
    {
      match FindIndexBy(slots, ById, slotId)
      case None => None
      case Some(i) => Some(slots[i])
    }

    /** Occupies the first of the available slots, the one with the lowest slot
        number, giving it the vehicle id made from the clock reading `now`. */
    method ParkVehicle(needsEV: bool, needsCover: bool, now: nat) returns (res: Outcome)
      requires Valid()
      modifies this
      ensures Valid()
      ensures nextSlotId == old(nextSlotId) && |slots| == |old(slots)|
      ensures res.success <==> old(GetAvailableSlots(needsEV, needsCover)) != []
      ensures !res.success ==> res == Outcome(false, NoSlotAvailable, None) && slots == old(slots)
      ensures res.success ==>
        var chosen := old(GetAvailableSlots(needsEV, needsCover))[0];
        var parked := chosen.(isOccupied := true, vehicleId := Some(VehicleIdFor(now)));
        && chosen in old(slots)
        && Matches(chosen, needsEV, needsCover)
        && (forall x :: x in old(slots) && Matches(x, needsEV, needsCover) ==> chosen.slotNo <= x.slotNo)
        && [chosen] <= FilterAvailable(WithSlotNo(old(slots), chosen.slotNo), needsEV, needsCover)
        && res == Outcome(true, VehicleParked, Some(parked))
        && slots == ReplaceById(old(slots), chosen.id, parked)
        && GetSlotById(chosen.id) == Some(parked)
    {
      var available := GetAvailableSlots(needsEV, needsCover);
      if available == [] {
        return Outcome(false, NoSlotAvailable, None);
      }
      ParkChoice(slots, nextSlotId, needsEV, needsCover, VehicleIdFor(now));
      var chosen := available[0];
      var i := FindIndexBy(slots, ById, chosen.id).value;
      var parked := chosen.(isOccupied := true, vehicleId := Some(VehicleIdFor(now)));
      slots := slots[i := parked];
      assert WellFormed(slots, nextSlotId);
      res := Outcome(true, VehicleParked, Some(parked));
    }

    /** Frees the slot with the given id. */
    method RemoveVehicle(slotId: int) returns (res: Outcome)
      requires Valid()
      modifies this
      ensures Valid()
      ensures nextSlotId == old(nextSlotId) && |slots| == |old(slots)|
      ensures old(GetSlotById(slotId)).None? ==>
        res == Outcome(false, SlotNotFound, None) && slots == old(slots)
      ensures slotId < 1 || slotId >= old(nextSlotId) ==> res == Outcome(false, SlotNotFound, None)
      ensures old(GetSlotById(slotId)).Some? && !old(GetSlotById(slotId)).value.isOccupied ==>
        res == Outcome(false, SlotAlreadyEmpty, None) && slots == old(slots)
      ensures res.success <==> old(GetSlotById(slotId)).Some? && old(GetSlotById(slotId)).value.isOccupied
      ensures res.success ==>
        var freed := old(GetSlotById(slotId)).value.(isOccupied := false, vehicleId := None);
        && res == Outcome(true, VehicleRemoved, Some(freed))
        && slots == ReplaceById(old(slots), slotId, freed)
        && GetSlotById(slotId) == Some(freed)
    {
      var found := FindIndexBy(slots, ById, slotId);
      if found.None? {
        return Outcome(false, SlotNotFound, None);
      }
      var i := found.value;
      if !slots[i].isOccupied {
        return Outcome(false, SlotAlreadyEmpty, None);
      }
      var freed := slots[i].(isOccupied := false, vehicleId := None);
      ReplaceKeepsWellFormed(slots, nextSlotId, i, freed);
      slots := slots[i := freed];
      assert WellFormed(slots, nextSlotId);
      res := Outcome(true, VehicleRemoved, Some(freed));
    }
  }
}
