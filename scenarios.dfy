/**
  Callers of the registry that use nothing but its contracts: the worked example
  of two slots, and the park / remove / remove sequence.
 */
module Scenarios {
  import opened Wrappers
  import opened Slots
  import opened ParkingLot
  import VehicleIds

  const Slot101: Slot := Slot(1, 101, true, false, false, None)
  const Slot102: Slot := Slot(2, 102, false, true, false, None)

  /** Two slots, 101 covered and 102 with EV charging, get ids 1 and 2. */
  method CreateTwoSlots() returns (m: ParkingLotManager)
    ensures fresh(m) && m.Valid()
    ensures m.slots == [Slot101, Slot102]
  {
    m := new ParkingLotManager();
    var s1 := m.AddSlot(101, true, false);
    var s2 := m.AddSlot(102, false, true);
  }

  /** An EV request takes slot 102, the only one with EV charging. */
  method ParkFirstEV(m: ParkingLotManager, now: nat) returns (p: Outcome)
    requires m.Valid() && m.slots == [Slot101, Slot102]
    modifies m
    ensures m.Valid()
    ensures p.success && p.slot.Some?
    ensures p.slot.value.id == 2 && p.slot.value.slotNo == 102 && p.slot.value.isOccupied
    ensures p.slot.value.vehicleId == Some(VehicleIds.VehicleIdFor(now))
    ensures m.slots == [Slot101, p.slot.value]
  {
    OnlySlot102HasEV();
    p := m.ParkVehicle(true, false, now);
    ReplaceSlotTwo(p.slot.value);
  }

  lemma OnlySlot102HasEV()
    ensures SortBySlotNo(FilterAvailable([Slot101, Slot102], true, false)) == [Slot102]
  {
    assert FilterAvailable([Slot102], true, false) == [Slot102];
    assert FilterAvailable([Slot101, Slot102], true, false) == [Slot102];
  }

  lemma ReplaceSlotTwo(x: Slot)
    ensures ReplaceById([Slot101, Slot102], 2, x) == [Slot101, x]
  {
  }

  /** Once slot 102 is occupied, an EV request finds nothing and changes nothing. */
  method ParkSecondEV(m: ParkingLotManager, occupied: Slot, now: nat) returns (p: Outcome)
    requires m.Valid() && m.slots == [Slot101, occupied] && occupied.isOccupied
    modifies m
    ensures m.Valid() && m.slots == [Slot101, occupied]
    ensures p == Outcome(false, NoSlotAvailable, None)
  {
    FirstAvailableIsLowest(m.slots, true, false);
    assert m.GetAvailableSlots(true, false) == [];
    p := m.ParkVehicle(true, false, now);
  }

  /** The first EV request takes slot 102; a second EV request then finds nothing. */
  method ParkTwiceForEV(m: ParkingLotManager, now: nat) returns (p1: Outcome, p2: Outcome)
    requires m.Valid() && m.slots == [Slot101, Slot102]
    modifies m
    ensures m.Valid()
    ensures p1.success && p1.slot.Some?
    ensures p1.slot.value.id == 2 && p1.slot.value.slotNo == 102 && p1.slot.value.isOccupied
    ensures p1.slot.value.vehicleId == Some(VehicleIds.VehicleIdFor(now))
    ensures p2 == Outcome(false, NoSlotAvailable, None)
    ensures m.slots == [Slot101, p1.slot.value]
  {
    p1 := ParkFirstEV(m, now);
    p2 := ParkSecondEV(m, p1.slot.value, now);
  }

  /** Removing from slot 2 succeeds once and then reports the slot already empty;
      slot 3 was never issued. */
  method RemoveFromSlotTwo(m: ParkingLotManager, occupied: Slot) returns (r1: Outcome, r2: Outcome, r3: Outcome)
    requires m.Valid() && m.slots == [Slot101, occupied]
    requires occupied.id == 2 && occupied.isOccupied
    modifies m
    ensures r1.success && r1.slot.Some?
    ensures r1.slot.value.slotNo == occupied.slotNo && r1.slot.value.vehicleId == None
    ensures r2 == Outcome(false, SlotAlreadyEmpty, None)
    ensures r3 == Outcome(false, SlotNotFound, None)
  {
    r1 := m.RemoveVehicle(2);
    r2 := m.RemoveVehicle(2);
    r3 := m.RemoveVehicle(3);
  }

  /** The whole worked example, run on one registry. */
  method TwoSlotExample(now: nat) returns (p1: Outcome, p2: Outcome, r1: Outcome, r2: Outcome, r3: Outcome)
    ensures p1.success && p1.slot.Some? && p1.slot.value.slotNo == 102
    ensures p1.slot.value.vehicleId == Some(VehicleIds.VehicleIdFor(now))
    ensures p2 == Outcome(false, NoSlotAvailable, None)
    ensures r1.success && r1.slot.Some? && r1.slot.value.slotNo == 102 && r1.slot.value.vehicleId == None
    ensures r2 == Outcome(false, SlotAlreadyEmpty, None)
    ensures r3 == Outcome(false, SlotNotFound, None)
  {
    var m := CreateTwoSlots();
    p1, p2 := ParkTwiceForEV(m, now);
    r1, r2, r3 := RemoveFromSlotTwo(m, p1.slot.value);
  }

  /** A slot obtained from a successful park can be released exactly once. */
  method ParkThenRemoveTwice(m: ParkingLotManager, needsEV: bool, needsCover: bool, now: nat)
    returns (parked: Outcome, first: Outcome, second: Outcome)
    requires m.Valid()
    modifies m
    ensures m.Valid()
    ensures parked.success ==> first.success && second == Outcome(false, SlotAlreadyEmpty, None)
  {
    parked := m.ParkVehicle(needsEV, needsCover, now);
    if !parked.success {
      return parked, parked, parked;
    }
    var id := parked.slot.value.id;
    first := m.RemoveVehicle(id);
    second := m.RemoveVehicle(id);
  }

  /** Listing all slots twice with nothing in between gives the same sequence. */
  method ListTwice(m: ParkingLotManager) returns (a: seq<Slot>, b: seq<Slot>)
    requires m.Valid()
    modifies m
    ensures m.Valid()
    ensures a == b
  {
    a := m.GetAllSlots();
    SortOfSortedIsIdentity(a);
    b := m.GetAllSlots();
  }
}
