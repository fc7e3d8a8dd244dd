/**
  The checks the create-slot request makes before it asks the registry to add a
  slot. The registry itself accepts any values; it is these checks that keep slot
  numbers distinct and give every slot at least one amenity.
 */
module Boundary {
  import opened Wrappers
  import opened Slots

  const InvalidSlotNumber: string := "Invalid slot number"
  const NoAmenitySelected: string :=
    "Please select at least one option: Is Covered or EV Charging Available"
  const DuplicateSlotNumber: string := "Slot number already exists"

  /** The first failing check's message, or None when the request may go through.
      The slot number is refused only when it is 0 (JavaScript's `!slotNo` on a
      number); negative numbers pass. */
  function ValidateNewSlot(slots: seq<Slot>, slotNo: int, isCovered: bool, isEVCharging: bool)
    : (r: Option<string>)
    ensures r.None? <==>
      slotNo != 0 && (isCovered || isEVCharging) && forall x :: x in slots ==> x.slotNo != slotNo
    ensures r == Some(InvalidSlotNumber) <==> slotNo == 0
    ensures r == Some(NoAmenitySelected) <==> slotNo != 0 && !isCovered && !isEVCharging
    ensures r == Some(DuplicateSlotNumber) <==>
      slotNo != 0 && (isCovered || isEVCharging) && exists x :: x in slots && x.slotNo == slotNo
  {
    if slotNo == 0 then Some(InvalidSlotNumber)
    else if !isCovered && !isEVCharging then Some(NoAmenitySelected)
    else if FindIndexBy(slots, BySlotNo, slotNo).Some? then Some(DuplicateSlotNumber)
    else None
  }

  /** A slot that passed the checks keeps the slot numbers distinct when it is
      appended, and has at least one amenity. */
  lemma AcceptedSlotKeepsSlotNosDistinct(slots: seq<Slot>, x: Slot)
    requires DistinctOn(slots, BySlotNo)
    requires ValidateNewSlot(slots, x.slotNo, x.isCovered, x.isEVCharging).None?
    ensures DistinctOn(slots + [x], BySlotNo)
    ensures x.isCovered || x.isEVCharging
  {
  }
}
