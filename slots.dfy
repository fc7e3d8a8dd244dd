/**
  Slot records of the parking-lot registry and the side-effect-free queries over a
  sequence of them: the availability filter, the ordering by slot number (the
  registry's `sort` with a `slotNo` comparator, which is stable), and the lookup
  of a slot by its id.
 */
module Slots {
  import opened Wrappers

  /** One parking slot. `id` and the three attributes never change after creation;
      `isOccupied` and `vehicleId` change when a vehicle parks or leaves. */
  datatype Slot = Slot(
    id: int,
    slotNo: int,
    isCovered: bool,
    isEVCharging: bool,
    isOccupied: bool,
    vehicleId: Option<string>)

  /** The availability filter: free, and EV charging / covered when asked for. */
  predicate Matches(x: Slot, needsEV: bool, needsCover: bool) {
    !x.isOccupied && (!needsEV || x.isEVCharging) && (!needsCover || x.isCovered)
  }

  /** A slot is occupied exactly when it holds a vehicle id. */
  predicate OccupancyConsistent(s: seq<Slot>) {
    forall i :: 0 <= i < |s| ==> (s[i].isOccupied <==> s[i].vehicleId.Some?)
  }

  /** Ascending by slot number. */
  predicate SortedBySlotNo(s: seq<Slot>) {
    forall i, j :: 0 <= i < j < |s| ==> s[i].slotNo <= s[j].slotNo
  }

  /** Strictly ascending by slot number. */
  predicate StrictlySortedBySlotNo(s: seq<Slot>) {
    forall i, j :: 0 <= i < j < |s| ==> s[i].slotNo < s[j].slotNo
  }

  /** The two integer keys a slot is identified by. */
  datatype Key = ById | BySlotNo

  function KeyOf(x: Slot, k: Key): int {
    match k
    case ById => x.id
    case BySlotNo => x.slotNo
  }

  /** No two positions of `s` share the key `k`. */
  predicate DistinctOn(s: seq<Slot>, k: Key) {
    forall i, j :: 0 <= i < j < |s| ==> KeyOf(s[i], k) != KeyOf(s[j], k)
  }

  /** Every id lies in [1, next). */
  predicate IdsBelow(s: seq<Slot>, next: int) {
    forall i :: 0 <= i < |s| ==> 1 <= s[i].id < next
  }

  /** The registry's per-sequence invariant: ids in [1, next), each held once, and
      occupancy matching the vehicle id. */
  predicate WellFormed(s: seq<Slot>, next: int) {
    IdsBelow(s, next) && DistinctOn(s, ById) && OccupancyConsistent(s)
  }

  /** The slots of `s` whose slot number is `n`, in their order in `s`. */
  function WithSlotNo(s: seq<Slot>, n: int): seq<Slot> {
    if s == [] then []
    else if s[0].slotNo == n then [s[0]] + WithSlotNo(s[1..], n)
    else WithSlotNo(s[1..], n)
  }

  // ---------------------------------------------------------------------------
  // filter

  /** `slots.filter(...)` with the availability predicate: keeps the matching
      slots in their stored order. */
  function FilterAvailable(s: seq<Slot>, needsEV: bool, needsCover: bool): (r: seq<Slot>)
    ensures forall x :: x in r <==> x in s && Matches(x, needsEV, needsCover)
    ensures |r| <= |s|
  {
    if s == [] then []
    else (if Matches(s[0], needsEV, needsCover) then [s[0]] else [])
         + FilterAvailable(s[1..], needsEV, needsCover)
  }

  /** The filter keeps every matching slot as many times as it is stored, and no
      other slot. */
  lemma {:induction false} FilterCounts(s: seq<Slot>, needsEV: bool, needsCover: bool)
    ensures forall x :: multiset(FilterAvailable(s, needsEV, needsCover))[x]
                     == if Matches(x, needsEV, needsCover) then multiset(s)[x] else 0
  {
    if s != [] {
      assert s == [s[0]] + s[1..];
      FilterCounts(s[1..], needsEV, needsCover);
    }
  }

  lemma Associative(p: seq<Slot>, q: seq<Slot>, r: seq<Slot>)
    ensures p + (q + r) == (p + q) + r
  {
  }

  /** Selecting by slot number distributes over concatenation. */
  lemma {:induction false} WithSlotNoAppend(a: seq<Slot>, b: seq<Slot>, n: int)
    ensures WithSlotNo(a + b, n) == WithSlotNo(a, n) + WithSlotNo(b, n)
  {
    if a == [] {
      assert a + b == b;
    } else {
      assert a + b == [a[0]] + (a[1..] + b);
      assert a == [a[0]] + a[1..];
      WithSlotNoAppend(a[1..], b, n);
      WithSlotNoCons(a[0], a[1..] + b, n);
      WithSlotNoCons(a[0], a[1..], n);
      if a[0].slotNo == n {
        assert [a[0]] + (WithSlotNo(a[1..], n) + WithSlotNo(b, n))
            == ([a[0]] + WithSlotNo(a[1..], n)) + WithSlotNo(b, n);
      }
    }
  }

  /** The filter distributes over concatenation. */
  lemma {:induction false} FilterAppend(a: seq<Slot>, b: seq<Slot>, needsEV: bool, needsCover: bool)
    ensures FilterAvailable(a + b, needsEV, needsCover)
         == FilterAvailable(a, needsEV, needsCover) + FilterAvailable(b, needsEV, needsCover)
  {
    if a == [] {
      assert a + b == b;
    } else {
      var h := if Matches(a[0], needsEV, needsCover) then [a[0]] else [];
      assert (a + b)[0] == a[0] && (a + b)[1..] == a[1..] + b;
      assert FilterAvailable(a + b, needsEV, needsCover) == h + FilterAvailable(a[1..] + b, needsEV, needsCover);
      assert FilterAvailable(a, needsEV, needsCover) == h + FilterAvailable(a[1..], needsEV, needsCover);
      FilterAppend(a[1..], b, needsEV, needsCover);
      Associative(h, FilterAvailable(a[1..], needsEV, needsCover), FilterAvailable(b, needsEV, needsCover));
    }
  }

  /** The filter keeps stored order: the matching slots with a given slot number
      are, in order, the matching ones among the stored slots with that number. */
  lemma {:induction false} FilterKeepsOrder(s: seq<Slot>, needsEV: bool, needsCover: bool, n: int)
    ensures WithSlotNo(FilterAvailable(s, needsEV, needsCover), n)
         == FilterAvailable(WithSlotNo(s, n), needsEV, needsCover)
  {
    if s != [] {
      var h := if Matches(s[0], needsEV, needsCover) then [s[0]] else [];
      var g := if s[0].slotNo == n then [s[0]] else [];
      var rest := FilterAvailable(s[1..], needsEV, needsCover);
      assert FilterAvailable(s, needsEV, needsCover) == h + rest;
      assert WithSlotNo(s, n) == g + WithSlotNo(s[1..], n);
      WithSlotNoAppend(h, rest, n);
      FilterAppend(g, WithSlotNo(s[1..], n), needsEV, needsCover);
      FilterKeepsOrder(s[1..], needsEV, needsCover, n);
      assert WithSlotNo(h, n) == FilterAvailable(g, needsEV, needsCover);
    }
  }

  // ---------------------------------------------------------------------------
  // stable sort by slot number

  /** Places `x` in front of the first element whose slot number is not smaller. */
  function InsertBySlotNo(x: Slot, t: seq<Slot>): (r: seq<Slot>)
    ensures multiset(r) == multiset(t) + multiset{x}
    ensures |r| == |t| + 1
  {
    if t == [] || x.slotNo <= t[0].slotNo then [x] + t
    else
      assert t == [t[0]] + t[1..];
      [t[0]] + InsertBySlotNo(x, t[1..])
  }

  lemma InsertMember(x: Slot, t: seq<Slot>, y: Slot)
    requires y in InsertBySlotNo(x, t)
    ensures y == x || y in t
  {
  }

  /** A slot in front of a sorted sequence whose slot numbers it does not exceed
      gives a sorted sequence. */
  lemma SortedCons(a: Slot, u: seq<Slot>)
    requires SortedBySlotNo(u)
    requires forall y :: y in u ==> a.slotNo <= y.slotNo
    ensures SortedBySlotNo([a] + u)
  {
  }

  lemma {:induction false} InsertKeepsSorted(x: Slot, t: seq<Slot>)
    requires SortedBySlotNo(t)
    ensures SortedBySlotNo(InsertBySlotNo(x, t))
  {
    if t != [] && x.slotNo > t[0].slotNo {
      var rest := InsertBySlotNo(x, t[1..]);
      assert SortedBySlotNo(t[1..]);
      InsertKeepsSorted(x, t[1..]);
      forall y | y in rest ensures t[0].slotNo <= y.slotNo {
        InsertMember(x, t[1..], y);
        if y != x {
          var m :| 0 <= m < |t[1..]| && t[1..][m] == y;
          assert t[m + 1] == y;
        }
      }
      SortedCons(t[0], rest);
    }
  }

  /** `sort((a, b) => a.slotNo - b.slotNo)`: a sorted permutation of `s`. */
  function SortBySlotNo(s: seq<Slot>): (r: seq<Slot>)
    ensures multiset(r) == multiset(s)
    ensures |r| == |s|
    ensures SortedBySlotNo(r)
  {
    if s == [] then []
    else
      assert s == [s[0]] + s[1..];
      InsertKeepsSorted(s[0], SortBySlotNo(s[1..]));
      InsertBySlotNo(s[0], SortBySlotNo(s[1..]))
  }

  /** Whatever holds of every element of `s` holds of every element of its sorted form. */
  lemma SortedMembers(s: seq<Slot>, x: Slot)
    requires x in SortBySlotNo(s)
    ensures x in s
  {
    assert x in multiset(SortBySlotNo(s));
  }

  /** The slot-number selection of a sequence with one slot in front. */
  lemma WithSlotNoCons(a: Slot, u: seq<Slot>, n: int)
    ensures a.slotNo == n ==> WithSlotNo([a] + u, n) == [a] + WithSlotNo(u, n)
    ensures a.slotNo != n ==> WithSlotNo([a] + u, n) == WithSlotNo(u, n)
  {
  }

  /** Inserting `x` adds it, and nothing else, among the slots with its slot number,
      and adds it in front of those already there. */
  lemma {:induction false} InsertWithSlotNo(x: Slot, t: seq<Slot>, n: int)
    ensures x.slotNo == n ==> WithSlotNo(InsertBySlotNo(x, t), n) == [x] + WithSlotNo(t, n)
    ensures x.slotNo != n ==> WithSlotNo(InsertBySlotNo(x, t), n) == WithSlotNo(t, n)
  {
    if t == [] || x.slotNo <= t[0].slotNo {
      WithSlotNoCons(x, t, n);
    } else {
      var rest := InsertBySlotNo(x, t[1..]);
      assert InsertBySlotNo(x, t) == [t[0]] + rest;
      assert t == [t[0]] + t[1..];
      InsertWithSlotNo(x, t[1..], n);
      WithSlotNoCons(t[0], rest, n);
      WithSlotNoCons(t[0], t[1..], n);
    }
  }

  /** Stability: for every slot number, the slots carrying it keep their relative order. */
  lemma {:induction false} SortIsStable(s: seq<Slot>, n: int)
    ensures WithSlotNo(SortBySlotNo(s), n) == WithSlotNo(s, n)
  {
    if s != [] {
      SortIsStable(s[1..], n);
      InsertWithSlotNo(s[0], SortBySlotNo(s[1..]), n);
    }
  }

  /** Sorting an already sorted sequence leaves it as it is, so that listing all
      slots twice with nothing in between gives the same sequence twice. */
  lemma {:induction false} SortOfSortedIsIdentity(s: seq<Slot>)
    requires SortedBySlotNo(s)
    ensures SortBySlotNo(s) == s
  {
    if s != [] {
      assert SortedBySlotNo(s[1..]);
      SortOfSortedIsIdentity(s[1..]);
      assert s == [s[0]] + s[1..];
    }
  }

  /** A key that is distinct before sorting is distinct after it. */
  lemma {:induction false} InsertKeepsDistinct(x: Slot, t: seq<Slot>, k: Key)
    requires DistinctOn(t, k)
    requires forall y :: y in t ==> KeyOf(y, k) != KeyOf(x, k)
    ensures DistinctOn(InsertBySlotNo(x, t), k)
  {
    if t == [] || x.slotNo <= t[0].slotNo {
      var r := [x] + t;
      forall i, j | 0 <= i < j < |r| ensures KeyOf(r[i], k) != KeyOf(r[j], k) {
        if i > 0 {
          assert r[i] == t[i - 1] && r[j] == t[j - 1];
        } else {
          assert r[j] == t[j - 1];
        }
      }
    } else {
      InsertKeepsDistinct(x, t[1..], k);
      var rest := InsertBySlotNo(x, t[1..]);
      var r := [t[0]] + rest;
      forall i, j | 0 <= i < j < |r| ensures KeyOf(r[i], k) != KeyOf(r[j], k) {
        if i > 0 {
          assert r[i] == rest[i - 1] && r[j] == rest[j - 1];
        } else {
          assert r[j] in multiset(rest);
          assert r[j] == x || r[j] in multiset(t[1..]);
          if r[j] != x {
            var m :| 0 <= m < |t[1..]| && t[1..][m] == r[j];
            assert t[m + 1] == r[j];
          }
        }
      }
    }
  }

  lemma {:induction false} SortKeepsDistinct(s: seq<Slot>, k: Key)
    requires DistinctOn(s, k)
    ensures DistinctOn(SortBySlotNo(s), k)
  {
    if s != [] {
      assert DistinctOn(s[1..], k);
      SortKeepsDistinct(s[1..], k);
      forall y | y in SortBySlotNo(s[1..]) ensures KeyOf(y, k) != KeyOf(s[0], k) {
        SortedMembers(s[1..], y);
        var m :| 0 <= m < |s[1..]| && s[1..][m] == y;
        assert s[m + 1] == y;
      }
      InsertKeepsDistinct(s[0], SortBySlotNo(s[1..]), k);
    }
  }

  /** Sorting keeps the registry invariant. */
  lemma SortKeepsWellFormed(s: seq<Slot>, next: int)
    requires WellFormed(s, next)
    ensures WellFormed(SortBySlotNo(s), next)
  {
    var r := SortBySlotNo(s);
    forall i | 0 <= i < |r|
      ensures 1 <= r[i].id < next
      ensures r[i].isOccupied <==> r[i].vehicleId.Some?
    {
      SortedMembers(s, r[i]);
      var m :| 0 <= m < |s| && s[m] == r[i];
    }
    SortKeepsDistinct(s, ById);
  }

  /** Two strictly sorted sequences holding the same slots start with the same slot. */
  lemma StrictlySortedSameHead(a: seq<Slot>, b: seq<Slot>)
    requires StrictlySortedBySlotNo(a) && StrictlySortedBySlotNo(b)
    requires multiset(a) == multiset(b)
    requires a != []
    ensures b != [] && a[0] == b[0]
  {
    assert a[0] in multiset(b) && b != [] && b[0] in multiset(a);
    var j :| 0 <= j < |b| && b[j] == a[0];
    var i :| 0 <= i < |a| && a[i] == b[0];
  }

  lemma SameTails(a: seq<Slot>, b: seq<Slot>)
    requires a != [] && b != [] && a[0] == b[0]
    requires multiset(a) == multiset(b)
    ensures multiset(a[1..]) == multiset(b[1..])
  {
    assert a == [a[0]] + a[1..] && b == [b[0]] + b[1..];
    assert multiset(a[1..]) == multiset(a) - multiset{a[0]};
    assert multiset(b[1..]) == multiset(b) - multiset{a[0]};
  }

  /** Two strictly sorted sequences holding the same slots are the same sequence. */
  lemma {:induction false} StrictlySortedUnique(a: seq<Slot>, b: seq<Slot>)
    requires StrictlySortedBySlotNo(a) && StrictlySortedBySlotNo(b)
    requires multiset(a) == multiset(b)
    ensures a == b
  {
    if a == [] {
      assert |b| == |multiset(b)| == 0;
    } else {
      StrictlySortedSameHead(a, b);
      SameTails(a, b);
      assert StrictlySortedBySlotNo(a[1..]) && StrictlySortedBySlotNo(b[1..]);
      StrictlySortedUnique(a[1..], b[1..]);
      assert a == [a[0]] + a[1..] && b == [b[0]] + b[1..];
    }
  }

  /** With distinct slot numbers (the create-slot boundary guarantees them), the
      ordered listing depends only on which slots are held, not on the order the
      registry holds them in (for instance after an earlier listing reordered it). */
  lemma ListingIndependentOfStoredOrder(a: seq<Slot>, b: seq<Slot>)
    requires multiset(a) == multiset(b)
    requires DistinctOn(a, BySlotNo) && DistinctOn(b, BySlotNo)
    ensures SortBySlotNo(a) == SortBySlotNo(b)
  {
    SortKeepsDistinct(a, BySlotNo);
    SortKeepsDistinct(b, BySlotNo);
    StrictlySortedUnique(SortBySlotNo(a), SortBySlotNo(b));
  }

  /** The slots with their ids erased (set to 0): what the create-slot requests
      supplied, together with the occupancy. */
  function Unnumbered(s: seq<Slot>): (r: seq<Slot>)
    ensures |r| == |s|
    ensures forall i :: 0 <= i < |s| ==> r[i] == s[i].(id := 0)
  {
    if s == [] then [] else [s[0].(id := 0)] + Unnumbered(s[1..])
  }

  /** Insertion looks only at slot numbers, so it commutes with erasing ids. */
  lemma {:induction false} InsertIgnoresIds(x: Slot, t: seq<Slot>)
    ensures Unnumbered(InsertBySlotNo(x, t)) == InsertBySlotNo(x.(id := 0), Unnumbered(t))
  {
    if t != [] && x.slotNo > t[0].slotNo {
      InsertIgnoresIds(x, t[1..]);
      assert Unnumbered(t)[1..] == Unnumbered(t[1..]);
    }
  }

  lemma {:induction false} SortIgnoresIds(s: seq<Slot>)
    ensures Unnumbered(SortBySlotNo(s)) == SortBySlotNo(Unnumbered(s))
  {
    if s != [] {
      SortIgnoresIds(s[1..]);
      InsertIgnoresIds(s[0], SortBySlotNo(s[1..]));
      assert Unnumbered(s)[1..] == Unnumbered(s[1..]);
    }
  }

  /** Two registries built from the same create-slot requests in different orders
      hold different ids, but list the same slots in the same order once the ids
      are set aside, provided slot numbers are distinct. */
  lemma ListingIndependentOfCreationOrder(a: seq<Slot>, b: seq<Slot>)
    requires multiset(Unnumbered(a)) == multiset(Unnumbered(b))
    requires DistinctOn(a, BySlotNo) && DistinctOn(b, BySlotNo)
    ensures Unnumbered(SortBySlotNo(a)) == Unnumbered(SortBySlotNo(b))
  {
    SortIgnoresIds(a);
    SortIgnoresIds(b);
    assert DistinctOn(Unnumbered(a), BySlotNo);
    assert DistinctOn(Unnumbered(b), BySlotNo);
    ListingIndependentOfStoredOrder(Unnumbered(a), Unnumbered(b));
  }

  // ---------------------------------------------------------------------------
  // lookup

  /** `slots.find(s => s.id === id)` (key `ById`) and `slots.find(s => s.slotNo ===
      slotNo)` (key `BySlotNo`), as the position found: the first one holding the
      value under the key. */
  function FindIndexBy(s: seq<Slot>, k: Key, v: int): (r: Option<nat>)
    ensures r.Some? ==> r.value < |s| && KeyOf(s[r.value], k) == v
    ensures r.Some? ==> forall j :: 0 <= j < r.value ==> KeyOf(s[j], k) != v
    ensures r.None? ==> forall j :: 0 <= j < |s| ==> KeyOf(s[j], k) != v
  {
    if s == [] then None
    else if KeyOf(s[0], k) == v then Some(0)
    else match FindIndexBy(s[1..], k, v)
      case None => None
      case Some(i) => Some(i + 1)
  }

  /** With distinct ids, the position found for a held slot's id is that slot's position. */
  lemma FindIndexOfMember(s: seq<Slot>, i: nat)
    requires DistinctOn(s, ById)
    requires i < |s|
    ensures FindIndexBy(s, ById, s[i].id) == Some(i)
  {
  }

  /** `s` with every slot whose id is `id` replaced by `x`. */
  function ReplaceById(s: seq<Slot>, id: int, x: Slot): (r: seq<Slot>)
    ensures |r| == |s|
    ensures forall j :: 0 <= j < |s| ==> r[j] == if s[j].id == id then x else s[j]
  {
    seq(|s|, j requires 0 <= j < |s| => if s[j].id == id then x else s[j])
  }

  /** Replacing the slot at `i` by one with the same id and consistent occupancy
      keeps the registry invariant, and changes no position that holds another id. */
  lemma ReplaceKeepsWellFormed(s: seq<Slot>, next: int, i: nat, x: Slot)
    requires WellFormed(s, next)
    requires i < |s| && x.id == s[i].id
    requires x.isOccupied <==> x.vehicleId.Some?
    ensures WellFormed(s[i := x], next)
    ensures s[i := x] == ReplaceById(s, x.id, x)
    ensures FindIndexBy(s[i := x], ById, x.id) == Some(i)
  {
  }

  // ---------------------------------------------------------------------------
  // allocation choice

  lemma SortedHeadIsLowest(r: seq<Slot>, x: Slot)
    requires SortedBySlotNo(r) && x in r
    ensures r[0].slotNo <= x.slotNo
  {
  }

  lemma WithSlotNoOfHead(r: seq<Slot>)
    requires r != []
    ensures [r[0]] <= WithSlotNo(r, r[0].slotNo)
  {
  }

  /** The sorted list of available slots starts with a matching free slot of the
      lowest slot number; among the stored slots with that number it is the first
      matching one in stored order. It is empty exactly when no slot matches. */
  lemma FirstAvailableIsLowest(s: seq<Slot>, needsEV: bool, needsCover: bool)
    ensures var r := SortBySlotNo(FilterAvailable(s, needsEV, needsCover));
      (r == [] <==> forall x :: x in s ==> !Matches(x, needsEV, needsCover))
      && (r != [] ==>
            r[0] in s && Matches(r[0], needsEV, needsCover)
            && (forall x :: x in s && Matches(x, needsEV, needsCover) ==> r[0].slotNo <= x.slotNo)
            && [r[0]] <= FilterAvailable(WithSlotNo(s, r[0].slotNo), needsEV, needsCover))
  {
    var f := FilterAvailable(s, needsEV, needsCover);
    var r := SortBySlotNo(f);
    if r != [] {
      SortedMembers(f, r[0]);
      forall x | x in s && Matches(x, needsEV, needsCover) ensures r[0].slotNo <= x.slotNo {
        assert x in multiset(r);
        SortedHeadIsLowest(r, x);
      }
      SortIsStable(f, r[0].slotNo);
      WithSlotNoOfHead(r);
      FilterKeepsOrder(s, needsEV, needsCover, r[0].slotNo);
    }
  }

  /** With distinct ids, looking up the id of the chosen slot finds the stored
      slot itself. */
  lemma ChosenIsStored(s: seq<Slot>, next: int, needsEV: bool, needsCover: bool)
    requires WellFormed(s, next)
    requires SortBySlotNo(FilterAvailable(s, needsEV, needsCover)) != []
    ensures var chosen := SortBySlotNo(FilterAvailable(s, needsEV, needsCover))[0];
      FindIndexBy(s, ById, chosen.id).Some? && s[FindIndexBy(s, ById, chosen.id).value] == chosen
  {
    var chosen := SortBySlotNo(FilterAvailable(s, needsEV, needsCover))[0];
    SortedMembers(FilterAvailable(s, needsEV, needsCover), chosen);
    var k :| 0 <= k < |s| && s[k] == chosen;
    FindIndexOfMember(s, k);
  }

  /** Occupying or freeing the chosen slot: the chosen slot is the stored one at the
      position its id is found, and giving it a consistent occupancy there keeps
      the invariant and changes that slot only. */
  lemma ParkChoice(s: seq<Slot>, next: int, needsEV: bool, needsCover: bool, vehicleId: string)
    requires WellFormed(s, next)
    requires SortBySlotNo(FilterAvailable(s, needsEV, needsCover)) != []
    ensures var chosen := SortBySlotNo(FilterAvailable(s, needsEV, needsCover))[0];
      var parked := chosen.(isOccupied := true, vehicleId := Some(vehicleId));
      var i := FindIndexBy(s, ById, chosen.id);
      && chosen in s
      && Matches(chosen, needsEV, needsCover)
      && (forall x :: x in s && Matches(x, needsEV, needsCover) ==> chosen.slotNo <= x.slotNo)
      && [chosen] <= FilterAvailable(WithSlotNo(s, chosen.slotNo), needsEV, needsCover)
      && i.Some? && i.value < |s|
      && WellFormed(s[i.value := parked], next)
      && s[i.value := parked] == ReplaceById(s, chosen.id, parked)
      && FindIndexBy(s[i.value := parked], ById, chosen.id) == Some(i.value)
  {
    var chosen := SortBySlotNo(FilterAvailable(s, needsEV, needsCover))[0];
    FirstAvailableIsLowest(s, needsEV, needsCover);
    ChosenIsStored(s, next, needsEV, needsCover);
    var i := FindIndexBy(s, ById, chosen.id).value;
    ReplaceKeepsWellFormed(s, next, i, chosen.(isOccupied := true, vehicleId := Some(vehicleId)));
  }
}
