/**
  The vehicle id the registry writes into a slot when a vehicle parks:
  the text `VEHICLE_` followed by the wall-clock time in milliseconds, in decimal.
  The clock reading is a parameter here.
 */
module VehicleIds {

  const Prefix: string := "VEHICLE_"

  predicate IsDigit(c: char) {
    '0' <= c <= '9'
  }

  function DigitChar(d: nat): (c: char)
    requires d < 10
    ensures IsDigit(c)
  {
    "0123456789"[d]
  }

  function DigitValue(c: char): (d: nat)
    requires IsDigit(c)
    ensures d < 10
  {
    (c as int - '0' as int) as nat
  }

  lemma DigitRoundTrip(d: nat)
    requires d < 10
    ensures DigitValue(DigitChar(d)) == d
  {
  }

  /** The decimal text of `n`, without leading zeros (JavaScript's number-to-string
      on a whole number of milliseconds). */
  function Decimal(n: nat): (r: string)
    ensures r != []
    ensures forall i :: 0 <= i < |r| ==> IsDigit(r[i])
    ensures n >= 10 ==> r[0] != '0'
  {
    if n < 10 then [DigitChar(n)] else Decimal(n / 10) + [DigitChar(n % 10)]
  }

  /** Reads a run of decimal digits back as a number. */
  function ParseDecimal(s: string): nat
    requires forall i :: 0 <= i < |s| ==> IsDigit(s[i])
  {
    if s == [] then 0 else ParseDecimal(s[..|s| - 1]) * 10 + DigitValue(s[|s| - 1])
  }

  lemma {:induction false} DecimalRoundTrip(n: nat)
    ensures ParseDecimal(Decimal(n)) == n
  {
    var r := Decimal(n);
    if n < 10 {
      DigitRoundTrip(n);
    } else {
      DecimalRoundTrip(n / 10);
      DigitRoundTrip(n % 10);
      assert r[..|r| - 1] == Decimal(n / 10);
    }
  }

  /** `VEHICLE_${Date.now()}` with the clock reading `now`. */
  function VehicleIdFor(now: nat): (r: string)
    ensures |r| > |Prefix| && r[..|Prefix|] == Prefix
  {
    Prefix + Decimal(now)
  }

  /** Two vehicle ids are equal exactly when they were made at the same millisecond:
      ids made at different times never collide, and two vehicles parked within the
      same millisecond get the same id. */
  lemma VehicleIdsCollideExactlyOnSameTime(a: nat, b: nat)
    ensures VehicleIdFor(a) == VehicleIdFor(b) <==> a == b
  {
    if VehicleIdFor(a) == VehicleIdFor(b) {
      assert Decimal(a) == VehicleIdFor(a)[|Prefix|..];
      assert Decimal(b) == VehicleIdFor(b)[|Prefix|..];
      DecimalRoundTrip(a);
      DecimalRoundTrip(b);
    }
  }
}
