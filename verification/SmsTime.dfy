/** Service-centre timestamps (3GPP TS 23.040 section 9.2.3.11). */
module SmsTime {
  import opened Bits
  import opened Wrappers

  /** Local date and time as stated, and seconds east of UTC. */
  datatype Timestamp = Timestamp(year: int, month: nat, day: nat, hour: nat, minute: nat, second: nat, offset: int)

  /** A number of two digits, the tens in the low half. */
  function Decimal(octet: Byte): Option<nat> {
    if octet % 16 > 9 || octet / 16 > 9 then None else Some(octet % 16 * 10 + octet / 16)
  }

  /** Quarters of an hour, the sign in bit 3. */
  function ZoneOf(octet: Byte): Option<int> {
    var negative := octet / 8 % 2 == 1;
    match Decimal(if negative then octet - 8 else octet)
    case None => None
    case Some(quarters) =>
      if quarters > 56 then None else Some(if negative then -900 * quarters else 900 * quarters)
  }

  function YearOf(digits: nat): nat {
    if digits >= 90 then 1900 + digits else 2000 + digits
  }

  predicate InRange(t: Timestamp) {
    1 <= t.month <= 12 && 1 <= t.day <= 31 && t.hour <= 23 && t.minute <= 59 && t.second <= 60
  }

  function TimeOf(value: seq<Byte>): Option<Timestamp> {
    if |value| != 7 || (exists i :: 0 <= i < 6 && Decimal(value[i]).None?) || ZoneOf(value[6]).None? then None
    else
      var t := Timestamp(YearOf(Decimal(value[0]).value), Decimal(value[1]).value, Decimal(value[2]).value,
                         Decimal(value[3]).value, Decimal(value[4]).value, Decimal(value[5]).value, ZoneOf(value[6]).value);
      if InRange(t) then Some(t) else None
  }

  method DecodeTimestamp(value: seq<Byte>) returns (r: Option<Timestamp>)
    ensures r == TimeOf(value)
  {
    if |value| != 7 {
      return None;
    }
    var parts := new nat[6](_ => 0);
    for index := 0 to 6
      invariant forall i :: 0 <= i < index ==> Decimal(value[i]) == Some(parts[i])
    {
      var parsed := Decimal(value[index]);
      if parsed.None? {
        return None;
      }
      parts[index] := parsed.value;
    }
    var zone := ZoneOf(value[6]);
    if zone.None? {
      return None;
    }
    var t := Timestamp(YearOf(parts[0]), parts[1], parts[2], parts[3], parts[4], parts[5], zone.value);
    return if InRange(t) then Some(t) else None;
  }

  // ---- The other way ----

  /** What seven octets can say. */
  predicate Expressible(t: Timestamp) {
    InRange(t) && 1990 <= t.year < 2090 && t.offset % 900 == 0 && -56 * 900 <= t.offset <= 56 * 900
  }

  function Swapped(n: nat): Byte
    requires n < 100
  {
    16 * (n % 10) + n / 10
  }

  function ZoneOctet(offset: int): Byte
    requires -56 * 900 <= offset <= 56 * 900
  {
    if offset < 0 then Swapped(-offset / 900) + 8 else Swapped(offset / 900)
  }

  function Stamp(t: Timestamp): seq<Byte>
    requires Expressible(t)
  {
    [Swapped(t.year % 100), Swapped(t.month), Swapped(t.day), Swapped(t.hour), Swapped(t.minute), Swapped(t.second),
     ZoneOctet(t.offset)]
  }

  lemma SwappedReadBack(n: nat)
    requires n < 100
    ensures Decimal(Swapped(n)) == Some(n)
  {
    DivModUnique(Swapped(n), 16, n % 10, n / 10);
  }

  lemma ZoneReadBack(offset: int)
    requires offset % 900 == 0 && -56 * 900 <= offset <= 56 * 900
    ensures ZoneOf(ZoneOctet(offset)) == Some(offset)
  {
    hide Decimal, Swapped;
    var quarters: nat := (if offset < 0 then -offset else offset) / 900;
    SwappedReadBack(quarters);
    SignBit(quarters);
  }

  /** Up to 79 leaves the sign bit clear. */
  lemma SignBit(n: nat)
    requires n < 80
    ensures Swapped(n) / 8 % 2 == 0 && Swapped(n) + 8 < 256 && (Swapped(n) + 8) / 8 % 2 == 1
  {
    assert Swapped(n) / 8 == 2 * (n % 10);
  }

  /** Exactly the expressible times are read, each from its own octets. */
  lemma TimestampRoundTrip(t: Timestamp)
    requires Expressible(t)
    ensures TimeOf(Stamp(t)) == Some(t)
  {
    hide Decimal, Swapped, ZoneOf, ZoneOctet;
    SwappedReadBack(t.year % 100);
    SwappedReadBack(t.month);
    SwappedReadBack(t.day);
    SwappedReadBack(t.hour);
    SwappedReadBack(t.minute);
    SwappedReadBack(t.second);
    ZoneReadBack(t.offset);
    var octets := Stamp(t);
    assert forall i :: 0 <= i < 6 ==> Decimal(octets[i]).Some?;
    assert YearOf(t.year % 100) == t.year;
  }

  lemma OnlyExpressible(value: seq<Byte>)
    ensures TimeOf(value).Some? ==> Expressible(TimeOf(value).value)
  {
    if TimeOf(value).Some? {
      assert Decimal(value[0]).Some?;
    }
  }
}
