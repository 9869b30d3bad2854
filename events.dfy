/** The event record and the two constant tables of event.go: EventFlag masks,
    used to query a device's event-type capability bits, and EventType codes,
    carried in the Type field of each event record. */
module Events {
  import opened Bits

  type U16 = x: int | 0 <= x < 0x1_0000
  type U64 = x: int | 0 <= x < 0x1_0000_0000_0000_0000
  type I32 = x: int | -0x8000_0000 <= x < 0x8000_0000

  /** One input event: a timestamp of two unsigned 64-bit words (seconds and
      microseconds), a 16-bit type, a 16-bit code and a signed 32-bit value. */
  datatype Event = Event(seconds: U64, microseconds: U64, eventType: U16, code: U16, value: I32)

  /** Bytes each field occupies in the binary record. */
  const TimeWordSize: nat := 8
  const TypeSize: nat := 2
  const CodeSize: nat := 2
  const ValueSize: nat := 4

  /** EventFlag: a mask over the device's event-type capability bits. */
  type EventFlag = nat

  const EV_SYN: EventFlag := 0x0001
  const EV_KEY: EventFlag := 0x0002
  const EV_REL: EventFlag := 0x0004
  const EV_ABS: EventFlag := 0x0008
  const EV_MSC: EventFlag := 0x0010
  const EV_SW: EventFlag := 0x0020
  const EV_LED: EventFlag := 0x0100
  const EV_SND: EventFlag := 0x0200
  const EV_REP: EventFlag := 0x0400
  const EV_FF: EventFlag := 0x0800
  const EV_PWR: EventFlag := 0x1000
  const EV_FF_STATUS: EventFlag := 0x2000

  /** EventType: the code of an event category, as found in Event.eventType. */
  const EV_TYPE_SYN: U16 := 0x00
  const EV_TYPE_KEY: U16 := 0x01
  const EV_TYPE_REL: U16 := 0x02
  const EV_TYPE_ABS: U16 := 0x03
  const EV_TYPE_MSC: U16 := 0x04
  const EV_TYPE_SW: U16 := 0x05
  const EV_TYPE_LED: U16 := 0x11
  const EV_TYPE_SND: U16 := 0x12
  const EV_TYPE_REP: U16 := 0x14
  const EV_TYPE_FF: U16 := 0x15
  const EV_TYPE_PWR: U16 := 0x16
  const EV_TYPE_FF_STATUS: U16 := 0x17

  /** Both tables in declaration order; entry i of one names the same
      category as entry i of the other. */
  const Flags: seq<EventFlag> :=
    [EV_SYN, EV_KEY, EV_REL, EV_ABS, EV_MSC, EV_SW, EV_LED, EV_SND, EV_REP, EV_FF, EV_PWR, EV_FF_STATUS]
  const TypeCodes: seq<U16> :=
    [EV_TYPE_SYN, EV_TYPE_KEY, EV_TYPE_REL, EV_TYPE_ABS, EV_TYPE_MSC, EV_TYPE_SW,
     EV_TYPE_LED, EV_TYPE_SND, EV_TYPE_REP, EV_TYPE_FF, EV_TYPE_PWR, EV_TYPE_FF_STATUS]

  /** The bit each flag sets, in table order. */
  const FlagBits: seq<nat> := [0, 1, 2, 3, 4, 5, 8, 9, 10, 11, 12, 13]

  /** x has exactly one bit set, bit n. */
  predicate IsSingleBit(x: nat, n: nat) {
    x == Pow2(n) && BitLen(x) == n + 1
  }

  /** Every flag has exactly one bit set: bits 0..5 and then 8..13. */
  lemma FlagsAreSingleBits()
    ensures |Flags| == |FlagBits| == |TypeCodes| == 12
    ensures forall i :: 0 <= i < |Flags| ==> IsSingleBit(Flags[i], FlagBits[i])
  {
    assert Pow2(4) == 0x10;
    assert Pow2(8) == 0x100;
    assert Pow2(12) == 0x1000;
    forall i | 0 <= i < |Flags|
      ensures IsSingleBit(Flags[i], FlagBits[i])
    {
      BitLenPow2(FlagBits[i]);
    }
  }

  /** No two flags are equal. */
  lemma FlagsDistinct()
    ensures forall i, j :: 0 <= i < j < |Flags| ==> Flags[i] != Flags[j]
  {
  }

  /** The first six flags are 1 << their type code; the last six are not,
      since their codes run from 0x11 to 0x17 while their bits run from 8 to 13. */
  lemma FlagsVersusTypeCodes()
    ensures forall i :: 0 <= i < 6 ==> Flags[i] == Pow2(TypeCodes[i])
    ensures forall i :: 6 <= i < 12 ==> FlagBits[i] == i + 2 && Flags[i] != Pow2(TypeCodes[i])
  {
  }

  /** No two type codes are equal. */
  lemma TypeCodesDistinct()
    ensures forall i, j :: 0 <= i < j < |TypeCodes| ==> TypeCodes[i] != TypeCodes[j]
  {
  }
}
