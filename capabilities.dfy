/** device-capabilities.go: a device's event-type mask and its key mask,
    a list of segments, with the two queries the classifiers use. */
module Capabilities {
  import opened Bits
  import opened Events

  /** EventTypes is the single segment read from capabilities/ev; KeyTypes
      the segments read from capabilities/key, in the order readBitMasks
      returned them. Both are non-negative big integers. */
  datatype DeviceCapabilities = DeviceCapabilities(eventTypes: nat, keyTypes: seq<nat>) {

    /** SupportsEvent: the mask test `EventTypes & flag == flag`. The argument
        is a flag mask such as EV_KEY, not a bit index; it is supported exactly
        when every bit set in it is set in the event-type mask. */
    function SupportsEvent(flag: EventFlag): (supported: bool)
      ensures supported <==> BitsWithin(flag, eventTypes)
    {
      AndIsSubset(eventTypes, flag);
      And(eventTypes, flag) == flag
    }
  }

  /** What SupportsKey answers: walk the segments, each covering as many key
      codes as its value has binary digits (BitLen), and test the bit of the
      segment whose range holds the key code. */
  function KeySupported(segments: seq<nat>, keyCode: nat): (supported: bool) {
    if segments == [] then false
    else if keyCode < BitLen(segments[0]) then Bit(segments[0], keyCode) == 1
    else KeySupported(segments[1..], keyCode - BitLen(segments[0]))
  }

  /** SupportsKey, with its running bit offset. Go's big.Int.Bit panics on a
      negative index, so the key code is a natural number. */
  method SupportsKey(caps: DeviceCapabilities, keyCode: nat) returns (supported: bool)
    ensures supported == KeySupported(caps.keyTypes, keyCode)
  {
    var bitOffset := 0;
    for i := 0 to |caps.keyTypes|
      invariant bitOffset <= keyCode
      invariant KeySupported(caps.keyTypes[i..], keyCode - bitOffset) == KeySupported(caps.keyTypes, keyCode)
    {
      var field := caps.keyTypes[i];
      var bitsInField := BitLen(field);
      assert caps.keyTypes[i..][1..] == caps.keyTypes[i + 1..];
      if keyCode < bitOffset + bitsInField {
        return Bit(field, keyCode - bitOffset) == 1;
      }
      bitOffset := bitOffset + bitsInField;
    }
    return false;
  }

  /** The first key code of segment i: the bit lengths of the segments before it, summed. */
  function Offset(segments: seq<nat>, i: nat): (offset: nat)
    requires i <= |segments|
  {
    if i == 0 then 0 else Offset(segments, i - 1) + BitLen(segments[i - 1])
  }

  /** The number of key codes the segments cover. */
  function TotalBits(segments: seq<nat>): (total: nat) {
    Offset(segments, |segments|)
  }

  lemma {:induction false} OffsetOfTail(segments: seq<nat>, i: nat)
    requires 0 < i <= |segments|
    ensures Offset(segments, i) == BitLen(segments[0]) + Offset(segments[1..], i - 1)
  {
    if i > 1 {
      OffsetOfTail(segments, i - 1);
    }
  }

  /** Key code k, with off_i <= k < off_i + BitLen(seg_i), is answered by bit
      k - off_i of segment i. */
  lemma {:induction false} KeyInSegment(segments: seq<nat>, i: nat, keyCode: nat)
    requires i < |segments|
    requires Offset(segments, i) <= keyCode < Offset(segments, i) + BitLen(segments[i])
    ensures KeySupported(segments, keyCode) == (Bit(segments[i], keyCode - Offset(segments, i)) == 1)
  {
    if i > 0 {
      OffsetOfTail(segments, i);
      KeyInSegment(segments[1..], i - 1, keyCode - BitLen(segments[0]));
    }
  }

  /** No key code at or past the total bit length is supported; in particular
      none is when there are no segments. */
  lemma {:induction false} KeyBeyondSegments(segments: seq<nat>, keyCode: nat)
    requires keyCode >= TotalBits(segments)
    ensures !KeySupported(segments, keyCode)
  {
    if segments != [] {
      OffsetOfTail(segments, |segments|);
      KeyBeyondSegments(segments[1..], keyCode - BitLen(segments[0]));
    }
  }

  /** The last key code of a non-zero segment's range is always supported,
      since the top bit of a non-zero value is set. */
  lemma {:induction false} TopOfSegmentSupported(segments: seq<nat>, i: nat)
    requires i < |segments| && segments[i] != 0
    ensures KeySupported(segments, Offset(segments, i) + BitLen(segments[i]) - 1)
  {
    if i == 0 {
      TopBitSet(segments[0]);
    } else {
      OffsetOfTail(segments, i);
      assert segments[1..][i - 1] == segments[i];
      TopOfSegmentSupported(segments[1..], i - 1);
    }
  }

  /** A zero segment covers no key codes: dropping it changes no answer. */
  lemma {:induction false} ZeroSegmentRemovable(segments: seq<nat>, i: nat, keyCode: nat)
    requires i < |segments| && segments[i] == 0
    ensures KeySupported(segments[..i] + segments[i + 1..], keyCode) == KeySupported(segments, keyCode)
  {
    if i == 0 {
      assert segments[..0] + segments[1..] == segments[1..];
    } else {
      var dropped := segments[..i] + segments[i + 1..];
      assert dropped[0] == segments[0];
      assert dropped[1..] == segments[1..][..i - 1] + segments[1..][i..];
      if keyCode >= BitLen(segments[0]) {
        ZeroSegmentRemovable(segments[1..], i - 1, keyCode - BitLen(segments[0]));
      }
    }
  }

  /** The segments laid end to end, each as wide as its own bit length. */
  function Packed(segments: seq<nat>): (packed: nat) {
    if segments == [] then 0 else segments[0] + Pow2(BitLen(segments[0])) * Packed(segments[1..])
  }

  /** SupportsKey answers bit k of the segments packed at their bit lengths. */
  lemma {:induction false} KeySupportedIsPackedBit(segments: seq<nat>, keyCode: nat)
    ensures KeySupported(segments, keyCode) == (Bit(Packed(segments), keyCode) == 1)
  {
    if segments == [] {
      ZeroBits(keyCode);
    } else {
      BitLenBounds(segments[0]);
      BitOfPacked(segments[0], BitLen(segments[0]), Packed(segments[1..]), keyCode);
      if keyCode >= BitLen(segments[0]) {
        KeySupportedIsPackedBit(segments[1..], keyCode - BitLen(segments[0]));
      }
    }
  }

  /** The empty flag is supported by every mask. */
  lemma SupportsEventZero(caps: DeviceCapabilities)
    ensures caps.SupportsEvent(0)
  {
  }

  /** For a one-bit flag 1 << n, SupportsEvent tests bit n of the mask. */
  lemma SupportsSingleBitFlag(caps: DeviceCapabilities, n: nat)
    ensures caps.SupportsEvent(Pow2(n)) <==> Bit(caps.eventTypes, n) == 1
  {
    AndIsSubset(caps.eventTypes, Pow2(n));
    BitOfPow2(n, n);
    if Bit(caps.eventTypes, n) == 1 {
      forall i: nat | Bit(Pow2(n), i) == 1 ensures Bit(caps.eventTypes, i) == 1 {
        BitOfPow2(n, i);
      }
    }
  }

  /** An event-type mask of 0x100012 (bits 1, 4 and 20) supports EV_KEY and
      not EV_REL. */
  lemma EventMaskExample()
    ensures DeviceCapabilities(0x100012, []).SupportsEvent(EV_KEY)
    ensures !DeviceCapabilities(0x100012, []).SupportsEvent(EV_REL)
  {
    SupportsSingleBitFlag(DeviceCapabilities(0x100012, []), 1);
    SupportsSingleBitFlag(DeviceCapabilities(0x100012, []), 2);
  }

  // ---- key lookup by kernel word width ----

  /** The same walk with every segment wordBits wide, whatever its value:
      SupportsKey with BitLen(field) replaced by the kernel's word width. */
  function KeySupportedByWord(segments: seq<nat>, wordBits: nat, keyCode: nat): (supported: bool) {
    if segments == [] then false
    else if keyCode < wordBits then Bit(segments[0], keyCode) == 1
    else KeySupportedByWord(segments[1..], wordBits, keyCode - wordBits)
  }

  /** The logical bit vector: segment i holds bits i*w .. i*w + w - 1. */
  function WordsValue(segments: seq<nat>, wordBits: nat): (value: nat) {
    if segments == [] then 0 else segments[0] + Pow2(wordBits) * WordsValue(segments[1..], wordBits)
  }

  /** With word-sized segments, least significant first, the word-width lookup
      answers bit k of the logical bit vector, for every k. */
  lemma {:induction false} KeySupportedByWordIsBit(segments: seq<nat>, wordBits: nat, keyCode: nat)
    requires forall i :: 0 <= i < |segments| ==> segments[i] < Pow2(wordBits)
    ensures KeySupportedByWord(segments, wordBits, keyCode) == (Bit(WordsValue(segments, wordBits), keyCode) == 1)
  {
    if segments == [] {
      ZeroBits(keyCode);
    } else {
      BitOfPacked(segments[0], wordBits, WordsValue(segments[1..], wordBits), keyCode);
      if keyCode >= wordBits {
        KeySupportedByWordIsBit(segments[1..], wordBits, keyCode - wordBits);
      }
    }
  }

  /** A mouse's key mask as a 64-bit kernel writes it, "1f0000 0 0 0 0",
      arrives least significant word first as [0, 0, 0, 0, 0x1f0000]: buttons
      272..276 (BTN_LEFT onwards). SupportsKey skips the four zero words, which
      have bit length 0, and so reports key 16 and not key 272; the word-width
      lookup reports 272 and not 16. */
  lemma MouseButtonsMisplaced()
    ensures KeySupported([0, 0, 0, 0, 0x1f0000], 16)
    ensures !KeySupported([0, 0, 0, 0, 0x1f0000], 272)
    ensures KeySupportedByWord([0, 0, 0, 0, 0x1f0000], 64, 272)
    ensures !KeySupportedByWord([0, 0, 0, 0, 0x1f0000], 64, 16)
  {
    var segs: seq<nat> := [0, 0, 0, 0, 0x1f0000];
    MouseWordBits();
    assert segs[1..] == [0, 0, 0, 0x1f0000] && segs[2..] == [0, 0, 0x1f0000];
    assert segs[3..] == [0, 0x1f0000] && segs[4..] == [0x1f0000];
    assert KeySupported(segs, 16) == KeySupported(segs[4..], 16);
    assert KeySupportedByWord(segs, 64, 272) == KeySupportedByWord(segs[4..], 64, 16);
    assert Offset(segs, 2) == 0;
    assert Offset(segs, 4) == 0;
    assert TotalBits(segs) == 21;
    KeyBeyondSegments(segs, 272);
    ZeroBits(16);
  }

  /** The bits of the mouse's top word 0x1f0000: 21 binary digits, bit 16 set. */
  lemma MouseWordBits()
    ensures BitLen(0x1f0000) == 21
    ensures Bit(0x1f0000, 16) == 1
  {
    assert BitLen(0x1f) == 5;
    assert BitLen(0x1f0) == 4 + BitLen(0x1f);
    assert BitLen(0x1f00) == 4 + BitLen(0x1f0);
    assert BitLen(0x1f000) == 4 + BitLen(0x1f00);
    assert BitLen(0x1f0000) == 4 + BitLen(0x1f000);
    assert Bit(0x1f0000, 16) == Bit(0x1f000, 12);
    assert Bit(0x1f000, 12) == Bit(0x1f00, 8);
    assert Bit(0x1f00, 8) == Bit(0x1f0, 4);
    assert Bit(0x1f0, 4) == Bit(0x1f, 0);
  }
}
