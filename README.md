# dev-input: a verified model of the Linux evdev reader

This project models the core of the Go package `input` (dev-input), which
enumerates Linux input devices through sysfs and reads `struct input_event`
records from their `/dev/input/event<N>` nodes. The model covers:

- **Events** (`events.dfy`, `codec.dfy`): the 24-byte event record and the
  `EventFlag` / `EventType` constant tables. The record is decoded in the
  host's byte order. An encoder is its inverse, in both directions and for
  both byte orders.
- **Capabilities** (`bits.dfy`, `capabilities.dfy`): `DeviceCapabilities`
  with `SupportsEvent`, a mask-subset test, and `SupportsKey`, a walk over
  the key segments. `big.Int` values are natural numbers, with `BitLen`,
  `Bit` and `And` defined arithmetically.
- **Capability files** (`text.dfy`, `bitmasks.dfy`): `readBitMasks`. It
  splits on Go's white-space set (`strings.Fields`) and parses base-16
  tokens. It reverses the segment list only on a little-endian host.
- **Devices** (`device.dfy`):
  - `GetDevice` builds a device from its sysfs directory.
  - `ListDevices` walks event0, event1, … and stops at the first missing file.
  - the four classifying lists;
  - a `Device` class whose `handle` field goes through the `Open` / `Close`
    / `Read` life cycle.

The operating system is an input:
- The host's byte order is a `littleEndian` flag.
- `/sys/class/input` is a `Registry`: for each event index with a directory,
  the outcome of reading its `name`, `capabilities/ev` and
  `capabilities/key` files (`Data(text)`, `Missing` or `Unreadable`). Every
  index past the end reads as missing.
- Whether `os.Open` succeeds is a boolean parameter of `Open`.
- What the handle's `Read` returned is a parameter of `Read`: at most 24
  bytes, or a failure.

The model follows the code as written:

- `SupportsEvent` takes a flag mask such as `EV_KEY = 0x0002`, not a bit
  index.
- `SupportsKey` takes each segment's width from `BitLen` of its value, so a
  zero segment covers no key codes (see Findings).
- `Read` ignores the byte count, so a short read decodes the zero-filled
  rest of the buffer and is not an error.
- `ListMice` keeps every device with `EV_REL`, even one that also has
  `EV_ABS`. `ListTouchPads` likewise keeps every device with `EV_ABS`.
- A missing file reported by ANY of the three reads of `GetDevice` ends the
  `ListDevices` walk. This is because `readBitMasks` returns the `os` error
  unwrapped, so `errors.Is(err, os.ErrNotExist)` holds for it too.

## Model

| member | source | states |
|---|---|---|
| Events.FlagsAreSingleBits | event.go:16-27 | every `EventFlag` constant is `2^n` for its bit n and has exactly one bit set |
| Events.FlagsDistinct | event.go:15-28 | the twelve `EventFlag` constants are pairwise distinct |
| Events.FlagsVersusTypeCodes | event.go:16-27 | `EV_SYN`..`EV_SW` equal `1 << EV_TYPE_*` (codes 0..5); `EV_LED`..`EV_FF_STATUS` are bits 8..13 and differ from `1 <<` their codes 0x11..0x17 |
| Events.TypeCodesDistinct | event.go:31-45 | the `EventType` codes are pairwise distinct (each is a 16-bit value by its type) |
| EventCodec.UintOfUintBytes | input-device.go:182-186 | reading back an n-byte unsigned value written in either byte order gives the value |
| EventCodec.UintBytesOfUint | input-device.go:182-186 | writing an unsigned value read from bytes gives those bytes back |
| EventCodec.ToInt32 | input-device.go:182-186 | reading a 32-bit pattern as `int32` is undone by taking the value's two's-complement pattern |
| EventCodec.Int32RoundTrip | input-device.go:182-186 | every `int32` is the `int32` read from its own two's-complement pattern |
| EventCodec.Encode | event.go:5-10 | an encoded event is exactly 24 bytes |
| EventCodec.EncodeLayout | event.go:5-10 | the fields lie at bytes 0-7, 8-15, 16-17, 18-19 and 20-23, each as wide as its Go type, in the given byte order |
| EventCodec.Decode | input-device.go:182-186 | every 24-byte record is the encoding of the event it decodes to, so decoding loses no byte and is injective |
| EventCodec.DecodeEncode | input-device.go:182-186 | decoding the encoding of any event in the same byte order gives the event back |
| EventCodec.DecodeShortFields | input-device.go:182-186 | type comes from bytes 16-17 and code from bytes 18-19, low byte first on little-endian and high byte first on big-endian |
| EventCodec.DecodeValueSign | input-device.go:182-186 | the value is negative exactly when the sign bit of its most significant byte (23 little-endian, 20 big-endian) is set |
| Bits.BitLen | device-capabilities.go:18 | `big.Int.BitLen`: zero exactly for 0 |
| Bits.Bit | device-capabilities.go:21 | `big.Int.Bit`: every bit is 0 or 1 |
| Bits.And | device-capabilities.go:33 | `big.Int.And` on non-negative values is at most either operand |
| Bits.AndBit | device-capabilities.go:33 | bit i of `a & b` is set exactly when bit i is set in both |
| Bits.AndIsSubset | device-capabilities.go:33 | `mask & f == f` exactly when every bit set in f is set in mask |
| Bits.BitLenBounds | device-capabilities.go:18 | `2^(BitLen(x)-1) <= x < 2^BitLen(x)` |
| Bits.BitBeyondLen | device-capabilities.go:21 | bits at or above `BitLen(x)` are zero |
| Bits.TopBitSet | device-capabilities.go:21 | the top bit of a nonzero value is 1 |
| Bits.BitOfPacked | device-capabilities.go:17-24 | bit k of `b + 2^w * v` with `b < 2^w` is bit k of b below w and bit k-w of v above |
| Capabilities.SupportsKey | device-capabilities.go:14-28 | the loop returns the walk `KeySupported` over the key segments; it changes no state |
| Capabilities.KeyInSegment | device-capabilities.go:15-24 | with `off_i` the sum of the earlier segments' `BitLen`, a key in `[off_i, off_i + BitLen(seg_i))` is reported as bit `k - off_i` of `seg_i` |
| Capabilities.KeyBeyondSegments | device-capabilities.go:17-27 | every key code at or above the sum of all `BitLen`s is unsupported, so with no segments every key is |
| Capabilities.TopOfSegmentSupported | device-capabilities.go:18-21 | the last position of a nonzero segment's range is always reported supported |
| Capabilities.ZeroSegmentRemovable | device-capabilities.go:18-24 | deleting a zero segment changes no `SupportsKey` answer |
| Capabilities.KeySupportedIsPackedBit | device-capabilities.go:14-28 | the walk answers bit k of the segments packed at their `BitLen` widths |
| Capabilities.DeviceCapabilities.SupportsEvent | device-capabilities.go:31-34 | `SupportsEvent(f)` holds exactly when every bit of f is set in `EventTypes` |
| Capabilities.SupportsEventZero | device-capabilities.go:32-33 | `SupportsEvent(0)` holds for every mask |
| Capabilities.SupportsSingleBitFlag | device-capabilities.go:31-34 | for a one-bit flag `2^n`, `SupportsEvent` is exactly bit n of `EventTypes` |
| Capabilities.EventMaskExample | device-capabilities.go:31-34 | a keyboard mask 0x100012 supports `EV_KEY` and not `EV_REL` |
| Capabilities.KeySupportedByWordIsBit | device-capabilities.go:14-28 | the corrected fixed-width walk answers bit k of the segments packed as w-bit words |
| Capabilities.MouseButtonsMisplaced | device-capabilities.go:18 | on the mouse mask "1f0000 0 0 0 0" the walk reports key 16 and not `BTN_LEFT` (272); the fixed-width walk does the opposite |
| Text.Fields | input-device.go:281 | every field is non-empty and holds no white space; `Text.FieldsJoinWords` gives the fields of a kernel-written line |
| Text.FieldsJoinWords | input-device.go:281 | splitting a line of non-empty spaceless words separated by single spaces and ended by a newline, as the kernel writes a sysfs bitmap, gives the words back |
| Text.TrimSpace | input-device.go:119 | the result is the slice of the input left after cutting white space at both ends, and it neither starts nor ends with white space |
| Text.TrimSpaceIdempotent | input-device.go:119 | trimming twice is trimming once |
| Text.ParseHex | input-device.go:287 | parsing succeeds exactly when the token is a non-empty string of hex digits |
| Text.ParseHexToHex | input-device.go:287 | parsing the hexadecimal rendering of n gives n |
| Text.ItoaInjective | input-device.go:112 | `%d` renders different integers differently |
| BitMasks.FirstBadToken | input-device.go:285-290 | the token reported is not hex and every earlier token is |
| BitMasks.ReadBitMasks | input-device.go:275-304 | the two append loops compute `BitMasksOf`: the file's error, the first bad token, or the parsed segments reversed on a little-endian host |
| BitMasks.BitMasksSegments | input-device.go:281-303 | Ok exactly when every field is hex; one segment per field, equal to its value, in field order (reversed on little-endian) |
| BitMasks.ReadWrittenWords | input-device.go:275-304 | a file holding hexadecimal words separated by single spaces and ended by a newline reads back as those values, least significant first on a little-endian host |
| Seqs.ReverseReverse | input-device.go:295-301 | reversing the segment list twice restores it |
| Seqs.FilterAppend | input-device.go:37-52 | filtering distributes over concatenation, so the lists keep the original order |
| InputDevice.Device.constructor | input-device.go:140-146 | a new device carries the given metadata and no handle |
| InputDevice.Device.Open | input-device.go:195-207 | an open device fails with `DeviceAlreadyOpen` and keeps its handle; otherwise the handle is set exactly when the OS opens the node |
| InputDevice.Device.Close | input-device.go:210-217 | fails with `DeviceNotOpen` exactly when no handle is held; afterwards none is, so a second `Close` fails |
| InputDevice.Device.Read | input-device.go:171-192 | no handle gives `DeviceNotOpen`; a failed read gives its error; otherwise the bytes read, zero-filled to 24, decoded in host order |
| InputDevice.ZeroFilled | input-device.go:176-177 | the buffer decoded is 24 bytes: the bytes read, then zeros |
| InputDevice.ShortReadZeroTail | input-device.go:176-186 | a read of at most 16 bytes yields type, code and value 0 |
| InputDevice.GetDevice | input-device.go:111-147 | the files are read in order name, ev, key; the first failure is returned, or `EvMaskCount` unless ev has exactly one segment; the new device is closed |
| InputDevice.DeviceInfoOfWritten | input-device.go:111-147 | ev and key files written as the kernel writes them (one ev word; key words separated by spaces, ended by a newline) give exactly those masks, the trimmed name, id, node and directory |
| InputDevice.DeviceInfoIdentity | input-device.go:140-145 | a device built for index i has id i, node `/dev/input/event<i>` and directory `/sys/class/input/event<i>/device` |
| InputDevice.ProbeOfIndex | input-device.go:154-155 | the walk's probe at index i is what `GetDevice(i)` returns |
| InputDevice.ListDevices | input-device.go:150-168 | the counter loop returns `ListDevicesOf`, with a closed device per entry |
| InputDevice.WalkOkShape | input-device.go:154-167 | a successful walk lists the probes in index order up to the first missing file or the end |
| InputDevice.WalkOkOf | input-device.go:154-167 | conversely, such a run of successful probes ended by a missing file or the end is what the walk returns |
| InputDevice.WalkErrOf | input-device.go:155-159 | the first failure other than a missing file aborts the whole listing, wrapped |
| InputDevice.ListedDevices | input-device.go:150-168 | listed device k is what `GetDevice(k)` builds, with id k; after the last one the files are missing |
| InputDevice.DevicePathsDistinct | input-device.go:112 | different indices give different device nodes and sysfs directories |
| InputDevice.ListedPathsDistinct | input-device.go:150-168 | the devices of one listing have pairwise distinct nodes |
| InputDevice.SupportsCommonKeys | input-device.go:43-49 | true exactly when keys 1, 30, 46, 48 and 28 are all supported |
| InputDevice.Matches | input-device.go:38-49 | the per-device test of each list is its kind's predicate |
| InputDevice.SelectKind | input-device.go:65-69 | the kept list is the input's device objects filtered by the kind's predicate: the same objects, exactly those of the kind, in their original order; their metadata is the kind's filter of the input's |
| InputDevice.ListKeyboards | input-device.go:29-55 | a `ListDevices` error is returned; otherwise the devices with `EV_KEY`, without `EV_REL` and `EV_ABS`, and with the common keys, in order; every device returned is closed |
| InputDevice.ListPointerDevices | input-device.go:58-72 | the error, or the devices with `EV_REL` or `EV_ABS`, in order; every device returned is closed |
| InputDevice.ListMice | input-device.go:75-90 | the error, or the devices with `EV_REL`, in order; every device returned is closed |
| InputDevice.ListTouchPads | input-device.go:93-108 | the error, or the devices with `EV_ABS`, in order; every device returned is closed |
| InputDevice.KindMembership | input-device.go:65-69 | a device is in the list of its kind exactly when it is listed and of that kind |
| InputDevice.KindListsNest | input-device.go:38-105 | mice and touch pads are pointer devices; keyboards are not |
| InputDevice.MouseKeyFile | input-device.go:275-304 | the key file "1f0000 0 0 0 0\n" read on a little-endian host gives the segments `[0, 0, 0, 0, 0x1f0000]`, on which the walk reports key 16 and not `BTN_LEFT` (272) |

## Left out

- `ListenWithChannel` and `Listen` are not modelled. They are goroutines, channels and `context` cancellation, and the consumer goroutine never terminates.
- `isLittleEndian` is a `littleEndian` parameter, and `unsafe.Sizeof(*e)` is the constant 24 (the 64-bit `struct input_event` layout of the Linux evdev interface).
- File-system and device I/O (`os.ReadFile`, `os.Open`, the handle's `Read` and `Close`) are inputs. The model does not capture the file descriptor itself.
- Error messages (`fmt.Errorf` text) are error variants. The wrapper that `ListDevices` adds is `EnumerationFailed`.
- Text.ParseHex: tokens with a leading `+` or `-`, which `SetString` also accepts, are treated as bad hex segments. The kernel never writes them.
- Capabilities.SupportsKey: key codes are natural numbers. `big.Int.Bit` panics on a negative index, so the negative case is not modelled.
- Capabilities.DeviceCapabilities.SupportsEvent: flags are natural numbers. A negative `EventFlag` is not modelled.
- InputDevice.Device.Read: `binary.Read` cannot fail on a full 24-byte buffer, so its own error path is not modelled.
- InputDevice.ListDevices: does not state that the listed devices are newly allocated objects (GetDevice does); carrying freshness through the loop makes the proof too costly.
- A nil list and an empty list are the same sequence.
- The `Device` embeds `DeviceCapabilities`; the model stores it as a `caps` field.
- cmd/example/main.go is a demonstration program and is not part of this model.

## Findings

| source | as written | input that shows it | evidently intended | confidence | as-written member | corrected member |
|---|---|---|---|---|---|---|
| device-capabilities.go:18 | each key segment's width is `BitLen` of its value, so a zero segment or one whose top bit is clear shifts the codes of every later segment | key mask "1f0000 0 0 0 0" of a 5-button mouse on a 64-bit little-endian host: `SupportsKey(16)` is true and `SupportsKey(272)` (`BTN_LEFT`) is false (`InputDevice.MouseKeyFile` reads that file into the segments used here) | every segment is one machine word wide (64 bits), so key k is bit k mod 64 of segment k / 64 | not executed | Capabilities.MouseButtonsMisplaced | Capabilities.KeySupportedByWordIsBit |

The classifying lists keep the as-written walk, because the package's lists call `SupportsKey` as written.
