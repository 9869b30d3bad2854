/** input-device.go without its goroutines: building a Device from its sysfs
    directory (GetDevice), walking the event nodes (ListDevices), the four
    classifying lists, and the Open / Close / Read life cycle of a device's
    file handle. The file system, the host's byte order and the operating
    system's answers are inputs. */
module InputDevice {
  import opened Results
  import opened Text
  import opened Seqs
  import opened Events
  import opened EventCodec
  import opened Capabilities
  import opened BitMasks

  /** The outcomes of reading the three files of /sys/class/input/event<i>/device
      that GetDevice reads: name, capabilities/ev and capabilities/key. */
  datatype SysfsEntry = SysfsEntry(name: FileRead, ev: FileRead, key: FileRead)

  /** /sys/class/input: entry i describes event node i; there is no directory
      for any other index. */
  type Registry = seq<SysfsEntry>

  function Lookup(registry: Registry, eventID: int): (entry: SysfsEntry) {
    if 0 <= eventID < |registry| then registry[eventID] else SysfsEntry(Missing, Missing, Missing)
  }

  /** The metadata GetDevice fills in. */
  datatype DeviceInfo = DeviceInfo(id: int, path: string, sysFsPath: string, name: string, caps: DeviceCapabilities)

  function DevicePath(eventID: int): (path: string) {
    "/dev/input/event" + Itoa(eventID)
  }

  function SysFsDir(eventID: int): (dir: string) {
    "/sys/class/input/event" + Itoa(eventID) + "/device"
  }

  /** What GetDevice returns: the name file's trimmed text, exactly one
      event-type segment, and the key segments, or the first failure in the
      order the files are read. */
  function DeviceInfoOf(eventID: int, entry: SysfsEntry, littleEndian: bool): (r: Result<DeviceInfo>) {
    if !entry.name.Data? then Err(ReadError(entry.name))
    else
      var ev := BitMasksOf(entry.ev, littleEndian);
      if ev.Err? then Err(ev.error)
      else if |ev.value| != 1 then Err(EvMaskCount(|ev.value|))
      else
        var key := BitMasksOf(entry.key, littleEndian);
        if key.Err? then Err(key.error)
        else Ok(DeviceInfo(eventID, DevicePath(eventID), SysFsDir(eventID),
                           TrimSpace(entry.name.text), DeviceCapabilities(ev.value[0], key.value)))
  }

  /** An open file handle on a device node. */
  datatype Handle = Handle(path: string)

  /** What the handle's Read gave back: up to one record's worth of bytes, or an error. */
  type Chunk = s: seq<Byte> | |s| <= RecordSize
  datatype ReadOutcome = Received(data: Chunk) | ReadFailure

  /** The 24-byte buffer after a read put data at its start: the bytes read,
      then the zeros the buffer was created with. */
  function ZeroFilled(data: Chunk): (buffer: seq<Byte>)
    ensures |buffer| == RecordSize
    ensures buffer[..|data|] == data
    ensures forall i :: |data| <= i < RecordSize ==> buffer[i] == 0
  {
    data + Zeros(RecordSize - |data|)
  }

  class Device {
    const id: int
    const path: string
    const sysFsPath: string
    const name: string
    const caps: DeviceCapabilities
    var handle: Option<Handle>

    constructor (info: DeviceInfo)
      ensures Info() == info && handle == None
    {
      id, path, sysFsPath, name, caps := info.id, info.path, info.sysFsPath, info.name, info.caps;
      handle := None;
    }

    function Info(): (info: DeviceInfo) {
      DeviceInfo(id, path, sysFsPath, name, caps)
    }

    /** Open: fails when a handle is held, and otherwise holds one exactly
        when the operating system opens the device node. */
    method Open(osOpenSucceeds: bool) returns (err: Option<Error>)
      modifies this`handle
      ensures old(handle).Some? ==> err == Some(DeviceAlreadyOpen) && handle == old(handle)
      ensures old(handle).None? && !osOpenSucceeds ==> err == Some(OpenFailed) && handle == None
      ensures old(handle).None? && osOpenSucceeds ==> err == None && handle == Some(Handle(path))
    {
      if handle.Some? {
        return Some(DeviceAlreadyOpen);
      }
      if !osOpenSucceeds {
        return Some(OpenFailed);
      }
      handle := Some(Handle(path));
      return None;
    }

    /** Close: fails when no handle is held; afterwards none is. */
    method Close() returns (err: Option<Error>)
      modifies this`handle
      ensures err == (if old(handle).None? then Some(DeviceNotOpen) else None)
      ensures handle == None
    {
      if handle.None? {
        return Some(DeviceNotOpen);
      }
      handle := None;
      return None;
    }

    /** Read: one record decoded in the host's byte order from a zeroed
        24-byte buffer into which the handle's Read put its bytes. The byte
        count is not checked, so a short read leaves zeros in the tail. */
    method Read(outcome: ReadOutcome, littleEndian: bool) returns (r: Result<Event>)
      ensures handle.None? ==> r == Err(DeviceNotOpen)
      ensures handle.Some? && outcome.ReadFailure? ==> r == Err(DeviceReadFailed)
      ensures handle.Some? && outcome.Received? ==>
        r == Ok(Decode(ZeroFilled(outcome.data), littleEndian))
    {
      if handle.None? {
        return Err(DeviceNotOpen);
      }
      var buffer := Zeros(RecordSize);
      match outcome
      case ReadFailure =>
        return Err(DeviceReadFailed);
      case Received(data) =>
        buffer := data + buffer[|data|..];
        assert buffer == ZeroFilled(data);
      return Ok(Decode(buffer, littleEndian));
    }
  }

  /** The metadata of each device, in order. */
  function Infos(devices: seq<Device>): (infos: seq<DeviceInfo>)
    ensures |infos| == |devices|
  {
    seq(|devices|, i requires 0 <= i < |devices| => devices[i].Info())
  }

  /** GetDevice. */
  method GetDevice(eventID: int, registry: Registry, littleEndian: bool) returns (r: Result<Device>)
    ensures var spec := DeviceInfoOf(eventID, Lookup(registry, eventID), littleEndian);
      (r.Ok? <==> spec.Ok?) &&
      (r.Err? ==> r.error == spec.error) &&
      (r.Ok? ==> r.value.Info() == spec.value && fresh(r.value) && r.value.handle == None)
  {
    var entry := Lookup(registry, eventID);
    if !entry.name.Data? {
      return Err(ReadError(entry.name));
    }
    var name := TrimSpace(entry.name.text);
    var evCapabilityMasks := ReadBitMasks(entry.ev, littleEndian);
    if evCapabilityMasks.Err? {
      return Err(evCapabilityMasks.error);
    }
    if |evCapabilityMasks.value| != 1 {
      return Err(EvMaskCount(|evCapabilityMasks.value|));
    }
    var keyCapabilityMasks := ReadBitMasks(entry.key, littleEndian);
    if keyCapabilityMasks.Err? {
      return Err(keyCapabilityMasks.error);
    }
    var capabilities := DeviceCapabilities(evCapabilityMasks.value[0], keyCapabilityMasks.value);
    var device := new Device(DeviceInfo(eventID, DevicePath(eventID), SysFsDir(eventID), name, capabilities));
    return Ok(device);
  }

  /** A sysfs directory whose ev file holds one hexadecimal word and whose
      key file holds hexadecimal words, each file a line as the kernel writes
      it, gives a device with exactly those
      masks (the key words least significant first on a little-endian host)
      and the name without surrounding white space. */
  lemma DeviceInfoOfWritten(eventID: int, name: string, eventTypes: nat, keyWords: seq<nat>, littleEndian: bool)
    ensures DeviceInfoOf(eventID,
                         SysfsEntry(Data(name), Data(JoinWords(HexWords([eventTypes]))), Data(JoinWords(HexWords(keyWords)))),
                         littleEndian)
         == Ok(DeviceInfo(eventID, DevicePath(eventID), SysFsDir(eventID), TrimSpace(name),
                          DeviceCapabilities(eventTypes, if littleEndian then Reverse(keyWords) else keyWords)))
  {
    ReadWrittenWords([eventTypes], littleEndian);
    ReadWrittenWords(keyWords, littleEndian);
    assert Reverse([eventTypes]) == [eventTypes];
  }

  /** What GetDevice gives for each index that has a directory, in index order. */
  function Probes(registry: Registry, littleEndian: bool): (probes: seq<Result<DeviceInfo>>)
    ensures |probes| == |registry|
  {
    Tabulate(|registry|, (i: nat) => DeviceInfoOf(i, Lookup(registry, i), littleEndian))
  }

  /** The probe at index i is what GetDevice(i) gives. */
  lemma ProbeOfIndex(registry: Registry, littleEndian: bool, i: nat)
    requires i < |registry|
    ensures Probes(registry, littleEndian)[i] == DeviceInfoOf(i, registry[i], littleEndian)
  {
    TabulateAt(|registry|, (i: nat) => DeviceInfoOf(i, Lookup(registry, i), littleEndian), i);
  }

  /** The walk of ListDevices from index i on over per-index GetDevice
      results: stop at the first result that is a missing file, abort on any
      other failure. Past the last directory every file is missing. */
  function Walk(probes: seq<Result<DeviceInfo>>, i: nat): (r: Result<seq<DeviceInfo>>)
    decreases |probes| - i
  {
    if i >= |probes| then Ok([])
    else
      match probes[i]
      case Err(e) => if e == FileNotFound then Ok([]) else Err(EnumerationFailed(e))
      case Ok(info) =>
        match Walk(probes, i + 1)
        case Err(e) => Err(e)
        case Ok(rest) => Ok([info] + rest)
  }

  /** What ListDevices returns. */
  function ListDevicesOf(registry: Registry, littleEndian: bool): (r: Result<seq<DeviceInfo>>) {
    Walk(Probes(registry, littleEndian), 0)
  }

  /** prefix + the list r holds, or r's error. */
  function Prepend(prefix: seq<DeviceInfo>, r: Result<seq<DeviceInfo>>): (result: Result<seq<DeviceInfo>>) {
    match r
    case Ok(rest) => Ok(prefix + rest)
    case Err(e) => Err(e)
  }

  /** The probe at index i; past the last directory every file is missing. */
  function ProbeAt(probes: seq<Result<DeviceInfo>>, i: nat): (p: Result<DeviceInfo>) {
    if i < |probes| then probes[i] else Err(FileNotFound)
  }

  /** GetDevice(i), with its result stated as the probe at i. */
  method Probe(registry: Registry, littleEndian: bool, i: nat) returns (r: Result<Device>)
    ensures var p := ProbeAt(Probes(registry, littleEndian), i);
      (r.Ok? <==> p.Ok?) &&
      (r.Err? ==> r.error == p.error) &&
      (r.Ok? ==> r.value.Info() == p.value && fresh(r.value) && r.value.handle == None)
  {
    r := GetDevice(i, registry, littleEndian);
    if i < |registry| {
      ProbeOfIndex(registry, littleEndian, i);
    }
  }

  /** One step of the walk: the device found at index i joins the listed prefix. */
  lemma WalkFound(probes: seq<Result<DeviceInfo>>, i: nat, devices: seq<Device>, device: Device)
    requires i < |probes| && probes[i] == Ok(device.Info())
    requires Walk(probes, 0) == Prepend(Infos(devices), Walk(probes, i))
    ensures Walk(probes, 0) == Prepend(Infos(devices + [device]), Walk(probes, i + 1))
  {
    var prefix := Infos(devices);
    assert Infos(devices + [device]) == prefix + [device.Info()];
    var rest := Walk(probes, i + 1);
    if rest.Ok? {
      assert prefix + ([device.Info()] + rest.value) == (prefix + [device.Info()]) + rest.value;
    }
  }

  /** The walk ends at index i: with the listed prefix when a file is
      missing, with the wrapped error otherwise. */
  lemma WalkStops(probes: seq<Result<DeviceInfo>>, i: nat, devices: seq<Device>, e: Error)
    requires ProbeAt(probes, i) == Err(e)
    requires Walk(probes, 0) == Prepend(Infos(devices), Walk(probes, i))
    ensures Walk(probes, 0) == if e == FileNotFound then Ok(Infos(devices)) else Err(EnumerationFailed(e))
  {
    assert Infos(devices) + [] == Infos(devices);
  }

  /** ListDevices, with its counter loop. */
  method ListDevices(registry: Registry, littleEndian: bool) returns (r: Result<seq<Device>>)
    ensures var spec := ListDevicesOf(registry, littleEndian);
      (r.Ok? <==> spec.Ok?) &&
      (r.Err? ==> r.error == spec.error) &&
      (r.Ok? ==> Infos(r.value) == spec.value)
    ensures r.Ok? ==> forall j :: 0 <= j < |r.value| ==> r.value[j].handle == None
  {
    ghost var probes := Probes(registry, littleEndian);
    var devices: seq<Device> := [];
    var i := 0;
    assert Prepend([], Walk(probes, 0)) == Walk(probes, 0) by {
      if Walk(probes, 0).Ok? {
        assert [] + Walk(probes, 0).value == Walk(probes, 0).value;
      }
    }
    while true
      invariant 0 <= i <= |registry|
      invariant Walk(probes, 0) == Prepend(Infos(devices), Walk(probes, i))
      invariant forall j :: 0 <= j < |devices| ==> devices[j].handle == None
      decreases |registry| - i
    {
      var device := Probe(registry, littleEndian, i);
      if device.Err? {
        WalkStops(probes, i, devices, device.error);
        if device.error != FileNotFound {
          return Err(EnumerationFailed(device.error));
        }
        break;
      }
      WalkFound(probes, i, devices, device.value);
      devices := devices + [device.value];
      i := i + 1;
    }
    return Ok(devices);
  }

  /** A successful walk from i lists the probes i, i+1, ... up to the first
      missing file, or up to the end of the registry. */
  lemma {:induction false} WalkOkShape(probes: seq<Result<DeviceInfo>>, i: nat, devs: seq<DeviceInfo>)
    requires Walk(probes, i) == Ok(devs)
    ensures i + |devs| <= |probes| || |devs| == 0
    ensures forall k :: 0 <= k < |devs| ==> i + k < |probes| && probes[i + k] == Ok(devs[k])
    ensures i + |devs| < |probes| ==> probes[i + |devs|] == Err(FileNotFound)
    decreases |probes| - i
  {
    if i < |probes| && probes[i].Ok? {
      var rest := Walk(probes, i + 1).value;
      WalkOkShape(probes, i + 1, rest);
      assert devs == [probes[i].value] + rest;
      forall k | 0 <= k < |devs|
        ensures i + k < |probes| && probes[i + k] == Ok(devs[k])
      {
        if k > 0 {
          assert devs[k] == rest[k - 1];
        }
      }
    }
  }

  /** Conversely, probes i .. i+|devs|-1 succeeding with devs, followed by a
      missing file or the end of the registry, make the walk give devs. */
  lemma {:induction false} WalkOkOf(probes: seq<Result<DeviceInfo>>, i: nat, devs: seq<DeviceInfo>)
    requires i + |devs| <= |probes|
    requires forall k :: 0 <= k < |devs| ==> probes[i + k] == Ok(devs[k])
    requires i + |devs| < |probes| ==> probes[i + |devs|] == Err(FileNotFound)
    ensures Walk(probes, i) == Ok(devs)
    decreases |devs|
  {
    if devs != [] {
      assert probes[i] == Ok(devs[0]);
      forall k | 0 <= k < |devs[1..]|
        ensures probes[i + 1 + k] == Ok(devs[1..][k])
      {
        assert probes[(i + 1) + k] == probes[i + (k + 1)];
      }
      WalkOkOf(probes, i + 1, devs[1..]);
      assert devs == [devs[0]] + devs[1..];
    }
  }

  /** Probes i .. n-1 succeeding and probe n failing with anything but a
      missing file make the walk fail with that error, wrapped. */
  lemma {:induction false} WalkErrOf(probes: seq<Result<DeviceInfo>>, i: nat, n: nat, cause: Error)
    requires i <= n < |probes|
    requires forall k :: i <= k < n ==> probes[k].Ok?
    requires probes[n] == Err(cause) && cause != FileNotFound
    ensures Walk(probes, i) == Err(EnumerationFailed(cause))
    decreases n - i
  {
    if i < n {
      WalkErrOf(probes, i + 1, n, cause);
    }
  }

  /** What a successful ListDevices lists: device k is what GetDevice(k)
      builds, for k from 0 up to the first index whose files are missing. */
  lemma ListedDevices(registry: Registry, littleEndian: bool, devs: seq<DeviceInfo>)
    requires ListDevicesOf(registry, littleEndian) == Ok(devs)
    ensures |devs| <= |registry|
    ensures forall k :: 0 <= k < |devs| ==>
      DeviceInfoOf(k, registry[k], littleEndian) == Ok(devs[k]) &&
      devs[k].id == k && devs[k].path == DevicePath(k) && devs[k].sysFsPath == SysFsDir(k)
    ensures |devs| < |registry| ==> DeviceInfoOf(|devs|, registry[|devs|], littleEndian) == Err(FileNotFound)
  {
    var probes := Probes(registry, littleEndian);
    WalkOkShape(probes, 0, devs);
    forall k | 0 <= k < |devs|
      ensures DeviceInfoOf(k, registry[k], littleEndian) == Ok(devs[k])
      ensures devs[k].id == k && devs[k].path == DevicePath(k) && devs[k].sysFsPath == SysFsDir(k)
    {
      assert probes[0 + k] == Ok(devs[k]);
      ProbeOfIndex(registry, littleEndian, k);
      DeviceInfoIdentity(k, registry[k], littleEndian);
    }
    if |devs| < |registry| {
      assert probes[0 + |devs|] == Err(FileNotFound);
      ProbeOfIndex(registry, littleEndian, |devs|);
    }
  }

  /** A device built for event node i carries i's number, node and directory. */
  lemma DeviceInfoIdentity(eventID: int, entry: SysfsEntry, littleEndian: bool)
    ensures var r := DeviceInfoOf(eventID, entry, littleEndian);
      r.Ok? ==> r.value.id == eventID && r.value.path == DevicePath(eventID) && r.value.sysFsPath == SysFsDir(eventID)
  {
  }

  /** Two different event numbers name different device nodes and directories. */
  lemma DevicePathsDistinct(a: int, b: int)
    requires a != b
    ensures DevicePath(a) != DevicePath(b)
    ensures SysFsDir(a) != SysFsDir(b)
  {
    if Itoa(a) == Itoa(b) {
      ItoaInjective(a, b);
    }
    assert DevicePath(a)[16..] == Itoa(a);
    assert DevicePath(b)[16..] == Itoa(b);
    if |Itoa(a)| == |Itoa(b)| {
      assert SysFsDir(a)[22..22 + |Itoa(a)|] == Itoa(a);
      assert SysFsDir(b)[22..22 + |Itoa(b)|] == Itoa(b);
    }
  }

  /** The devices of one listing have distinct device nodes. */
  lemma ListedPathsDistinct(registry: Registry, littleEndian: bool, devs: seq<DeviceInfo>, j: nat, k: nat)
    requires ListDevicesOf(registry, littleEndian) == Ok(devs)
    requires j < k < |devs|
    ensures devs[j].path != devs[k].path
  {
    ListedDevices(registry, littleEndian, devs);
    DevicePathsDistinct(j, k);
  }

  // ---- classification ----

  /** The four lists the package offers. */
  datatype DeviceKind = Keyboard | Pointer | Mouse | TouchPad

  /** Key codes a keyboard must have: Escape, A, C, B and Enter. */
  const CommonKeys: seq<nat> := [1, 30, 46, 48, 28]

  predicate HasCommonKeys(caps: DeviceCapabilities) {
    forall j :: 0 <= j < |CommonKeys| ==> KeySupported(caps.keyTypes, CommonKeys[j])
  }

  /** The test each list applies to a device's capabilities. */
  predicate IsKind(caps: DeviceCapabilities, kind: DeviceKind) {
    match kind
    case Keyboard =>
      caps.SupportsEvent(EV_KEY) && !caps.SupportsEvent(EV_REL) && !caps.SupportsEvent(EV_ABS) &&
      HasCommonKeys(caps)
    case Pointer => caps.SupportsEvent(EV_REL) || caps.SupportsEvent(EV_ABS)
    case Mouse => caps.SupportsEvent(EV_REL)
    case TouchPad => caps.SupportsEvent(EV_ABS)
  }

  /** The devices of one kind, in order. */
  function OfKind(devices: seq<DeviceInfo>, kind: DeviceKind): (kept: seq<DeviceInfo>) {
    Filter(devices, (info: DeviceInfo) => IsKind(info.caps, kind))
  }

  /** What ListKeyboards, ListPointerDevices, ListMice and ListTouchPads return. */
  function ListOfKind(registry: Registry, littleEndian: bool, kind: DeviceKind): (r: Result<seq<DeviceInfo>>) {
    match ListDevicesOf(registry, littleEndian)
    case Err(e) => Err(e)
    case Ok(devices) => Ok(OfKind(devices, kind))
  }

  /** The inner loop of ListKeyboards: every common key supported. */
  method SupportsCommonKeys(caps: DeviceCapabilities) returns (all: bool)
    ensures all == HasCommonKeys(caps)
  {
    for j := 0 to |CommonKeys|
      invariant forall m :: 0 <= m < j ==> KeySupported(caps.keyTypes, CommonKeys[m])
    {
      var supported := SupportsKey(caps, CommonKeys[j]);
      if !supported {
        return false;
      }
    }
    return true;
  }

  /** The per-device condition of the list of one kind. */
  method Matches(device: Device, kind: DeviceKind) returns (keep: bool)
    ensures keep == IsKind(device.caps, kind)
  {
    match kind
    case Keyboard =>
      if !device.caps.SupportsEvent(EV_KEY) || device.caps.SupportsEvent(EV_REL) || device.caps.SupportsEvent(EV_ABS) {
        return false;
      }
      keep := SupportsCommonKeys(device.caps);
    case Pointer =>
      keep := device.caps.SupportsEvent(EV_REL) || device.caps.SupportsEvent(EV_ABS);
    case Mouse =>
      keep := device.caps.SupportsEvent(EV_REL);
    case TouchPad =>
      keep := device.caps.SupportsEvent(EV_ABS);
  }

  /** The append loop of the four lists: the same device objects, those of
      the kind, in their original order. */
  method SelectKind(devices: seq<Device>, kind: DeviceKind) returns (kept: seq<Device>)
    ensures kept == Filter(devices, (d: Device) => IsKind(d.caps, kind))
    ensures Infos(kept) == OfKind(Infos(devices), kind)
    ensures forall d :: d in kept ==> d in devices
  {
    kept := [];
    for i := 0 to |devices|
      invariant kept == Filter(devices[..i], (d: Device) => IsKind(d.caps, kind))
      invariant Infos(kept) == OfKind(Infos(devices[..i]), kind)
      invariant forall d :: d in kept ==> d in devices
    {
      var device := devices[i];
      var keep := Matches(device, kind);
      OfKindStep(devices, i, kind);
      assert devices[..i + 1] == devices[..i] + [device];
      FilterAppend(devices[..i], [device], (d: Device) => IsKind(d.caps, kind));
      if keep {
        InfosAppend(kept, device);
        kept := kept + [device];
      }
    }
    assert devices[..|devices|] == devices;
  }

  lemma InfosAppend(devices: seq<Device>, device: Device)
    ensures Infos(devices + [device]) == Infos(devices) + [device.Info()]
  {
  }

  /** Filtering one more device appends it exactly when it is of the kind. */
  lemma OfKindStep(devices: seq<Device>, i: nat, kind: DeviceKind)
    requires i < |devices|
    ensures OfKind(Infos(devices[..i + 1]), kind)
         == OfKind(Infos(devices[..i]), kind) + (if IsKind(devices[i].caps, kind) then [devices[i].Info()] else [])
  {
    assert devices[..i + 1] == devices[..i] + [devices[i]];
    InfosAppend(devices[..i], devices[i]);
    FilterAppend(Infos(devices[..i]), [devices[i].Info()], (info: DeviceInfo) => IsKind(info.caps, kind));
  }

  method ListOfKindDevices(registry: Registry, littleEndian: bool, kind: DeviceKind) returns (r: Result<seq<Device>>)
    ensures var spec := ListOfKind(registry, littleEndian, kind);
      (r.Ok? <==> spec.Ok?) &&
      (r.Err? ==> r.error == spec.error) &&
      (r.Ok? ==> Infos(r.value) == spec.value)
    ensures r.Ok? ==> forall j :: 0 <= j < |r.value| ==> r.value[j].handle == None
  {
    var devices := ListDevices(registry, littleEndian);
    if devices.Err? {
      return Err(devices.error);
    }
    var kept := SelectKind(devices.value, kind);
    assert forall d :: d in devices.value ==> d.handle == None;
    assert forall j :: 0 <= j < |kept| ==> kept[j] in devices.value;
    return Ok(kept);
  }

  /** ListKeyboards. */
  method ListKeyboards(registry: Registry, littleEndian: bool) returns (r: Result<seq<Device>>)
    ensures var spec := ListOfKind(registry, littleEndian, Keyboard);
      (r.Ok? <==> spec.Ok?) && (r.Err? ==> r.error == spec.error) && (r.Ok? ==> Infos(r.value) == spec.value)
    ensures r.Ok? ==> forall j :: 0 <= j < |r.value| ==> r.value[j].handle == None
  {
    r := ListOfKindDevices(registry, littleEndian, Keyboard);
  }

  /** ListPointerDevices. */
  method ListPointerDevices(registry: Registry, littleEndian: bool) returns (r: Result<seq<Device>>)
    ensures var spec := ListOfKind(registry, littleEndian, Pointer);
      (r.Ok? <==> spec.Ok?) && (r.Err? ==> r.error == spec.error) && (r.Ok? ==> Infos(r.value) == spec.value)
    ensures r.Ok? ==> forall j :: 0 <= j < |r.value| ==> r.value[j].handle == None
  {
    r := ListOfKindDevices(registry, littleEndian, Pointer);
  }

  /** ListMice. */
  method ListMice(registry: Registry, littleEndian: bool) returns (r: Result<seq<Device>>)
    ensures var spec := ListOfKind(registry, littleEndian, Mouse);
      (r.Ok? <==> spec.Ok?) && (r.Err? ==> r.error == spec.error) && (r.Ok? ==> Infos(r.value) == spec.value)
    ensures r.Ok? ==> forall j :: 0 <= j < |r.value| ==> r.value[j].handle == None
  {
    r := ListOfKindDevices(registry, littleEndian, Mouse);
  }

  /** ListTouchPads. */
  method ListTouchPads(registry: Registry, littleEndian: bool) returns (r: Result<seq<Device>>)
    ensures var spec := ListOfKind(registry, littleEndian, TouchPad);
      (r.Ok? <==> spec.Ok?) && (r.Err? ==> r.error == spec.error) && (r.Ok? ==> Infos(r.value) == spec.value)
    ensures r.Ok? ==> forall j :: 0 <= j < |r.value| ==> r.value[j].handle == None
  {
    r := ListOfKindDevices(registry, littleEndian, TouchPad);
  }

  /** A device is in the list of its kind exactly when it is listed and of that kind. */
  lemma KindMembership(devices: seq<DeviceInfo>, kind: DeviceKind, info: DeviceInfo)
    ensures info in OfKind(devices, kind) <==> info in devices && IsKind(info.caps, kind)
  {
    if info in devices && IsKind(info.caps, kind) {
      FilterKeeps(devices, (d: DeviceInfo) => IsKind(d.caps, kind), info);
    }
  }

  /** Every mouse and every touch pad is a pointer device; no keyboard is. */
  lemma KindsNest(caps: DeviceCapabilities)
    ensures IsKind(caps, Mouse) ==> IsKind(caps, Pointer)
    ensures IsKind(caps, TouchPad) ==> IsKind(caps, Pointer)
    ensures IsKind(caps, Keyboard) ==> !IsKind(caps, Pointer)
  {
  }

  /** The lists of mice and of touch pads are contained in the list of pointer devices. */
  lemma KindListsNest(devices: seq<DeviceInfo>, info: DeviceInfo)
    ensures info in OfKind(devices, Mouse) ==> info in OfKind(devices, Pointer)
    ensures info in OfKind(devices, TouchPad) ==> info in OfKind(devices, Pointer)
    ensures info in OfKind(devices, Keyboard) ==> info !in OfKind(devices, Pointer)
  {
    KindsNest(info.caps);
    KindMembership(devices, Mouse, info);
    KindMembership(devices, TouchPad, info);
    KindMembership(devices, Keyboard, info);
    KindMembership(devices, Pointer, info);
  }

  /** A read of at most 16 bytes leaves type, code and value zero; the
      timestamp comes from the bytes read. */
  lemma ShortReadZeroTail(data: Chunk, littleEndian: bool)
    requires |data| <= 16
    ensures var e := Decode(ZeroFilled(data), littleEndian);
      e.eventType == 0 && e.code == 0 && e.value == 0
  {
    var buffer := ZeroFilled(data);
    assert buffer[16..18] == Zeros(2);
    assert buffer[18..20] == Zeros(2);
    assert buffer[20..24] == Zeros(4);
    UintOfZeros(2, littleEndian);
    UintOfZeros(4, littleEndian);
  }

  /** The key file of a five-button mouse, as the kernel writes it on a
      64-bit little-endian host, reads as the segments of
      MouseButtonsMisplaced: the walk then reports key 16 and not BTN_LEFT. */
  lemma MouseKeyFile()
    ensures BitMasksOf(Data("1f0000 0 0 0 0\n"), true) == Ok([0, 0, 0, 0, 0x1f0000])
    ensures KeySupported([0, 0, 0, 0, 0x1f0000], 16)
    ensures !KeySupported([0, 0, 0, 0, 0x1f0000], 272)
  {
    var ws := ["1f0000", "0", "0", "0", "0"];
    assert JoinWords(ws[4..]) == "0\n";
    assert JoinWords(ws[3..]) == "0 0\n";
    assert JoinWords(ws[2..]) == "0 0 0\n";
    assert JoinWords(ws[1..]) == "0 0 0 0\n";
    assert JoinWords(ws) == "1f0000 0 0 0 0\n";
    FieldsJoinWords(ws);
    MouseKeyTokens();
    var segments: seq<nat> := [0x1f0000, 0, 0, 0, 0];
    assert Reverse(segments) == [0, 0, 0, 0, 0x1f0000];
    MouseButtonsMisplaced();
  }

  /** The mouse's five words parse as 0x1f0000 and four zeros. */
  lemma MouseKeyTokens()
    ensures ParseSegments(["1f0000", "0", "0", "0", "0"]) == Ok([0x1f0000, 0, 0, 0, 0])
  {
    var ws := ["1f0000", "0", "0", "0", "0"];
    assert "1f"[..1] == "1" && HexValue("1f") == 0x1f;
    assert "1f0"[..2] == "1f" && HexValue("1f0") == 0x1f0;
    assert "1f00"[..3] == "1f0" && HexValue("1f00") == 0x1f00;
    assert "1f000"[..4] == "1f00" && HexValue("1f000") == 0x1f000;
    assert "1f0000"[..5] == "1f000" && HexValue("1f0000") == 0x1f0000;
    assert HexValue("0") == 0;
    assert AllHex(ws);
    var values := seq(|ws|, j requires 0 <= j < |ws| => HexValue(ws[j]));
    assert values == [0x1f0000, 0, 0, 0, 0];
  }
}
