/**
 The device registry and the DNS mappings as values: what each operation of
 internal/store/store.go does to them, apart from the heap and the disk.
 */
module Registry {
  import opened Results
  import opened Bytes
  import opened Text
  import opened HostNames
  import opened Addresses

  /** Nanoseconds; 0 is Go's zero time. */
  type Time = int

  datatype DeviceRecord = DeviceRecord(
    mac: bytes, ip: bytes, hostname: bytes, vendor: bytes, userLabel: bytes, self: bool,
    firstSeen: Time, lastSeen: Time)

  datatype MappingRecord = MappingRecord(
    hostname: bytes, mac: bytes, ip: bytes, note: bytes, createdAt: Time, updatedAt: Time)

  datatype Registry = Registry(devices: map<bytes, DeviceRecord>, mappings: map<bytes, MappingRecord>)

  const EMPTY := Registry(map[], map[])

  /** One scan observation. */
  datatype SeenDevice = SeenDevice(mac: bytes, ip: bytes, self: bool)

  datatype StoreError =
    | LabelTooLong | BadMac | UnknownDevice | BadHostname | NeedOneTarget | BadAddress | NoteTooLong
    | MappingNotFound | NameTaken

  // ---------------------------------------------------------------------
  // Invariant
  // ---------------------------------------------------------------------

  ghost predicate GoodDevice(mac: bytes, d: DeviceRecord) {
    d.mac == mac && ValidMac(mac)
  }

  ghost predicate GoodMapping(name: bytes, m: MappingRecord) {
    m.hostname == name && ValidName(name) && (m.mac != [] ==> ValidMac(m.mac))
  }

  /** Every record stands under its own key, and all names and MAC addresses are normalised. This
      holds of whatever `Open` loads. */
  ghost predicate Keyed(r: Registry) {
    && (forall mac :: mac in r.devices ==> GoodDevice(mac, r.devices[mac]))
    && (forall name :: name in r.mappings ==> GoodMapping(name, r.mappings[name]))
  }

  /** Exactly one of MAC and IP is set, and the IP can be used. */
  ghost predicate GoodTarget(t: IPText, mac: bytes, ip: bytes) {
    (mac == []) != (ip == []) && (ip != [] ==> t.parse(ip).Some?)
  }

  /** Every mapping has exactly one target. This holds of whatever the program itself has built. */
  ghost predicate Aimed(t: IPText, r: Registry) {
    forall name :: name in r.mappings ==> GoodTarget(t, r.mappings[name].mac, r.mappings[name].ip)
  }

  // ---------------------------------------------------------------------
  // Resolution
  // ---------------------------------------------------------------------

  /** `resolveLocked`. */
  function Resolve(t: IPText, r: Registry, m: MappingRecord): Option<Address> {
    if m.ip != [] then t.parse(m.ip)
    else if m.mac in r.devices && r.devices[m.mac].ip != [] then t.parse(r.devices[m.mac].ip)
    else None
  }

  /** `ResolveName`: None when there is no mapping, Some(None) when its device has no address. */
  function ResolveName(t: IPText, r: Registry, name: bytes): Option<Option<Address>> {
    if name in r.mappings then Some(Resolve(t, r, r.mappings[name])) else None
  }

  /** `Device`. */
  function KnownDevice(r: Registry, mac: bytes): Option<DeviceRecord> {
    match NormalizeMac(mac)
    case None => None
    case Some(m) => if m in r.devices then Some(r.devices[m]) else None
  }

  // ---------------------------------------------------------------------
  // Scans
  // ---------------------------------------------------------------------

  function NewDevice(mac: bytes, now: Time): DeviceRecord {
    DeviceRecord(mac, [], [], [], [], false, now, 0)
  }

  function DeviceOr(r: Registry, mac: bytes, now: Time): DeviceRecord {
    if mac in r.devices then r.devices[mac] else NewDevice(mac, now)
  }

  /** A device after an observation: an observation without an address keeps the last one. */
  function Sighted(d: DeviceRecord, sd: SeenDevice, now: Time): DeviceRecord {
    d.(ip := if sd.ip != [] then sd.ip else d.ip, self := d.self || sd.self, lastSeen := now)
  }

  function WithDevice(r: Registry, mac: bytes, d: DeviceRecord): Registry {
    r.(devices := r.devices[mac := d])
  }

  /** One observation applied to the registry; an unreadable MAC is skipped. */
  function Observe(r: Registry, sd: SeenDevice, now: Time): Registry {
    match NormalizeMac(sd.mac)
    case None => r
    case Some(mac) =>
      WithDevice(r, mac, Sighted(DeviceOr(r, mac, now), sd, now))
  }

  /** Whether an observation is worth an immediate save. */
  predicate Material(r: Registry, sd: SeenDevice) {
    match NormalizeMac(sd.mac)
    case None => false
    case Some(mac) =>
      || mac !in r.devices
      || (sd.ip != [] && r.devices[mac].ip != sd.ip)
      || (sd.self && !r.devices[mac].self)
  }

  function ObserveAll(r: Registry, seen: seq<SeenDevice>, now: Time): Registry {
    if seen == [] then r
    else Observe(ObserveAll(r, seen[..|seen| - 1], now), seen[|seen| - 1], now)
  }

  predicate AnyMaterial(r: Registry, seen: seq<SeenDevice>, now: Time) {
    seen != [] &&
    var before := seen[..|seen| - 1];
    AnyMaterial(r, before, now) || Material(ObserveAll(r, before, now), seen[|seen| - 1])
  }

  predicate AnyReadable(seen: seq<SeenDevice>) {
    exists sd :: sd in seen && NormalizeMac(sd.mac).Some?
  }

  // ---------------------------------------------------------------------
  // Devices
  // ---------------------------------------------------------------------

  /** `SetDiscoveredHostname`; the flag says whether anything changed. */
  function WithHostname(r: Registry, mac: bytes, hostname: bytes): (Registry, bool) {
    var trimmed := TrimSpace(hostname);
    if trimmed == [] || mac !in r.devices || r.devices[mac].hostname == trimmed then (r, false)
    else (WithDevice(r, mac, r.devices[mac].(hostname := trimmed)), true)
  }

  /** `SetVendor`. */
  function WithVendor(r: Registry, mac: bytes, vendor: bytes): (Registry, bool) {
    if vendor == [] || mac !in r.devices || r.devices[mac].vendor == vendor then (r, false)
    else (WithDevice(r, mac, r.devices[mac].(vendor := vendor)), true)
  }

  const MAX_LABEL_TEXT := 100
  const MAX_NOTE := 200

  /** `SetLabel`. */
  function WithLabel(r: Registry, mac: bytes, text: bytes): Result<Registry, StoreError> {
    var trimmed := TrimSpace(text);
    if |trimmed| > MAX_LABEL_TEXT then Err(LabelTooLong)
    else
      match NormalizeMac(mac)
      case None => Err(BadMac)
      case Some(m) =>
        if m !in r.devices then Err(UnknownDevice)
        else Ok(WithDevice(r, m, r.devices[m].(userLabel := trimmed)))
  }

  /** `DeleteDevice`. */
  function WithoutDevice(r: Registry, mac: bytes): Result<Registry, StoreError> {
    match NormalizeMac(mac)
    case None => Err(BadMac)
    case Some(m) => if m !in r.devices then Err(UnknownDevice) else Ok(r.(devices := r.devices - {m}))
  }

  // ---------------------------------------------------------------------
  // Mappings
  // ---------------------------------------------------------------------

  /** A validated target of a mapping. */
  datatype Target = Target(hostname: bytes, mac: bytes, ip: bytes, note: bytes)

  /** `normalizeMappingInput`. */
  function NormalizeInput(t: IPText, hostname: bytes, mac: bytes, ip: bytes, note: bytes): Result<Target, StoreError> {
    var name := Normalize(hostname);
    if !ValidName(name) then Err(BadHostname)
    else if (mac == []) == (ip == []) then Err(NeedOneTarget)
    else if mac != [] && NormalizeMac(mac).None? then Err(BadMac)
    else if ip != [] && t.parse(TrimSpace(ip)).None? then Err(BadAddress)
    else if |note| > MAX_NOTE then Err(NoteTooLong)
    else Ok(Target(name,
                   if mac != [] then NormalizeMac(mac).value else [],
                   if ip != [] then t.format(t.parse(TrimSpace(ip)).value) else [],
                   TrimSpace(note)))
  }

  function Retarget(m: MappingRecord, target: Target, now: Time): MappingRecord {
    MappingRecord(target.hostname, target.mac, target.ip, target.note, m.createdAt, now)
  }

  /** `SetMapping` after validation: creates the mapping or overwrites its target. */
  function WithMapping(r: Registry, target: Target, now: Time): Registry {
    var m := if target.hostname in r.mappings then r.mappings[target.hostname]
             else MappingRecord(target.hostname, [], [], [], now, 0);
    r.(mappings := r.mappings[target.hostname := Retarget(m, target, now)])
  }

  /** `UpdateMapping` after validation: moves the mapping `previous` to its new name and target. */
  function Moved(r: Registry, previous: bytes, target: Target, now: Time): Result<Registry, StoreError> {
    if previous !in r.mappings then Err(MappingNotFound)
    else if target.hostname != previous && target.hostname in r.mappings then Err(NameTaken)
    else Ok(r.(mappings := (r.mappings - {previous})[target.hostname := Retarget(r.mappings[previous], target, now)]))
  }

  /** The renaming step of `UpdateMapping`: the record moves to its new key. */
  function Rekeyed(r: Registry, previous: bytes, name: bytes): Registry
    requires previous in r.mappings
  {
    if name == previous then r
    else r.(mappings := (r.mappings - {previous})[name := r.mappings[previous].(hostname := name)])
  }

  /** `UpdateMapping` renames, then retargets. */
  lemma MovedInTwo(r: Registry, previous: bytes, target: Target, now: Time)
    requires Moved(r, previous, target, now).Ok?
    ensures var s := Rekeyed(r, previous, target.hostname);
            && target.hostname in s.mappings
            && Moved(r, previous, target, now)
               == Ok(s.(mappings := s.mappings[target.hostname := Retarget(s.mappings[target.hostname], target, now)]))
  {
    if target.hostname == previous {
      assert (r.mappings - {previous})[previous := Retarget(r.mappings[previous], target, now)]
          == r.mappings[previous := Retarget(r.mappings[previous], target, now)];
    } else {
      var s := Rekeyed(r, previous, target.hostname);
      assert s.mappings[target.hostname := Retarget(s.mappings[target.hostname], target, now)]
          == (r.mappings - {previous})[target.hostname := Retarget(r.mappings[previous], target, now)];
    }
  }

  /** `DeleteMapping`. */
  function WithoutMapping(r: Registry, name: bytes): Registry {
    r.(mappings := r.mappings - {Normalize(name)})
  }

  // ---------------------------------------------------------------------
  // Every operation keeps the invariant
  // ---------------------------------------------------------------------

  lemma WithDeviceKeeps(r: Registry, mac: bytes, d: DeviceRecord)
    requires Keyed(r) && GoodDevice(mac, d)
    ensures Keyed(WithDevice(r, mac, d))
  {
  }

  /** Adding a device and then recording the observation in it is one step of the scan. */
  lemma ObserveInTwo(r: Registry, sd: SeenDevice, mac: bytes, now: Time)
    requires NormalizeMac(sd.mac) == Some(mac)
    ensures var d := DeviceOr(r, mac, now);
            && Observe(r, sd, now) == WithDevice(WithDevice(r, mac, d), mac, Sighted(d, sd, now))
            && (Material(r, sd) <==> mac !in r.devices || (sd.ip != [] && d.ip != sd.ip) || (sd.self && !d.self))
  {
    hide NormalizeMac;
  }

  lemma ObserveKeeps(r: Registry, sd: SeenDevice, now: Time)
    requires Keyed(r)
    ensures Keyed(Observe(r, sd, now))
    ensures Observe(r, sd, now).mappings == r.mappings
  {
    if NormalizeMac(sd.mac).Some? {
      NormalizeMacValid(sd.mac);
    }
  }

  lemma {:induction false} ScanStarts(r: Registry, seen: seq<SeenDevice>, now: Time)
    ensures ObserveAll(r, seen[..0], now) == r && !AnyMaterial(r, seen[..0], now) && !AnyReadable(seen[..0])
  {
  }

  /** One more observation of a scan. */
  lemma {:induction false} ScanNext(r: Registry, seen: seq<SeenDevice>, i: nat, now: Time)
    requires i < |seen|
    ensures var before := ObserveAll(r, seen[..i], now);
            && ObserveAll(r, seen[..i + 1], now) == Observe(before, seen[i], now)
            && (AnyMaterial(r, seen[..i + 1], now) <==> AnyMaterial(r, seen[..i], now) || Material(before, seen[i]))
            && (AnyReadable(seen[..i + 1]) <==> AnyReadable(seen[..i]) || NormalizeMac(seen[i].mac).Some?)
  {
    hide Observe, Material, NormalizeMac;
    assert seen[..i + 1][..i] == seen[..i];
    forall sd
      ensures sd in seen[..i + 1] <==> sd in seen[..i] || sd == seen[i]
    {
      assert seen[..i + 1] == seen[..i] + [seen[i]];
    }
  }

  lemma {:induction false} ObserveAllKeeps(r: Registry, seen: seq<SeenDevice>, now: Time)
    requires Keyed(r)
    ensures Keyed(ObserveAll(r, seen, now))
    ensures ObserveAll(r, seen, now).mappings == r.mappings
  {
    if seen == [] {
    } else {
      var before := seen[..|seen| - 1];
      ObserveAllKeeps(r, before, now);
      ObserveKeeps(ObserveAll(r, before, now), seen[|seen| - 1], now);
    }
  }

  /** Some observation is of this MAC. */
  ghost predicate Hits(seen: seq<SeenDevice>, mac: bytes) {
    exists sd :: sd in seen && NormalizeMac(sd.mac) == Some(mac)
  }

  /** Some observation is of this MAC, as the machine itself. */
  ghost predicate HitsSelf(seen: seq<SeenDevice>, mac: bytes) {
    exists sd :: sd in seen && NormalizeMac(sd.mac) == Some(mac) && sd.self
  }

  lemma HitsNext(seen: seq<SeenDevice>, mac: bytes)
    requires seen != []
    ensures var before, last := seen[..|seen| - 1], seen[|seen| - 1];
            && (Hits(seen, mac) <==> Hits(before, mac) || NormalizeMac(last.mac) == Some(mac))
            && (HitsSelf(seen, mac) <==> HitsSelf(before, mac) || (NormalizeMac(last.mac) == Some(mac) && last.self))
  {
    hide NormalizeMac;
    forall sd
      ensures sd in seen <==> sd in seen[..|seen| - 1] || sd == seen[|seen| - 1]
    {
      assert seen == seen[..|seen| - 1] + [seen[|seen| - 1]];
    }
  }

  lemma NoHits(mac: bytes)
    ensures !Hits([], mac) && !HitsSelf([], mac)
  {
  }

  lemma HitsBoth(seen: seq<SeenDevice>, mac: bytes)
    requires HitsSelf(seen, mac)
    ensures Hits(seen, mac)
  {
  }

  /** What a scan does to the device at `mac`, whatever the order of the observations: it is known
      afterwards if it was or was seen; a seen device keeps its first sighting and all its texts. */
  lemma {:induction false} ScanDevices(r: Registry, seen: seq<SeenDevice>, now: Time, mac: bytes)
    ensures var s := ObserveAll(r, seen, now);
            && (mac in s.devices <==> mac in r.devices || Hits(seen, mac))
            && (!Hits(seen, mac) && mac in r.devices ==> s.devices[mac] == r.devices[mac])
            && (Hits(seen, mac) ==>
                  var before, after := DeviceOr(r, mac, now), s.devices[mac];
                  && after.lastSeen == now && after.firstSeen == before.firstSeen && after.mac == before.mac
                  && after.hostname == before.hostname && after.vendor == before.vendor
                  && after.userLabel == before.userLabel && after.self == (before.self || HitsSelf(seen, mac)))
  {
    hide NormalizeMac, Hits, HitsSelf;
    if seen == [] {
      NoHits(mac);
    } else {
      ScanDevices(r, seen[..|seen| - 1], now, mac);
      HitsNext(seen, mac);
      if HitsSelf(seen[..|seen| - 1], mac) {
        HitsBoth(seen[..|seen| - 1], mac);
      }
    }
  }

  /** The name and the MAC of a validated target are normalised; it has exactly one target, and a
      static address is the one that was typed. */
  lemma NormalizedInput(t: IPText, hostname: bytes, mac: bytes, ip: bytes, note: bytes)
    requires NormalizeInput(t, hostname, mac, ip, note).Ok?
    ensures var target := NormalizeInput(t, hostname, mac, ip, note).value;
            && ValidName(target.hostname) && (target.mac != [] ==> ValidMac(target.mac))
            && (Lawful(t) ==>
                  && GoodTarget(t, target.mac, target.ip)
                  && (ip != [] ==> t.parse(target.ip) == t.parse(TrimSpace(ip))))
  {
    if mac != [] {
      NormalizeMacValid(mac);
    }
    if ip != [] && Lawful(t) {
      var a := t.parse(TrimSpace(ip)).value;
      assert t.parse(t.format(a)) == Some(a);
    }
  }

  /** Setting a mapping and moving one keep both invariants. */
  lemma MappingChangesKeep(t: IPText, r: Registry, previous: bytes, target: Target, now: Time)
    requires Keyed(r) && ValidName(target.hostname) && (target.mac != [] ==> ValidMac(target.mac))
    ensures Keyed(WithMapping(r, target, now))
    ensures Moved(r, previous, target, now).Ok? ==> Keyed(Moved(r, previous, target, now).value)
    ensures Aimed(t, r) && GoodTarget(t, target.mac, target.ip) ==> Aimed(t, WithMapping(r, target, now))
    ensures Aimed(t, r) && GoodTarget(t, target.mac, target.ip) && Moved(r, previous, target, now).Ok? ==>
              Aimed(t, Moved(r, previous, target, now).value)
  {
  }

  lemma SetMappingKeeps(t: IPText, r: Registry, hostname: bytes, mac: bytes, ip: bytes, note: bytes, now: Time)
    requires Keyed(r) && NormalizeInput(t, hostname, mac, ip, note).Ok?
    ensures Keyed(WithMapping(r, NormalizeInput(t, hostname, mac, ip, note).value, now))
  {
    NormalizedInput(t, hostname, mac, ip, note);
    hide NormalizeInput;
    MappingChangesKeep(t, r, [], NormalizeInput(t, hostname, mac, ip, note).value, now);
  }

  lemma UpdateMappingKeeps(t: IPText, r: Registry, previous: bytes,
                           hostname: bytes, mac: bytes, ip: bytes, note: bytes, now: Time)
    requires Keyed(r) && NormalizeInput(t, hostname, mac, ip, note).Ok?
    ensures var moved := Moved(r, previous, NormalizeInput(t, hostname, mac, ip, note).value, now);
            moved.Ok? ==> Keyed(moved.value)
  {
    NormalizedInput(t, hostname, mac, ip, note);
    hide NormalizeInput;
    MappingChangesKeep(t, r, previous, NormalizeInput(t, hostname, mac, ip, note).value, now);
  }

  /** Another registry has the same mappings except at these names. */
  ghost predicate SameExcept(r: Registry, s: Registry, names: set<bytes>) {
    forall n :: n !in names ==>
      && (n in s.mappings <==> n in r.mappings)
      && (n in r.mappings ==> s.mappings[n] == r.mappings[n])
  }

  /** `SetMapping` keeps the creation time of a mapping it overwrites, and every other mapping. */
  lemma WithMappingFrame(r: Registry, target: Target, now: Time)
    ensures var s := WithMapping(r, target, now);
            && s.devices == r.devices && SameExcept(r, s, {target.hostname})
            && target.hostname in s.mappings
            && s.mappings[target.hostname].createdAt ==
               (if target.hostname in r.mappings then r.mappings[target.hostname].createdAt else now)
            && |s.mappings| == |r.mappings| + if target.hostname in r.mappings then 0 else 1
  {
    var s := WithMapping(r, target, now);
    if target.hostname in r.mappings {
      assert s.mappings.Keys == r.mappings.Keys;
    } else {
      assert s.mappings.Keys == r.mappings.Keys + {target.hostname};
    }
  }

  /** A successful `UpdateMapping` keeps the creation time, drops the old name if it differs, and
      leaves every other mapping and what it resolves to as it was. */
  lemma MovedFrame(t: IPText, r: Registry, previous: bytes, target: Target, now: Time)
    requires Moved(r, previous, target, now).Ok?
    ensures var s := Moved(r, previous, target, now).value;
            && s.devices == r.devices && SameExcept(r, s, {previous, target.hostname})
            && target.hostname in s.mappings
            && s.mappings[target.hostname].createdAt == r.mappings[previous].createdAt
            && (target.hostname != previous ==> previous !in s.mappings)
            && (forall n :: n != previous && n != target.hostname ==> ResolveName(t, s, n) == ResolveName(t, r, n))
  {
  }

  /** It also keeps the number of mappings. */
  lemma MovedCount(r: Registry, previous: bytes, target: Target, now: Time)
    requires Moved(r, previous, target, now).Ok?
    ensures |Moved(r, previous, target, now).value.mappings| == |r.mappings|
  {
    var kept := r.mappings.Keys - {previous};
    assert r.mappings.Keys == kept + {previous};
    assert Moved(r, previous, target, now).value.mappings.Keys == kept + {target.hostname};
  }

  /** Deleting a mapping takes out that name, normalised, and nothing else. */
  lemma WithoutMappingFrame(t: IPText, r: Registry, name: bytes)
    ensures var s := WithoutMapping(r, name);
            && s.devices == r.devices && SameExcept(r, s, {Normalize(name)})
            && ResolveName(t, s, Normalize(name)) == None
            && |s.mappings| == |r.mappings| - if Normalize(name) in r.mappings then 1 else 0
  {
    hide Normalize;
    RemovedCount(r.mappings, Normalize(name));
  }

  lemma RemovedCount<T>(m: map<bytes, T>, k: bytes)
    ensures |m - {k}| == |m| - if k in m then 1 else 0
  {
    var rest := m - {k};
    assert m.Keys == if k in m then rest.Keys + {k} else rest.Keys;
    assert |m| == |m.Keys| && |rest| == |rest.Keys|;
  }

  /** Deleting a device leaves its names mapped, without an address, and every other name as it was. */
  lemma WithoutDeviceFrame(t: IPText, r: Registry, mac: bytes, name: bytes)
    requires WithoutDevice(r, mac).Ok? && name in r.mappings
    ensures var s := WithoutDevice(r, mac).value;
            var m := r.mappings[name];
            && s.mappings == r.mappings
            && ResolveName(t, s, name) ==
               if m.ip == [] && NormalizeMac(mac) == Some(m.mac) then Some(None) else ResolveName(t, r, name)
  {
    hide NormalizeMac;
  }
}
