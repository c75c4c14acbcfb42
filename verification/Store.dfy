/**
 The store itself: `Device` and `Mapping` objects that are updated in place, the two maps that
 hold them, the dirty flag and the directory of the state file (internal/store/store.go).
 Every operation is proved to do to this heap what `Runs.Do` says.
 */
module Store {
  import opened Results
  import opened Bytes
  import opened Text
  import opened HostNames
  import opened Addresses
  import opened Ordering
  import opened Registry
  import opened Resolution
  import opened Persistence
  import opened JsonText
  import opened Runs
  import opened Views

  class Device {
    var mac: bytes
    var ip: bytes
    var hostname: bytes
    var vendor: bytes
    var userLabel: bytes
    var self: bool
    var firstSeen: Time
    var lastSeen: Time

    constructor (d: DeviceRecord)
      ensures Record() == d
    {
      mac, ip, hostname, vendor, userLabel := d.mac, d.ip, d.hostname, d.vendor, d.userLabel;
      self, firstSeen, lastSeen := d.self, d.firstSeen, d.lastSeen;
    }

    function Record(): DeviceRecord
      reads this
    {
      DeviceRecord(mac, ip, hostname, vendor, userLabel, self, firstSeen, lastSeen)
    }

    /** One observation recorded in place; the result says whether anything but `lastSeen` changed. */
    method See(sd: SeenDevice, now: Time) returns (changed: bool)
      modifies this
      ensures Record() == Sighted(old(Record()), sd, now)
      ensures changed == ((sd.ip != [] && old(ip) != sd.ip) || (sd.self && !old(self)))
    {
      changed := false;
      if sd.ip != [] && ip != sd.ip {
        ip := sd.ip;
        changed := true;
      }
      if sd.self && !self {
        self := true;
        changed := true;
      }
      lastSeen := now;
    }
  }

  class Mapping {
    var hostname: bytes
    var mac: bytes
    var ip: bytes
    var note: bytes
    var createdAt: Time
    var updatedAt: Time

    constructor (m: MappingRecord)
      ensures Record() == m
    {
      hostname, mac, ip, note, createdAt, updatedAt := m.hostname, m.mac, m.ip, m.note, m.createdAt, m.updatedAt;
    }

    function Record(): MappingRecord
      reads this
    {
      MappingRecord(hostname, mac, ip, note, createdAt, updatedAt)
    }
  }

  /** The directory of the state file, with every state it has been in. */
  class Disk {
    var files: Files
    ghost var history: seq<Files>

    constructor (files: Files)
      ensures this.files == files && history == [files]
    {
      this.files, history := files, [files];
    }

    method Put(name: FileName, contents: Contents)
      modifies this
      ensures files == old(files)[name := contents] && history == old(history) + [files]
    {
      files := files[name := contents];
      history := history + [files];
    }

    /** `os.Remove`, whose failure is ignored. */
    method Remove(name: FileName, works: bool)
      modifies this
      ensures files == if works then old(files) - {name} else old(files)
      ensures history == old(history) + [files]
    {
      if works {
        files := files - {name};
      }
      history := history + [files];
    }

    /** `os.Rename`: one step, in which the target is replaced. */
    method Rename(from: FileName, to: FileName)
      requires from in files
      modifies this
      ensures files == (old(files) - {from})[to := old(files)[from]] && history == old(history) + [files]
    {
      files := (files - {from})[to := files[from]];
      history := history + [files];
    }

    /** The file steps of `saveLocked`: the directory goes through exactly the states of `SaveTrace`. */
    method Replace(p: Persisted, fate: Fate) returns (err: Option<Stage>)
      modifies this
      ensures err == fate.fails && files == AfterSave(old(files), p, fate)
      ensures history == old(history) + SaveTrace(old(files), p, fate)[1..]
    {
      var tmp := TempFile(fate.temp);
      ghost var created, written := Created(files, fate), Written(files, p, fate);
      if fate.fails == Some(MkdirAll) {
        return fate.fails;
      }
      if fate.fails == Some(CreateTemp) {
        return fate.fails;
      }
      Put(tmp, Torn);
      if fate.fails == Some(Write) {
        Remove(tmp, fate.removed);
        assert SaveTrace(old(files), p, fate)[1..] == [created, files];
        return fate.fails;
      }
      Put(tmp, Complete(p));
      assert files == written;
      if fate.fails == Some(Close) {
        Remove(tmp, fate.removed);
        assert SaveTrace(old(files), p, fate)[1..] == [created, written, files];
        return fate.fails;
      }
      if fate.fails == Some(Stage.Rename) {
        Remove(tmp, fate.removed);
        assert SaveTrace(old(files), p, fate)[1..] == [created, written, files];
        return fate.fails;
      }
      Rename(tmp, StateFile);
      assert SaveTrace(old(files), p, fate)[1..] == [created, written, files];
      return None;
    }
  }

  datatype OpenError = Corrupt | Unreadable

  class Store {
    const net: IPText
    const onlineWindow: Time
    const disk: Disk
    var devices: map<bytes, Device>
    var mappings: map<bytes, Mapping>
    var dirty: bool

    constructor (net: IPText, onlineWindow: Time, disk: Disk)
      ensures this.net == net && this.onlineWindow == onlineWindow && this.disk == disk
      ensures devices == map[] && mappings == map[] && !dirty
    {
      this.net, this.onlineWindow, this.disk := net, onlineWindow, disk;
      devices, mappings, dirty := map[], map[], false;
    }

    // -------------------------------------------------------------------
    // Abstraction
    // -------------------------------------------------------------------

    /** The values in the two maps. */
    ghost function Reg(): Registry
      reads this`devices, this`mappings, devices.Values, mappings.Values
    {
      Registry(map k | k in devices :: devices[k].Record(), map k | k in mappings :: mappings[k].Record())
    }

    /** Every key is the key its object carries, so no object is reachable under two keys. */
    lemma NoSharing()
      requires Keyed(Reg())
      ensures forall k :: k in devices ==> devices[k].mac == k
      ensures forall k :: k in mappings ==> mappings[k].hostname == k
      ensures forall j, k :: j in devices && k in devices && j != k ==> devices[j] != devices[k]
      ensures forall j, k :: j in mappings && k in mappings && j != k ==> mappings[j] != mappings[k]
    {
      forall k | k in devices
        ensures devices[k].mac == k
      {
        assert GoodDevice(k, Reg().devices[k]);
      }
      forall k | k in mappings
        ensures mappings[k].hostname == k
      {
        assert GoodMapping(k, Reg().mappings[k]);
      }
    }

    /** The registry, entry by entry. */
    lemma RegEntries()
      ensures devices.Keys == Reg().devices.Keys && mappings.Keys == Reg().mappings.Keys
      ensures forall k :: k in devices ==> devices[k].Record() == Reg().devices[k]
      ensures forall k :: k in mappings ==> mappings[k].Record() == Reg().mappings[k]
    {
    }

    lemma RegIs(r: Registry)
      requires devices.Keys == r.devices.Keys && mappings.Keys == r.mappings.Keys
      requires forall k :: k in devices ==> devices[k].Record() == r.devices[k]
      requires forall k :: k in mappings ==> mappings[k].Record() == r.mappings[k]
      ensures Reg() == r
    {
      assert Reg().devices == r.devices && Reg().mappings == r.mappings;
    }

    lemma RegAt(mac: bytes)
      ensures mac in devices <==> mac in Reg().devices
      ensures mac in devices ==> devices[mac].Record() == Reg().devices[mac]
    {
    }

    // -------------------------------------------------------------------
    // Opening
    // -------------------------------------------------------------------

    /** The first loop of `Open`: MAC addresses are normalised in place, a later record wins. */
    method LoadDeviceObjects(ds: seq<DeviceRecord>)
      requires Reg() == EMPTY
      modifies this`devices
      ensures fresh(devices.Values) && Reg() == Registry(LoadDevices(ds), map[])
    {
      RegEntries();
      hide Reg, NormalizeMac;
      assert ds[..0] == [];
      for i := 0 to |ds|
        invariant forall k :: k in devices ==> fresh(devices[k])
        invariant mappings == map[]
        invariant Reg() == Registry(LoadDevices(ds[..i]), map[])
      {
        assert ds[..i + 1][..i] == ds[..i];
        var d := new Device(ds[i]);
        var mac := NormalizeMac(d.mac);
        if mac.None? {
          continue;
        }
        d.mac := mac.value;
        label stored:
        devices := devices[d.mac := d];
        DeviceStored@stored(d.mac);
      }
      assert ds[..|ds|] == ds;
    }

    /** One turn of the second loop of `Open`: an invalid mapping is skipped, any other normalised in place. */
    method LoadMappingObject(record: MappingRecord)
      modifies this`mappings
      ensures fresh(mappings.Values - old(mappings.Values))
      ensures Reg() == Registry(old(Reg()).devices, LoadMapping(old(Reg()).mappings, record))
    {
      hide Reg, NormalizeMac, Normalize, ValidName;
      var m := new Mapping(record);
      m.hostname := Normalize(m.hostname);
      if !ValidName(m.hostname) {
        return;
      }
      if m.mac != [] {
        var mac := NormalizeMac(m.mac);
        if mac.None? {
          return;
        }
        m.mac := mac.value;
      }
      mappings := mappings[m.hostname := m];
      MappingStored(m.hostname);
    }

    /** The second loop of `Open`. */
    method LoadMappingObjects(ms: seq<MappingRecord>)
      requires Reg().mappings == map[]
      modifies this`mappings
      ensures fresh(mappings.Values) && Reg() == Registry(old(Reg()).devices, LoadMappings(ms))
    {
      RegEntries();
      hide Reg, LoadMapping;
      assert ms[..0] == [];
      for i := 0 to |ms|
        invariant forall k :: k in mappings ==> fresh(mappings[k])
        invariant Reg() == Registry(old(Reg()).devices, LoadMappings(ms[..i]))
      {
        assert ms[..i + 1][..i] == ms[..i];
        LoadMappingObject(ms[i]);
      }
      assert ms[..|ms|] == ms;
    }

    /** `Open`: it does what `Runs.Step` says of a start; `readable` is whether reading the file works
        or finds that there is none. A torn file is refused; any other gives a clean store in which
        every record stands under its own key, even when the file was written by hand. */
    static method Open(net: IPText, onlineWindow: Time, disk: Disk, readable: bool) returns (r: Result<Store, OpenError>)
      ensures r.Err? <==> !readable || StateOf(disk.files) == Some(Torn)
      ensures r.Err? ==> r.error == if readable then Corrupt else Unreadable
      ensures r.Err? ==> Step(net, Down(disk.files), if readable then Start else FailedStart) == Down(disk.files)
      ensures r.Ok? ==> fresh(r.value) && r.value.disk == disk
      ensures r.Ok? ==> r.value.net == net && r.value.onlineWindow == onlineWindow
      ensures r.Ok? ==> Step(net, Down(disk.files), Start) == Up(At(r.value.Reg(), r.value.dirty, disk.files))
      ensures r.Ok? ==> Keyed(r.value.Reg())
    {
      if GoodFile(disk.files) {
        StartKeeps(net, disk.files);
      }
      hide LoadDevices, LoadMappings, Keyed;
      var s := new Store(net, onlineWindow, disk);
      if !readable {
        return Err(Unreadable);
      }
      if StateFile !in disk.files {
        return Ok(s);
      }
      if disk.files[StateFile] == Torn {
        return Err(Corrupt);
      }
      var p := Reread(disk.files[StateFile].p);
      s.LoadDeviceObjects(p.devices);
      s.LoadMappingObjects(p.mappings);
      return Ok(s);
    }

    // -------------------------------------------------------------------
    // Saving
    // -------------------------------------------------------------------

    /** The keys of `devices`, sorted. */
    method SortedMacs() returns (macs: seq<bytes>)
      ensures macs == Sorted(Reg().devices.Keys) && forall i :: 0 <= i < |macs| ==> macs[i] in devices
    {
      macs := SortedNames(devices.Keys);
      SortedIs(macs, Reg().devices.Keys);
      assert forall i :: 0 <= i < |macs| ==> macs[i] in macs;
    }

    method CollectDevices() returns (ds: seq<DeviceRecord>)
      ensures ds == Snapshot(Reg()).devices
    {
      hide Sorted;
      var macs := SortedMacs();
      ds := [];
      for i := 0 to |macs|
        invariant |ds| == i && forall k :: 0 <= k < i ==> ds[k] == Reg().devices[macs[k]]
      {
        ds := ds + [devices[macs[i]].Record()];
      }
      assert ds == Pick(Reg().devices, macs);
    }

    /** The keys of `mappings`, sorted. */
    method SortedHosts() returns (names: seq<bytes>)
      ensures names == Sorted(Reg().mappings.Keys) && forall i :: 0 <= i < |names| ==> names[i] in mappings
    {
      names := SortedNames(mappings.Keys);
      SortedIs(names, Reg().mappings.Keys);
      assert forall i :: 0 <= i < |names| ==> names[i] in names;
    }

    method CollectMappings() returns (ms: seq<MappingRecord>)
      ensures ms == Snapshot(Reg()).mappings
    {
      hide Sorted;
      var names := SortedHosts();
      ms := [];
      for i := 0 to |names|
        invariant |ms| == i && forall k :: 0 <= k < i ==> ms[k] == Reg().mappings[names[k]]
      {
        ms := ms + [mappings[names[i]].Record()];
      }
      assert ms == Pick(Reg().mappings, names);
    }

    /** The document `saveLocked` writes. */
    method Collect() returns (p: Persisted)
      ensures p == Snapshot(Reg())
    {
      hide Pick, Sorted, Reg;
      var ds := CollectDevices();
      var ms := CollectMappings();
      p := Persisted(ds, ms);
    }

    /** `saveLocked`. */
    method SaveLocked(fate: Fate) returns (err: Option<Stage>)
      requires Keyed(Reg())
      modifies this`dirty, disk
      ensures Keyed(Reg())
      ensures At(Reg(), dirty, disk.files) ==
              Saved(Memory(old(Reg()), old(dirty)), old(disk.files), fate)
      ensures err == fate.fails
      ensures disk.history == old(disk.history) + SaveTrace(old(disk.files), Snapshot(Reg()), fate)[1..]
    {
      hide Keyed, Snapshot, SaveTrace, AfterSave, Reg;
      var p := Collect();
      err := disk.Replace(p, fate);
      if err.Some? {
        return;
      }
      dirty := false;
    }

    /** The save at the end of the operation `op` that began in state `before`. */
    method SaveAfter(ghost before: Running, ghost op: Op, fate: Fate) returns (err: Option<Stage>)
      requires Keyed(Reg()) && Apply(net, before.mem, op) == Ok(Effect(Memory(Reg(), dirty), true)) && disk.files == before.files
      modifies this`dirty, disk
      ensures Keyed(Reg()) && At(Reg(), dirty, disk.files) == Do(net, before, op, fate) && err == fate.fails
      ensures disk.history == old(disk.history) + SaveTrace(old(disk.files), Snapshot(Reg()), fate)[1..]
    {
      hide Keyed, Snapshot, AfterSave, SaveTrace, Reg, Apply;
      err := SaveLocked(fate);
    }

    /** `Save`. */
    method Save(fate: Fate) returns (err: Option<Stage>)
      requires Keyed(Reg())
      modifies this`dirty, disk
      ensures Keyed(Reg())
      ensures At(Reg(), dirty, disk.files) ==
              Do(net, old(At(Reg(), dirty, disk.files)), Op.Save, fate)
      ensures err == fate.fails
    {
      hide Keyed, Snapshot, AfterSave, Reg;
      err := SaveLocked(fate);
    }

    /** `SaveIfDirty`. */
    method SaveIfDirty(fate: Fate) returns (err: Option<Stage>)
      requires Keyed(Reg())
      modifies this`dirty, disk
      ensures Keyed(Reg())
      ensures At(Reg(), dirty, disk.files) ==
              Do(net, old(At(Reg(), dirty, disk.files)), Op.SaveIfDirty, fate)
      ensures err == if old(dirty) then fate.fails else None
    {
      hide Keyed, Snapshot, AfterSave, Reg;
      if !dirty {
        return None;
      }
      err := SaveLocked(fate);
    }

    // -------------------------------------------------------------------
    // Scans
    // -------------------------------------------------------------------

    /** Updating the device at `mac` in place changes that entry and nothing else. */
    twostate lemma DeviceUpdated(mac: bytes)
      requires old(Keyed(Reg())) && mac in devices && devices == old(devices) && mappings == old(mappings)
      requires forall k :: k in devices && devices[k] != devices[mac] ==> devices[k].Record() == old(devices[k].Record())
      requires forall k :: k in mappings ==> mappings[k].Record() == old(mappings[k].Record())
      ensures Reg() == WithDevice(old(Reg()), mac, devices[mac].Record())
    {
      forall k | k in devices && k != mac
        ensures devices[k].Record() == old(Reg()).devices[k]
      {
        assert GoodDevice(k, old(Reg()).devices[k]) && GoodDevice(mac, old(Reg()).devices[mac]);
      }
      hide Keyed;
      RegIs(WithDevice(old(Reg()), mac, devices[mac].Record()));
    }

    /** Putting a device object at a key changes that entry and nothing else. */
    twostate lemma DeviceStored(mac: bytes)
      requires mac in devices && devices == old(devices)[mac := devices[mac]] && mappings == old(mappings)
      requires forall k :: k in old(devices) && k != mac ==> devices[k].Record() == old(devices[k].Record())
      requires forall k :: k in mappings ==> mappings[k].Record() == old(mappings[k].Record())
      ensures Reg() == WithDevice(old(Reg()), mac, devices[mac].Record())
    {
      RegIs(WithDevice(old(Reg()), mac, devices[mac].Record()));
    }

    /** A new device in the registry. */
    method AddDevice(mac: bytes, now: Time) returns (d: Device)
      requires mac !in devices
      modifies this`devices
      ensures fresh(d) && devices == old(devices)[mac := d] && d.Record() == NewDevice(mac, now)
      ensures Reg() == WithDevice(old(Reg()), mac, NewDevice(mac, now))
    {
      hide Reg;
      d := new Device(NewDevice(mac, now));
      devices := devices[mac := d];
      DeviceStored(mac);
    }

    /** An observation recorded in the device at `mac`. */
    method SeeAt(mac: bytes, sd: SeenDevice, now: Time) returns (changed: bool)
      requires Keyed(Reg()) && mac in devices
      modifies this`dirty, devices[mac]
      ensures dirty && Reg() == WithDevice(old(Reg()), mac, Sighted(old(Reg()).devices[mac], sd, now))
      ensures var d := old(Reg()).devices[mac];
              changed == ((sd.ip != [] && d.ip != sd.ip) || (sd.self && !d.self))
    {
      RegAt(mac);
      hide Keyed, Reg, Sighted, WithDevice;
      changed := devices[mac].See(sd, now);
      dirty := true;
      DeviceUpdated(mac);
    }

    /** The device at `mac`, added if it is new. */
    method EnsureDevice(mac: bytes, now: Time) returns (added: bool)
      requires Keyed(Reg()) && ValidMac(mac)
      modifies this`devices
      ensures Keyed(Reg()) && mac in devices && added == (mac !in old(devices))
      ensures Reg() == WithDevice(old(Reg()), mac, DeviceOr(old(Reg()), mac, now))
      ensures fresh(devices.Values - old(devices.Values))
    {
      RegAt(mac);
      WithDeviceKeeps(Reg(), mac, DeviceOr(Reg(), mac, now));
      hide Keyed, ValidMac, Reg;
      if mac in devices {
        assert Reg().devices == Reg().devices[mac := DeviceOr(Reg(), mac, now)];
        return false;
      }
      var _ := AddDevice(mac, now);
      return true;
    }

    /** One turn of the loop of `ApplyScan`, for a readable MAC. */
    method ObserveOne(mac: bytes, sd: SeenDevice, now: Time) returns (material: bool)
      requires Keyed(Reg()) && NormalizeMac(sd.mac) == Some(mac)
      modifies this`devices, this`dirty, devices.Values
      ensures Keyed(Reg()) && Reg() == Observe(old(Reg()), sd, now) && fresh(devices.Values - old(devices.Values))
      ensures material == Material(old(Reg()), sd) && dirty
    {
      ObserveKeeps(Reg(), sd, now);
      NormalizeMacValid(sd.mac);
      ObserveInTwo(Reg(), sd, mac, now);
      RegAt(mac);
      hide Keyed, NormalizeMac, ValidMac, Reg, Observe, Material, Sighted, DeviceOr;
      var added := EnsureDevice(mac, now);
      var changed := SeeAt(mac, sd, now);
      material := added || changed;
    }

    /** `ApplyScan`. */
    method ApplyScan(seen: seq<SeenDevice>, now: Time) returns (material: bool)
      requires Keyed(Reg())
      modifies this`devices, this`dirty, devices.Values
      ensures Keyed(Reg()) && fresh(devices.Values - old(devices.Values))
      ensures At(Reg(), dirty, disk.files) ==
              Do(net, old(At(Reg(), dirty, disk.files)), Scan(seen, now), Fate(None, 0, true))
      ensures material == AnyMaterial(old(Reg()), seen, now)
    {
      material := false;
      ScanStarts(Reg(), seen, now);
      hide Keyed, NormalizeMac, Reg, ObserveAll, AnyMaterial, AnyReadable;
      for i := 0 to |seen|
        invariant Keyed(Reg()) && fresh(devices.Values - old(devices.Values))
        invariant Reg() == ObserveAll(old(Reg()), seen[..i], now)
        invariant material == AnyMaterial(old(Reg()), seen[..i], now)
        invariant dirty == (old(dirty) || AnyReadable(seen[..i]))
      {
        ScanNext(old(Reg()), seen, i, now);
        var mac := NormalizeMac(seen[i].mac);
        if mac.None? {
          continue;
        }
        var changed := ObserveOne(mac.value, seen[i], now);
        material := material || changed;
      }
      assert seen[..|seen|] == seen;
    }

    // -------------------------------------------------------------------
    // Devices
    // -------------------------------------------------------------------

    method PutHostname(mac: bytes, text: bytes)
      requires Keyed(Reg()) && mac in devices
      modifies this`dirty, devices[mac]
      ensures dirty && Reg() == WithDevice(old(Reg()), mac, old(Reg()).devices[mac].(hostname := text))
    {
      RegAt(mac);
      hide Keyed, Reg;
      devices[mac].hostname := text;
      dirty := true;
      DeviceUpdated(mac);
    }

    method PutVendor(mac: bytes, text: bytes)
      requires Keyed(Reg()) && mac in devices
      modifies this`dirty, devices[mac]
      ensures dirty && Reg() == WithDevice(old(Reg()), mac, old(Reg()).devices[mac].(vendor := text))
    {
      RegAt(mac);
      hide Keyed, Reg;
      devices[mac].vendor := text;
      dirty := true;
      DeviceUpdated(mac);
    }

    method PutLabel(mac: bytes, text: bytes)
      requires Keyed(Reg()) && mac in devices
      modifies this`dirty, devices[mac]
      ensures dirty && Reg() == WithDevice(old(Reg()), mac, old(Reg()).devices[mac].(userLabel := text))
    {
      RegAt(mac);
      hide Keyed, Reg;
      devices[mac].userLabel := text;
      dirty := true;
      DeviceUpdated(mac);
    }

    /** `SetDiscoveredHostname`. */
    method SetDiscoveredHostname(mac: bytes, hostname: bytes) returns (changed: bool)
      requires Keyed(Reg())
      modifies this`dirty, devices.Values
      ensures Keyed(Reg())
      ensures At(Reg(), dirty, disk.files) ==
              Do(net, old(At(Reg(), dirty, disk.files)), DiscoverHostname(mac, hostname), Fate(None, 0, true))
      ensures changed == WithHostname(old(Reg()), mac, hostname).1
    {
      hide Keyed, Reg, WithDevice, Do, Apply, TrimSpace;
      DeviceChangesKeep(Reg(), mac, hostname);
      RegAt(mac);
      DoText(net, At(Reg(), dirty, disk.files), mac, hostname, Fate(None, 0, true));
      var trimmed := TrimSpace(hostname);
      if trimmed == [] || mac !in devices || devices[mac].hostname == trimmed {
        return false;
      }
      PutHostname(mac, trimmed);
      return true;
    }

    /** `SetVendor`. */
    method SetVendor(mac: bytes, vendor: bytes) returns (changed: bool)
      requires Keyed(Reg())
      modifies this`dirty, devices.Values
      ensures Keyed(Reg())
      ensures At(Reg(), dirty, disk.files) ==
              Do(net, old(At(Reg(), dirty, disk.files)), AssignVendor(mac, vendor), Fate(None, 0, true))
      ensures changed == WithVendor(old(Reg()), mac, vendor).1
    {
      hide Keyed, Reg, WithDevice, Do, Apply;
      DeviceChangesKeep(Reg(), mac, vendor);
      RegAt(mac);
      DoText(net, At(Reg(), dirty, disk.files), mac, vendor, Fate(None, 0, true));
      if vendor == [] || mac !in devices || devices[mac].vendor == vendor {
        return false;
      }
      PutVendor(mac, vendor);
      return true;
    }

    /** `SetLabel`. */
    method SetLabel(mac: bytes, text: bytes, fate: Fate) returns (r: Result<Option<Stage>, StoreError>)
      requires Keyed(Reg())
      modifies this`dirty, devices.Values, disk
      ensures Keyed(Reg())
      ensures At(Reg(), dirty, disk.files) ==
              Do(net, old(At(Reg(), dirty, disk.files)), AssignLabel(mac, text), fate)
      ensures r == match WithLabel(old(Reg()), mac, text) case Ok(_) => Ok(fate.fails) case Err(e) => Err(e)
    {
      hide Keyed, Reg, WithDevice, NormalizeMac, TrimSpace;
      DeviceChangesKeep(Reg(), mac, text);
      var trimmed := TrimSpace(text);
      if |trimmed| > MAX_LABEL_TEXT {
        return Err(LabelTooLong);
      }
      var m := NormalizeMac(mac);
      if m.None? {
        return Err(BadMac);
      }
      RegAt(m.value);
      if m.value !in devices {
        return Err(UnknownDevice);
      }
      hide Do;
      PutLabel(m.value, trimmed);
      var err := SaveAfter(old(At(Reg(), dirty, disk.files)), AssignLabel(mac, text), fate);
      return Ok(err);
    }

    /** `DeleteDevice`. */
    method DeleteDevice(mac: bytes, fate: Fate) returns (r: Result<Option<Stage>, StoreError>)
      requires Keyed(Reg())
      modifies this`devices, this`dirty, disk
      ensures Keyed(Reg())
      ensures At(Reg(), dirty, disk.files) ==
              Do(net, old(At(Reg(), dirty, disk.files)), RemoveDevice(mac), fate)
      ensures r == match WithoutDevice(old(Reg()), mac) case Ok(_) => Ok(fate.fails) case Err(e) => Err(e)
    {
      hide Keyed, NormalizeMac, Reg;
      DeviceChangesKeep(Reg(), mac, []);
      var m := NormalizeMac(mac);
      if m.None? {
        return Err(BadMac);
      }
      RegAt(m.value);
      if m.value !in devices {
        return Err(UnknownDevice);
      }
      hide Do;
      Drop(m.value);
      var err := SaveAfter(old(At(Reg(), dirty, disk.files)), RemoveDevice(mac), fate);
      return Ok(err);
    }

    method Drop(mac: bytes)
      requires Keyed(Reg())
      modifies this`devices, this`dirty
      ensures dirty && devices == old(devices) - {mac}
      ensures Reg() == old(Reg()).(devices := old(Reg()).devices - {mac})
    {
      RegEntries();
      hide Keyed, Reg;
      devices := devices - {mac};
      dirty := true;
      RegIs(old(Reg()).(devices := old(Reg()).devices - {mac}));
    }

    // -------------------------------------------------------------------
    // Mappings
    // -------------------------------------------------------------------

    lemma MappingAt(name: bytes)
      ensures name in mappings <==> name in Reg().mappings
      ensures name in mappings ==> mappings[name].Record() == Reg().mappings[name]
    {
    }

    /** Changing the mapping object at `name` changes that entry and nothing else. */
    twostate lemma MappingUpdated(name: bytes)
      requires devices == old(devices) && forall k :: k in devices ==> devices[k].Record() == old(devices[k].Record())
      requires name in mappings && mappings == old(mappings)
      requires forall k :: k in mappings && k != name ==> mappings[k].Record() == old(mappings[k].Record())
      ensures Reg() == old(Reg()).(mappings := old(Reg()).mappings[name := mappings[name].Record()])
    {
      RegIs(old(Reg()).(mappings := old(Reg()).mappings[name := mappings[name].Record()]));
    }

    /** Putting a mapping object at a key changes that entry and nothing else. */
    twostate lemma MappingStored(name: bytes)
      requires name in mappings && mappings == old(mappings)[name := mappings[name]] && devices == old(devices)
      requires forall k :: k in old(mappings) && k != name ==> mappings[k].Record() == old(mappings[k].Record())
      requires forall k :: k in devices ==> devices[k].Record() == old(devices[k].Record())
      ensures Reg() == old(Reg()).(mappings := old(Reg()).mappings[name := mappings[name].Record()])
    {
      RegIs(old(Reg()).(mappings := old(Reg()).mappings[name := mappings[name].Record()]));
    }

    ghost predicate Unshared()
      reads this`mappings, mappings.Values
    {
      forall k :: k in mappings ==> mappings[k].hostname == k
    }

    /** A new mapping object without a target. */
    method AddMapping(name: bytes, now: Time)
      requires Unshared() && name !in mappings
      modifies this`mappings
      ensures Unshared() && name in mappings && fresh(mappings[name]) && mappings == old(mappings)[name := mappings[name]]
      ensures Reg() == old(Reg()).(mappings := old(Reg()).mappings[name := MappingRecord(name, [], [], [], now, 0)])
    {
      hide Reg;
      var m := new Mapping(MappingRecord(name, [], [], [], now, 0));
      mappings := mappings[name := m];
      MappingStored(name);
    }

    /** `SetMapping`. */
    method SetMapping(hostname: bytes, mac: bytes, ip: bytes, note: bytes, now: Time, fate: Fate)
      returns (r: Result<Accepted, StoreError>)
      requires Keyed(Reg())
      modifies this`mappings, this`dirty, mappings.Values, disk
      ensures Keyed(Reg()) && fresh(mappings.Values - old(mappings.Values))
      ensures At(Reg(), dirty, disk.files) ==
              Do(net, old(At(Reg(), dirty, disk.files)), Op.SetMapping(hostname, mac, ip, note, now), fate)
      ensures r == match NormalizeInput(net, hostname, mac, ip, note)
                   case Err(e) => Err(e)
                   case Ok(target) =>
                     Ok(Accepted(WithMapping(old(Reg()), target, now).mappings[target.hostname], fate.fails))
    {
      hide Keyed, NormalizeInput, WithMapping, Reg, Apply;
      var input := NormalizeInput(net, hostname, mac, ip, note);
      ApplySetMapping(net, Memory(Reg(), dirty), hostname, mac, ip, note, now);
      if input.Err? {
        return Err(input.error);
      }
      SetMappingKeeps(net, Reg(), hostname, mac, ip, note, now);
      WithMappingFrame(Reg(), input.value, now);
      hide Do;
      PutMapping(input.value, now);
      var err := SaveAfter(old(At(Reg(), dirty, disk.files)), Op.SetMapping(hostname, mac, ip, note, now), fate);
      MappingAt(input.value.hostname);
      return Ok(Accepted(mappings[input.value.hostname].Record(), err));
    }

    /** A target written into the mapping object at `name`. */
    method PutTarget(name: bytes, target: Target, now: Time)
      requires Unshared() && name in mappings && target.hostname == name
      modifies this`dirty, mappings[name]
      ensures dirty && Reg() == old(Reg()).(mappings := old(Reg()).mappings[name := Retarget(old(Reg()).mappings[name], target, now)])
    {
      MappingAt(name);
      hide Reg;
      var m := mappings[name];
      m.mac := target.mac;
      m.ip := target.ip;
      m.note := target.note;
      m.updatedAt := now;
      dirty := true;
      MappingUpdated(name);
    }

    lemma KeysAreNames()
      requires Keyed(Reg())
      ensures Unshared()
    {
      NoSharing();
    }

    /** The in-memory part of `SetMapping`. */
    method PutMapping(target: Target, now: Time)
      requires Keyed(Reg())
      modifies this`mappings, this`dirty, mappings.Values
      ensures dirty && Reg() == WithMapping(old(Reg()), target, now) && fresh(mappings.Values - old(mappings.Values))
    {
      hide Keyed, Unshared, Reg;
      KeysAreNames();
      MappingAt(target.hostname);
      if target.hostname !in mappings {
        AddMapping(target.hostname, now);
      }
      PutTarget(target.hostname, target, now);
    }

    /** A mapping object put under a new name. */
    method RenameMapping(previous: bytes, name: bytes)
      requires Unshared() && previous in mappings && name !in mappings
      modifies this`mappings, mappings[previous]
      ensures mappings == (old(mappings) - {previous})[name := old(mappings)[previous]] && Unshared()
      ensures previous in old(Reg()).mappings && Reg() == Rekeyed(old(Reg()), previous, name)
    {
      RegEntries();
      hide Reg;
      var m := mappings[previous];
      mappings := mappings - {previous};
      m.hostname := name;
      mappings := mappings[name := m];
      RegIs(Rekeyed(old(Reg()), previous, name));
    }

    /** The in-memory part of `UpdateMapping`. */
    method MoveMapping(previous: bytes, target: Target, now: Time)
      requires Keyed(Reg()) && Moved(Reg(), previous, target, now).Ok?
      modifies this`mappings, this`dirty, mappings.Values
      ensures dirty && Moved(old(Reg()), previous, target, now) == Ok(Reg())
      ensures mappings.Values <= old(mappings.Values)
    {
      NoSharing();
      MovedInTwo(Reg(), previous, target, now);
      MappingAt(previous);
      MappingAt(target.hostname);
      hide Keyed, Reg, Retarget;
      if target.hostname != previous {
        RenameMapping(previous, target.hostname);
      }
      PutTarget(target.hostname, target, now);
    }

    /** `UpdateMapping`. */
    method UpdateMapping(previous: bytes, hostname: bytes, mac: bytes, ip: bytes, note: bytes, now: Time, fate: Fate)
      returns (r: Result<Accepted, StoreError>)
      requires Keyed(Reg())
      modifies this`mappings, this`dirty, mappings.Values, disk
      ensures Keyed(Reg()) && mappings.Values <= old(mappings.Values)
      ensures At(Reg(), dirty, disk.files) ==
              Do(net, old(At(Reg(), dirty, disk.files)), Op.UpdateMapping(previous, hostname, mac, ip, note, now), fate)
      ensures r == match NormalizeInput(net, hostname, mac, ip, note)
                   case Err(e) => Err(e)
                   case Ok(target) =>
                     match Moved(old(Reg()), Normalize(previous), target, now)
                     case Ok(moved) => Ok(Accepted(moved.mappings[target.hostname], fate.fails))
                     case Err(e) => Err(e)
    {
      hide Keyed, NormalizeInput, Reg, Normalize, Apply;
      var name := Normalize(previous);
      var input := NormalizeInput(net, hostname, mac, ip, note);
      ApplyUpdateMapping(net, Memory(Reg(), dirty), previous, hostname, mac, ip, note, now);
      if input.Err? {
        return Err(input.error);
      }
      UpdateMappingKeeps(net, Reg(), name, hostname, mac, ip, note, now);
      MappingAt(name);
      MappingAt(input.value.hostname);
      if name !in mappings {
        return Err(MappingNotFound);
      }
      if input.value.hostname != name && input.value.hostname in mappings {
        return Err(NameTaken);
      }
      hide Moved, Do;
      MoveMapping(name, input.value, now);
      var err := SaveAfter(old(At(Reg(), dirty, disk.files)), Op.UpdateMapping(previous, hostname, mac, ip, note, now), fate);
      MappingAt(input.value.hostname);
      return Ok(Accepted(mappings[input.value.hostname].Record(), err));
    }

    /** `DeleteMapping`: whether the mapping existed, and what became of the save. */
    method DeleteMapping(hostname: bytes, fate: Fate) returns (existed: bool, err: Option<Stage>)
      requires Keyed(Reg())
      modifies this`mappings, this`dirty, disk
      ensures Keyed(Reg())
      ensures At(Reg(), dirty, disk.files) ==
              Do(net, old(At(Reg(), dirty, disk.files)), Op.DeleteMapping(hostname), fate)
      ensures existed == (Normalize(hostname) in old(mappings)) && err == if existed then fate.fails else None
    {
      DeviceChangesKeep(Reg(), [], hostname);
      var name := Normalize(hostname);
      MappingAt(name);
      hide Keyed, Normalize, Reg;
      if name !in mappings {
        return false, None;
      }
      hide Do;
      DropMapping(name);
      err := SaveAfter(old(At(Reg(), dirty, disk.files)), Op.DeleteMapping(hostname), fate);
      return true, err;
    }

    method DropMapping(name: bytes)
      modifies this`mappings, this`dirty
      ensures dirty && mappings == old(mappings) - {name}
      ensures Reg() == old(Reg()).(mappings := old(Reg()).mappings - {name})
    {
      RegEntries();
      hide Reg;
      mappings := mappings - {name};
      dirty := true;
      RegIs(old(Reg()).(mappings := old(Reg()).mappings - {name}));
    }

    // -------------------------------------------------------------------
    // Queries
    // -------------------------------------------------------------------

    /** `Device`: a copy of one device. */
    method Lookup(mac: bytes) returns (d: Option<DeviceRecord>)
      ensures d == KnownDevice(Reg(), mac)
    {
      var m := NormalizeMac(mac);
      if m.None? {
        return None;
      }
      RegAt(m.value);
      hide Reg, NormalizeMac;
      if m.value !in devices {
        return None;
      }
      return Some(devices[m.value].Record());
    }

    /** `resolveLocked`. */
    function ResolveLocked(m: Mapping): Option<Address>
      reads this`devices, devices.Values, m
    {
      if m.ip != [] then net.parse(m.ip)
      else if m.mac in devices && devices[m.mac].ip != [] then net.parse(devices[m.mac].ip)
      else None
    }

    lemma ResolveLockedIs(m: Mapping)
      ensures ResolveLocked(m) == Resolve(net, Reg(), m.Record())
    {
      RegAt(m.mac);
    }

    /** `ResolveName`. */
    method ResolveHost(name: bytes) returns (r: Option<Option<Address>>)
      ensures r == ResolveName(net, Reg(), name)
    {
      MappingAt(name);
      if name !in mappings {
        return None;
      }
      ResolveLockedIs(mappings[name]);
      return Some(ResolveLocked(mappings[name]));
    }

    /** Whether a name currently has this address. */
    lemma MatchIs(name: bytes, ip: Address)
      requires name in mappings
      ensures ResolvesTo(net, Reg(), name, ip) <==> ResolveLocked(mappings[name]) == Some(ip)
    {
      MappingAt(name);
      ResolveLockedIs(mappings[name]);
    }

    /** `ResolvePTR`: names are tried in sorted order. */
    method ResolvePTR(ip: Address) returns (r: Option<bytes>)
      ensures r == ResolvePtr(net, Reg(), ip)
    {
      hide Reg, ResolveLocked, ResolvesTo, Sorted, FirstMatch;
      var names := SortedHosts();
      ghost var reg := Reg();
      FirstMatchStarts(net, reg, names, ip);
      for i := 0 to |names|
        invariant FirstMatch(net, reg, names, ip) == FirstMatch(net, reg, names[i..], ip)
      {
        var name := names[i];
        FirstMatchNext(net, reg, names, ip, i);
        MatchIs(name, ip);
        if ResolveLocked(mappings[name]) == Some(ip) {
          return Some(name);
        }
      }
      FirstMatchEnds(net, reg, names, ip);
      return None;
    }

    /** `Mappings`: one row for each mapping, by host name. */
    method MappingRows(now: Time) returns (rows: seq<MappingView>)
      ensures |rows| == |Sorted(Reg().mappings.Keys)|
      ensures forall i :: 0 <= i < |rows| ==>
                Sorted(Reg().mappings.Keys)[i] in Reg().mappings
                && rows[i] == Row(Reg(), onlineWindow, now, Reg().mappings[Sorted(Reg().mappings.Keys)[i]])
    {
      hide Sorted;
      var names := SortedHosts();
      rows := [];
      for i := 0 to |names|
        invariant |rows| == i
        invariant forall k :: 0 <= k < i ==>
                    names[k] in Reg().mappings && rows[k] == Row(Reg(), onlineWindow, now, Reg().mappings[names[k]])
      {
        MappingAt(names[i]);
        var row := RowOf(mappings[names[i]], now);
        rows := rows + [row];
      }
    }

    method RowOf(m: Mapping, now: Time) returns (v: MappingView)
      ensures v == Row(Reg(), onlineWindow, now, m.Record())
    {
      RegAt(m.mac);
      hide Reg;
      v := MappingView(m.Record(), [], [], false);
      if m.ip != [] {
        v := v.(currentIp := m.ip, online := true);
      } else if m.mac in devices {
        var d := devices[m.mac];
        v := v.(currentIp := d.ip, online := Online(d.Record(), onlineWindow, now));
        if d.userLabel != [] {
          v := v.(deviceName := d.userLabel);
        } else if d.hostname != [] {
          v := v.(deviceName := d.hostname);
        }
      }
    }

    lemma DeviceCount()
      ensures |devices| == |Reg().devices|
    {
      assert devices.Keys == Reg().devices.Keys;
      assert |devices.Keys| == |devices| && |Reg().devices.Keys| == |Reg().devices|;
    }

    lemma OnlineStarts(now: Time)
      ensures |OnlineMacs(Reg(), onlineWindow, now) - devices.Keys| == 0
      ensures OnlineMacs(Reg(), onlineWindow, now) - {} == OnlineMacs(Reg(), onlineWindow, now)
    {
      assert OnlineMacs(Reg(), onlineWindow, now) - devices.Keys == {};
    }

    lemma OnlineAt(mac: bytes, now: Time)
      requires mac in devices
      ensures mac in OnlineMacs(Reg(), onlineWindow, now) <==> Online(devices[mac].Record(), onlineWindow, now)
    {
    }

    /** The loop of `Counts`. */
    method OnlineCount(now: Time) returns (online: nat)
      ensures online == |OnlineMacs(Reg(), onlineWindow, now)|
    {
      hide Reg, OnlineMacs, Online;
      ghost var all := OnlineMacs(Reg(), onlineWindow, now);
      OnlineStarts(now);
      online := 0;
      var rest := devices.Keys;
      while rest != {}
        invariant rest <= devices.Keys && online == |all - rest|
      {
        var mac :| mac in rest;
        OnlineAt(mac, now);
        CountNext(all, rest, mac);
        if Online(devices[mac].Record(), onlineWindow, now) {
          online := online + 1;
        }
        rest := rest - {mac};
      }
    }

    /** `Counts`: all devices, and those seen recently. */
    method Counts(now: Time) returns (total: nat, online: nat)
      ensures total == |Reg().devices| && online == |OnlineMacs(Reg(), onlineWindow, now)|
    {
      DeviceCount();
      hide Reg, OnlineMacs;
      online := OnlineCount(now);
      total := |devices|;
    }

    /** The first loop of `Devices`: host names grouped by MAC, in an arbitrary order. */
    method NamesByMac() returns (groups: map<bytes, seq<bytes>>)
      ensures Grouped(Reg(), {}, groups)
    {
      var rest := mappings.Keys;
      groups := map[];
      RegEntries();
      assert Grouped(Reg(), rest, groups);
      hide Reg, Grouped;
      while rest != {}
        invariant rest <= mappings.Keys && Grouped(Reg(), rest, groups)
      {
        var h :| h in rest;
        GroupNext(Reg(), rest, groups, h);
        var m := mappings[h];
        if m.mac != [] {
          groups := groups[m.mac := Group(groups, m.mac) + [h]];
        }
        rest := rest - {h};
      }
    }

    /** The second loop of `Devices`: one view for each device, in an arbitrary order. */
    method CollectViews(groups: map<bytes, seq<bytes>>, now: Time) returns (views: seq<DeviceView>)
      requires Keyed(Reg()) && Grouped(Reg(), {}, groups)
      ensures Collected(net, Reg(), onlineWindow, now, {}, views)
    {
      var rest := devices.Keys;
      views := [];
      RegEntries();
      assert Collected(net, Reg(), onlineWindow, now, rest, views);
      assert forall mac :: mac in devices ==> mac in Reg().devices && GoodDevice(mac, Reg().devices[mac]);
      hide Keyed, Reg, GoodDevice, Collected, ViewOf, Grouped;
      while rest != {}
        invariant rest <= devices.Keys && Collected(net, Reg(), onlineWindow, now, rest, views)
      {
        var mac :| mac in rest;
        var d := devices[mac];
        GroupSorts(Reg(), groups, mac);
        var v := DeviceView(d.Record(), Online(d.Record(), onlineWindow, now), SortBy(Group(groups, mac), NameKey));
        ViewIs(Reg(), onlineWindow, now, mac, v);
        CollectedNext(net, Reg(), onlineWindow, now, rest, views, mac);
        views := views + [v];
        rest := rest - {mac};
      }
    }

    /** `Devices`: the maps are walked in an arbitrary order, then the views are sorted. */
    method DeviceViews(now: Time) returns (views: seq<DeviceView>)
      requires Keyed(Reg())
      ensures DeviceList(net, Reg(), onlineWindow, now, views)
    {
      hide Keyed, Reg, Collected, DeviceList, Grouped;
      var groups := NamesByMac();
      views := CollectViews(groups, now);
      CollectedList(net, Reg(), onlineWindow, now, views);
      views := SortBy(views, ViewKey(net));
    }
  }
}
