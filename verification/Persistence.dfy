/**
 The state file: what `saveLocked` writes, the steps in which it replaces the file, and what
 `Open` makes of it (internal/store/store.go).
 */
module Persistence {
  import opened Results
  import opened Bytes
  import opened HostNames
  import opened Ordering
  import opened Registry

  /** The JSON document, as the record lists written into it; `JsonText` says what reading does to their texts. */
  datatype Persisted = Persisted(devices: seq<DeviceRecord>, mappings: seq<MappingRecord>)

  // ---------------------------------------------------------------------
  // Snapshot and load
  // ---------------------------------------------------------------------

  function Pick<T>(m: map<bytes, T>, keys: seq<bytes>): (r: seq<T>)
    requires forall k :: k in keys ==> k in m
    ensures |r| == |keys|
    ensures forall i :: 0 <= i < |keys| ==> r[i] == m[keys[i]]
  {
    if keys == [] then [] else [m[keys[0]]] + Pick(m, keys[1..])
  }

  /** What `saveLocked` writes: devices by MAC, mappings by host name. */
  ghost function Snapshot(r: Registry): Persisted {
    Persisted(Pick(r.devices, Sorted(r.devices.Keys)), Pick(r.mappings, Sorted(r.mappings.Keys)))
  }

  /** One device of the file: an unreadable MAC is skipped, a later record wins. */
  function LoadDevice(m: map<bytes, DeviceRecord>, d: DeviceRecord): map<bytes, DeviceRecord> {
    match NormalizeMac(d.mac)
    case None => m
    case Some(mac) => m[mac := d.(mac := mac)]
  }

  function LoadDevices(ds: seq<DeviceRecord>): map<bytes, DeviceRecord> {
    if ds == [] then map[] else LoadDevice(LoadDevices(ds[..|ds| - 1]), ds[|ds| - 1])
  }

  /** One mapping of the file: an invalid name or an unreadable MAC is skipped, a later record wins. */
  function LoadMapping(m: map<bytes, MappingRecord>, r: MappingRecord): map<bytes, MappingRecord> {
    var name := Normalize(r.hostname);
    if !ValidName(name) then m
    else if r.mac == [] then m[name := r.(hostname := name)]
    else
      match NormalizeMac(r.mac)
      case None => m
      case Some(mac) => m[name := r.(hostname := name, mac := mac)]
  }

  function LoadMappings(rs: seq<MappingRecord>): map<bytes, MappingRecord> {
    if rs == [] then map[] else LoadMapping(LoadMappings(rs[..|rs| - 1]), rs[|rs| - 1])
  }

  /** What `Open` builds from the records it has read. */
  function Load(p: Persisted): Registry {
    Registry(LoadDevices(p.devices), LoadMappings(p.mappings))
  }

  lemma LoadGoodDevice(m: map<bytes, DeviceRecord>, mac: bytes, d: DeviceRecord)
    requires GoodDevice(mac, d)
    ensures LoadDevice(m, d) == m[mac := d]
  {
  }

  lemma LoadGoodMapping(m: map<bytes, MappingRecord>, name: bytes, r: MappingRecord)
    requires GoodMapping(name, r)
    ensures LoadMapping(m, r) == m[name := r]
  {
    NormalizeValid(name);
  }

  /** The part of a map at some of its keys. */
  ghost function Part<T>(m: map<bytes, T>, keys: seq<bytes>): map<bytes, T>
    requires forall k :: k in keys ==> k in m
  {
    map k | k in keys :: m[k]
  }

  lemma {:induction false} PickedStep<T>(m: map<bytes, T>, keys: seq<bytes>)
    requires keys != [] && forall k :: k in keys ==> k in m
    ensures var n := |keys| - 1;
            && Pick(m, keys)[..n] == Pick(m, keys[..n]) && Pick(m, keys)[n] == m[keys[n]]
            && Part(m, keys) == Part(m, keys[..n])[keys[n] := m[keys[n]]]
  {
    hide Pick;
    var n := |keys| - 1;
    forall k
      ensures k in keys <==> k in keys[..n] || k == keys[n]
    {
      assert keys == keys[..n] + [keys[n]];
    }
    forall i | 0 <= i < n
      ensures Pick(m, keys)[..n][i] == Pick(m, keys[..n])[i]
    {
      assert keys[..n][i] == keys[i];
    }
  }

  lemma {:induction false} LoadPickedDevices(m: map<bytes, DeviceRecord>, keys: seq<bytes>)
    requires forall k :: k in keys ==> k in m && GoodDevice(k, m[k])
    ensures LoadDevices(Pick(m, keys)) == Part(m, keys)
  {
    hide LoadDevice, GoodDevice, Pick;
    if keys == [] {
    } else {
      var n := |keys| - 1;
      LoadPickedDevices(m, keys[..n]);
      PickedStep(m, keys);
      LoadGoodDevice(Part(m, keys[..n]), keys[n], m[keys[n]]);
    }
  }

  lemma {:induction false} LoadPickedMappings(m: map<bytes, MappingRecord>, keys: seq<bytes>)
    requires forall k :: k in keys ==> k in m && GoodMapping(k, m[k])
    ensures LoadMappings(Pick(m, keys)) == Part(m, keys)
  {
    hide LoadMapping, GoodMapping, Pick;
    if keys == [] {
    } else {
      var n := |keys| - 1;
      LoadPickedMappings(m, keys[..n]);
      PickedStep(m, keys);
      LoadGoodMapping(Part(m, keys[..n]), keys[n], m[keys[n]]);
    }
  }

  lemma {:induction false} LoadedDevices(ds: seq<DeviceRecord>)
    ensures forall mac :: mac in LoadDevices(ds) ==> GoodDevice(mac, LoadDevices(ds)[mac])
  {
    if ds == [] {
    } else {
      var last := ds[|ds| - 1];
      LoadedDevices(ds[..|ds| - 1]);
      if NormalizeMac(last.mac).Some? {
        NormalizeMacValid(last.mac);
      }
      hide NormalizeMac;
    }
  }

  lemma {:induction false} LoadedMappings(ms: seq<MappingRecord>)
    ensures forall name :: name in LoadMappings(ms) ==> GoodMapping(name, LoadMappings(ms)[name])
  {
    if ms == [] {
    } else {
      var last := ms[|ms| - 1];
      LoadedMappings(ms[..|ms| - 1]);
      if NormalizeMac(last.mac).Some? {
        NormalizeMacValid(last.mac);
      }
      hide NormalizeMac, Normalize, ValidName;
    }
  }

  /** Record `i` is of this MAC. */
  ghost predicate DeviceOf(ds: seq<DeviceRecord>, i: nat, mac: bytes)
    requires i < |ds|
  {
    NormalizeMac(ds[i].mac) == Some(mac)
  }

  lemma LoadOneDevice(m: map<bytes, DeviceRecord>, d: DeviceRecord, mac: bytes)
    ensures mac in LoadDevice(m, d) <==> mac in m || NormalizeMac(d.mac) == Some(mac)
    ensures NormalizeMac(d.mac) == Some(mac) ==> LoadDevice(m, d)[mac] == d.(mac := mac)
    ensures NormalizeMac(d.mac) != Some(mac) && mac in m ==> LoadDevice(m, d)[mac] == m[mac]
  {
    hide NormalizeMac;
  }

  /** The last record of a MAC is the one that is loaded. */
  lemma {:induction false} LastDeviceWins(ds: seq<DeviceRecord>, i: nat, mac: bytes)
    requires i < |ds| && DeviceOf(ds, i, mac) && forall k :: i < k < |ds| ==> !DeviceOf(ds, k, mac)
    ensures mac in LoadDevices(ds) && LoadDevices(ds)[mac] == ds[i].(mac := mac)
    decreases |ds|
  {
    hide NormalizeMac, LoadDevice;
    var n := |ds| - 1;
    LoadOneDevice(LoadDevices(ds[..n]), ds[n], mac);
    if i == n {
    } else {
      assert !DeviceOf(ds, n, mac);
      assert forall k :: i < k < n ==> DeviceOf(ds[..n], k, mac) == DeviceOf(ds, k, mac);
      LastDeviceWins(ds[..n], i, mac);
    }
  }

  /** A MAC no record is of is not loaded. */
  lemma {:induction false} OtherDevicesMissing(ds: seq<DeviceRecord>, mac: bytes)
    requires forall i :: 0 <= i < |ds| ==> !DeviceOf(ds, i, mac)
    ensures mac !in LoadDevices(ds)
  {
    hide NormalizeMac, LoadDevice;
    if ds == [] {
    } else {
      var n := |ds| - 1;
      LoadOneDevice(LoadDevices(ds[..n]), ds[n], mac);
      assert !DeviceOf(ds, n, mac);
      assert forall k :: 0 <= k < n ==> DeviceOf(ds[..n], k, mac) == DeviceOf(ds, k, mac);
      OtherDevicesMissing(ds[..n], mac);
    }
  }

  /** Record `i` is a mapping of this name that can be kept. */
  ghost predicate MappingOf(ms: seq<MappingRecord>, i: nat, name: bytes)
    requires i < |ms|
  {
    Usable(ms[i], name)
  }

  ghost predicate Usable(m: MappingRecord, name: bytes) {
    Normalize(m.hostname) == name && ValidName(name) && (m.mac == [] || NormalizeMac(m.mac).Some?)
  }

  lemma LoadOneMapping(m: map<bytes, MappingRecord>, r: MappingRecord, name: bytes)
    ensures name in LoadMapping(m, r) <==> name in m || Usable(r, name)
    ensures Usable(r, name) ==>
              LoadMapping(m, r)[name] == r.(hostname := name, mac := if r.mac == [] then [] else NormalizeMac(r.mac).value)
    ensures !Usable(r, name) && name in m ==> LoadMapping(m, r)[name] == m[name]
  {
    hide NormalizeMac, Normalize, ValidName;
  }

  /** The last usable record of a name is the one that is loaded, normalised. */
  lemma {:induction false} LastMappingWins(ms: seq<MappingRecord>, i: nat, name: bytes)
    requires i < |ms| && MappingOf(ms, i, name) && forall k :: i < k < |ms| ==> !MappingOf(ms, k, name)
    ensures ms[i].mac == [] || NormalizeMac(ms[i].mac).Some?
    ensures name in LoadMappings(ms)
    ensures LoadMappings(ms)[name] ==
            ms[i].(hostname := name, mac := if ms[i].mac == [] then [] else NormalizeMac(ms[i].mac).value)
    decreases |ms|
  {
    hide NormalizeMac, Normalize, ValidName, LoadMapping;
    var n := |ms| - 1;
    LoadOneMapping(LoadMappings(ms[..n]), ms[n], name);
    if i == n {
    } else {
      assert !MappingOf(ms, n, name);
      assert forall k :: i < k < n ==> MappingOf(ms[..n], k, name) == MappingOf(ms, k, name);
      LastMappingWins(ms[..n], i, name);
    }
  }

  /** A name without a usable record is not loaded. */
  lemma {:induction false} OtherMappingsMissing(ms: seq<MappingRecord>, name: bytes)
    requires forall i :: 0 <= i < |ms| ==> !MappingOf(ms, i, name)
    ensures name !in LoadMappings(ms)
  {
    hide NormalizeMac, Normalize, ValidName, LoadMapping;
    if ms == [] {
    } else {
      var n := |ms| - 1;
      LoadOneMapping(LoadMappings(ms[..n]), ms[n], name);
      assert !MappingOf(ms, n, name);
      assert forall k :: 0 <= k < n ==> MappingOf(ms[..n], k, name) == MappingOf(ms, k, name);
      OtherMappingsMissing(ms[..n], name);
    }
  }

  /** Whatever document is loaded, even one written by hand, every record stands under its own
      normalised key. */
  lemma LoadKeyed(p: Persisted)
    ensures Keyed(Load(p))
  {
    LoadedDevices(p.devices);
    LoadedMappings(p.mappings);
    hide LoadDevices, LoadMappings, GoodDevice, GoodMapping;
  }

  /** Loading a snapshot gives back the registry it was taken of: saved names and MAC addresses
      are fixed points of the normalisation `Open` applies. */
  lemma LoadSnapshot(r: Registry)
    requires Keyed(r)
    ensures Load(Snapshot(r)) == r
  {
    hide GoodDevice, GoodMapping, LoadDevices, LoadMappings, Pick, Sorted;
    var ds, ms := Sorted(r.devices.Keys), Sorted(r.mappings.Keys);
    LoadPickedDevices(r.devices, ds);
    LoadPickedMappings(r.mappings, ms);
    assert Part(r.devices, ds) == r.devices;
    assert Part(r.mappings, ms) == r.mappings;
  }

  // ---------------------------------------------------------------------
  // Replacing the file
  // ---------------------------------------------------------------------

  datatype FileName = StateFile | TempFile(n: nat)

  /** A whole document, or octets that are not one. */
  datatype Contents = Complete(p: Persisted) | Torn

  type Files = map<FileName, Contents>

  /** The steps of `saveLocked` that can fail. */
  datatype Stage = MkdirAll | CreateTemp | Write | Close | Rename

  /** What the operating system does with one save: which step fails, if any, how the temporary
      file is called, and whether removing it after a failure works. */
  datatype Fate = Fate(fails: Option<Stage>, temp: nat, removed: bool)

  function Created(fs: Files, f: Fate): Files {
    fs[TempFile(f.temp) := Torn]
  }

  function Written(fs: Files, p: Persisted, f: Fate): Files {
    fs[TempFile(f.temp) := Complete(p)]
  }

  function Cleaned(fs: Files, f: Fate): Files {
    if f.removed then fs - {TempFile(f.temp)} else fs
  }

  /** Every state the directory goes through during one save, in order. */
  function SaveTrace(fs: Files, p: Persisted, f: Fate): (trace: seq<Files>)
    ensures |trace| >= 1 && trace[0] == fs
  {
    var created := Created(fs, f);
    var written := Written(fs, p, f);
    match f.fails
    case Some(MkdirAll) => [fs]
    case Some(CreateTemp) => [fs]
    case Some(Write) => [fs, created, Cleaned(created, f)]
    case Some(Close) => [fs, created, written, Cleaned(written, f)]
    case Some(Rename) => [fs, created, written, Cleaned(written, f)]
    case None => [fs, created, written, (written - {TempFile(f.temp)})[StateFile := Complete(p)]]
  }

  function AfterSave(fs: Files, p: Persisted, f: Fate): Files {
    var trace := SaveTrace(fs, p, f);
    trace[|trace| - 1]
  }

  function StateOf(fs: Files): Option<Contents> {
    if StateFile in fs then Some(fs[StateFile]) else None
  }

  /** What a save leaves of the other files: on success the temporary file is gone; after a failure it is gone
      if it could be removed; nothing else is touched. */
  lemma SaveLeaves(fs: Files, p: Persisted, f: Fate)
    ensures var after := AfterSave(fs, p, f);
            && (forall name :: name != StateFile && name != TempFile(f.temp) ==>
                  (name in after <==> name in fs) && (name in fs ==> after[name] == fs[name]))
            && (f.fails.None? ==> TempFile(f.temp) !in after)
            && (f.fails.Some? && f.removed && f.fails.value != MkdirAll && f.fails.value != CreateTemp ==>
                  TempFile(f.temp) !in after)
            && (f.fails == Some(MkdirAll) || f.fails == Some(CreateTemp) ==> after == fs)
  {
  }

  /** At every moment of a save the state file is the old one or the complete new one; it is the
      new one at the end exactly when no step failed. */
  lemma SaveIsAtomic(fs: Files, p: Persisted, f: Fate, i: nat)
    requires i < |SaveTrace(fs, p, f)|
    ensures StateOf(SaveTrace(fs, p, f)[i]) ==
            if f.fails.None? && i == |SaveTrace(fs, p, f)| - 1 then Some(Complete(p)) else StateOf(fs)
  {
  }
}
