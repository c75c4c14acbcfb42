/**
 What each operation does, stated by its inputs and by memory and file before and after it, in whole
 runs too (internal/store/store.go). Nothing here refers to how `Runs` computes an operation.
 */
module Effects {
  import opened Results
  import opened Bytes
  import opened Text
  import opened HostNames
  import opened Addresses
  import opened Registry
  import opened Persistence
  import opened JsonText
  import opened Runs
  import opened Tracking

  // ---------------------------------------------------------------------
  // Saving
  // ---------------------------------------------------------------------

  /** The registry of `after` was to be written to the file: it is there if no step failed, and then the
      store is clean; otherwise the file is as it was, and the store as dirty as before the save. */
  ghost predicate Written(dirty: bool, before: Running, after: Running, fate: Fate) {
    if fate.fails.None?
    then !after.mem.dirty && OnDisk(after.files) == RewrittenRegistry(after.mem.reg)
    else after.mem.dirty == dirty && OnDisk(after.files) == OnDisk(before.files)
  }

  lemma Writes(t: IPText, s: Running, op: Op, fate: Fate)
    requires Good(Up(s)) && Apply(t, s.mem, op).Ok?
    ensures var e := Apply(t, s.mem, op).value;
            var after := Do(t, s, op, fate);
            if e.saves then after.mem.reg == e.mem.reg && Written(e.mem.dirty, s, after, fate)
            else after == Running(e.mem, s.files)
  {
    hide Apply, Keyed, GoodFile, OnDisk, Snapshot, SaveTrace, RewrittenRegistry;
    var e := Apply(t, s.mem, op).value;
    ApplyKeeps(t, s.mem, op);
    SaveKeeps(s.files, e.mem.reg, fate, |SaveTrace(s.files, Snapshot(e.mem.reg), fate)| - 1);
  }

  /** `Save` writes in any case. */
  lemma SaveEffect(t: IPText, s: Running, fate: Fate)
    requires Good(Up(s))
    ensures var after := Do(t, s, Op.Save, fate);
            after.mem.reg == s.mem.reg && Written(s.mem.dirty, s, after, fate)
  {
    Writes(t, s, Op.Save, fate);
    hide Do, Written;
  }

  /** `SaveIfDirty` writes a dirty store and does nothing to a clean one. */
  lemma SaveIfDirtyEffect(t: IPText, s: Running, fate: Fate)
    requires Good(Up(s))
    ensures var after := Do(t, s, Op.SaveIfDirty, fate);
            if s.mem.dirty then after.mem.reg == s.mem.reg && Written(true, s, after, fate) else after == s
  {
    Writes(t, s, Op.SaveIfDirty, fate);
    hide Do, Written;
  }

  // ---------------------------------------------------------------------
  // Mappings
  // ---------------------------------------------------------------------

  /** The fields of a mapping are valid: the name, exactly one of MAC and IP, that one, and the note. */
  ghost predicate Valid(t: IPText, hostname: bytes, mac: bytes, ip: bytes, note: bytes) {
    && ValidName(Normalize(hostname))
    && (mac == [] <==> ip != [])
    && (mac != [] ==> NormalizeMac(mac).Some?)
    && (ip != [] ==> t.parse(TrimSpace(ip)).Some?)
    && |note| <= 200
  }

  /** The record holds these fields, normalised. */
  ghost predicate Holding(t: IPText, m: MappingRecord, hostname: bytes, mac: bytes, ip: bytes, note: bytes)
    requires Valid(t, hostname, mac, ip, note)
  {
    && m.hostname == Normalize(hostname)
    && m.mac == (if mac == [] then [] else NormalizeMac(mac).value)
    && m.ip == (if ip == [] then [] else t.format(t.parse(TrimSpace(ip)).value))
    && m.note == TrimSpace(note)
  }

  lemma InputExact(t: IPText, hostname: bytes, mac: bytes, ip: bytes, note: bytes)
    ensures NormalizeInput(t, hostname, mac, ip, note).Ok? <==> Valid(t, hostname, mac, ip, note)
    ensures Valid(t, hostname, mac, ip, note) ==>
              var target := NormalizeInput(t, hostname, mac, ip, note).value;
              Holding(t, MappingRecord(target.hostname, target.mac, target.ip, target.note, 0, 0),
                      hostname, mac, ip, note)
  {
    hide ValidName, Normalize, NormalizeMac, TrimSpace;
  }

  /** `SetMapping`: valid fields are stored under the normalised name, with the creation time of the
      mapping they replace, and nothing else changes; invalid ones change nothing. */
  lemma SetMappingEffect(t: IPText, s: Running, hostname: bytes, mac: bytes, ip: bytes, note: bytes,
                         now: Time, fate: Fate)
    requires Good(Up(s))
    ensures var before, after := s.mem.reg, Do(t, s, SetMapping(hostname, mac, ip, note, now), fate);
            var name := Normalize(hostname);
            if Valid(t, hostname, mac, ip, note) then
              && after.mem.reg.devices == before.devices && SameExcept(before, after.mem.reg, {name})
              && name in after.mem.reg.mappings
              && var m := after.mem.reg.mappings[name];
              && Holding(t, m, hostname, mac, ip, note) && m.updatedAt == now
              && m.createdAt == (if name in before.mappings then before.mappings[name].createdAt else now)
              && Written(true, s, after, fate)
            else after == s
  {
    var op := SetMapping(hostname, mac, ip, note, now);
    InputExact(t, hostname, mac, ip, note);
    ApplySetMapping(t, s.mem, hostname, mac, ip, note, now);
    hide NormalizeInput, Normalize, NormalizeMac, TrimSpace, ValidName, Written, Good, SameExcept, Apply;
    if Valid(t, hostname, mac, ip, note) {
      Writes(t, s, op, fate);
      WithMappingFrame(s.mem.reg, NormalizeInput(t, hostname, mac, ip, note).value, now);
      hide Do;
    }
  }

  /** `UpdateMapping`: the mapping `previous` gets these fields and their name, and loses its old one; its
      creation time stays, and nothing else changes. Invalid fields, an unknown mapping and a name that
      is taken change nothing. */
  lemma UpdateMappingEffect(t: IPText, s: Running, previous: bytes, hostname: bytes, mac: bytes, ip: bytes, note: bytes,
                            now: Time, fate: Fate)
    requires Good(Up(s))
    ensures var before, after := s.mem.reg, Do(t, s, UpdateMapping(previous, hostname, mac, ip, note, now), fate);
            var was, name := Normalize(previous), Normalize(hostname);
            if Valid(t, hostname, mac, ip, note) && was in before.mappings
               && (name == was || name !in before.mappings) then
              && after.mem.reg.devices == before.devices && SameExcept(before, after.mem.reg, {was, name})
              && (name != was ==> was !in after.mem.reg.mappings)
              && name in after.mem.reg.mappings
              && var m := after.mem.reg.mappings[name];
              && Holding(t, m, hostname, mac, ip, note) && m.updatedAt == now
              && m.createdAt == before.mappings[was].createdAt
              && Written(true, s, after, fate)
            else after == s
  {
    var op := UpdateMapping(previous, hostname, mac, ip, note, now);
    InputExact(t, hostname, mac, ip, note);
    ApplyUpdateMapping(t, s.mem, previous, hostname, mac, ip, note, now);
    hide NormalizeInput, Normalize, NormalizeMac, TrimSpace, ValidName, Written, Good, SameExcept, Apply;
    if NormalizeInput(t, hostname, mac, ip, note).Ok?
       && Moved(s.mem.reg, Normalize(previous), NormalizeInput(t, hostname, mac, ip, note).value, now).Ok? {
      Writes(t, s, op, fate);
      MovedFrame(t, s.mem.reg, Normalize(previous), NormalizeInput(t, hostname, mac, ip, note).value, now);
      hide Do;
    }
  }

  /** Which calls of `SetMapping` and `UpdateMapping` return no error. */
  lemma AcknowledgedExactly(t: IPText, s: Running, previous: bytes, hostname: bytes, mac: bytes, ip: bytes, note: bytes,
                            now: Time, fate: Fate)
    ensures Succeeds(t, s, SetMapping(hostname, mac, ip, note, now), fate) <==>
            Valid(t, hostname, mac, ip, note) && fate.fails.None?
    ensures Succeeds(t, s, UpdateMapping(previous, hostname, mac, ip, note, now), fate) <==>
            var was, name := Normalize(previous), Normalize(hostname);
            && Valid(t, hostname, mac, ip, note) && was in s.mem.reg.mappings
            && (name == was || name !in s.mem.reg.mappings) && fate.fails.None?
  {
    InputExact(t, hostname, mac, ip, note);
    ApplySetMapping(t, s.mem, hostname, mac, ip, note, now);
    ApplyUpdateMapping(t, s.mem, previous, hostname, mac, ip, note, now);
    hide NormalizeInput, Normalize, NormalizeMac, TrimSpace, ValidName, Apply, Valid;
  }

  /** The MAC a valid `SetMapping` or `UpdateMapping` stores is the canonical text of the octets given, in
      whichever notation, with digits of either case and blanks around them. */
  lemma StoredMac(t: IPText, m: MappingRecord, hostname: bytes, pre: bytes, written: bytes, post: bytes, octets: bytes,
                  note: bytes)
    requires AllBlank(pre) && AllBlank(post) && Notation(written, octets)
    requires Valid(t, hostname, pre + written + post, [], note)
    requires Holding(t, m, hostname, pre + written + post, [], note)
    ensures CanonicalMac(m.mac, octets) && m.ip == []
  {
    NotationEnds(written, octets);
    MacTextCanonical(octets);
    hide Notation, CanonicalMac, NormalizeMac, Normalize, ValidName, TrimSpace;
    MacNotations(pre, written, post, octets, MacText(octets));
  }

  /** Why `SetMapping` and `UpdateMapping` refuse a call: the first of these that is wrong. */
  lemma MappingRefusals(t: IPText, r: Registry, previous: bytes, hostname: bytes, mac: bytes, ip: bytes, note: bytes,
                        now: Time)
    ensures var input := NormalizeInput(t, hostname, mac, ip, note);
            && (!ValidName(Normalize(hostname)) ==> input == Err(BadHostname))
            && (ValidName(Normalize(hostname)) && (mac == [] <==> ip == []) ==> input == Err(NeedOneTarget))
            && (ValidName(Normalize(hostname)) && mac != [] && ip == [] && NormalizeMac(mac).None? ==> input == Err(BadMac))
            && (ValidName(Normalize(hostname)) && mac == [] && ip != [] && t.parse(TrimSpace(ip)).None? ==>
                  input == Err(BadAddress))
            && (Valid(t, hostname, mac, ip, []) && |note| > 200 ==> input == Err(NoteTooLong))
            && (input.Ok? ==>
                  var moved := Moved(r, Normalize(previous), input.value, now);
                  && (Normalize(previous) !in r.mappings ==> moved == Err(MappingNotFound))
                  && (Normalize(previous) in r.mappings && Normalize(hostname) in r.mappings - {Normalize(previous)} ==>
                        moved == Err(NameTaken)))
  {
    hide ValidName, Normalize, NormalizeMac, TrimSpace;
  }

  /** Why `SetLabel` and `DeleteDevice` refuse a call. */
  lemma DeviceRefusals(r: Registry, mac: bytes, text: bytes)
    ensures |TrimSpace(text)| > 100 ==> WithLabel(r, mac, text) == Err(LabelTooLong)
    ensures |TrimSpace(text)| <= 100 && NormalizeMac(mac).None? ==> WithLabel(r, mac, text) == Err(BadMac)
    ensures |TrimSpace(text)| <= 100 && NormalizeMac(mac).Some? && NormalizeMac(mac).value !in r.devices ==>
              WithLabel(r, mac, text) == Err(UnknownDevice)
    ensures NormalizeMac(mac).None? ==> WithoutDevice(r, mac) == Err(BadMac)
    ensures NormalizeMac(mac).Some? && NormalizeMac(mac).value !in r.devices ==>
              WithoutDevice(r, mac) == Err(UnknownDevice)
  {
    hide NormalizeMac, TrimSpace;
  }

  /** `DeleteMapping`: the normalised name is mapped no more, in memory whatever becomes of the save, and
      in the file if no step failed; every other mapping and all devices are as before. A name that is
      not mapped changes nothing. */
  lemma DeleteMappingEffect(t: IPText, s: Running, hostname: bytes, fate: Fate)
    requires Good(Up(s))
    ensures var before, after := s.mem.reg, Do(t, s, DeleteMapping(hostname), fate);
            var name := Normalize(hostname);
            && name !in after.mem.reg.mappings
            && after.mem.reg.devices == before.devices && SameExcept(before, after.mem.reg, {name})
            && (name in before.mappings ==> Written(true, s, after, fate))
            && (name in before.mappings && fate.fails.None? ==> name !in OnDisk(after.files).mappings)
            && (name !in before.mappings ==> after == s)
  {
    Writes(t, s, DeleteMapping(hostname), fate);
    hide Normalize, Do, Good, OnDisk;
  }

  // ---------------------------------------------------------------------
  // Devices
  // ---------------------------------------------------------------------

  /** The same devices but for what is said of `mac`, and the same mappings. */
  ghost predicate OnlyDevice(r: Registry, s: Registry, mac: bytes) {
    && s.mappings == r.mappings && s.devices.Keys == r.devices.Keys
    && forall k :: k in r.devices && k != mac ==> s.devices[k] == r.devices[k]
  }

  /** `SetDiscoveredHostname`: a known device gets the name without blanks around it, unless nothing is
      left of it; the store is dirty if that is a change. */
  lemma HostnameEffect(t: IPText, s: Running, mac: bytes, hostname: bytes, fate: Fate)
    ensures var before, after := s.mem.reg, Do(t, s, DiscoverHostname(mac, hostname), fate);
            var name := TrimSpace(hostname);
            && after.files == s.files && OnlyDevice(before, after.mem.reg, mac)
            && if mac in before.devices && name != [] then
                 && after.mem.reg.devices[mac] == before.devices[mac].(hostname := name)
                 && after.mem.dirty == (s.mem.dirty || before.devices[mac].hostname != name)
               else after == s
  {
    DoText(t, s, mac, hostname, fate);
    hide Do, TrimSpace;
  }

  /** `SetVendor`: a known device gets the vendor unless it is empty. */
  lemma VendorEffect(t: IPText, s: Running, mac: bytes, vendor: bytes, fate: Fate)
    ensures var before, after := s.mem.reg, Do(t, s, AssignVendor(mac, vendor), fate);
            && after.files == s.files && OnlyDevice(before, after.mem.reg, mac)
            && if mac in before.devices && vendor != [] then
                 && after.mem.reg.devices[mac] == before.devices[mac].(vendor := vendor)
                 && after.mem.dirty == (s.mem.dirty || before.devices[mac].vendor != vendor)
               else after == s
  {
    DoText(t, s, mac, vendor, fate);
    hide Do;
  }

  /** `SetLabel`: a known device gets the text without blanks around it, of at most 100 octets, and the
      store is saved; otherwise nothing changes. */
  lemma LabelEffect(t: IPText, s: Running, mac: bytes, text: bytes, fate: Fate)
    requires Good(Up(s))
    ensures var before, after := s.mem.reg, Do(t, s, AssignLabel(mac, text), fate);
            var known, trimmed := NormalizeMac(mac), TrimSpace(text);
            if |trimmed| <= 100 && known.Some? && known.value in before.devices then
              && OnlyDevice(before, after.mem.reg, known.value)
              && after.mem.reg.devices[known.value] == before.devices[known.value].(userLabel := trimmed)
              && Written(true, s, after, fate)
            else after == s
  {
    hide NormalizeMac, TrimSpace, Good, Written, Do;
    if Apply(t, s.mem, AssignLabel(mac, text)).Ok? {
      Writes(t, s, AssignLabel(mac, text), fate);
    } else {
      RefusedNothing(t, s, AssignLabel(mac, text), fate);
    }
  }

  lemma RefusedNothing(t: IPText, s: Running, op: Op, fate: Fate)
    requires Apply(t, s.mem, op).Err?
    ensures Do(t, s, op, fate) == s
  {
    hide Apply;
  }

  /** `DeleteDevice`: a known device is gone, its mappings and all other devices stay, and the store is
      saved; otherwise nothing changes. */
  lemma DeleteDeviceEffect(t: IPText, s: Running, mac: bytes, fate: Fate)
    requires Good(Up(s))
    ensures var before, after := s.mem.reg, Do(t, s, RemoveDevice(mac), fate);
            var known := NormalizeMac(mac);
            if known.Some? && known.value in before.devices then
              && after.mem.reg.mappings == before.mappings
              && after.mem.reg.devices.Keys == before.devices.Keys - {known.value}
              && (forall k :: k in after.mem.reg.devices ==> after.mem.reg.devices[k] == before.devices[k])
              && Written(true, s, after, fate)
            else after == s
  {
    hide NormalizeMac, Good, Written, Do;
    if Apply(t, s.mem, RemoveDevice(mac)).Ok? {
      Writes(t, s, RemoveDevice(mac), fate);
    } else {
      RefusedNothing(t, s, RemoveDevice(mac), fate);
    }
  }

  // ---------------------------------------------------------------------
  // Scans
  // ---------------------------------------------------------------------

  /** Observation `i` is of this MAC. */
  ghost predicate Of(seen: seq<SeenDevice>, i: nat, mac: bytes)
    requires i < |seen|
  {
    NormalizeMac(seen[i].mac) == Some(mac)
  }

  /** Observation `i` is the last one of this MAC that has an address. */
  ghost predicate LastWithAddress(seen: seq<SeenDevice>, i: nat, mac: bytes)
    requires i < |seen|
  {
    && Of(seen, i, mac) && seen[i].ip != []
    && forall k :: i < k < |seen| && Of(seen, k, mac) ==> seen[k].ip == []
  }

  /** The address after observations: that of the last one of `mac` that has one; without any it stays. */
  ghost predicate AddressAfter(seen: seq<SeenDevice>, mac: bytes, was: bytes, current: bytes) {
    && (forall i :: 0 <= i < |seen| && LastWithAddress(seen, i, mac) ==> current == seen[i].ip)
    && ((forall i :: 0 <= i < |seen| && Of(seen, i, mac) ==> seen[i].ip == []) ==> current == was)
  }

  lemma AddressNext(seen: seq<SeenDevice>, mac: bytes, was: bytes, current: bytes)
    requires seen != [] && AddressAfter(seen[..|seen| - 1], mac, was, current)
    ensures var last := |seen| - 1;
            AddressAfter(seen, mac, was, if Of(seen, last, mac) && seen[last].ip != [] then seen[last].ip else current)
  {
    hide NormalizeMac;
    var n := |seen| - 1;
    var before := seen[..n];
    forall i | 0 <= i < n
      ensures Of(before, i, mac) <==> Of(seen, i, mac)
      ensures before[i] == seen[i]
    {
    }
    hide Of;
    if !(Of(seen, n, mac) && seen[n].ip != []) {
      forall i | 0 <= i < |seen| && LastWithAddress(seen, i, mac)
        ensures current == seen[i].ip
      {
        assert i < n && LastWithAddress(before, i, mac);
      }
    }
  }

  lemma NoneYet(seen: seq<SeenDevice>, mac: bytes, was: bytes)
    requires forall i :: 0 <= i < |seen| ==> !Of(seen, i, mac)
    ensures AddressAfter(seen, mac, was, was)
  {
  }

  lemma {:induction false} ScanAddress(r: Registry, seen: seq<SeenDevice>, now: Time, mac: bytes)
    requires mac in ObserveAll(r, seen, now).devices
    ensures AddressAfter(seen, mac, DeviceOr(r, mac, now).ip, ObserveAll(r, seen, now).devices[mac].ip)
  {
    hide NormalizeMac;
    if seen == [] {
    } else {
      var n := |seen| - 1;
      var before := seen[..n];
      assert forall i :: 0 <= i < n ==> before[i] == seen[i] && (Of(before, i, mac) <==> Of(seen, i, mac));
      if mac in ObserveAll(r, before, now).devices {
        ScanAddress(r, before, now, mac);
      } else {
        ScanDevices(r, before, now, mac);
        NothingOf(before, mac);
      }
      hide ObserveAll, Hits, HitsSelf;
      LastDecides(r, ObserveAll(r, before, now), seen, now, mac);
    }
  }

  lemma NothingOf(seen: seq<SeenDevice>, mac: bytes)
    requires !Hits(seen, mac)
    ensures forall i :: 0 <= i < |seen| ==> !Of(seen, i, mac)
  {
    hide NormalizeMac;
    forall i | 0 <= i < |seen|
      ensures !Of(seen, i, mac)
    {
      assert seen[i] in seen;
    }
  }

  lemma LastDecides(r: Registry, mid: Registry, seen: seq<SeenDevice>, now: Time, mac: bytes)
    requires seen != [] && mac in Observe(mid, seen[|seen| - 1], now).devices
    requires var n := |seen| - 1;
             if mac in mid.devices then AddressAfter(seen[..n], mac, DeviceOr(r, mac, now).ip, mid.devices[mac].ip)
             else mac !in r.devices && forall i :: 0 <= i < n ==> !Of(seen, i, mac)
    ensures AddressAfter(seen, mac, DeviceOr(r, mac, now).ip, Observe(mid, seen[|seen| - 1], now).devices[mac].ip)
  {
    hide NormalizeMac, AddressAfter;
    var n := |seen| - 1;
    var was := DeviceOr(r, mac, now).ip;
    if mac !in mid.devices {
      assert forall i :: 0 <= i < n ==> Of(seen[..n], i, mac) == Of(seen, i, mac);
      NoneYet(seen[..n], mac, was);
      AddressNext(seen, mac, was, was);
    } else {
      AddressNext(seen, mac, was, mid.devices[mac].ip);
    }
  }

  /** `ApplyScan`: every device of a readable observation is known afterwards, first seen when it was or now,
      last seen now, with the last address reported, as the machine itself if ever reported so, and with its
      texts; other devices and all mappings are as before. Nothing is written. */
  lemma ScanEffect(t: IPText, s: Running, seen: seq<SeenDevice>, now: Time, fate: Fate, mac: bytes)
    ensures var before, after := s.mem.reg, Do(t, s, Scan(seen, now), fate);
            var hit := exists i :: 0 <= i < |seen| && Of(seen, i, mac);
            && after.files == s.files && after.mem.reg.mappings == before.mappings
            && (mac in after.mem.reg.devices <==> mac in before.devices || hit)
            && (!hit && mac in before.devices ==> after.mem.reg.devices[mac] == before.devices[mac])
            && (hit ==>
                  var was := if mac in before.devices then before.devices[mac]
                             else DeviceRecord(mac, [], [], [], [], false, now, 0);
                  var d := after.mem.reg.devices[mac];
                  && AddressAfter(seen, mac, was.ip, d.ip)
                  && d == was.(ip := d.ip, lastSeen := now, self := d.self)
                  && (d.self <==> was.self || exists i :: 0 <= i < |seen| && Of(seen, i, mac) && seen[i].self))
  {
    hide NormalizeMac;
    HitsAre(seen, mac);
    ScanDevices(s.mem.reg, seen, now, mac);
    if mac in ObserveAll(s.mem.reg, seen, now).devices {
      ScanAddress(s.mem.reg, seen, now, mac);
    }
    ScanMappings(s.mem.reg, seen, now);
    hide ObserveAll, AnyReadable, AddressAfter, Hits, HitsSelf;
  }

  lemma HitsAre(seen: seq<SeenDevice>, mac: bytes)
    ensures Hits(seen, mac) <==> exists i :: 0 <= i < |seen| && Of(seen, i, mac)
    ensures HitsSelf(seen, mac) <==> exists i :: 0 <= i < |seen| && Of(seen, i, mac) && seen[i].self
  {
    hide NormalizeMac;
    if Hits(seen, mac) {
      var sd :| sd in seen && NormalizeMac(sd.mac) == Some(mac);
      var i :| 0 <= i < |seen| && seen[i] == sd;
      assert Of(seen, i, mac);
    }
    if HitsSelf(seen, mac) {
      var sd :| sd in seen && NormalizeMac(sd.mac) == Some(mac) && sd.self;
      var i :| 0 <= i < |seen| && seen[i] == sd;
      assert Of(seen, i, mac) && seen[i].self;
    }
  }

  lemma {:induction false} ScanMappings(r: Registry, seen: seq<SeenDevice>, now: Time)
    ensures ObserveAll(r, seen, now).mappings == r.mappings
  {
    hide NormalizeMac;
    if seen == [] {
    } else {
      ScanMappings(r, seen[..|seen| - 1], now);
    }
  }

  /** A scan makes the store dirty exactly if some observation was readable. */
  lemma ScanDirties(t: IPText, s: Running, seen: seq<SeenDevice>, now: Time, fate: Fate)
    ensures Do(t, s, Scan(seen, now), fate).mem.dirty <==>
            s.mem.dirty || exists i :: 0 <= i < |seen| && NormalizeMac(seen[i].mac).Some?
  {
    hide NormalizeMac, ObserveAll;
    if AnyReadable(seen) {
      var sd :| sd in seen && NormalizeMac(sd.mac).Some?;
      var i :| 0 <= i < |seen| && seen[i] == sd;
    }
  }

  /** A scan is worth an immediate save exactly if some observation, at its turn, is of a new device, changes an
      address, or is the first to report the machine itself. */
  lemma {:induction false} MaterialIs(r: Registry, seen: seq<SeenDevice>, now: Time)
    ensures AnyMaterial(r, seen, now) <==> exists i :: 0 <= i < |seen| && Worthy(r, seen, now, i)
  {
    hide NormalizeMac;
    if seen == [] {
    } else {
      var n := |seen| - 1;
      MaterialIs(r, seen[..n], now);
      assert forall i :: 0 <= i < n ==> seen[..n][..i] == seen[..i] && seen[..n][i] == seen[i];
      hide ObserveAll;
      assert forall i :: 0 <= i < n ==> (Worthy(r, seen[..n], now, i) <==> Worthy(r, seen, now, i));
      assert Worthy(r, seen, now, n) <==> Material(ObserveAll(r, seen[..n], now), seen[n]);
    }
  }

  ghost predicate Worthy(r: Registry, seen: seq<SeenDevice>, now: Time, i: nat)
    requires i < |seen|
  {
    var before, sd := ObserveAll(r, seen[..i], now), seen[i];
    NormalizeMac(sd.mac).Some? &&
    var mac := NormalizeMac(sd.mac).value;
    mac !in before.devices || (sd.ip != [] && before.devices[mac].ip != sd.ip) || (sd.self && !before.devices[mac].self)
  }

  // ---------------------------------------------------------------------
  // Deleted mappings stay away
  // ---------------------------------------------------------------------

  /** No mapping of this name, in the file or in memory. */
  ghost predicate Absent(sys: System, name: bytes) {
    name !in OnDisk(FilesOf(sys)).mappings && (sys.Up? ==> name !in sys.run.mem.reg.mappings)
  }

  /** No operation of these events maps this name. */
  ghost predicate NeverMapped(events: seq<Event>, name: bytes) {
    forall e :: e in events && (e.Call? || e.CrashDuring?) && (e.op.SetMapping? || e.op.UpdateMapping?) ==>
      Normalize(e.op.hostname) != name
  }

  /** Only `SetMapping` and `UpdateMapping` map a name that was not mapped. */
  lemma NoNewName(t: IPText, m: Memory, op: Op, name: bytes)
    requires Apply(t, m, op).Ok? && name !in m.reg.mappings
    requires op.SetMapping? || op.UpdateMapping? ==> Normalize(op.hostname) != name
    ensures name !in Apply(t, m, op).value.mem.reg.mappings
  {
    hide NormalizeMac, Normalize, ValidName, TrimSpace, ObserveAll, AnyReadable;
    if op.Scan? {
      ScanMappings(m.reg, op.seen, op.now);
    }
  }

  lemma StepAbsent(t: IPText, sys: System, e: Event, name: bytes)
    requires Good(sys) && Absent(sys, name)
    requires (e.Call? || e.CrashDuring?) && (e.op.SetMapping? || e.op.UpdateMapping?) ==>
               Normalize(e.op.hostname) != name
    ensures Absent(Step(t, sys, e), name)
  {
    hide Apply, OnDisk, Snapshot, FilesAt, Normalize, GoodMemory, GoodFile, Stores;
    match sys
    case Down(files) =>
      if e.Start? {
        StartKeeps(t, files);
      }
    case Up(s) =>
      if e.Call? || e.CrashDuring? {
        FileAfter(t, s, e.op, e.fate);
        StoresApplies(t, s, e.op, e.fate);
        if Apply(t, s.mem, e.op).Ok? {
          NoNewName(t, s.mem, e.op, name);
        }
        if e.CrashDuring? {
          FileAt(t, s, e.op, e.fate, e.at);
        }
        hide Do;
      }
  }

  lemma {:induction false} RunAbsent(t: IPText, sys: System, events: seq<Event>, name: bytes)
    requires Good(sys) && Absent(sys, name) && NeverMapped(events, name)
    ensures Absent(RunAll(t, sys, events), name)
  {
    hide Absent, Step, Normalize, Good;
    if events == [] {
    } else {
      var before, last := events[..|events| - 1], events[|events| - 1];
      assert last in events && forall e :: e in before ==> e in events;
      RunAbsent(t, sys, before, name);
      RunKeeps(t, sys, before);
      StepAbsent(t, RunAll(t, sys, before), last, name);
    }
  }

  /** A mapping whose deletion was acknowledged at any point of any run stays away through crashes and
      restarts, in the file and in memory, until an operation maps its name again. */
  lemma {:induction false} DeletedStaysAway(t: IPText, sys: System, first: seq<Event>,
                                          hostname: bytes, fate: Fate, later: seq<Event>)
    requires Fresh(sys) && RunAll(t, sys, first).Up? && fate.fails.None?
    requires Normalize(hostname) in RunAll(t, sys, first).run.mem.reg.mappings
    requires NeverMapped(later, Normalize(hostname))
    ensures var after := Up(Do(t, RunAll(t, sys, first).run, DeleteMapping(hostname), fate));
            Absent(RunAll(t, after, later), Normalize(hostname))
  {
    var s := RunAll(t, sys, first).run;
    RunKeeps(t, sys, first);
    DeleteMappingEffect(t, s, hostname, fate);
    DoKeeps(t, s, DeleteMapping(hostname), fate);
    hide Good, Do, RunAll, NeverMapped, Normalize, OnDisk, Written;
    RunAbsent(t, Up(Do(t, s, DeleteMapping(hostname), fate)), later, Normalize(hostname));
  }
}
