/** The enriched lists of internal/store/store.go: `Devices`, `Mappings` and `Counts`. */
module Views {
  import opened Results
  import opened Bytes
  import opened HostNames
  import opened Addresses
  import opened Ordering
  import opened Registry

  datatype DeviceView = DeviceView(device: DeviceRecord, online: bool, names: seq<bytes>)

  datatype MappingView = MappingView(mapping: MappingRecord, currentIp: bytes, deviceName: bytes, online: bool)

  /** `onlineLocked`. */
  predicate Online(d: DeviceRecord, window: Time, now: Time) {
    d.lastSeen != 0 && now - d.lastSeen <= window
  }

  /** `parseIPv4Key`. */
  function IpKey(t: IPText, ip: bytes): bytes {
    match t.parse(ip)
    case None => [0xFF, 0xFF, 0xFF, 0xFF, 0xFF]
    case Some(a) =>
      match a
      case V4(o) => [0] + o
      case V6(o) => [1] + o
  }

  // ---------------------------------------------------------------------
  // Devices
  // ---------------------------------------------------------------------

  function NamesOf(r: Registry, mac: bytes): set<bytes> {
    set h | h in r.mappings && r.mappings[h].mac != [] && r.mappings[h].mac == mac
  }

  function Group(groups: map<bytes, seq<bytes>>, mac: bytes): seq<bytes> {
    if mac in groups then groups[mac] else []
  }

  /** The groups hold, for every MAC, the names mapped to it that are not in `rest`. */
  ghost predicate Grouped(r: Registry, rest: set<bytes>, groups: map<bytes, seq<bytes>>) {
    forall mac ::
      && DistinctKeys(Group(groups, mac), NameKey)
      && forall h :: h in Group(groups, mac) <==> h in NamesOf(r, mac) && h !in rest
  }

  lemma GroupNext(r: Registry, rest: set<bytes>, groups: map<bytes, seq<bytes>>, h: bytes)
    requires Grouped(r, rest, groups) && h in rest && h in r.mappings
    ensures var mac := r.mappings[h].mac;
            Grouped(r, rest - {h}, if mac != [] then groups[mac := Group(groups, mac) + [h]] else groups)
  {
    var mac := r.mappings[h].mac;
    var next := if mac != [] then groups[mac := Group(groups, mac) + [h]] else groups;
    forall m
      ensures DistinctKeys(Group(next, m), NameKey)
      ensures forall n :: n in Group(next, m) <==> n in NamesOf(r, m) && n !in rest - {h}
    {
      var names := Group(groups, m);
      assert forall i :: 0 <= i < |names| ==> names[i] in names;
    }
  }

  /** A whole group, sorted, is the sorted set of names mapped to its MAC. */
  lemma GroupSorts(r: Registry, groups: map<bytes, seq<bytes>>, mac: bytes)
    requires Grouped(r, {}, groups)
    ensures DistinctKeys(Group(groups, mac), NameKey)
    ensures SortBy(Group(groups, mac), NameKey) == Sorted(NamesOf(r, mac))
  {
    SortedIs(SortBy(Group(groups, mac), NameKey), NamesOf(r, mac));
  }

  lemma ViewIs(r: Registry, window: Time, now: Time, mac: bytes, v: DeviceView)
    requires mac in r.devices && v.device == r.devices[mac] && v.online == Online(r.devices[mac], window, now)
    requires v.names == Sorted(NamesOf(r, mac))
    ensures v == ViewOf(r, window, now, mac)
  {
  }

  function ViewKey(t: IPText): DeviceView -> Key {
    (v: DeviceView) => Key(IpKey(t, v.device.ip), v.device.mac)
  }

  /** The view of one device. */
  ghost function ViewOf(r: Registry, window: Time, now: Time, mac: bytes): DeviceView
    requires mac in r.devices
  {
    DeviceView(r.devices[mac], Online(r.devices[mac], window, now), Sorted(NamesOf(r, mac)))
  }

  ghost predicate IsView(r: Registry, window: Time, now: Time, v: DeviceView) {
    v.device.mac in r.devices && v == ViewOf(r, window, now, v.device.mac)
  }

  /** What `Devices` returns: one view for each device, strictly ordered by address, then MAC. */
  ghost predicate DeviceList(t: IPText, r: Registry, window: Time, now: Time, views: seq<DeviceView>) {
    && Strict(views, ViewKey(t))
    && (forall v :: v in views ==> IsView(r, window, now, v))
    && (forall mac :: mac in r.devices ==> ViewOf(r, window, now, mac) in views)
  }

  /** The views of all devices but those of `rest`, in some order. */
  ghost predicate Collected(t: IPText, r: Registry, window: Time, now: Time, rest: set<bytes>, views: seq<DeviceView>) {
    && DistinctKeys(views, ViewKey(t))
    && (forall v :: v in views ==> IsView(r, window, now, v) && v.device.mac !in rest)
    && (forall mac :: mac in r.devices && mac !in rest ==> ViewOf(r, window, now, mac) in views)
  }

  lemma CollectedNext(t: IPText, r: Registry, window: Time, now: Time, rest: set<bytes>, views: seq<DeviceView>, mac: bytes)
    requires Collected(t, r, window, now, rest, views) && mac in rest && mac in r.devices && GoodDevice(mac, r.devices[mac])
    ensures Collected(t, r, window, now, rest - {mac}, views + [ViewOf(r, window, now, mac)])
  {
    hide ValidMac, Online, Sorted, NamesOf;
    var v := ViewOf(r, window, now, mac);
    assert forall i :: 0 <= i < |views| ==> views[i] in views && views[i].device.mac != mac;
    assert v in views + [v];
  }

  /** Collecting all views and sorting them gives the list. */
  lemma {:induction false} CollectedList(t: IPText, r: Registry, window: Time, now: Time, views: seq<DeviceView>)
    requires Collected(t, r, window, now, {}, views)
    ensures DistinctKeys(views, ViewKey(t))
    ensures DeviceList(t, r, window, now, SortBy(views, ViewKey(t)))
  {
    hide SortBy, ViewOf;
  }

  /** The list does not depend on the order in which the maps are walked. */
  lemma DeviceListUnique(t: IPText, r: Registry, window: Time, now: Time, a: seq<DeviceView>, b: seq<DeviceView>)
    requires DeviceList(t, r, window, now, a) && DeviceList(t, r, window, now, b)
    ensures a == b
  {
    assert forall v :: v in a ==> IsView(r, window, now, v);
    assert forall v :: v in b ==> IsView(r, window, now, v);
    SortingUnique(a, b, ViewKey(t));
  }

  /** No two views are of the same device. */
  lemma DistinctMacs(t: IPText, r: Registry, window: Time, now: Time, views: seq<DeviceView>)
    requires DeviceList(t, r, window, now, views)
    ensures forall i, j :: 0 <= i < j < |views| ==> views[i].device.mac != views[j].device.mac
  {
    forall i, j | 0 <= i < j < |views|
      ensures views[i].device.mac != views[j].device.mac
    {
      assert IsView(r, window, now, views[i]) && IsView(r, window, now, views[j]);
      KeyLtAsymmetric(ViewKey(t)(views[i]), ViewKey(t)(views[j]));
    }
  }

  /** As many views as devices. */
  lemma DeviceListLength(t: IPText, r: Registry, window: Time, now: Time, views: seq<DeviceView>)
    requires Keyed(r) && DeviceList(t, r, window, now, views)
    ensures |views| == |r.devices|
  {
    var macs := set v | v in views :: v.device.mac;
    forall mac | mac in r.devices
      ensures mac in macs
    {
      assert GoodDevice(mac, r.devices[mac]) && ViewOf(r, window, now, mac) in views;
    }
    forall mac | mac in macs
      ensures mac in r.devices
    {
      var v :| v in views && v.device.mac == mac;
      assert IsView(r, window, now, v);
    }
    assert macs == r.devices.Keys;
    DistinctMacs(t, r, window, now, views);
    MacsCount(views);
  }

  lemma {:induction false} MacsCount(views: seq<DeviceView>)
    requires forall i, j :: 0 <= i < j < |views| ==> views[i].device.mac != views[j].device.mac
    ensures |set v | v in views :: v.device.mac| == |views|
  {
    if views == [] {
    } else {
      var rest := views[1..];
      MacsCount(rest);
      assert (set v | v in views :: v.device.mac) == (set v | v in rest :: v.device.mac) + {views[0].device.mac};
    }
  }

  /** Every name listed with a device currently resolves to that device's address. */
  lemma ListedNamesResolve(t: IPText, r: Registry, window: Time, now: Time, v: DeviceView, name: bytes)
    requires Lawful(t) && Keyed(r) && Aimed(t, r) && IsView(r, window, now, v)
    ensures name in v.names <==> name in r.mappings && r.mappings[name].mac == v.device.mac
    ensures name in v.names ==> ResolveName(t, r, name) == Some(t.parse(v.device.ip))
  {
    assert GoodDevice(v.device.mac, r.devices[v.device.mac]);
    if name in r.mappings {
      assert GoodTarget(t, r.mappings[name].mac, r.mappings[name].ip);
    }
  }

  function V4Value(o: bytes): nat
    requires |o| == 4
  {
    Get32(o, 0)
  }

  /** IPv4 addresses come first in numerical order, then IPv6 addresses, then everything else. */
  lemma IpKeyOrder(t: IPText, a: bytes, b: bytes)
    ensures t.parse(a).Some? && t.parse(b).Some? && t.parse(a).value.V4? && t.parse(b).value.V4? ==>
              (Lt(IpKey(t, a), IpKey(t, b)) <==>
               V4Value(t.parse(a).value.octets) < V4Value(t.parse(b).value.octets))
    ensures t.parse(a).Some? && t.parse(a).value.V4? && t.parse(b).Some? && t.parse(b).value.V6? ==>
              Lt(IpKey(t, a), IpKey(t, b))
    ensures t.parse(a).Some? && t.parse(b).None? ==> Lt(IpKey(t, a), IpKey(t, b))
  {
    if t.parse(a).Some? && t.parse(b).Some? && t.parse(a).value.V4? && t.parse(b).value.V4? {
      var x, y := t.parse(a).value.octets, t.parse(b).value.octets;
      assert ([0] + x)[1..] == x && ([0] + y)[1..] == y;
      V4Order(x, y);
    }
  }

  lemma {:induction false} V4Order(x: bytes, y: bytes)
    requires |x| == 4 && |y| == 4
    ensures Lt(x, y) <==> V4Value(x) < V4Value(y)
  {
    var x3, y3 := x[1..][1..][1..], y[1..][1..][1..];
    assert x3 == [x[3]] && y3 == [y[3]];
    assert Lt(x3, y3) <==> x[3] < y[3] by { assert x3[1..] == [] == y3[1..]; }
    assert Lt(x[1..][1..], y[1..][1..]) <==> x[2] < y[2] || (x[2] == y[2] && x[3] < y[3]);
    assert Lt(x[1..], y[1..]) <==> x[1] < y[1] || (x[1] == y[1] && Lt(x[1..][1..], y[1..][1..]));
  }

  // ---------------------------------------------------------------------
  // Counts
  // ---------------------------------------------------------------------

  function OnlineMacs(r: Registry, window: Time, now: Time): set<bytes> {
    set mac | mac in r.devices && Online(r.devices[mac], window, now)
  }

  function CountOnline(views: seq<DeviceView>): nat {
    if views == [] then 0 else CountOnline(views[1..]) + if views[0].online then 1 else 0
  }

  function OnlineIn(views: seq<DeviceView>): set<bytes> {
    set v | v in views && v.online :: v.device.mac
  }

  lemma {:induction false} OnlineCount(views: seq<DeviceView>)
    requires forall i, j :: 0 <= i < j < |views| ==> views[i].device.mac != views[j].device.mac
    ensures |OnlineIn(views)| == CountOnline(views)
  {
    if views == [] {
    } else {
      OnlineCount(views[1..]);
      OnlineNext(views);
      hide OnlineIn;
    }
  }

  lemma OnlineNext(views: seq<DeviceView>)
    requires views != [] && forall i :: 0 < i < |views| ==> views[0].device.mac != views[i].device.mac
    ensures var first, before := views[0], OnlineIn(views[1..]);
            && first.device.mac !in before
            && OnlineIn(views) == if first.online then before + {first.device.mac} else before
  {
    forall v
      ensures v in views <==> v == views[0] || v in views[1..]
    {
      assert views == [views[0]] + views[1..];
    }
  }

  /** The second result of `Counts` is the number of device views that are online. */
  lemma {:induction false} CountsAgree(t: IPText, r: Registry, window: Time, now: Time, views: seq<DeviceView>)
    requires Keyed(r) && DeviceList(t, r, window, now, views)
    ensures |OnlineMacs(r, window, now)| == CountOnline(views)
  {
    DistinctMacs(t, r, window, now, views);
    OnlineCount(views);
    var macs := OnlineIn(views);
    forall mac | mac in OnlineMacs(r, window, now)
      ensures mac in macs
    {
      assert GoodDevice(mac, r.devices[mac]) && ViewOf(r, window, now, mac) in views;
    }
    forall mac | mac in macs
      ensures mac in OnlineMacs(r, window, now)
    {
      var v :| v in views && v.online && v.device.mac == mac;
      assert IsView(r, window, now, v);
    }
    assert macs == OnlineMacs(r, window, now);
  }

  /** One more device counted. */
  lemma CountNext(all: set<bytes>, rest: set<bytes>, mac: bytes)
    requires mac in rest
    ensures |all - (rest - {mac})| == |all - rest| + if mac in all then 1 else 0
  {
    if mac in all {
      assert all - (rest - {mac}) == (all - rest) + {mac};
    } else {
      assert all - (rest - {mac}) == all - rest;
    }
  }

  // ---------------------------------------------------------------------
  // Mappings
  // ---------------------------------------------------------------------

  /** One row of `Mappings`. */
  function Row(r: Registry, window: Time, now: Time, m: MappingRecord): MappingView {
    if m.ip != [] then MappingView(m, m.ip, [], true)
    else if m.mac in r.devices then
      var d := r.devices[m.mac];
      MappingView(m, d.ip, if d.userLabel != [] then d.userLabel else d.hostname, Online(d, window, now))
    else MappingView(m, [], [], false)
  }

  /** What a view shows: the device itself, whether it was ever seen and last within the window, and its names
      in order. */
  lemma ViewTells(r: Registry, window: Time, now: Time, v: DeviceView)
    requires IsView(r, window, now, v)
    ensures v.device.mac in r.devices && v.device == r.devices[v.device.mac]
    ensures v.online <==> v.device.lastSeen != 0 && now - v.device.lastSeen <= window
    ensures Strict(v.names, NameKey)
    ensures forall h :: h in v.names <==> h in r.mappings && r.mappings[h].mac != [] && r.mappings[h].mac == v.device.mac
  {
  }

  /** What a row shows: a static address, always online; or the address of the mapped device, whether it was seen
      within the window, and its label or else its host name; or nothing for an unknown device. */
  lemma RowTells(r: Registry, window: Time, now: Time, m: MappingRecord)
    ensures var v := Row(r, window, now, m);
            && v.mapping == m
            && (m.ip != [] ==> v.currentIp == m.ip && v.online && v.deviceName == [])
            && (m.ip == [] && m.mac !in r.devices ==> v.currentIp == [] && !v.online && v.deviceName == [])
            && (m.ip == [] && m.mac in r.devices ==>
                  var d := r.devices[m.mac];
                  && v.currentIp == d.ip
                  && (v.online <==> d.lastSeen != 0 && now - d.lastSeen <= window)
                  && (d.userLabel != [] ==> v.deviceName == d.userLabel)
                  && (d.userLabel == [] ==> v.deviceName == d.hostname))
  {
  }

  /** The devices counted as online. */
  lemma OnlineTells(r: Registry, window: Time, now: Time, mac: bytes)
    ensures mac in OnlineMacs(r, window, now) <==>
            mac in r.devices && r.devices[mac].lastSeen != 0 && now - r.devices[mac].lastSeen <= window
  {
  }

  /** The address shown in a row is the one its name resolves to. */
  lemma RowAgrees(t: IPText, r: Registry, window: Time, now: Time, name: bytes)
    requires Lawful(t) && name in r.mappings
    ensures Some(t.parse(Row(r, window, now, r.mappings[name]).currentIp)) == ResolveName(t, r, name)
  {
  }
}
