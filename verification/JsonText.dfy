/**
 What JSON does to the texts of the state file (internal/store/store.go). It carries Unicode text, so
 octets that are not UTF-8 are replaced: reopening what was saved gives back the registry exactly when
 all its texts are UTF-8. The replacement is modelled where the document is read.
 */
module JsonText {
  import opened Bytes
  import opened HostNames
  import opened Addresses
  import opened Ordering
  import opened Registry
  import opened Persistence

  // ---------------------------------------------------------------------
  // UTF-8
  // ---------------------------------------------------------------------

  predicate In(s: bytes, i: nat, lo: byte, hi: byte) {
    i < |s| && lo <= s[i] <= hi
  }

  /** The size of the character a text starts with, 0 when it starts with none (section 4 of RFC 3629). */
  function RuneLength(s: bytes): (n: nat)
    requires s != []
    ensures n <= |s|
  {
    var b := s[0];
    if b < 0x80 then 1
    else if 0xC2 <= b <= 0xDF && In(s, 1, 0x80, 0xBF) then 2
    else if 0xE0 <= b <= 0xEF
            && In(s, 1, if b == 0xE0 then 0xA0 else 0x80, if b == 0xED then 0x9F else 0xBF)
            && In(s, 2, 0x80, 0xBF) then 3
    else if 0xF0 <= b <= 0xF4
            && In(s, 1, if b == 0xF0 then 0x90 else 0x80, if b == 0xF4 then 0x8F else 0xBF)
            && In(s, 2, 0x80, 0xBF) && In(s, 3, 0x80, 0xBF) then 4
    else 0
  }

  predicate Utf8(s: bytes) {
    s == [] || (RuneLength(s) > 0 && Utf8(s[RuneLength(s)..]))
  }

  /** A Unicode scalar value. */
  predicate Scalar(r: int) {
    0 <= r < 0xD800 || 0xE000 <= r < 0x11_0000
  }

  /** Its octets in UTF-8 (section 3 of RFC 3629). */
  function Encoded(r: int): (b: bytes)
    requires Scalar(r)
    ensures 1 <= |b| <= 4
  {
    if r < 0x80 then [r]
    else if r < 0x800 then [0xC0 + r / 64, 0x80 + r % 64]
    else if r < 0x1_0000 then [0xE0 + r / 4096, 0x80 + r / 64 % 64, 0x80 + r % 64]
    else [0xF0 + r / 262144, 0x80 + r / 4096 % 64, 0x80 + r / 64 % 64, 0x80 + r % 64]
  }

  ghost predicate StartsWith(s: bytes, r: int) {
    Scalar(r) && |Encoded(r)| <= |s| && s[..|Encoded(r)|] == Encoded(r)
  }

  lemma EncodedStarts(s: bytes, r: int)
    requires StartsWith(s, r)
    ensures s != [] && RuneLength(s) == |Encoded(r)|
  {
    var e := Encoded(r);
    assert forall i :: 0 <= i < |e| ==> s[i] == s[..|e|][i] == e[i];
  }

  lemma Parted(q: nat, rest: nat)
    ensures rest < 64 ==> (q * 64 + rest) / 64 == q && (q * 64 + rest) % 64 == rest
    ensures rest < 4096 ==> (q * 4096 + rest) / 4096 == q
    ensures rest < 262144 ==> (q * 262144 + rest) / 262144 == q
  {
  }

  /** A number by its digits to the base 64. */
  lemma Digits(a: nat, b: nat, c: nat, d: nat)
    requires b < 64 && c < 64 && d < 64
    ensures var r := ((a * 64 + b) * 64 + c) * 64 + d;
            && r % 64 == d && r / 64 % 64 == c && r / 4096 % 64 == b && r / 262144 == a
    ensures (a * 64 + b) % 64 == b && (a * 64 + b) / 64 == a
  {
    var x := a * 64 + b;
    var y := x * 64 + c;
    var r := y * 64 + d;
    Parted(a, b);
    Parted(x, c);
    Parted(y, d);
    assert r == x * 4096 + (c * 64 + d);
    Parted(x, c * 64 + d);
    assert r == a * 262144 + ((b * 64 + c) * 64 + d);
    Parted(a, (b * 64 + c) * 64 + d);
  }

  lemma StartEncoded(s: bytes) returns (r: int)
    requires s != [] && RuneLength(s) > 0
    ensures StartsWith(s, r) && |Encoded(r)| == RuneLength(s)
  {
    var n := RuneLength(s);
    if n == 1 {
      r := s[0];
      assert s[..1] == [s[0]];
    } else if n == 2 {
      r := StartOfTwo(s);
    } else if n == 3 {
      r := StartOfThree(s);
    } else {
      r := StartOfFour(s);
    }
  }

  lemma StartOfTwo(s: bytes) returns (r: int)
    requires s != [] && RuneLength(s) == 2
    ensures StartsWith(s, r) && |Encoded(r)| == 2
  {
    var a, b := (s[0] - 0xC0) as int, (s[1] - 0x80) as int;
    r := a * 64 + b;
    Digits(a, b, 0, 0);
    assert s[..2] == [s[0], s[1]];
    hide RuneLength;
  }

  lemma StartOfThree(s: bytes) returns (r: int)
    requires s != [] && RuneLength(s) == 3
    ensures StartsWith(s, r) && |Encoded(r)| == 3
  {
    var a, b, c := (s[0] - 0xE0) as int, (s[1] - 0x80) as int, (s[2] - 0x80) as int;
    r := (a * 64 + b) * 64 + c;
    assert 0x800 <= r < 0x1_0000 && Scalar(r);
    Digits(0, a, b, c);
    assert a < 64 && r / 4096 == a;
    assert s[..3] == [s[0], s[1], s[2]];
    hide RuneLength;
  }

  lemma StartOfFour(s: bytes) returns (r: int)
    requires s != [] && RuneLength(s) == 4
    ensures StartsWith(s, r) && |Encoded(r)| == 4
  {
    var a, b, c, d := (s[0] - 0xF0) as int, (s[1] - 0x80) as int, (s[2] - 0x80) as int, (s[3] - 0x80) as int;
    r := ((a * 64 + b) * 64 + c) * 64 + d;
    assert 0x1_0000 <= r < 0x11_0000;
    Digits(a, b, c, d);
    assert s[..4] == [s[0], s[1], s[2], s[3]];
    hide RuneLength;
  }

  function EncodedAll(rs: seq<int>): bytes
    requires forall r :: r in rs ==> Scalar(r)
  {
    if rs == [] then [] else assert rs[0] in rs; Encoded(rs[0]) + EncodedAll(rs[1..])
  }

  /** A text is UTF-8 exactly if it is the encoding of some scalar values. */
  lemma {:induction false} Utf8Exact(s: bytes)
    ensures Utf8(s) <==> exists rs: seq<int> :: (forall r :: r in rs ==> Scalar(r)) && s == EncodedAll(rs)
  {
    if Utf8(s) {
      var rs := Decoded8(s);
    }
    forall rs: seq<int> | (forall r :: r in rs ==> Scalar(r)) && s == EncodedAll(rs)
      ensures Utf8(s)
    {
      EncodedIsUtf8(rs);
    }
  }

  lemma {:induction false} Decoded8(s: bytes) returns (rs: seq<int>)
    requires Utf8(s)
    ensures (forall r :: r in rs ==> Scalar(r)) && s == EncodedAll(rs)
  {
    if s == [] {
      rs := [];
    } else {
      hide Encoded, RuneLength;
      var n := RuneLength(s);
      var r := StartEncoded(s);
      var rest := Decoded8(s[n..]);
      rs := [r] + rest;
      assert rs[0] == r && rs[1..] == rest && s == s[..n] + s[n..];
    }
  }

  lemma {:induction false} EncodedIsUtf8(rs: seq<int>)
    requires forall r :: r in rs ==> Scalar(r)
    ensures Utf8(EncodedAll(rs))
  {
    hide Encoded, RuneLength;
    if rs == [] {
    } else {
      assert rs[0] in rs;
      var s, e := EncodedAll(rs), Encoded(rs[0]);
      EncodedIsUtf8(rs[1..]);
      assert s[..|e|] == e && s[|e|..] == EncodedAll(rs[1..]);
      EncodedStarts(s, rs[0]);
    }
  }

  /** U+FFFD. */
  const REPLACEMENT: bytes := [0xEF, 0xBF, 0xBD]

  /** A text after it was written and read: every octet that starts no character is replaced. */
  function Rewritten(s: bytes): (r: bytes)
    ensures |r| >= |s|
  {
    if s == [] then []
    else
      var n := RuneLength(s);
      if n == 0 then REPLACEMENT + Rewritten(s[1..]) else s[..n] + Rewritten(s[n..])
  }

  /** A text survives exactly when it is UTF-8. */
  lemma {:induction false} RewrittenIff(s: bytes)
    ensures Rewritten(s) == s <==> Utf8(s)
  {
    if s == [] {
    } else {
      var n := RuneLength(s);
      if n == 0 {
        assert |Rewritten(s)| >= |s| + 2;
      } else {
        RewrittenIff(s[n..]);
        assert s == s[..n] + s[n..];
        assert Rewritten(s)[n..] == Rewritten(s[n..]);
      }
    }
  }

  lemma {:induction false} AsciiSurvives(s: bytes)
    requires Ascii(s)
    ensures Rewritten(s) == s
  {
    if s == [] {
    } else {
      assert s[0] in s && forall c :: c in s[1..] ==> c in s;
      AsciiSurvives(s[1..]);
      assert s == s[..1] + s[1..];
    }
  }

  lemma AsciiParts(a: bytes, b: bytes)
    ensures Ascii(a + b) <==> Ascii(a) && Ascii(b)
  {
    assert forall c :: c in a + b <==> c in a || c in b;
  }

  lemma {:induction false} RewrittenFirst(s: bytes)
    requires s != []
    ensures var n := RuneLength(s);
            && Rewritten(s) == (if n == 0 then REPLACEMENT + Rewritten(s[1..]) else s[..n] + Rewritten(s[n..]))
            && s[..n] + s[n..] == s
  {
  }

  /** A text that is ASCII after rewriting was so before. */
  lemma {:induction false} AsciiWas(s: bytes)
    ensures Ascii(Rewritten(s)) ==> Rewritten(s) == s
  {
    if s == [] {
    } else {
      var n := RuneLength(s);
      RewrittenFirst(s);
      assert !Ascii(REPLACEMENT) by { assert REPLACEMENT[0] in REPLACEMENT; }
      hide Rewritten, RuneLength, Ascii;
      if n == 0 {
        AsciiParts(REPLACEMENT, Rewritten(s[1..]));
      } else {
        AsciiParts(s[..n], Rewritten(s[n..]));
        AsciiWas(s[n..]);
      }
    }
  }

  lemma RunePrefix(s: bytes, n: nat, rest: bytes)
    requires s != [] && n == RuneLength(s) > 0
    ensures RuneLength(s[..n] + rest) == n
  {
  }

  /** Rewriting gives UTF-8, so doing it twice changes nothing more. */
  lemma {:induction false} RewrittenTwice(s: bytes)
    ensures Utf8(Rewritten(s)) && Rewritten(Rewritten(s)) == Rewritten(s)
  {
    RewrittenIsUtf8(s);
    RewrittenIff(Rewritten(s));
  }

  lemma {:induction false} RewrittenIsUtf8(s: bytes)
    ensures Utf8(Rewritten(s))
  {
    if s == [] {
    } else {
      var n := RuneLength(s);
      var rest := Rewritten(if n == 0 then s[1..] else s[n..]);
      if n == 0 {
        RewrittenIsUtf8(s[1..]);
        assert RuneLength(REPLACEMENT + rest) == 3 && (REPLACEMENT + rest)[3..] == rest;
      } else {
        RewrittenIsUtf8(s[n..]);
        RunePrefix(s, n, rest);
        assert (s[..n] + rest)[n..] == rest;
      }
    }
  }

  /** Rewriting does not change which address a text is. */
  lemma {:induction false} ParseRewritten(t: IPText, s: bytes)
    requires Lawful(t)
    ensures t.parse(Rewritten(s)) == t.parse(s)
  {
    hide Rewritten;
    if t.parse(s).Some? {
      AsciiSurvives(s);
    } else if t.parse(Rewritten(s)).Some? {
      AsciiWas(s);
    }
  }

  // ---------------------------------------------------------------------
  // Records
  // ---------------------------------------------------------------------

  function RewrittenDevice(d: DeviceRecord): DeviceRecord {
    d.(mac := Rewritten(d.mac), ip := Rewritten(d.ip), hostname := Rewritten(d.hostname),
       vendor := Rewritten(d.vendor), userLabel := Rewritten(d.userLabel))
  }

  function RewrittenMapping(m: MappingRecord): MappingRecord {
    m.(hostname := Rewritten(m.hostname), mac := Rewritten(m.mac), ip := Rewritten(m.ip), note := Rewritten(m.note))
  }

  /** The document as it is read back. */
  function Reread(p: Persisted): Persisted {
    Persisted(seq(|p.devices|, i requires 0 <= i < |p.devices| => RewrittenDevice(p.devices[i])),
              seq(|p.mappings|, i requires 0 <= i < |p.mappings| => RewrittenMapping(p.mappings[i])))
  }

  /** The registry with every text rewritten. */
  ghost function RewrittenRegistry(r: Registry): Registry {
    Registry(map mac | mac in r.devices :: RewrittenDevice(r.devices[mac]),
             map name | name in r.mappings :: RewrittenMapping(r.mappings[name]))
  }

  ghost predicate AllUtf8(r: Registry) {
    && (forall mac :: mac in r.devices ==>
          var d := r.devices[mac];
          Utf8(d.mac) && Utf8(d.ip) && Utf8(d.hostname) && Utf8(d.vendor) && Utf8(d.userLabel))
    && (forall name :: name in r.mappings ==>
          var m := r.mappings[name];
          Utf8(m.hostname) && Utf8(m.mac) && Utf8(m.ip) && Utf8(m.note))
  }

  lemma {:induction false} MacTextAscii(octets: bytes)
    ensures Ascii(MacText(octets))
  {
    if octets == [] {
    } else {
      MacTextAscii(octets[1..]);
    }
  }

  lemma {:induction false} MacSurvives(mac: bytes)
    requires ValidMac(mac)
    ensures Rewritten(mac) == mac
  {
    var octets :| mac == MacText(octets);
    MacTextAscii(octets);
    AsciiSurvives(mac);
  }

  lemma {:induction false} NameSurvives(name: bytes)
    requires ValidName(name)
    ensures Rewritten(name) == name
  {
    ValidNameChars(name);
    hide ValidName;
    AsciiSurvives(name);
  }

  /** Normalised names and MAC addresses are ASCII, so every record stays under its key. */
  lemma RewrittenKeyed(r: Registry)
    requires Keyed(r)
    ensures Keyed(RewrittenRegistry(r))
  {
    hide Rewritten, ValidMac, ValidName;
    forall mac | mac in r.devices
      ensures GoodDevice(mac, RewrittenDevice(r.devices[mac]))
    {
      assert GoodDevice(mac, r.devices[mac]);
      MacSurvives(mac);
    }
    forall name | name in r.mappings
      ensures GoodMapping(name, RewrittenMapping(r.mappings[name]))
    {
      var m := r.mappings[name];
      assert GoodMapping(name, m);
      NameSurvives(name);
      if m.mac != [] {
        MacSurvives(m.mac);
      } else {
        AsciiSurvives([]);
      }
    }
  }

  lemma RereadSnapshot(r: Registry)
    ensures Reread(Snapshot(r)) == Snapshot(RewrittenRegistry(r))
  {
    hide Pick, Sorted, Rewritten;
    var s := RewrittenRegistry(r);
    assert s.devices.Keys == r.devices.Keys && s.mappings.Keys == r.mappings.Keys;
    assert Reread(Snapshot(r)).devices == Snapshot(s).devices;
    assert Reread(Snapshot(r)).mappings == Snapshot(s).mappings;
  }

  /** What `Open` makes of a document. */
  function Opened(p: Persisted): Registry {
    Load(Reread(p))
  }

  /** Saving and reopening rewrites every text, and nothing else; so a restart gives back the same
      registry exactly when all its texts are UTF-8. */
  lemma ReopenedIff(r: Registry)
    requires Keyed(r)
    ensures Opened(Snapshot(r)) == RewrittenRegistry(r)
    ensures Opened(Snapshot(r)) == r <==> AllUtf8(r)
  {
    RewrittenKeyed(r);
    RereadSnapshot(r);
    LoadSnapshot(RewrittenRegistry(r));
    RewrittenRegistryIff(r);
    hide Keyed, Load, Snapshot, Reread, AllUtf8, RewrittenRegistry;
  }

  lemma RewrittenRegistryIff(r: Registry)
    ensures RewrittenRegistry(r) == r <==> AllUtf8(r)
  {
    hide Rewritten, Utf8;
    var s := RewrittenRegistry(r);
    forall t: bytes
      ensures Rewritten(t) == t <==> Utf8(t)
    {
      RewrittenIff(t);
    }
    if s == r {
      forall mac | mac in r.devices
        ensures RewrittenDevice(r.devices[mac]) == r.devices[mac]
      {
        assert s.devices[mac] == r.devices[mac];
      }
      forall name | name in r.mappings
        ensures RewrittenMapping(r.mappings[name]) == r.mappings[name]
      {
        assert s.mappings[name] == r.mappings[name];
      }
    }
    if AllUtf8(r) {
      assert s.devices == r.devices && s.mappings == r.mappings;
    }
  }

  // ---------------------------------------------------------------------
  // What is opened is UTF-8
  // ---------------------------------------------------------------------

  ghost predicate Utf8Device(d: DeviceRecord) {
    RewrittenDevice(d) == d
  }

  ghost predicate Utf8Mapping(m: MappingRecord) {
    RewrittenMapping(m) == m
  }

  lemma {:induction false} LoadedDevicesUtf8(ds: seq<DeviceRecord>)
    requires forall d :: d in ds ==> Utf8Device(d)
    ensures forall mac :: mac in LoadDevices(ds) ==> Utf8Device(LoadDevices(ds)[mac])
  {
    hide NormalizeMac, Rewritten;
    if ds == [] {
    } else {
      var last := ds[|ds| - 1];
      assert last in ds && forall d :: d in ds[..|ds| - 1] ==> d in ds;
      LoadedDevicesUtf8(ds[..|ds| - 1]);
      if NormalizeMac(last.mac).Some? {
        NormalizedMacSurvives(last.mac);
      }
    }
  }

  lemma NormalizedMacSurvives(mac: bytes)
    requires NormalizeMac(mac).Some?
    ensures Rewritten(NormalizeMac(mac).value) == NormalizeMac(mac).value
  {
    NormalizeMacValid(mac);
    MacSurvives(NormalizeMac(mac).value);
  }

  lemma {:induction false} LoadedMappingsUtf8(ms: seq<MappingRecord>)
    requires forall m :: m in ms ==> Utf8Mapping(m)
    ensures forall name :: name in LoadMappings(ms) ==> Utf8Mapping(LoadMappings(ms)[name])
  {
    hide NormalizeMac, Normalize, ValidName, Rewritten;
    if ms == [] {
    } else {
      var last := ms[|ms| - 1];
      assert last in ms && forall m :: m in ms[..|ms| - 1] ==> m in ms;
      LoadedMappingsUtf8(ms[..|ms| - 1]);
      if NormalizeMac(last.mac).Some? {
        NormalizedMacSurvives(last.mac);
      }
      if ValidName(Normalize(last.hostname)) {
        NameSurvives(Normalize(last.hostname));
      }
    }
  }

  lemma RewrittenDeviceUtf8(d: DeviceRecord)
    ensures Utf8Device(RewrittenDevice(d))
  {
    hide Rewritten, Utf8;
    RewrittenTwice(d.mac);
    RewrittenTwice(d.ip);
    RewrittenTwice(d.hostname);
    RewrittenTwice(d.vendor);
    RewrittenTwice(d.userLabel);
  }

  lemma RewrittenMappingUtf8(m: MappingRecord)
    ensures Utf8Mapping(RewrittenMapping(m))
  {
    hide Rewritten, Utf8;
    RewrittenTwice(m.hostname);
    RewrittenTwice(m.mac);
    RewrittenTwice(m.ip);
    RewrittenTwice(m.note);
  }

  lemma RereadUtf8(p: Persisted)
    ensures forall d :: d in Reread(p).devices ==> Utf8Device(d)
    ensures forall m :: m in Reread(p).mappings ==> Utf8Mapping(m)
  {
    hide RewrittenDevice, RewrittenMapping, Utf8Device, Utf8Mapping;
    forall d | d in Reread(p).devices
      ensures Utf8Device(d)
    {
      var i :| 0 <= i < |p.devices| && d == RewrittenDevice(p.devices[i]);
      RewrittenDeviceUtf8(p.devices[i]);
    }
    forall m | m in Reread(p).mappings
      ensures Utf8Mapping(m)
    {
      var i :| 0 <= i < |p.mappings| && m == RewrittenMapping(p.mappings[i]);
      RewrittenMappingUtf8(p.mappings[i]);
    }
  }

  lemma AllStay(r: Registry)
    requires forall mac :: mac in r.devices ==> Utf8Device(r.devices[mac])
    requires forall name :: name in r.mappings ==> Utf8Mapping(r.mappings[name])
    ensures RewrittenRegistry(r) == r
  {
    hide RewrittenDevice, RewrittenMapping;
    assert RewrittenRegistry(r).devices == r.devices && RewrittenRegistry(r).mappings == r.mappings;
  }

  /** Rewriting what was opened changes nothing more, whatever the document was. */
  lemma OpenedStays(p: Persisted)
    ensures RewrittenRegistry(Opened(p)) == Opened(p)
  {
    hide Reread, LoadDevices, LoadMappings, RewrittenRegistry, Utf8Device, Utf8Mapping;
    RereadUtf8(p);
    LoadedDevicesUtf8(Reread(p).devices);
    LoadedMappingsUtf8(Reread(p).mappings);
    AllStay(Opened(p));
  }

  lemma EmptyStays()
    ensures RewrittenRegistry(EMPTY) == EMPTY
  {
    assert RewrittenRegistry(EMPTY).devices == map[] && RewrittenRegistry(EMPTY).mappings == map[];
  }

  /** Rewriting keeps every mapping's one target. */
  lemma RewrittenAimed(t: IPText, r: Registry)
    requires Lawful(t) && Aimed(t, r)
    ensures Aimed(t, RewrittenRegistry(r))
  {
    var s := RewrittenRegistry(r);
    forall name | name in s.mappings
      ensures GoodTarget(t, s.mappings[name].mac, s.mappings[name].ip)
    {
      var m := r.mappings[name];
      assert GoodTarget(t, m.mac, m.ip) && s.mappings[name] == RewrittenMapping(m);
      ParseRewritten(t, m.ip);
    }
  }
}
