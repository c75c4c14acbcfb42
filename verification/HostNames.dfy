/** Host names and MAC addresses: internal/names/names.go. */
module HostNames {
  import opened Results
  import opened Bytes
  import opened Text
  import opened NameCodec

  // ---------------------------------------------------------------------
  // Host names
  // ---------------------------------------------------------------------

  const MAX_NAME := 200
  const HYPHEN: byte := 0x2D

  predicate HostChar(c: byte) {
    c == HYPHEN || 0x61 <= c <= 0x7A || 0x30 <= c <= 0x39
  }

  predicate HostLabel(l: bytes) {
    && ValidLabel(l)
    && (forall c :: c in l ==> HostChar(c))
    && l[0] != HYPHEN && l[|l| - 1] != HYPHEN
  }

  /** What `ValidateLabels` accepts. */
  predicate ValidName(name: bytes) {
    1 <= |name| <= MAX_NAME && forall l :: l in Split(name) ==> HostLabel(l)
  }

  /** `ValidateLabels`: labels are checked in turn, each character by character. */
  method ValidateLabels(name: bytes) returns (ok: bool)
    ensures ok == ValidName(name)
  {
    if name == [] || |name| > MAX_NAME {
      return false;
    }
    var labels := Split(name);
    for k := 0 to |labels|
      invariant forall j :: 0 <= j < k ==> HostLabel(labels[j])
    {
      var l := labels[k];
      assert l in labels;
      if l == [] || |l| > MAX_LABEL {
        return false;
      }
      for i := 0 to |l|
        invariant forall j :: 0 <= j < i ==> HostChar(l[j])
      {
        if !HostChar(l[i]) {
          assert l[i] in l;
          return false;
        }
      }
      if l[0] == HYPHEN || l[|l| - 1] == HYPHEN {
        return false;
      }
    }
    return true;
  }

  /** `Normalize`: surrounding whitespace off, lower case, surrounding dots off. */
  function Normalize(name: bytes): bytes {
    Trim(Lower(TrimSpace(name)), {DOT})
  }

  lemma ValidNameChars(name: bytes)
    requires ValidName(name)
    ensures forall c :: c in name ==> c == DOT || HostChar(c)
    ensures Lower(name) == name
    ensures name[0] != DOT && name[|name| - 1] != DOT && !HasSuffix(name, [DOT])
  {
    forall c | c in name && c != DOT
      ensures HostChar(c)
    {
      SplitChars(name, c);
    }
    forall i | 0 <= i < |name|
      ensures Lower(name)[i] == name[i]
    {
      assert name[i] in name;
    }
    assert HostLabel(Split(name)[0]) && HostLabel(Split(name)[|Split(name)| - 1]);
    if HasSuffix(name, [DOT]) {
      SplitEndsInDot(name);
      assert false;
    }
    assert name[|name| - 1..] == [name[|name| - 1]];
  }

  /** A host name label, in octets: 1 to 63 of a to z, 0 to 9 and the hyphen, no hyphen at either end. */
  ghost predicate Hostlike(l: bytes) {
    && 1 <= |l| <= 63
    && (forall c :: c in l ==> c == 0x2D || 0x30 <= c <= 0x39 || 0x61 <= c <= 0x7A)
    && l[0] != 0x2D && l[|l| - 1] != 0x2D
  }

  /** A name is valid exactly when it has at most 200 octets and is written with dots between at least
      one host name label. */
  lemma ValidNameExact(name: bytes)
    ensures ValidName(name) <==>
            |name| <= 200 && exists labels :: labels != [] && name == Join(labels) && forall l :: l in labels ==> Hostlike(l)
  {
    forall l: bytes
      ensures Hostlike(l) <==> HostLabel(l)
    {
    }
    hide Hostlike, HostLabel;
    if ValidName(name) {
      JoinSplit(name);
      assert forall l :: l in Split(name) ==> Hostlike(l);
    }
    forall labels | labels != [] && name == Join(labels) && (forall l :: l in labels ==> Hostlike(l))
      ensures Split(name) == labels && name != []
    {
      LabelsValid(labels);
      SplitJoin(labels);
    }
  }

  lemma {:induction false} LabelsValid(labels: seq<bytes>)
    requires labels != [] && forall l :: l in labels ==> Hostlike(l)
    ensures NoDots(labels) && Join(labels) != []
  {
    assert labels[0] in labels && Hostlike(labels[0]);
  }

  /** What `Normalize` leaves of a text: blanks around it go first, then dots around it, and letters
      become small. Every text has such parts. */
  lemma NormalizeIs(pre: bytes, dots: bytes, core: bytes, more: bytes, post: bytes, name: bytes)
    requires AllBlank(pre) && AllBlank(post)
    requires (forall c :: c in dots + more ==> c == 0x2E) && Folds(core, name)
    requires core == [] || (core[0] != 0x2E && core[|core| - 1] != 0x2E)
    requires var mid := dots + core + more;
             mid == [] || (!Blank(mid[0]) && !Blank(mid[|mid| - 1]))
    ensures Normalize(pre + (dots + core + more) + post) == name
  {
    TrimSpaceIs(pre, dots + core + more, post);
    LowerIs(core, name);
    LowerConcat(dots + core, more);
    LowerConcat(dots, core);
    assert Lower(dots) == dots && Lower(more) == more by {
      assert forall i :: 0 <= i < |dots| ==> dots[i] in dots + more;
      assert forall i :: 0 <= i < |more| ==> more[i] in dots + more;
    }
    assert forall c :: c in dots ==> c in dots + more;
    assert forall c :: c in more ==> c in dots + more;
    hide Lower, TrimSpace;
    TrimIs(dots, name, more, {DOT});
  }

  /** Valid names are fixed points of `Normalize`. */
  lemma NormalizeValid(name: bytes)
    requires ValidName(name)
    ensures Normalize(name) == name
  {
    ValidNameChars(name);
    assert name[0] in name && name[|name| - 1] in name;
  }

  /** A valid name written under a valid zone: its text is unchanged by the codec, and it can be
      encoded exactly when the whole fits 253 octets. */
  lemma NameUnderZone(host: bytes, zone: bytes)
    requires ValidName(host) && ValidName(zone)
    ensures var name := host + [DOT] + zone;
            && Lower(name) == name && TrimDot(name) == name && NameLabels(name) != []
            && (WireName(name).Ok? <==> |host| + 1 + |zone| <= 253)
  {
    var name := host + [DOT] + zone;
    ValidNameChars(host);
    ValidNameChars(zone);
    LowerConcat(host + [DOT], zone);
    LowerConcat(host, [DOT]);
    assert name[|name| - 1..] == zone[|zone| - 1..];
    SplitConcat(host, zone);
    forall l | l in Split(host) + Split(zone)
      ensures ValidLabel(l)
    {
      assert l in Split(host) || l in Split(zone);
    }
    EncodeNameAccepts(name);
  }

  /** A valid name on its own can always be encoded. */
  lemma ValidNameEncodes(name: bytes)
    requires ValidName(name)
    ensures TrimDot(name) == name && WireName(name).Ok? && |WireName(name).value| == |name| + 2
  {
    ValidNameChars(name);
    assert forall l :: l in Split(name) ==> ValidLabel(l);
    EncodeNameAccepts(name);
  }

  // ---------------------------------------------------------------------
  // MAC addresses
  // ---------------------------------------------------------------------

  const COLON: byte := 0x3A

  predicate IsHex(c: byte) {
    0x30 <= c <= 0x39 || 0x61 <= c <= 0x66 || 0x41 <= c <= 0x46
  }

  function HexValue(c: byte): (v: byte)
    requires IsHex(c)
    ensures v < 16
  {
    if c <= 0x39 then c - 0x30 else if c <= 0x46 then c - 0x41 + 10 else c - 0x61 + 10
  }

  /** One lower-case hexadecimal digit. */
  function HexDigit(v: byte): (c: byte)
    requires v < 16
    ensures IsHex(c) && HexValue(c) == v
  {
    if v < 10 then 0x30 + v else 0x61 + v - 10
  }

  /** Six octets whose digits stand at these positions. */
  predicate HexAt(s: bytes, at: seq<nat>) {
    forall i :: 0 <= i < |at| ==> at[i] + 1 < |s| && IsHex(s[at[i]]) && IsHex(s[at[i] + 1])
  }

  function OctetsAt(s: bytes, at: seq<nat>): (r: bytes)
    requires HexAt(s, at)
    ensures |r| == |at|
  {
    seq(|at|, i requires 0 <= i < |at| => 16 * HexValue(s[at[i]]) + HexValue(s[at[i] + 1]))
  }

  const PAIRS: seq<nat> := [0, 3, 6, 9, 12, 15]
  const QUADS: seq<nat> := [0, 2, 5, 7, 10, 12]

  /** `net.ParseMAC` restricted to the notations of six octets. */
  function ParseMac(s: bytes): (r: Option<bytes>)
    ensures r.Some? ==> |r.value| == 6
  {
    if |s| == 17 && (s[2] == COLON || s[2] == HYPHEN) then
      if s[5] == s[2] && s[8] == s[2] && s[11] == s[2] && s[14] == s[2] && HexAt(s, PAIRS)
      then Some(OctetsAt(s, PAIRS)) else None
    else if |s| == 14 && s[4] == DOT && s[9] == DOT && HexAt(s, QUADS) then Some(OctetsAt(s, QUADS))
    else None
  }

  /** `HardwareAddr.String`: "aa:bb:cc:dd:ee:ff". */
  function MacText(octets: bytes): (s: bytes)
    ensures |s| == if octets == [] then 0 else 3 * |octets| - 1
  {
    if octets == [] then []
    else
      var head := [HexDigit(octets[0] / 16), HexDigit(octets[0] % 16)];
      if |octets| == 1 then head else head + [COLON] + MacText(octets[1..])
  }

  /** `NormalizeMAC`. */
  function NormalizeMac(s: bytes): Option<bytes> {
    match ParseMac(TrimSpace(s))
    case None => None
    case Some(octets) => Some(MacText(octets))
  }

  /** The canonical form of a MAC address. */
  predicate ValidMac(m: bytes) {
    NormalizeMac(m) == Some(m)
  }

  lemma {:induction false} MacTextAt(octets: bytes, i: nat)
    requires i < |octets|
    ensures |MacText(octets)| == 3 * |octets| - 1
    ensures MacText(octets)[3 * i] == HexDigit(octets[i] / 16)
    ensures MacText(octets)[3 * i + 1] == HexDigit(octets[i] % 16)
    ensures i + 1 < |octets| ==> MacText(octets)[3 * i + 2] == COLON
    decreases i
  {
    if i == 0 {
    } else {
      MacTextAt(octets[1..], i - 1);
    }
  }

  // ---------------------------------------------------------------------
  // Notations of MAC addresses
  // ---------------------------------------------------------------------

  /** The digits 0 to 9 and a to f. */
  const SMALL_DIGITS: bytes :=
    [0x30, 0x31, 0x32, 0x33, 0x34, 0x35, 0x36, 0x37, 0x38, 0x39, 0x61, 0x62, 0x63, 0x64, 0x65, 0x66]
  /** The digits 0 to 9 and A to F. */
  const LARGE_DIGITS: bytes :=
    [0x30, 0x31, 0x32, 0x33, 0x34, 0x35, 0x36, 0x37, 0x38, 0x39, 0x41, 0x42, 0x43, 0x44, 0x45, 0x46]

  /** `v` as one hexadecimal digit, of either case. */
  ghost predicate IsDigitOf(c: byte, v: nat) {
    v < 16 && (c == SMALL_DIGITS[v] || c == LARGE_DIGITS[v])
  }

  /** An octet as the two digits at `at`. */
  ghost predicate WrittenAt(s: bytes, at: nat, octet: byte) {
    at + 1 < |s| && IsDigitOf(s[at], octet / 16) && IsDigitOf(s[at + 1], octet % 16)
  }

  /** "aa:bb:cc:dd:ee:ff", with colons or hyphens. */
  ghost predicate PairNotation(s: bytes, octets: bytes, separator: byte) {
    && |s| == 17 && |octets| == 6
    && s[2] == s[5] == s[8] == s[11] == s[14] == separator
    && WrittenAt(s, 0, octets[0]) && WrittenAt(s, 3, octets[1]) && WrittenAt(s, 6, octets[2])
    && WrittenAt(s, 9, octets[3]) && WrittenAt(s, 12, octets[4]) && WrittenAt(s, 15, octets[5])
  }

  /** "aabb.ccdd.eeff". */
  ghost predicate QuadNotation(s: bytes, octets: bytes) {
    && |s| == 14 && |octets| == 6
    && s[4] == s[9] == 0x2E
    && WrittenAt(s, 0, octets[0]) && WrittenAt(s, 2, octets[1]) && WrittenAt(s, 5, octets[2])
    && WrittenAt(s, 7, octets[3]) && WrittenAt(s, 10, octets[4]) && WrittenAt(s, 12, octets[5])
  }

  ghost predicate Notation(s: bytes, octets: bytes) {
    PairNotation(s, octets, 0x3A) || PairNotation(s, octets, 0x2D) || QuadNotation(s, octets)
  }

  /** Octet number `i` of a text of small digits and colons. */
  ghost predicate CanonicalAt(m: bytes, octets: bytes, i: nat)
    requires i < |octets| && |m| == 3 * |octets| - 1
  {
    && m[3 * i] == SMALL_DIGITS[octets[i] / 16] && m[3 * i + 1] == SMALL_DIGITS[octets[i] % 16]
    && (i + 1 < |octets| ==> m[3 * i + 2] == 0x3A)
  }

  /** The canonical text: small digits and colons. */
  ghost predicate CanonicalMac(m: bytes, octets: bytes) {
    |m| == 17 && |octets| == 6 && forall i :: 0 <= i < 6 ==> CanonicalAt(m, octets, i)
  }

  lemma DigitTable(c: byte, v: nat)
    ensures IsDigitOf(c, v) <==> IsHex(c) && HexValue(c) == v
  {
  }

  lemma SmallDigit(v: byte)
    requires v < 16
    ensures HexDigit(v) == SMALL_DIGITS[v]
  {
  }

  lemma OctetAt(s: bytes, at: nat, octet: byte)
    requires at + 1 < |s|
    ensures WrittenAt(s, at, octet) <==>
            IsHex(s[at]) && IsHex(s[at + 1]) && 16 * HexValue(s[at]) + HexValue(s[at + 1]) == octet
  {
    hide IsDigitOf, IsHex, HexValue;
    DigitTable(s[at], octet / 16);
    DigitTable(s[at + 1], octet % 16);
  }

  /** The octets read at these positions are written there. */
  lemma OctetsRead(s: bytes, at: seq<nat>)
    requires HexAt(s, at)
    ensures forall i :: 0 <= i < |at| ==> WrittenAt(s, at[i], OctetsAt(s, at)[i])
  {
    hide WrittenAt, IsHex, HexValue;
    forall i | 0 <= i < |at|
      ensures WrittenAt(s, at[i], OctetsAt(s, at)[i])
    {
      OctetAt(s, at[i], OctetsAt(s, at)[i]);
    }
  }

  lemma OctetsWritten(s: bytes, at: seq<nat>, octets: bytes)
    requires |at| == |octets| && forall i :: 0 <= i < |at| ==> WrittenAt(s, at[i], octets[i])
    ensures HexAt(s, at) && OctetsAt(s, at) == octets
  {
    hide IsHex, HexValue, WrittenAt;
    forall i | 0 <= i < |at|
      ensures at[i] + 1 < |s| && IsHex(s[at[i]]) && IsHex(s[at[i] + 1])
    {
      WrittenInside(s, at[i], octets[i]);
      OctetAt(s, at[i], octets[i]);
    }
    assert HexAt(s, at);
    forall i | 0 <= i < |at|
      ensures OctetsAt(s, at)[i] == octets[i]
    {
      OctetAt(s, at[i], octets[i]);
    }
  }

  lemma WrittenInside(s: bytes, at: nat, octet: byte)
    requires WrittenAt(s, at, octet)
    ensures at + 1 < |s| && !Blank(s[at]) && !Blank(s[at + 1])
  {
  }

  /** The MAC parser accepts exactly the three notations. */
  lemma ParseMacExact(s: bytes, octets: bytes)
    requires |octets| == 6
    ensures ParseMac(s) == Some(octets) <==> Notation(s, octets)
  {
    hide HexAt, OctetsAt, WrittenAt;
    if |s| == 17 {
      PositionsExact(s, PAIRS, octets);
    }
    if |s| == 14 {
      PositionsExact(s, QUADS, octets);
    }
  }

  lemma PositionsExact(s: bytes, at: seq<nat>, octets: bytes)
    requires |at| == |octets| == 6
    ensures (HexAt(s, at) && OctetsAt(s, at) == octets) <==>
            && WrittenAt(s, at[0], octets[0]) && WrittenAt(s, at[1], octets[1]) && WrittenAt(s, at[2], octets[2])
            && WrittenAt(s, at[3], octets[3]) && WrittenAt(s, at[4], octets[4]) && WrittenAt(s, at[5], octets[5])
  {
    hide HexAt, OctetsAt, WrittenAt;
    if HexAt(s, at) {
      OctetsRead(s, at);
    }
    SixPositions(s, at, octets);
    if forall i :: 0 <= i < |at| ==> WrittenAt(s, at[i], octets[i]) {
      OctetsWritten(s, at, octets);
    }
  }

  lemma SixPositions(s: bytes, at: seq<nat>, octets: bytes)
    requires |at| == |octets| == 6
    ensures (forall i :: 0 <= i < |at| ==> WrittenAt(s, at[i], octets[i])) <==>
            && WrittenAt(s, at[0], octets[0]) && WrittenAt(s, at[1], octets[1]) && WrittenAt(s, at[2], octets[2])
            && WrittenAt(s, at[3], octets[3]) && WrittenAt(s, at[4], octets[4]) && WrittenAt(s, at[5], octets[5])
  {
    hide WrittenAt;
  }

  lemma {:induction false} MacTextCanonical(octets: bytes)
    requires |octets| == 6
    ensures CanonicalMac(MacText(octets), octets)
  {
    hide MacText, HexDigit;
    forall i | 0 <= i < 6
      ensures CanonicalAt(MacText(octets), octets, i)
    {
      MacTextAt(octets, i);
      SmallDigit(octets[i] / 16);
      SmallDigit(octets[i] % 16);
    }
  }

  lemma CanonicalUnique(m: bytes, n: bytes, octets: bytes)
    requires CanonicalMac(m, octets) && CanonicalMac(n, octets)
    ensures m == n
  {
    forall k | 0 <= k < 17
      ensures m[k] == n[k]
    {
      assert CanonicalAt(m, octets, k / 3) && CanonicalAt(n, octets, k / 3);
      assert k == 3 * (k / 3) || k == 3 * (k / 3) + 1 || k == 3 * (k / 3) + 2;
    }
  }

  lemma NotationEnds(s: bytes, octets: bytes)
    requires Notation(s, octets)
    ensures s != [] && !Blank(s[0]) && !Blank(s[|s| - 1])
  {
    hide WrittenAt, Blank;
    WrittenInside(s, 0, octets[0]);
    WrittenInside(s, |s| - 2, octets[5]);
  }

  /** Six octets in any of the three notations, with digits of either case and blanks around them,
      normalise to their one canonical text. */
  lemma MacNotations(pre: bytes, s: bytes, post: bytes, octets: bytes, m: bytes)
    requires AllBlank(pre) && AllBlank(post) && Notation(s, octets) && CanonicalMac(m, octets)
    ensures NormalizeMac(pre + s + post) == Some(m)
  {
    NotationEnds(s, octets);
    hide Notation, CanonicalMac, ParseMac, MacText, TrimSpace;
    ParseMacExact(s, octets);
    MacTextCanonical(octets);
    TrimSpaceIs(pre, s, post);
    CanonicalUnique(m, MacText(octets), octets);
  }

  /** Nothing else is a MAC address. */
  lemma OnlyMacNotations(text: bytes) returns (pre: bytes, s: bytes, post: bytes, octets: bytes)
    requires NormalizeMac(text).Some?
    ensures text == pre + s + post && AllBlank(pre) && AllBlank(post)
    ensures Notation(s, octets) && CanonicalMac(NormalizeMac(text).value, octets)
  {
    hide Notation, CanonicalMac, ParseMac, MacText, TrimSpace;
    s := TrimSpace(text);
    pre, post := TrimSpaceParts(text);
    octets := ParseMac(s).value;
    ParseMacExact(s, octets);
    MacTextCanonical(octets);
  }

  lemma CanonicalIsNotation(m: bytes, octets: bytes)
    requires CanonicalMac(m, octets)
    ensures Notation(m, octets)
  {
    hide SMALL_DIGITS, LARGE_DIGITS, WrittenAt;
    PairWritten(m, octets, 0);
    PairWritten(m, octets, 1);
    PairWritten(m, octets, 2);
    PairWritten(m, octets, 3);
    PairWritten(m, octets, 4);
    PairWritten(m, octets, 5);
    hide CanonicalMac;
  }

  lemma PairWritten(m: bytes, octets: bytes, i: nat)
    requires CanonicalMac(m, octets) && i < 6
    ensures WrittenAt(m, 3 * i, octets[i]) && (i < 5 ==> m[3 * i + 2] == 0x3A)
  {
    assert CanonicalAt(m, octets, i);
  }

  /** What `NormalizeMAC` returns is canonical: normalising it again changes nothing. */
  lemma NormalizeMacValid(text: bytes)
    requires NormalizeMac(text).Some?
    ensures ValidMac(NormalizeMac(text).value) && |NormalizeMac(text).value| == 17
  {
    hide Notation, NormalizeMac;
    var _, _, _, octets := OnlyMacNotations(text);
    var m := NormalizeMac(text).value;
    CanonicalIsNotation(m, octets);
    assert [] + m + [] == m;
    MacNotations([], m, [], octets, m);
  }
}
