/**
 IPv4 reverse names (section 3.5 of RFC 1035): `ReverseName` and `ParseReverseName`
 of internal/dnsmsg/dnsmsg.go.
 */
module ReverseNames {
  import opened Results
  import opened Bytes
  import opened Text
  import opened NameCodec
  import opened NameTheorems

  /** "in-addr" and "arpa". */
  const IN_ADDR: bytes := [0x69, 0x6E, 0x2D, 0x61, 0x64, 0x64, 0x72]
  const ARPA: bytes := [0x61, 0x72, 0x70, 0x61]
  /** ".in-addr.arpa". */
  const SUFFIX: bytes := [DOT] + IN_ADDR + [DOT] + ARPA

  const ZERO: byte := 0x30

  predicate IsDigit(c: byte) {
    ZERO <= c <= 0x39
  }

  /** `%d` of an octet. */
  function Decimal(b: byte): bytes {
    if b < 10 then [ZERO + b]
    else if b < 100 then [ZERO + b / 10, ZERO + b % 10]
    else [ZERO + b / 100, ZERO + b / 10 % 10, ZERO + b % 10]
  }

  function ReverseName(ip: bytes): bytes {
    if |ip| != 4 then []
    else Decimal(ip[3]) + [DOT] + Decimal(ip[2]) + [DOT] + Decimal(ip[1]) + [DOT] + Decimal(ip[0]) + SUFFIX
  }

  // ---------------------------------------------------------------------
  // Parsing
  // ---------------------------------------------------------------------

  predicate AllDigits(p: bytes) {
    forall c :: c in p ==> IsDigit(c)
  }

  function DigitsValue(p: bytes): nat
    requires AllDigits(p)
  {
    if p == [] then 0
    else
      assert IsDigit(p[|p| - 1]);
      10 * DigitsValue(p[..|p| - 1]) + (p[|p| - 1] - ZERO) as int
  }

  predicate ValidPart(p: bytes) {
    1 <= |p| <= 3 && AllDigits(p) && DigitsValue(p) <= 255
  }

  function Octet(p: bytes): byte
    requires ValidPart(p)
  {
    DigitsValue(p)
  }

  /** The four labels in front of the suffix, if there are exactly four. */
  function ReverseParts(name: bytes): Option<seq<bytes>> {
    if !HasSuffix(name, SUFFIX) then None
    else
      var parts := Split(TrimSuffix(name, SUFFIX));
      if |parts| != 4 then None else Some(parts)
  }

  /** What `ParseReverseName` computes: the first label is the last octet. */
  function AddressOf(name: bytes): (r: Option<bytes>)
    ensures r.Some? ==> |r.value| == 4
  {
    match ReverseParts(name)
    case None => None
    case Some(parts) =>
      if forall p :: p in parts ==> ValidPart(p)
      then Some([Octet(parts[3]), Octet(parts[2]), Octet(parts[1]), Octet(parts[0])])
      else None
  }

  /** The inner loop: one label's digits, or nothing. */
  method ParsePart(p: bytes) returns (r: Option<byte>)
    ensures r == if ValidPart(p) then Some(Octet(p)) else None
  {
    if |p| == 0 || |p| > 3 {
      return None;
    }
    var n: nat := 0;
    for i := 0 to |p|
      invariant AllDigits(p[..i]) && n == DigitsValue(p[..i])
    {
      var c := p[i];
      if c < ZERO || c > 0x39 {
        assert c in p;
        return None;
      }
      assert p[..i + 1][..i] == p[..i];
      n := n * 10 + (c - ZERO);
    }
    assert p[..|p|] == p;
    if n > 255 {
      return None;
    }
    return Some(n);
  }

  method ParseReverseName(name: bytes) returns (r: Option<bytes>)
    ensures r == AddressOf(name)
  {
    if !HasSuffix(name, SUFFIX) {
      return None;
    }
    var parts := Split(TrimSuffix(name, SUFFIX));
    if |parts| != 4 {
      return None;
    }
    var ip: bytes := [0, 0, 0, 0];
    for i := 0 to 4
      invariant |ip| == 4
      invariant forall k :: 0 <= k < i ==> ValidPart(parts[k]) && ip[3 - k] == Octet(parts[k])
    {
      var octet := ParsePart(parts[i]);
      if octet.None? {
        assert parts[i] in parts;
        return None;
      }
      ip := ip[3 - i := octet.value];
    }
    assert forall p :: p in parts ==> ValidPart(p);
    assert ip == [Octet(parts[3]), Octet(parts[2]), Octet(parts[1]), Octet(parts[0])];
    return Some(ip);
  }

  // ---------------------------------------------------------------------
  // Round trips
  // ---------------------------------------------------------------------

  /** The value of one, two and three digits. */
  lemma DigitsValues(a: byte, b: byte, c: byte)
    requires IsDigit(a) && IsDigit(b) && IsDigit(c)
    ensures DigitsValue([a]) == (a - ZERO) as int
    ensures DigitsValue([a, b]) == 10 * (a - ZERO) as int + (b - ZERO) as int
    ensures DigitsValue([a, b, c]) == 100 * (a - ZERO) as int + 10 * (b - ZERO) as int + (c - ZERO) as int
  {
    assert [a][..0] == [] && [a, b][..1] == [a] && [a, b, c][..2] == [a, b];
  }

  lemma DecimalDigits(b: byte)
    ensures ValidPart(Decimal(b)) && Octet(Decimal(b)) == b && DOT !in Decimal(b)
  {
    if b < 10 {
      DigitsValues(ZERO + b, ZERO, ZERO);
    } else if b < 100 {
      DigitsValues(ZERO + b / 10, ZERO + b % 10, ZERO);
    } else {
      var hundreds, tens, units := b / 100, b / 10 % 10, b % 10;
      assert hundreds <= 9 && b == 100 * hundreds + 10 * tens + units;
      DigitsValues(ZERO + hundreds, ZERO + tens, ZERO + units);
    }
  }

  /** A label of digits without its leading zeros, the last digit always kept. */
  function StripZeros(p: bytes): bytes {
    if |p| > 1 && p[0] == ZERO then StripZeros(p[1..]) else p
  }

  lemma StripThree(a: byte, b: byte, c: byte)
    ensures StripZeros([c]) == [c]
    ensures StripZeros([b, c]) == if b == ZERO then [c] else [b, c]
    ensures StripZeros([a, b, c]) == if a != ZERO then [a, b, c] else if b == ZERO then [c] else [b, c]
  {
    assert [a, b, c][1..] == [b, c] && [b, c][1..] == [c];
  }

  /** `%d` writes no leading zeros. */
  lemma DecimalThree(a: byte, b: byte, c: byte)
    requires IsDigit(a) && IsDigit(b) && IsDigit(c)
    ensures var v := 100 * (a - ZERO) as int + 10 * (b - ZERO) as int + (c - ZERO) as int;
            v <= 255 ==>
              Decimal(v) == if a != ZERO then [a, b, c] else if b == ZERO then [c] else [b, c]
  {
    var x, y, z := (a - ZERO) as int, (b - ZERO) as int, (c - ZERO) as int;
    var v := 100 * x + 10 * y + z;
    assert v / 100 == x && v / 10 == 10 * x + y && v % 10 == z;
    assert v / 10 % 10 == y;
  }

  lemma {:induction false} PartDecimal(p: bytes)
    requires ValidPart(p)
    ensures Decimal(Octet(p)) == StripZeros(p)
  {
    assert IsDigit(p[0]);
    var a, b, c := ZERO, ZERO, p[|p| - 1];
    if |p| == 1 {
      assert p == [c];
    } else if |p| == 2 {
      b := p[0];
      assert p == [b, c];
    } else {
      a, b := p[0], p[1];
      assert p == [a, b, c];
    }
    assert IsDigit(a) && IsDigit(b) && IsDigit(c);
    DigitsValues(a, b, c);
    DigitsValues(b, c, ZERO);
    DigitsValues(c, ZERO, ZERO);
    StripThree(a, b, c);
    DecimalThree(a, b, c);
  }

  function AddressParts(ip: bytes): seq<bytes>
    requires |ip| == 4
  {
    [Decimal(ip[3]), Decimal(ip[2]), Decimal(ip[1]), Decimal(ip[0])]
  }

  lemma AddressPartsFacts(ip: bytes)
    requires |ip| == 4
    ensures NoDots(AddressParts(ip)) && ValidLabels(AddressParts(ip))
    ensures forall p :: p in AddressParts(ip) ==> ValidPart(p)
  {
    DecimalDigits(ip[3]);
    DecimalDigits(ip[2]);
    DecimalDigits(ip[1]);
    DecimalDigits(ip[0]);
  }

  lemma {:induction false} JoinFour(a: bytes, b: bytes, c: bytes, d: bytes)
    ensures Join([a, b, c, d]) == a + [DOT] + b + [DOT] + c + [DOT] + d
  {
    assert [a, b, c, d][1..] == [b, c, d] && [b, c, d][1..] == [c, d] && [c, d][1..] == [d];
    assert Join([c, d]) == c + [DOT] + d;
    assert Join([b, c, d]) == b + [DOT] + (c + [DOT] + d);
    assert Join([a, b, c, d]) == a + [DOT] + (b + [DOT] + (c + [DOT] + d));
  }

  lemma ReverseNameParts(ip: bytes)
    requires |ip| == 4
    ensures ReverseName(ip) == Join(AddressParts(ip)) + SUFFIX
    ensures ReverseParts(ReverseName(ip)) == Some(AddressParts(ip))
  {
    JoinFour(Decimal(ip[3]), Decimal(ip[2]), Decimal(ip[1]), Decimal(ip[0]));
    AddressPartsFacts(ip);
    SplitJoin(AddressParts(ip));
    TrimSuffixConcat(Join(AddressParts(ip)), SUFFIX);
  }

  /** Parsing the reverse name of an address gives the address back. */
  lemma ParseReverse(ip: bytes)
    requires |ip| == 4
    ensures AddressOf(ReverseName(ip)) == Some(ip)
  {
    ReverseNameParts(ip);
    AddressPartsFacts(ip);
    DecimalDigits(ip[3]);
    DecimalDigits(ip[2]);
    DecimalDigits(ip[1]);
    DecimalDigits(ip[0]);
    assert AddressOf(ReverseName(ip)).value == ip;
  }

  /** The reverse name of a parsed address is the name it was parsed from without leading zeros. */
  lemma ReverseParse(name: bytes)
    requires AddressOf(name).Some?
    ensures var ps := ReverseParts(name).value;
            && name == Join(ps) + SUFFIX
            && ReverseName(AddressOf(name).value)
               == Join([StripZeros(ps[0]), StripZeros(ps[1]), StripZeros(ps[2]), StripZeros(ps[3])]) + SUFFIX
  {
    var ps, ip := ReverseParts(name).value, AddressOf(name).value;
    JoinSplit(TrimSuffix(name, SUFFIX));
    assert ps[0] in ps && ps[1] in ps && ps[2] in ps && ps[3] in ps;
    PartDecimal(ps[0]);
    PartDecimal(ps[1]);
    PartDecimal(ps[2]);
    PartDecimal(ps[3]);
    ReverseNameParts(ip);
    assert AddressParts(ip) == [StripZeros(ps[0]), StripZeros(ps[1]), StripZeros(ps[2]), StripZeros(ps[3])];
  }

  /** A reverse name has at most 28 octets. */
  lemma ReverseNameLength(name: bytes)
    requires AddressOf(name).Some?
    ensures |name| <= 28
  {
    var ps := ReverseParts(name).value;
    JoinSplit(TrimSuffix(name, SUFFIX));
    assert ps[0] in ps && ps[1] in ps && ps[2] in ps && ps[3] in ps;
    assert ps == [ps[0], ps[1], ps[2], ps[3]];
    JoinFour(ps[0], ps[1], ps[2], ps[3]);
  }

  // ---------------------------------------------------------------------
  // Reverse names, octet by octet
  // ---------------------------------------------------------------------

  /** One to three decimal digits with this value. */
  ghost predicate Numeral(p: bytes, v: int) {
    && 1 <= |p| <= 3 && (forall c :: c in p ==> 0x30 <= c <= 0x39)
    && v == if |p| == 1 then p[0] as int - 0x30
            else if |p| == 2 then 10 * (p[0] as int - 0x30) + (p[1] as int - 0x30)
            else 100 * (p[0] as int - 0x30) + 10 * (p[1] as int - 0x30) + (p[2] as int - 0x30)
  }

  ghost predicate Shortest(p: bytes, v: int) {
    Numeral(p, v) && (|p| > 1 ==> p[0] != 0x30)
  }

  /** Four texts with dots between them and ".in-addr.arpa" after them. */
  ghost function Reversed(a: bytes, b: bytes, c: bytes, d: bytes): bytes {
    a + [0x2E] + b + [0x2E] + c + [0x2E] + d
    + [0x2E, 0x69, 0x6E, 0x2D, 0x61, 0x64, 0x64, 0x72, 0x2E, 0x61, 0x72, 0x70, 0x61]
  }

  /** `name` is a reverse name of `ip`: its octets as numerals, the last one first. */
  ghost predicate NamesInReverse(name: bytes, ip: bytes) {
    && |ip| == 4
    && exists a, b, c, d ::
         && Numeral(a, ip[3]) && Numeral(b, ip[2]) && Numeral(c, ip[1]) && Numeral(d, ip[0])
         && name == Reversed(a, b, c, d)
  }

  lemma NumeralIs(p: bytes, v: byte)
    ensures Numeral(p, v) <==> ValidPart(p) && Octet(p) == v
    ensures Numeral(p, v) ==> DOT !in p
  {
    if 1 <= |p| <= 3 && forall c :: c in p ==> IsDigit(c) {
      var a, b, c := p[0], p[|p| / 2], p[|p| - 1];
      assert a in p && b in p && c in p;
      assert |p| == 1 ==> p == [a];
      assert |p| == 2 ==> p == [a, c];
      assert |p| == 3 ==> p == [a, b, c];
      DigitsValues(a, b, c);
      DigitsValues(a, c, c);
    }
  }

  lemma ReversedJoin(a: bytes, b: bytes, c: bytes, d: bytes)
    ensures Reversed(a, b, c, d) == Join([a, b, c, d]) + SUFFIX
  {
    JoinFour(a, b, c, d);
    assert SUFFIX == [0x2E, 0x69, 0x6E, 0x2D, 0x61, 0x64, 0x64, 0x72, 0x2E, 0x61, 0x72, 0x70, 0x61];
  }

  lemma ReversedParts(a: bytes, b: bytes, c: bytes, d: bytes)
    requires DOT !in a && DOT !in b && DOT !in c && DOT !in d
    ensures ReverseParts(Reversed(a, b, c, d)) == Some([a, b, c, d])
  {
    ReversedJoin(a, b, c, d);
    hide Split, Join, Reversed;
    SplitJoin([a, b, c, d]);
    TrimSuffixConcat(Join([a, b, c, d]), SUFFIX);
  }

  /** `ParseReverseName` accepts exactly the reverse names, leading zeros included, and gives the address. */
  lemma AddressExact(name: bytes, ip: bytes)
    ensures AddressOf(name) == Some(ip) <==> NamesInReverse(name, ip)
  {
    hide ValidPart, Octet, Numeral;
    if AddressOf(name) == Some(ip) {
      AddressNamed(name);
    }
    if NamesInReverse(name, ip) {
      var a, b, c, d :| && Numeral(a, ip[3]) && Numeral(b, ip[2]) && Numeral(c, ip[1]) && Numeral(d, ip[0])
                        && name == Reversed(a, b, c, d);
      NumeralIs(a, ip[3]);
      NumeralIs(b, ip[2]);
      NumeralIs(c, ip[1]);
      NumeralIs(d, ip[0]);
      ReversedParts(a, b, c, d);
      hide ReverseParts, Reversed;
      assert AddressOf(name).value == ip;
    }
  }

  lemma AddressNamed(name: bytes)
    requires AddressOf(name).Some?
    ensures NamesInReverse(name, AddressOf(name).value)
  {
    hide ValidPart, Octet, Numeral, Split;
    var ps, ip := ReverseParts(name).value, AddressOf(name).value;
    JoinSplit(TrimSuffix(name, SUFFIX));
    assert ps == [ps[0], ps[1], ps[2], ps[3]];
    ReversedJoin(ps[0], ps[1], ps[2], ps[3]);
    hide Join, Reversed;
    assert name == Reversed(ps[0], ps[1], ps[2], ps[3]);
    NumeralIs(ps[0], ip[3]);
    NumeralIs(ps[1], ip[2]);
    NumeralIs(ps[2], ip[1]);
    NumeralIs(ps[3], ip[0]);
  }

  /** `ReverseName` writes the shortest numerals, and nothing for what is no IPv4 address. */
  lemma ReverseNameExact(ip: bytes)
    ensures |ip| != 4 ==> ReverseName(ip) == []
    ensures |ip| == 4 ==>
            exists a, b, c, d ::
              && Shortest(a, ip[3]) && Shortest(b, ip[2]) && Shortest(c, ip[1]) && Shortest(d, ip[0])
              && ReverseName(ip) == Reversed(a, b, c, d)
  {
    if |ip| == 4 {
      var a, b, c, d := Decimal(ip[3]), Decimal(ip[2]), Decimal(ip[1]), Decimal(ip[0]);
      ShortestNumeral(ip[3]);
      ShortestNumeral(ip[2]);
      ShortestNumeral(ip[1]);
      ShortestNumeral(ip[0]);
      hide Decimal, Shortest;
      assert ReverseName(ip) == Reversed(a, b, c, d);
    }
  }

  lemma ShortestNumeral(v: byte)
    ensures Shortest(Decimal(v), v)
  {
    DecimalDigits(v);
    NumeralIs(Decimal(v), v);
    hide Numeral, DigitsValue;
  }

  // ---------------------------------------------------------------------
  // Reverse names as queries
  // ---------------------------------------------------------------------

  lemma {:induction false} SuffixJoin(parts: seq<bytes>)
    requires parts != []
    ensures Join(parts + [IN_ADDR, ARPA]) == Join(parts) + SUFFIX
  {
    JoinConcat(parts, [IN_ADDR, ARPA]);
    assert [IN_ADDR, ARPA][1..] == [ARPA];
    assert Join([IN_ADDR, ARPA]) == IN_ADDR + [DOT] + ARPA;
    assert Join(parts) + [DOT] + (IN_ADDR + [DOT] + ARPA) == Join(parts) + SUFFIX;
  }

  /** Reverse names can be encoded, and decoding returns them unchanged. */
  lemma ReverseNameEncodes(ip: bytes)
    requires |ip| == 4
    ensures WireName(ReverseName(ip)).Ok?
    ensures Lower(TrimDot(ReverseName(ip))) == ReverseName(ip)
  {
    hide WireName, Decimal, Split, Join, Lower, AddressOf;
    var parts := AddressParts(ip);
    var labels := parts + [IN_ADDR, ARPA];
    ReverseNameParts(ip);
    AddressPartsFacts(ip);
    SuffixJoin(parts);
    assert DOT !in IN_ADDR && DOT !in ARPA;
    JoinEncodes(labels);
    JoinLength(labels);
    ParseReverse(ip);
    ReverseNameLength(ReverseName(ip));
    JoinSplit(TrimDot(ReverseName(ip)));
    ReverseNameLower(ip);
  }

  lemma ReverseNameLower(ip: bytes)
    requires |ip| == 4
    ensures Lower(ReverseName(ip)) == ReverseName(ip)
  {
    var name := ReverseName(ip);
    assert forall c :: c in SUFFIX ==> LowerByte(c) == c;
    forall i | 0 <= i < 4
      ensures forall c :: c in Decimal(ip[i]) ==> LowerByte(c) == c
    {
    }
    assert forall c :: c in name ==> LowerByte(c) == c;
  }
}
