/** Reading a host name out of an mDNS reply: `extractMDNSPtr` of internal/scanner/probe.go. */
module MdnsProbe {
  import opened Bytes
  import opened Text
  import opened NameCodec
  import opened NameTheorems
  import opened Message
  import opened ReplyRoundTrip
  import opened ReverseNames

  /** "local". */
  const LOCAL_LABEL: bytes := [0x6C, 0x6F, 0x63, 0x61, 0x6C]
  const LOCAL: bytes := [DOT] + LOCAL_LABEL
  /** Class IN with the bit that asks for a unicast reply, or that flushes caches. */
  const CLASS_IN_TOP: u16 := 0x8001

  function HostOf(target: bytes): bytes {
    TrimSuffix(TrimSuffix(target, LOCAL), [DOT])
  }

  /** The host a record names for `qname`; empty when the record is passed over. */
  function PtrHost(msg: bytes, rr: ParsedRR, qname: bytes): bytes {
    if rr.rtype != TYPE_PTR || rr.rclass % 0x8000 != CLASS_IN || rr.name != qname then []
    else
      match AsText(ReadName(msg, rr.dataStart, 0))
      case Err(_) => []
      case Ok(target) => if target.text == [] then [] else HostOf(target.text)
  }

  function FirstHost(msg: bytes, rrs: seq<ParsedRR>, qname: bytes): bytes {
    if rrs == [] then []
    else
      var host := PtrHost(msg, rrs[0], qname);
      if host != [] then host else FirstHost(msg, rrs[1..], qname)
  }

  /** What `extractMDNSPtr` computes. */
  function MdnsHost(msg: bytes, qname: bytes): bytes {
    match MessageOf(msg)
    case Err(_) => []
    case Ok(m) => if m.header.Response() then FirstHost(msg, m.records, qname) else []
  }

  method ExtractMdnsPtr(msg: bytes, qname: bytes) returns (r: bytes)
    ensures r == MdnsHost(msg, qname)
  {
    var parsed := ParseMessage(msg);
    OutcomeWhole(msg);
    if parsed.error.Some? || !parsed.header.Response() {
      return [];
    }
    var rrs := parsed.records;
    assert rrs[0..] == rrs;
    for i := 0 to |rrs|
      invariant FirstHost(msg, rrs, qname) == FirstHost(msg, rrs[i..], qname)
    {
      var rr := rrs[i];
      assert rrs[i..][0] == rr && rrs[i..][1..] == rrs[i + 1..];
      if rr.rtype != TYPE_PTR || rr.rclass % 0x8000 != CLASS_IN {
        continue;
      }
      if rr.name != qname {
        continue;
      }
      var target := DecodeName(msg, rr.dataStart, 0);
      if target.Err? || target.value.text == [] {
        continue;
      }
      var host := TrimSuffix(target.value.text, LOCAL);
      host := TrimSuffix(host, [DOT]);
      if host != [] {
        return host;
      }
    }
    return [];
  }

  /** The host is the one named by the first record that names any. */
  lemma {:induction false} FirstHostIs(msg: bytes, rrs: seq<ParsedRR>, qname: bytes, i: nat)
    requires i < |rrs| && PtrHost(msg, rrs[i], qname) != []
    requires forall k :: 0 <= k < i ==> PtrHost(msg, rrs[k], qname) == []
    ensures FirstHost(msg, rrs, qname) == PtrHost(msg, rrs[i], qname)
  {
    hide PtrHost;
    if i == 0 {
    } else {
      assert forall k :: 0 <= k < i - 1 ==> rrs[1..][k] == rrs[k + 1];
      FirstHostIs(msg, rrs[1..], qname, i - 1);
    }
  }

  /** `text` is `host` with at most one dot, and then at most one ".local", after it. */
  ghost predicate HostText(text: bytes, host: bytes) {
    exists u ::
      && (text == u + [0x2E, 0x6C, 0x6F, 0x63, 0x61, 0x6C]
          || (text == u && forall v :: text != v + [0x2E, 0x6C, 0x6F, 0x63, 0x61, 0x6C]))
      && (u == host + [0x2E] || (u == host && forall v :: u != v + [0x2E]))
  }

  lemma HostTextExact(text: bytes, host: bytes)
    ensures HostText(text, host) <==> HostOf(text) == host
  {
    assert LOCAL == [0x2E, 0x6C, 0x6F, 0x63, 0x61, 0x6C];
    TrimmedExact(text, LOCAL);
    TrimmedExact(TrimSuffix(text, LOCAL), [DOT]);
    forall u
      ensures (text == u + LOCAL || (text == u && forall v :: text != v + LOCAL)) <==> u == TrimSuffix(text, LOCAL)
    {
      if text == u + LOCAL {
        TrimSuffixConcat(u, LOCAL);
      }
    }
    var u := TrimSuffix(text, LOCAL);
    if u == host + [DOT] {
      TrimSuffixConcat(host, [DOT]);
    }
  }

  /** What trimming a suffix leaves. */
  lemma TrimmedExact(s: bytes, suffix: bytes)
    requires suffix != []
    ensures s == TrimSuffix(s, suffix) + suffix || (s == TrimSuffix(s, suffix) && forall v :: s != v + suffix)
  {
    forall v
      ensures s == v + suffix ==> HasSuffix(s, suffix)
    {
    }
    if HasSuffix(s, suffix) {
      assert s == s[..|s| - |suffix|] + s[|s| - |suffix|..];
    }
  }

  /** A record names a host exactly if it is a PTR record of class IN, with or without the cache-flush bit, for
      the name that was asked about, and its RDATA reads as the host, perhaps with ".local". */
  lemma {:induction false} PtrHostExact(msg: bytes, rr: ParsedRR, qname: bytes, host: bytes)
    requires host != []
    ensures PtrHost(msg, rr, qname) == host <==>
            && rr.rtype == 12 && (rr.rclass == 1 || rr.rclass == 0x8001) && rr.name == qname
            && AsText(ReadName(msg, rr.dataStart, 0)).Ok?
            && HostText(AsText(ReadName(msg, rr.dataStart, 0)).value.text, host)
  {
    hide ReadName, NameText, HostText, HostOf;
    if AsText(ReadName(msg, rr.dataStart, 0)).Ok? {
      HostTextExact(AsText(ReadName(msg, rr.dataStart, 0)).value.text, host);
      NoTextNoHost();
    }
  }

  lemma NoTextNoHost()
    ensures HostOf([]) == []
  {
  }

  lemma {:induction false} FirstHostExact(msg: bytes, rrs: seq<ParsedRR>, qname: bytes, host: bytes)
    requires host != []
    ensures FirstHost(msg, rrs, qname) == host <==>
            exists i :: 0 <= i < |rrs| && PtrHost(msg, rrs[i], qname) == host
                        && forall k :: 0 <= k < i ==> PtrHost(msg, rrs[k], qname) == []
  {
    hide PtrHost;
    if rrs == [] {
    } else if PtrHost(msg, rrs[0], qname) != [] {
    } else {
      var rest := rrs[1..];
      FirstHostExact(msg, rest, qname, host);
      if FirstHost(msg, rest, qname) == host {
        var i :| 0 <= i < |rest| && PtrHost(msg, rest[i], qname) == host
                 && forall k :: 0 <= k < i ==> PtrHost(msg, rest[k], qname) == [];
        assert rrs[i + 1] == rest[i] && forall k :: 0 < k < i + 1 ==> rrs[k] == rest[k - 1];
      }
      forall i | 0 <= i < |rrs| && PtrHost(msg, rrs[i], qname) == host
                 && forall k :: 0 <= k < i ==> PtrHost(msg, rrs[k], qname) == []
        ensures FirstHost(msg, rest, qname) == host
      {
        assert i > 0 && rest[i - 1] == rrs[i];
        assert forall k :: 0 <= k < i - 1 ==> rest[k] == rrs[k + 1];
      }
    }
  }

  /** A message names a host exactly if it parses, is a response, and the first of its records that names any
      names that one. */
  lemma MdnsHostExact(msg: bytes, qname: bytes, host: bytes)
    requires host != []
    ensures MdnsHost(msg, qname) == host <==>
            && MessageOf(msg).Ok?
            && var m := MessageOf(msg).value;
            && m.header.flags & 0x8000 != 0
            && exists i :: 0 <= i < |m.records| && PtrHost(msg, m.records[i], qname) == host
                           && forall k :: 0 <= k < i ==> PtrHost(msg, m.records[k], qname) == []
  {
    hide MessageOf, PtrHost;
    if MessageOf(msg).Ok? {
      FirstHostExact(msg, MessageOf(msg).value.records, qname, host);
    }
    hide FirstHost;
  }

  // ---------------------------------------------------------------------
  // Round trip
  // ---------------------------------------------------------------------

  lemma HostEnds(host: bytes)
    requires WireName(host + LOCAL).Ok?
    ensures host != [] && !HasSuffix(host, [DOT])
    ensures TrimDot(host + LOCAL) == host + LOCAL
  {
    var name := host + LOCAL;
    assert name[|name| - 1..] == [0x6C];
    assert name == host + [DOT] + LOCAL_LABEL;
    SplitConcat(host, LOCAL_LABEL);
    var last := Split(host)[|Split(host)| - 1];
    assert last in NameLabels(name) && ValidLabel(last);
    if HasSuffix(host, [DOT]) {
      SplitEndsInDot(host);
    }
  }

  /** The text of an encodable "host.local" gives the host back, in lower case. */
  lemma HostOfLocal(host: bytes)
    requires WireName(host + LOCAL).Ok?
    ensures HostOf(Lower(host + LOCAL)) == Lower(host) != []
  {
    HostEnds(host);
    LowerEnds(host);
    hide WireName, HasSuffix;
    LowerConcat(host, LOCAL);
    assert Lower(LOCAL) == LOCAL;
    TrimSuffixConcat(Lower(host), LOCAL);
    hide Lower;
  }

  lemma LowerEnds(host: bytes)
    requires host != [] && !HasSuffix(host, [DOT])
    ensures Lower(host) != [] && !HasSuffix(Lower(host), [DOT])
  {
    assert host[|host| - 1..] == [host[|host| - 1]];
    assert Lower(host)[|host| - 1..] == [LowerByte(host[|host| - 1])];
  }

  ghost predicate NamesHost(rr: ResourceRecord, host: bytes) {
    && WireName(host + LOCAL).Ok?
    && rr.name == NamePtr(HEADER_LEN) && rr.rtype == TYPE_PTR && rr.data == WireName(host + LOCAL).value
    && (rr.rclass == CLASS_IN || rr.rclass == CLASS_IN_TOP)
  }

  lemma PtrHostFound(reply: bytes, found: ParsedRR, rr: ResourceRecord, host: bytes, qname: bytes)
    requires NamesHost(rr, host) && Recovers(reply, found, rr, 0, qname)
    ensures PtrHost(reply, found, qname) == Lower(host) != []
  {
    hide ReadName, ReadPlainName, WireName, HostOf, Lower;
    DecodeEncode(host + LOCAL, reply, found.dataStart, 0);
    HostEnds(host);
    HostOfLocal(host);
  }

  lemma ReplyNamesHost(reply: bytes, h: Header, q: Question, rr: ResourceRecord, host: bytes)
    requires Carries(reply, h, q, [rr], []) && h.Response() && NamesHost(rr, host)
    ensures MdnsHost(reply, q.name) == Lower(host)
  {
    var records := MessageOf(reply).value.records;
    assert Recovers(reply, records[..1][0], rr, 0, q.name);
    PtrHostFound(reply, records[0], rr, host, q.name);
  }

  /** A responder that answers the probe for `ip` with one PTR record to "host.local", with or
      without the cache-flush bit, is understood as naming `host`, in lower case. */
  lemma ProbeRoundTrip(ip: bytes, host: bytes, rr: ResourceRecord, extra: bv16, rcode: bv16)
    requires |ip| == 4 && NamesHost(rr, host)
    ensures var query := Query(0, ReverseName(ip), TYPE_PTR, CLASS_IN_TOP, false);
            && query.Ok? && FirstQuestion(query.value).Ok?
            && var reply := Reply(query.value, FirstQuestion(query.value).value, extra, rcode, [rr], []);
            && reply.Ok? && MdnsHost(reply.value, ReverseName(ip)) == Lower(host)
  {
    ReverseNameEncodes(ip);
    QueryParses(0, ReverseName(ip), TYPE_PTR, CLASS_IN_TOP, false);
    var query := Query(0, ReverseName(ip), TYPE_PTR, CLASS_IN_TOP, false).value;
    var q := FirstQuestion(query).value;
    EncodeNameAccepts(host + LOCAL);
    ReplyParses(query, q, extra, rcode, [rr], []);
    var h := ReplyHeader(ParseHeader(query).value, extra, rcode, 1, 0);
    ReplyNamesHost(Reply(query, q, extra, rcode, [rr], []).value, h, q, rr, host);
  }
}
