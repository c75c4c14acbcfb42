/**
 What the server guarantees about raw messages: when it stays silent, how it answers for its
 zone, how large its replies are, and that reverse answers lead back to the address.
 */
module ServerTheorems {
  import opened Results
  import opened Bytes
  import opened Text
  import opened NameCodec
  import opened NameTheorems
  import opened Message
  import opened ReplyRoundTrip
  import opened ReverseNames
  import opened HostNames
  import opened Addresses
  import opened Registry
  import opened Resolution
  import opened Ordering
  import opened MessageTheorems
  import opened NameTexts
  import opened Server

  /** A configuration that passed validation (internal/config/config.go). */
  ghost predicate GoodServer(s: Server) {
    ValidName(s.domain)
  }

  // ---------------------------------------------------------------------
  // Silence
  // ---------------------------------------------------------------------

  /** `handle` drops a message exactly when it is too short for a header or is itself a response. */
  lemma SilentOnlyToResponses(s: Server, req: bytes, serial: u32, upstreams: seq<Option<bytes>>)
    ensures Response(s, req, serial, upstreams).None? <==>
            |req| < HEADER_LEN || ParseHeader(req).value.Response()
  {
    hide Local, FirstQuestion, FirstAnswer, HeaderOnly, Reply;
  }

  // ---------------------------------------------------------------------
  // The records the server writes
  // ---------------------------------------------------------------------

  /** A label of the SOA data in front of a valid zone: the size of the name, and that reading it
      gives it back. */
  lemma PrefixedZone(prefix: bytes, domain: bytes)
    requires ValidName(domain) && HostLabel(prefix) && DOT !in prefix && |prefix| <= 50
    ensures WireName(prefix + [DOT] + domain).Ok?
    ensures |WireName(prefix + [DOT] + domain).value| == |prefix| + 1 + |domain| + 2
    ensures Lower(TrimDot(prefix + [DOT] + domain)) == prefix + [DOT] + domain
  {
    var name := prefix + [DOT] + domain;
    SplitOne(prefix);
    NameUnderZone(prefix, domain);
    EncodeNameAccepts(name);
    JoinLength(NameLabels(name));
    NameLabelsText(name);
  }

  /** The two names of the SOA data. */
  lemma SoaNames(domain: bytes)
    requires ValidName(domain)
    ensures WireName(NS + domain).Ok? && |WireName(NS + domain).value| == |domain| + 5
    ensures WireName(HOSTMASTER + domain).Ok? && |WireName(HOSTMASTER + domain).value| == |domain| + 13
    ensures Lower(TrimDot(NS + domain)) == NS + domain && Lower(TrimDot(HOSTMASTER + domain)) == HOSTMASTER + domain
  {
    hide WireName, Lower, TrimDot, ValidName;
    var ns, hostmaster := NS[..2], HOSTMASTER[..10];
    assert NS + domain == ns + [DOT] + domain;
    assert HOSTMASTER + domain == hostmaster + [DOT] + domain;
    PrefixedZone(ns, domain);
    PrefixedZone(hostmaster, domain);
  }

  /** The errors `soaRecord` ignores never occur, and the record takes 3 * len(domain) + 50 octets. */
  lemma SoaRecordSize(s: Server, serial: u32)
    requires GoodServer(s)
    ensures WireName(s.domain).Ok?
    ensures SoaData(NS + s.domain, HOSTMASTER + s.domain, serial, SOA_REFRESH, SOA_RETRY, SOA_EXPIRE, s.ttl).Ok?
    ensures GoodRecord(SoaRecord(s, serial))
    ensures |RecordBytes(SoaRecord(s, serial))| == 3 * |s.domain| + 50
  {
    ValidNameEncodes(s.domain);
    SoaNames(s.domain);
    hide WireName, Put32, ValidName;
  }

  lemma OneRecord(rr: ResourceRecord)
    ensures RecordsBytes([rr]) == RecordBytes(rr)
  {
    assert RecordsBytes([]) == [] && RecordBytes(rr) + [] == RecordBytes(rr);
  }

  /** Records that are good, and fit in this many octets. */
  ghost predicate Fits(a: Answer, size: nat) {
    && GoodRecords(a.answers) && GoodRecords(a.authority)
    && |RecordsBytes(a.answers)| + |RecordsBytes(a.authority)| <= size
  }

  /** The room the records of a local answer need at most. */
  function Room(s: Server): nat {
    3 * |s.domain| + 50
  }

  lemma SoaFits(s: Server, serial: u32, rcode: bv16)
    requires GoodServer(s)
    ensures Fits(Answer(rcode, [SoaRecord(s, serial)], []), Room(s))
    ensures Fits(Answer(rcode, [], [SoaRecord(s, serial)]), Room(s))
  {
    SoaRecordSize(s, serial);
    OneRecord(SoaRecord(s, serial));
    hide SoaRecord, RecordBytes, GoodRecord, ValidName;
  }

  lemma AddressFits(s: Server, q: Question, ip: Option<Address>)
    requires AddressRecords(s, q, ip) != []
    ensures Fits(Answer(RCODE_NO_ERROR, AddressRecords(s, q, ip), []), 28)
  {
    hide WireName;
    OneRecord(AddressRecords(s, q, ip)[0]);
  }

  lemma NameFits(s: Server, q: Question, hostname: bytes, serial: u32)
    requires GoodServer(s)
    ensures Fits(AnswerName(s, q, hostname, serial), Room(s))
  {
    SoaFits(s, serial, RCODE_NO_ERROR);
    SoaFits(s, serial, RCODE_NX_DOMAIN);
    match s.resolver.resolveName(hostname)
    case None =>
    case Some(ip) =>
      if AddressRecords(s, q, ip) != [] {
        AddressFits(s, q, ip);
      }
      hide SoaRecord, AddressRecords, RecordsBytes, GoodRecords, ValidName;
  }

  lemma PtrFits(s: Server, hostname: bytes)
    ensures Fits(AnswerPtr(s, hostname), 267)
  {
    var name := hostname + [DOT] + s.domain;
    if WireName(name).Ok? {
      OneRecord(AnswerPtr(s, hostname).answers[0]);
      assert |WireName(name).value| <= MAX_TOTAL;
      hide WireName;
    }
  }

  // ---------------------------------------------------------------------
  // Size
  // ---------------------------------------------------------------------

  /** A question section takes at most 260 octets, 6 more than the text of its name unless that is the root. */
  lemma QuestionSize(req: bytes, q: Question)
    requires FirstQuestion(req) == Ok(q)
    ensures HEADER_LEN < q.end <= |req| && q.end <= HEADER_LEN + 260
    ensures q.name != [] ==> q.end == HEADER_LEN + |q.name| + 6
  {
    PlainNameSize(req, HEADER_LEN);
    JoinLength(ReadPlainName(req, HEADER_LEN).value.labels);
  }

  lemma AnswerFits(s: Server, q: Question, serial: u32)
    requires GoodServer(s) && LocalAnswer(s, q, serial).Some?
    ensures var a := LocalAnswer(s, q, serial).value;
            Fits(a, Room(s)) || (Fits(a, 267) && AddressOf(q.name).Some?)
  {
    hide Fits, SoaRecord, AnswerName, AnswerPtr, AddressOf, ValidName;
    SoaFits(s, serial, RCODE_NO_ERROR);
    if q.name == s.domain {
    } else if HasSuffix(q.name, ZoneSuffix(s)) {
      NameFits(s, q, TrimSuffix(q.name, ZoneSuffix(s)), serial);
    } else if q.qtype == TYPE_PTR {
      PtrFits(s, s.resolver.resolvePtr(V4(AddressOf(q.name).value)).value);
    } else {
      NameFits(s, q, q.name, serial);
    }
  }

  lemma LocalSize(s: Server, req: bytes, q: Question, serial: u32)
    requires GoodServer(s) && FirstQuestion(req) == Ok(q) && Local(s, req, q, serial).Some?
    ensures |Local(s, req, q, serial).value| <= 322 + 3 * |s.domain|
  {
    QuestionSize(req, q);
    AnswerFits(s, q, serial);
    if AddressOf(q.name).Some? {
      ReverseNameLength(q.name);
    }
    hide LocalAnswer, FirstQuestion, AddressOf, RecordsBytes, GoodRecords, ValidName, ReplyFlags;
  }

  // ---------------------------------------------------------------------
  // Local answers are sent
  // ---------------------------------------------------------------------

  /** A query `handle` answers itself if it is about a name it knows. */
  ghost predicate StandardQuery(req: bytes, h: Header, q: Question) {
    && ParseHeader(req) == Ok(h) && FirstQuestion(req) == Ok(q)
    && !h.Response() && h.Opcode() == 0 && h.qdCount == 1 && q.qclass == 1
  }

  /** `BuildQuery` makes such queries. */
  lemma BuiltQueryIsStandard(id: u16, name: bytes, qtype: u16, rd: bool)
    requires WireName(name).Ok?
    ensures var req := Query(id, name, qtype, 1, rd);
            req.Ok? && StandardQuery(req.value, Header(id, if rd then 0x0100 else 0, 1, 0, 0, 0),
                                     Question(Lower(TrimDot(name)), qtype, 1, |req.value|))
  {
    QueryParses(id, name, qtype, 1, rd);
    hide Query, ParseHeader, FirstQuestion, WireName;
  }

  /** `reply` echoes the question of `req` and parses to a reply with these records. */
  ghost predicate Answers(reply: bytes, req: bytes, h: Header, q: Question, a: Answer) {
    && Carries(reply, ReplyHeader(h, FLAG_AA | FLAG_RA, a.rcode, |a.answers|, |a.authority|), q, a.answers, a.authority)
    && HEADER_LEN <= q.end <= |req| && Holds(reply, HEADER_LEN, req[HEADER_LEN..q.end])
  }

  /** A local answer is always sent: building its reply cannot fail, and the reply parses to it. */
  lemma LocalAnswerSent(s: Server, req: bytes, h: Header, q: Question, serial: u32, upstreams: seq<Option<bytes>>)
    requires GoodServer(s) && StandardQuery(req, h, q) && LocalAnswer(s, q, serial).Some?
    ensures var r := Response(s, req, serial, upstreams);
            r.Some? && r == Local(s, req, q, serial) && Answers(r.value, req, h, q, LocalAnswer(s, q, serial).value)
  {
    QuestionSize(req, q);
    AnswerFits(s, q, serial);
    var a := LocalAnswer(s, q, serial).value;
    ReplyParses(req, q, FLAG_AA | FLAG_RA, a.rcode, a.answers, a.authority);
    ReplyLayout(ReplyHeader(h, FLAG_AA | FLAG_RA, a.rcode, |a.answers|, |a.authority|),
                req[HEADER_LEN..q.end], RecordsBytes(a.answers), RecordsBytes(a.authority));
    hide LocalAnswer, FirstQuestion, Carries, Holds, RecordsBytes, HeaderBytes, ReplyHeader, Fits, ValidName, Forwarded;
  }

  /** An authoritative answer to the query with header `h`: its ID, its opcode and its RD bit, QR, AA
      and RA, this rcode, and its question. */
  ghost predicate Authoritative(m: Message, h: Header, q: Question, rcode: bv16) {
    && m.header.id == h.id && m.header.flags == 0x8480 | (h.flags & 0x7900) | rcode
    && m.header.qdCount == 1 && m.header.anCount + m.header.nsCount == |m.records| && m.header.arCount == 0
    && m.questions == [q]
  }

  lemma ReplyBits(h: Header, rcode: bv16, answers: nat, authority: nat)
    requires rcode <= 0xF && answers < 0x1_0000 && authority < 0x1_0000
    ensures ReplyHeader(h, FLAG_AA | FLAG_RA, rcode, answers, authority) ==
            Header(h.id, 0x8480 | (h.flags & 0x7900) | rcode, 1, answers, authority, 0)
  {
    ReplyFlagBits(h.flags, FLAG_AA | FLAG_RA, rcode);
    hide ReplyFlags;
  }

  lemma AnswersAuthoritative(reply: bytes, req: bytes, h: Header, q: Question, a: Answer)
    requires Answers(reply, req, h, q, a) && a.rcode <= 0xF && |a.answers| < 0x1_0000 && |a.authority| < 0x1_0000
    ensures MessageOf(reply).Ok? && Authoritative(MessageOf(reply).value, h, q, a.rcode)
  {
    ReplyBits(h, a.rcode, |a.answers|, |a.authority|);
    hide MessageOf, ReplyHeader;
  }

  lemma OneRecordReads(reply: bytes, req: bytes, h: Header, q: Question, a: Answer, rr: ResourceRecord)
    requires Answers(reply, req, h, q, a) && a.answers + a.authority == [rr]
    ensures MessageOf(reply).Ok? && |MessageOf(reply).value.records| == 1
    ensures Recovers(reply, MessageOf(reply).value.records[0], rr, if a.answers == [] then 1 else 0, q.name)
  {
    hide MessageOf, Recovers, ReplyHeader;
    var records := MessageOf(reply).value.records;
    if a.answers == [] {
      assert a.authority == [rr] && records[0..][0] == records[0];
    } else {
      assert a.answers == [rr] && records[..1][0] == records[0];
    }
  }

  // ---------------------------------------------------------------------
  // The SOA record
  // ---------------------------------------------------------------------

  /** The record is the SOA record of the zone: about the domain, with the name server "ns.", the mailbox
      "hostmaster.", the serial, and the four timers. */
  ghost predicate ReadsAsSoa(s: Server, serial: u32, reply: bytes, p: ParsedRR) {
    && p.name == s.domain && p.rtype == 6 && p.rclass == 1 && p.ttl == s.ttl
    && var second := p.dataStart + |s.domain| + 5;
    var at := second + |s.domain| + 13;
    && NameReads(reply, p.dataStart, [0x6E, 0x73, 0x2E] + s.domain, second)
    && NameReads(reply, second, [0x68, 0x6F, 0x73, 0x74, 0x6D, 0x61, 0x73, 0x74, 0x65, 0x72, 0x2E] + s.domain, at)
    && at + 20 == p.End() <= |reply|
    && Get32(reply, at) == serial && Get32(reply, at + 4) == 3600 && Get32(reply, at + 8) == 600
    && Get32(reply, at + 12) == 86400 && Get32(reply, at + 16) == s.ttl
  }

  lemma SoaOwner(s: Server, serial: u32, qname: bytes)
    requires GoodServer(s)
    ensures OwnerText(SoaRecord(s, serial).name, qname) == s.domain
  {
    ValidNameEncodes(s.domain);
    ValidNameChars(s.domain);
    hide WireName, OwnerText, SoaData, ValidName;
    OwnerTextEncoded(s.domain, qname);
  }

  /** The SOA record of the zone, wherever a reader finds it, reads as one. */
  lemma SoaRecordReads(s: Server, serial: u32, reply: bytes, p: ParsedRR, section: nat, qname: bytes)
    requires GoodServer(s) && Recovers(reply, p, SoaRecord(s, serial), section, qname)
    ensures ReadsAsSoa(s, serial, reply, p)
  {
    hide WireName, SoaData, ValidName, Get32, ReadName, Lower, TrimDot, NameReads, OwnerText, Holds;
    SoaNames(s.domain);
    SoaOwner(s, serial, qname);
    SoaRecordSize(s, serial);
    SoaDataReads(reply, p.dataStart, NS + s.domain, HOSTMASTER + s.domain,
                 serial, SOA_REFRESH, SOA_RETRY, SOA_EXPIRE, s.ttl);
  }

  // ---------------------------------------------------------------------
  // Names
  // ---------------------------------------------------------------------

  /** Whether a query of this type asks for this address: ANY for all, A for IPv4, AAAA for IPv6. */
  predicate Wanted(qtype: u16, ip: Option<Address>) {
    ip.Some? && (qtype == 255 || qtype == if ip.value.V4? then 1 else 28)
  }

  /** The record is the address, when it is wanted, and otherwise the SOA record of the zone as authority. */
  ghost predicate RecordTells(s: Server, serial: u32, reply: bytes, rr: ParsedRR, q: Question,
                              known: Option<Option<Address>>)
  {
    if known.Some? && Wanted(q.qtype, known.value) then
      var ip := known.value.value;
      && rr.section == 0 && rr.name == q.name && rr.rtype == (if ip.V4? then 1 else 28)
      && rr.rclass == 1 && rr.ttl == s.ttl
      && rr.dataLen == |ip.octets| && Holds(reply, rr.dataStart, ip.octets)
    else
      rr.section == 1 && ReadsAsSoa(s, serial, reply, rr)
  }

  /** The response tells exactly what is known of a name: NXDOMAIN for an unknown one, NoError
      otherwise, with one record. */
  ghost predicate Tells(s: Server, serial: u32, response: Option<bytes>, h: Header, q: Question,
                        known: Option<Option<Address>>)
  {
    && response.Some? && MessageOf(response.value).Ok?
    && var m := MessageOf(response.value).value;
    && Authoritative(m, h, q, if known.None? then 3 else 0)
    && |m.records| == 1 && RecordTells(s, serial, response.value, m.records[0], q, known)
  }

  /** The one record an answer about a name carries. */
  ghost function OnlyRecord(s: Server, q: Question, known: Option<Option<Address>>, serial: u32): ResourceRecord {
    if known.Some? && Wanted(q.qtype, known.value)
    then AddressRecords(s, q, known.value)[0]
    else SoaRecord(s, serial)
  }

  lemma OnlyOne(s: Server, q: Question, host: bytes, serial: u32)
    ensures var a := AnswerName(s, q, host, serial);
            var known := s.resolver.resolveName(host);
            && a.answers + a.authority == [OnlyRecord(s, q, known, serial)]
            && |a.answers| <= 1 && |a.authority| <= 1
            && (a.answers == [] <==> !(known.Some? && Wanted(q.qtype, known.value)))
            && a.rcode == (if known.None? then 3 else 0) && a.rcode <= 0xF
  {
    hide SoaRecord;
  }

  lemma RecordTold(s: Server, q: Question, known: Option<Option<Address>>, serial: u32, reply: bytes, p: ParsedRR)
    requires GoodServer(s)
    requires var section := if known.Some? && Wanted(q.qtype, known.value) then 0 else 1;
             Recovers(reply, p, OnlyRecord(s, q, known, serial), section, q.name)
    ensures RecordTells(s, serial, reply, p, q, known)
  {
    if known.Some? && Wanted(q.qtype, known.value) {
      hide WireName, SoaRecord, Holds, ValidName;
    } else {
      SoaRecordReads(s, serial, reply, p, 1, q.name);
      hide SoaRecord, ReadsAsSoa, ValidName;
    }
  }

  /** Every answer about a name, for its full name or for the single label, tells what is known of it. */
  lemma NameTold(s: Server, host: bytes, req: bytes, h: Header, q: Question, serial: u32, upstreams: seq<Option<bytes>>)
    requires GoodServer(s) && StandardQuery(req, h, q)
    requires LocalAnswer(s, q, serial) == Some(AnswerName(s, q, host, serial))
    ensures Tells(s, serial, Response(s, req, serial, upstreams), h, q, s.resolver.resolveName(host))
  {
    LocalAnswerSent(s, req, h, q, serial, upstreams);
    OnlyOne(s, q, host, serial);
    hide LocalAnswer, StandardQuery, GoodServer, Response, Answers, MessageOf, Authoritative, Recovers, RecordTells,
      AnswerName, OnlyRecord, Wanted;
    var a := AnswerName(s, q, host, serial);
    var known := s.resolver.resolveName(host);
    var reply := Response(s, req, serial, upstreams).value;
    AnswersAuthoritative(reply, req, h, q, a);
    OneRecordReads(reply, req, h, q, a, OnlyRecord(s, q, known, serial));
    RecordTold(s, q, known, serial, reply, MessageOf(reply).value.records[0]);
  }

  // ---------------------------------------------------------------------
  // What is answered here
  // ---------------------------------------------------------------------

  /** At or under the zone. */
  ghost predicate InZone(s: Server, name: bytes) {
    name == s.domain || exists host :: name == host + [0x2E] + s.domain
  }

  /** The queries this server answers itself: about its zone, reverse queries for an IPv4 address it
      knows, and, if so configured, queries about a single label it knows, of any type but PTR. */
  ghost predicate Here(s: Server, q: Question) {
    || InZone(s, q.name)
    || (q.qtype == 12 && exists ip :: NamesInReverse(q.name, ip) && s.resolver.resolvePtr(V4(ip)).Some?)
    || (s.singleLabel && q.qtype != 12 && q.name != [] && 0x2E !in q.name && s.resolver.resolveName(q.name).Some?)
  }

  lemma NameInZone(s: Server, host: bytes)
    requires GoodServer(s)
    ensures var name := host + [DOT] + s.domain;
            && name != s.domain && HasSuffix(name, ZoneSuffix(s)) && TrimSuffix(name, ZoneSuffix(s)) == host
  {
    assert host + [DOT] + s.domain == host + ZoneSuffix(s);
    TrimSuffixConcat(host, ZoneSuffix(s));
  }

  lemma InZoneExact(s: Server, name: bytes)
    requires GoodServer(s)
    ensures InZone(s, name) <==> name == s.domain || HasSuffix(name, ZoneSuffix(s))
  {
    hide ValidName;
    if HasSuffix(name, ZoneSuffix(s)) {
      var host := name[..|name| - |ZoneSuffix(s)|];
      assert name == host + [0x2E] + s.domain;
    }
    forall host | name == host + [0x2E] + s.domain
      ensures HasSuffix(name, ZoneSuffix(s))
    {
      NameInZone(s, host);
    }
  }

  lemma HereExact(s: Server, q: Question, serial: u32)
    requires GoodServer(s)
    ensures LocalAnswer(s, q, serial).Some? <==> Here(s, q)
  {
    InZoneExact(s, q.name);
    SuffixStarts(q.name, SUFFIX);
    forall ip
      ensures NamesInReverse(q.name, ip) <==> AddressOf(q.name) == Some(ip)
    {
      AddressExact(q.name, ip);
    }
    hide InZone, AnswerApex, AnswerName, AnswerPtr, AddressOf, NamesInReverse, ValidName;
  }

  /** The octets come from the first upstream that answered, unchanged; if none did they are a failure. */
  ghost predicate Relayed(r: Option<bytes>, h: Header, q: Option<Question>, upstreams: seq<Option<bytes>>) {
    && (forall i :: 0 <= i < |upstreams| && upstreams[i].Some? && (forall k :: 0 <= k < i ==> upstreams[k].None?) ==>
          r == upstreams[i])
    && ((forall i :: 0 <= i < |upstreams| ==> upstreams[i].None?) ==>
          r.Some? && MessageOf(r.value).Ok? && Failure(MessageOf(r.value).value, h, q))
  }

  /** A SERVFAIL that keeps the ID, opcode and RD bit of the query with header `h`, claims no
      authority, echoes this question and has no record. */
  ghost predicate Failure(m: Message, h: Header, q: Option<Question>) {
    && m.header == Header(h.id, 0x8082 | (h.flags & 0x7900), if q.Some? then 1 else 0, 0, 0, 0)
    && m.records == [] && m.questions == (if q.Some? then [q.value] else [])
  }

  lemma {:induction false} FirstAnswerIs(upstreams: seq<Option<bytes>>)
    ensures match FirstAnswer(upstreams)
            case None => forall i :: 0 <= i < |upstreams| ==> upstreams[i].None?
            case Some(a) =>
              exists i :: 0 <= i < |upstreams| && upstreams[i] == Some(a) && forall k :: 0 <= k < i ==> upstreams[k].None?
  {
    if upstreams == [] || upstreams[0].Some? {
    } else {
      var rest := upstreams[1..];
      FirstAnswerIs(rest);
      if FirstAnswer(rest).Some? {
        var i :| 0 <= i < |rest| && rest[i] == FirstAnswer(rest) && forall k :: 0 <= k < i ==> rest[k].None?;
        assert upstreams[i + 1] == FirstAnswer(rest);
        assert forall k :: 0 < k < i + 1 ==> upstreams[k] == rest[k - 1];
      } else {
        assert forall k :: 0 < k < |upstreams| ==> upstreams[k] == rest[k - 1];
      }
    }
  }

  lemma ForwardedRelays(req: bytes, h: Header, q: Option<Question>, upstreams: seq<Option<bytes>>)
    requires ParseHeader(req) == Ok(h) && (q.Some? ==> FirstQuestion(req) == Ok(q.value))
    ensures Relayed(Forwarded(req, q, upstreams), h, q, upstreams)
  {
    FirstAnswerIs(upstreams);
    AllFailedParses(req, h, q);
    hide FirstAnswer, AllFailed, MessageOf, Failure, FirstQuestion, ParseHeader;
  }

  lemma AllFailedParses(req: bytes, h: Header, q: Option<Question>)
    requires ParseHeader(req) == Ok(h) && (q.Some? ==> FirstQuestion(req) == Ok(q.value))
    ensures var r := AllFailed(req, q);
            r.Some? && MessageOf(r.value).Ok? && Failure(MessageOf(r.value).value, h, q)
  {
    hide MessageOf, HeaderOnly, FirstQuestion, Reply, ReplyFlags;
    match q
    case None => HeaderOnlyParses(h, RCODE_SERV_FAIL);
    case Some(question) =>
      ReplyParses(req, question, FLAG_RA, RCODE_SERV_FAIL, [], []);
      ReplyFlagBits(h.flags, FLAG_RA, RCODE_SERV_FAIL);
  }

  /** A standard query is answered here, authoritatively and whatever the upstreams would say, if and only
      if it is one of the three kinds this server knows; any other is relayed, dotted names, the root and
      reverse queries for unknown addresses included. */
  lemma AnsweredHere(s: Server, req: bytes, h: Header, q: Question, serial: u32, upstreams: seq<Option<bytes>>)
    requires GoodServer(s) && StandardQuery(req, h, q)
    ensures var r := Response(s, req, serial, upstreams);
            if Here(s, q) then
              && (forall others :: Response(s, req, serial, others) == r)
              && r.Some? && MessageOf(r.value).Ok?
              && var m := MessageOf(r.value).value;
              m.header.id == h.id && m.header.flags & 0x8400 == 0x8400 && m.questions == [q]
            else Relayed(r, h, Some(q), upstreams)
  {
    HereExact(s, q, serial);
    if Here(s, q) {
      SentAnyway(s, req, h, q, serial, upstreams);
    } else {
      ForwardedRelays(req, h, Some(q), upstreams);
    }
    hide Here, LocalAnswer, MessageOf, Forwarded, FirstQuestion, ParseHeader, Relayed, GoodServer;
  }

  lemma SentAnyway(s: Server, req: bytes, h: Header, q: Question, serial: u32, upstreams: seq<Option<bytes>>)
    requires GoodServer(s) && StandardQuery(req, h, q) && LocalAnswer(s, q, serial).Some?
    ensures var r := Response(s, req, serial, upstreams);
            && (forall others :: Response(s, req, serial, others) == r)
            && r.Some? && MessageOf(r.value).Ok?
            && var m := MessageOf(r.value).value;
            m.header.id == h.id && m.header.flags & 0x8400 == 0x8400 && m.questions == [q]
  {
    hide LocalAnswer, MessageOf, Response, GoodServer, StandardQuery;
    forall others
      ensures Response(s, req, serial, others) == Response(s, req, serial, upstreams)
    {
      LocalAnswerSent(s, req, h, q, serial, others);
      LocalAnswerSent(s, req, h, q, serial, upstreams);
    }
    LocalAnswerSent(s, req, h, q, serial, upstreams);
    var a := LocalAnswer(s, q, serial).value;
    ReplyFlagBits(h.flags, FLAG_AA | FLAG_RA, a.rcode);
    hide ReplyFlags;
  }

  /** The question `handle` hands on with a query it relays, if it read one. */
  ghost function AskedOf(req: bytes, h: Header): Option<Question> {
    if h.Opcode() == 0 && h.qdCount == 1 && FirstQuestion(req).Ok? then Some(FirstQuestion(req).value) else None
  }

  /** A query this server does not answer itself. */
  ghost predicate Elsewhere(s: Server, req: bytes, h: Header) {
    && ParseHeader(req) == Ok(h) && !h.Response()
    && (h.Opcode() != 0 || h.qdCount != 1
        || (FirstQuestion(req).Ok? && var q := FirstQuestion(req).value; q.qclass != 1 || !Here(s, q)))
  }

  /** Every other readable query is relayed: other opcodes, other numbers of questions, other classes, and
      names not known here. */
  lemma OthersAreForwarded(s: Server, req: bytes, h: Header, serial: u32, upstreams: seq<Option<bytes>>)
    requires GoodServer(s) && Elsewhere(s, req, h)
    ensures Relayed(Response(s, req, serial, upstreams), h, AskedOf(req, h), upstreams)
  {
    ForwardedRelays(req, h, AskedOf(req, h), upstreams);
    if FirstQuestion(req).Ok? {
      HereExact(s, FirstQuestion(req).value, serial);
    }
    hide LocalAnswer, Here, Relayed, FirstQuestion, ParseHeader, Forwarded, GoodServer, HeaderOnly;
  }

  /** A single question that cannot be read is refused with FORMERR. */
  lemma UnreadableQuestionRefused(s: Server, req: bytes, h: Header, serial: u32, upstreams: seq<Option<bytes>>)
    requires ParseHeader(req) == Ok(h) && !h.Response() && h.Opcode() == 0 && h.qdCount == 1 && FirstQuestion(req).Err?
    ensures var r := Response(s, req, serial, upstreams);
            && r.Some? && MessageOf(r.value).Ok?
            && MessageOf(r.value).value == Message(Header(h.id, 0x8081 | (h.flags & 0x7900), 0, 0, 0, 0), [], [])
  {
    HeaderOnlyParses(h, RCODE_FORM_ERR);
    hide MessageOf, HeaderOnly, FirstQuestion;
  }

  /** Every reply sent from here has at most 322 + 3 * len(domain) octets, so for domains of at most
      63 octets it keeps the 512-octet limit of section 4.2.1 of RFC 1035. */
  lemma LocalReplySize(s: Server, req: bytes, h: Header, q: Question, serial: u32, upstreams: seq<Option<bytes>>)
    requires GoodServer(s) && StandardQuery(req, h, q) && Here(s, q)
    ensures Response(s, req, serial, upstreams).Some?
    ensures |Response(s, req, serial, upstreams).value| <= 322 + 3 * |s.domain|
    ensures |s.domain| <= 63 ==> |Response(s, req, serial, upstreams).value| <= 512
  {
    HereExact(s, q, serial);
    hide Here, LocalAnswer, Response, Local, GoodServer;
    LocalAnswerSent(s, req, h, q, serial, upstreams);
    LocalSize(s, req, q, serial);
  }

  // ---------------------------------------------------------------------
  // The zone and single labels
  // ---------------------------------------------------------------------

  /** A query about the zone itself: NoError with its SOA record, as answer if SOA or ANY is asked for. */
  ghost predicate ApexTells(s: Server, serial: u32, response: Option<bytes>, h: Header, q: Question) {
    && response.Some? && MessageOf(response.value).Ok?
    && var m := MessageOf(response.value).value;
    && Authoritative(m, h, q, 0) && |m.records| == 1
    && m.records[0].section == (if q.qtype == 6 || q.qtype == 255 then 0 else 1)
    && ReadsAsSoa(s, serial, response.value, m.records[0])
  }

  lemma ApexTold(s: Server, req: bytes, h: Header, q: Question, serial: u32, upstreams: seq<Option<bytes>>)
    requires GoodServer(s) && StandardQuery(req, h, q) && q.name == s.domain
    ensures ApexTells(s, serial, Response(s, req, serial, upstreams), h, q)
  {
    LocalAnswerSent(s, req, h, q, serial, upstreams);
    var a := AnswerApex(s, q, serial);
    assert LocalAnswer(s, q, serial) == Some(a);
    assert a.answers + a.authority == [SoaRecord(s, serial)];
    hide LocalAnswer, StandardQuery, GoodServer, Response, Answers, MessageOf, Authoritative, SoaRecord, ReadsAsSoa;
    var reply := Response(s, req, serial, upstreams).value;
    AnswersAuthoritative(reply, req, h, q, a);
    OneRecordReads(reply, req, h, q, a, SoaRecord(s, serial));
    SoaRecordReads(s, serial, reply, MessageOf(reply).value.records[0], if a.answers == [] then 1 else 0, q.name);
  }

  /** Every standard query at or under the zone is answered here, whatever the upstreams would say: at
      the zone with its SOA record, and under it with what is known of the host, so with NXDOMAIN exactly
      when it is unmapped. */
  lemma ZoneIsAnsweredHere(s: Server, req: bytes, h: Header, q: Question, serial: u32, upstreams: seq<Option<bytes>>)
    requires GoodServer(s) && StandardQuery(req, h, q)
    ensures q.name == s.domain ==> ApexTells(s, serial, Response(s, req, serial, upstreams), h, q)
    ensures forall host :: q.name == host + [0x2E] + s.domain ==>
              Tells(s, serial, Response(s, req, serial, upstreams), h, q, s.resolver.resolveName(host))
  {
    if q.name == s.domain {
      ApexTold(s, req, h, q, serial, upstreams);
    }
    hide ApexTells, Tells, Response, StandardQuery, ValidName, AnswerName;
    forall host | q.name == host + [0x2E] + s.domain
      ensures Tells(s, serial, Response(s, req, serial, upstreams), h, q, s.resolver.resolveName(host))
    {
      NameInZone(s, host);
      NameTold(s, host, req, h, q, serial, upstreams);
    }
  }

  /** A query for a single label is answered here exactly when that is configured and the label is
      mapped, so never with NXDOMAIN; a PTR query for a single label never is. */
  lemma SingleLabelTold(s: Server, req: bytes, h: Header, q: Question, serial: u32, upstreams: seq<Option<bytes>>)
    requires GoodServer(s) && StandardQuery(req, h, q)
    requires q.name != [] && 0x2E !in q.name && q.name != s.domain
    ensures var known := s.resolver.resolveName(q.name);
            if s.singleLabel && known.Some? && q.qtype != 12
            then Tells(s, serial, Response(s, req, serial, upstreams), h, q, known)
            else Relayed(Response(s, req, serial, upstreams), h, Some(q), upstreams)
  {
    SuffixStarts(q.name, ZoneSuffix(s));
    SuffixStarts(q.name, SUFFIX);
    hide Tells, Relayed, Response, AnswerName, ValidName, StandardQuery;
    if s.singleLabel && s.resolver.resolveName(q.name).Some? && q.qtype != 12 {
      NameTold(s, q.name, req, h, q, serial, upstreams);
    } else {
      HereExact(s, q, serial);
      hide Here;
      AnsweredHere(s, req, h, q, serial, upstreams);
    }
  }

  // ---------------------------------------------------------------------
  // The case of letters
  // ---------------------------------------------------------------------

  /** Two requests whose question names differ at most in the case of letters get the same octets as a local
      reply, but for the question each gets echoed as it was sent. */
  lemma CaseDoesNotMatter(s: Server, req: bytes, other: bytes, h: Header, q: Question, serial: u32,
                          upstreams: seq<Option<bytes>>)
    requires GoodServer(s) && StandardQuery(req, h, q) && Here(s, q) && |other| == |req|
    requires forall i :: 0 <= i < |req| ==> other[i] == req[i] || (12 <= i < q.end - 4 && CaseOnly(req[i], other[i]))
    ensures StandardQuery(other, h, q) && q.end <= |req|
    ensures var r, r' := Response(s, req, serial, upstreams), Response(s, other, serial, upstreams);
            && r.Some? && r'.Some? && |r.value| >= q.end
            && r'.value == r.value[..12] + other[12..q.end] + r.value[q.end..]
  {
    CaseIsIgnored(req, other, q);
    HereExact(s, q, serial);
    hide Here, LocalAnswer, FirstQuestion, ParseHeader, CaseOnly;
    QuestionSize(req, q);
    LocalAnswerSent(s, req, h, q, serial, upstreams);
    LocalAnswerSent(s, other, h, q, serial, upstreams);
    hide Response, Answers;
    EchoDiffers(s, req, other, q, LocalAnswer(s, q, serial).value);
  }

  lemma EchoDiffers(s: Server, req: bytes, other: bytes, q: Question, a: Answer)
    requires 12 <= q.end <= |req| == |other| && ParseHeader(other) == ParseHeader(req)
    requires Reply(req, q, FLAG_AA | FLAG_RA, a.rcode, a.answers, a.authority).Ok?
    ensures var r := Reply(req, q, FLAG_AA | FLAG_RA, a.rcode, a.answers, a.authority);
            var r' := Reply(other, q, FLAG_AA | FLAG_RA, a.rcode, a.answers, a.authority);
            r'.Ok? && |r.value| >= q.end && r'.value == r.value[..12] + other[12..q.end] + r.value[q.end..]
  {
    hide ParseHeader, HeaderBytes, ReplyHeader, RecordsBytes;
  }

  // ---------------------------------------------------------------------
  // Reverse answers lead back
  // ---------------------------------------------------------------------

  /** The server resolves from this registry. */
  ghost predicate Backed(s: Server, t: IPText, r: Registry) {
    && (forall n :: s.resolver.resolveName(n) == ResolveName(t, r, n))
    && (forall a :: s.resolver.resolvePtr(a) == ResolvePtr(t, r, a))
  }

  /** Every query for the full name of a host is told what the registry knows of the host. */
  lemma HostTold(s: Server, t: IPText, r: Registry, host: bytes,
                 req: bytes, h: Header, q: Question, serial: u32, upstreams: seq<Option<bytes>>)
    requires GoodServer(s) && Backed(s, t, r) && StandardQuery(req, h, q) && q.name == host + [0x2E] + s.domain
    ensures Tells(s, serial, Response(s, req, serial, upstreams), h, q, ResolveName(t, r, host))
  {
    hide Tells, Response, StandardQuery, ValidName;
    ZoneIsAnsweredHere(s, req, h, q, serial, upstreams);
  }

  /** The response names `host` for the reverse query: one PTR record whose RDATA is the full name, or
      SERVFAIL without a record if that does not fit 253 octets. */
  ghost predicate NamesHost(s: Server, response: Option<bytes>, h: Header, q: Question, host: bytes) {
    && response.Some? && MessageOf(response.value).Ok?
    && var m := MessageOf(response.value).value;
    if |host| + 1 + |s.domain| > 253 then Authoritative(m, h, q, 2) && m.records == []
    else
      && Authoritative(m, h, q, 0) && |m.records| == 1
      && var rr := m.records[0];
      && rr.section == 0 && rr.name == q.name && rr.rtype == 12 && rr.rclass == 1 && rr.ttl == s.ttl
      && NameReads(response.value, rr.dataStart, host + [0x2E] + s.domain, rr.End())
  }

  /** What `answerPTR` makes of a host name. */
  lemma PtrAnswer(s: Server, host: bytes)
    requires GoodServer(s) && ValidName(host)
    ensures var name := host + [DOT] + s.domain;
            && (WireName(name).Ok? <==> |name| <= 253) && Lower(TrimDot(name)) == name
            && AnswerPtr(s, host) ==
               if |name| > 253 then Answer(2, [], [])
               else Answer(0, [ResourceRecord(NamePtr(HEADER_LEN), 12, 1, s.ttl, WireName(name).value)], [])
  {
    NameUnderZone(host, s.domain);
    hide WireName, ValidName;
  }

  /** The RDATA of the PTR record reads as the full name. */
  lemma PtrRecordReads(reply: bytes, rr: ParsedRR, s: Server, host: bytes, qname: bytes)
    requires GoodServer(s) && ValidName(host) && |host| + 1 + |s.domain| <= 253
    requires AnswerPtr(s, host).answers != [] && Recovers(reply, rr, AnswerPtr(s, host).answers[0], 0, qname)
    ensures rr.section == 0 && rr.name == qname && rr.rtype == 12 && rr.rclass == 1 && rr.ttl == s.ttl
    ensures NameReads(reply, rr.dataStart, host + [0x2E] + s.domain, rr.End())
  {
    var name := host + [DOT] + s.domain;
    PtrAnswer(s, host);
    hide AnswerPtr, WireName, ReadName, ReadPlainName, ValidName, Lower, TrimDot;
    DecodeEncode(name, reply, rr.dataStart, 0);
  }

  lemma PtrTold(s: Server, host: bytes, req: bytes, h: Header, q: Question, serial: u32, upstreams: seq<Option<bytes>>)
    requires GoodServer(s) && StandardQuery(req, h, q) && ValidName(host)
    requires LocalAnswer(s, q, serial) == Some(AnswerPtr(s, host))
    ensures NamesHost(s, Response(s, req, serial, upstreams), h, q, host)
  {
    LocalAnswerSent(s, req, h, q, serial, upstreams);
    PtrAnswer(s, host);
    hide LocalAnswer, StandardQuery, Response, MessageOf, Authoritative, Recovers, AnswerPtr, WireName, ValidName,
      NameReads, ReplyHeader;
    var a := AnswerPtr(s, host);
    var reply := Response(s, req, serial, upstreams).value;
    AnswersAuthoritative(reply, req, h, q, a);
    if |host| + 1 + |s.domain| <= 253 {
      OneRecordReads(reply, req, h, q, a, a.answers[0]);
      PtrRecordReads(reply, MessageOf(reply).value.records[0], s, host, q.name);
    }
  }

  lemma ReverseAnswer(s: Server, t: IPText, r: Registry, ip: bytes, q: Question, serial: u32) returns (host: bytes)
    requires GoodServer(s) && Keyed(r) && Backed(s, t, r) && NamesInReverse(q.name, ip)
    requires q.qtype == 12 && !InZone(s, q.name) && exists n :: ResolvesTo(t, r, n, V4(ip))
    ensures ResolvesTo(t, r, host, V4(ip)) && forall n :: ResolvesTo(t, r, n, V4(ip)) && n != host ==> Lt(host, n)
    ensures ValidName(host) && LocalAnswer(s, q, serial) == Some(AnswerPtr(s, host))
  {
    ResolvePtrIsLeast(t, r, V4(ip));
    AddressExact(q.name, ip);
    InZoneExact(s, q.name);
    hide AddressOf, NamesInReverse, ResolvePtr, AnswerPtr, InZone, ValidName;
    host := ResolvePtr(t, r, V4(ip)).value;
    assert GoodMapping(host, r.mappings[host]);
  }

  /** Reverse answers lead back to the address. Take any reverse query outside the zone for an address
      that some mapping has now. It is answered with the least name that has it (or SERVFAIL, exactly if
      the full name exceeds 253 octets), and every A query for the name it reads as is answered with
      that address as the only record. */
  lemma ReverseLeadsBack(s: Server, t: IPText, r: Registry, ip: bytes,
                         req: bytes, h: Header, q: Question, serial: u32, upstreams: seq<Option<bytes>>)
    returns (host: bytes)
    requires GoodServer(s) && Keyed(r) && Backed(s, t, r)
    requires StandardQuery(req, h, q) && NamesInReverse(q.name, ip) && q.qtype == 12 && !InZone(s, q.name)
    requires exists n :: ResolvesTo(t, r, n, V4(ip))
    ensures ResolvesTo(t, r, host, V4(ip)) && forall n :: ResolvesTo(t, r, n, V4(ip)) && n != host ==> Lt(host, n)
    ensures NamesHost(s, Response(s, req, serial, upstreams), h, q, host)
    ensures forall req2, h2, q2 ::
              StandardQuery(req2, h2, q2) && q2.qtype == 1 && q2.name == host + [0x2E] + s.domain ==>
                Tells(s, serial, Response(s, req2, serial, upstreams), h2, q2, Some(Some(V4(ip))))
  {
    host := ReverseAnswer(s, t, r, ip, q, serial);
    PtrTold(s, host, req, h, q, serial, upstreams);
    hide MessageOf, LocalAnswer, Response, ValidName, Keyed, Backed, StandardQuery, NamesHost, NamesInReverse, Tells;
    forall req2, h2, q2 | StandardQuery(req2, h2, q2) && q2.qtype == 1 && q2.name == host + [0x2E] + s.domain
      ensures Tells(s, serial, Response(s, req2, serial, upstreams), h2, q2, Some(Some(V4(ip))))
    {
      HostTold(s, t, r, host, req2, h2, q2, serial, upstreams);
    }
  }
}
