/**
 `ParseMessage` undoes `BuildReply`: the header, the question and every record come back,
 with owners that point at the question name read through the pointer.
 */
module ReplyRoundTrip {
  import opened Results
  import opened Bytes
  import opened Text
  import opened NameCodec
  import opened NameTheorems
  import opened Message
  import opened MessageTheorems

  /** Owners the program writes: a pointer to the question name, or an encoded name. */
  ghost predicate GoodOwner(owner: bytes) {
    owner == NamePtr(HEADER_LEN) || exists n :: WireName(n) == Ok(owner)
  }

  ghost predicate GoodRecord(rr: ResourceRecord) {
    GoodOwner(rr.name) && |rr.data| < 0x1_0000
  }

  ghost predicate GoodRecords(rrs: seq<ResourceRecord>) {
    |rrs| < 0x1_0000 && forall rr :: rr in rrs ==> GoodRecord(rr)
  }

  /** The name a reader sees for an owner when the question is about `qname`. */
  function OwnerText(owner: bytes, qname: bytes): bytes {
    if owner == NamePtr(HEADER_LEN) then qname
    else
      match AsText(ReadPlainName(owner, 0))
      case Ok(t) => t.text
      case Err(_) => []
  }

  /** Encoded owners come back as their lower-case text. */
  lemma OwnerTextEncoded(name: bytes, qname: bytes)
    requires WireName(name).Ok?
    ensures OwnerText(WireName(name).value, qname) == Lower(TrimDot(name))
    ensures WireName(name).value != NamePtr(HEADER_LEN)
  {
    var wire := WireName(name).value;
    DecodeEncode(name, wire, 0, 0);
    var labels := NameLabels(name);
    if labels != [] {
      assert ValidLabel(labels[0]) && wire[0] == |labels[0]|;
    }
  }

  /** The question name that pointers of `msg` lead to. */
  ghost predicate AsksFor(msg: bytes, qname: bytes) {
    && AsText(ReadPlainName(msg, HEADER_LEN)).Ok?
    && AsText(ReadPlainName(msg, HEADER_LEN)).value.text == qname
  }

  /** Both kinds of owner are read by `decodeName`; a pointer through the question name. */
  lemma {:induction false} OwnerReads(msg: bytes, off: nat, owner: bytes, qname: bytes)
    requires AsksFor(msg, qname) && GoodOwner(owner) && Holds(msg, off, owner)
    ensures AsText(ReadName(msg, off, 0)) == Ok(TextAt(OwnerText(owner, qname), off + |owner|))
  {
    hide ReadName, ReadPlainName, WireName, NamePtr;
    if owner == NamePtr(HEADER_LEN) {
      PointerReads(msg, off, qname);
    } else {
      var n :| WireName(n) == Ok(owner);
      EncodedReads(msg, off, n, qname);
    }
  }

  lemma {:induction false} EncodedReads(msg: bytes, off: nat, name: bytes, qname: bytes)
    requires WireName(name).Ok? && Holds(msg, off, WireName(name).value)
    ensures var owner := WireName(name).value;
            AsText(ReadName(msg, off, 0)) == Ok(TextAt(OwnerText(owner, qname), off + |owner|))
  {
    DecodeEncode(name, msg, off, 0);
    OwnerTextEncoded(name, qname);
  }

  lemma {:induction false} PointerReads(msg: bytes, off: nat, qname: bytes)
    requires AsksFor(msg, qname) && Holds(msg, off, NamePtr(HEADER_LEN))
    ensures AsText(ReadName(msg, off, 0)) == Ok(TextAt(qname, off + |NamePtr(HEADER_LEN)|))
  {
    assert msg[off] == NamePtr(HEADER_LEN)[0] == POINTER_BITS && msg[off + 1] == NamePtr(HEADER_LEN)[1] == 12;
    assert ReadSegment(msg, off, 0) == Ok(Segment([], off));
    PlainNameAgrees(msg, HEADER_LEN, 1);
    var labels := ReadPlainName(msg, HEADER_LEN).value.labels;
    assert [] + labels == labels;
  }

  // ---------------------------------------------------------------------
  // Records
  // ---------------------------------------------------------------------

  /** `p` is what a reader of `msg` must find for `rr`. */
  ghost predicate Recovers(msg: bytes, p: ParsedRR, rr: ResourceRecord, section: nat, qname: bytes) {
    && p.name == OwnerText(rr.name, qname)
    && p.rtype == rr.rtype && p.rclass == rr.rclass && p.ttl == rr.ttl && p.section == section
    && p.dataLen == |rr.data| && Holds(msg, p.dataStart, rr.data)
  }

  lemma FixedReads(msg: bytes, off: nat, rr: ResourceRecord)
    requires Holds(msg, off, FixedBytes(rr)) && |rr.data| < 0x1_0000
    ensures Get16(msg, off) == rr.rtype && Get16(msg, off + 2) == rr.rclass
    ensures Get32(msg, off + 4) == rr.ttl && Get16(msg, off + 8) == |rr.data|
  {
    HoldsConcat(msg, off, Put16(rr.rtype) + Put16(rr.rclass) + Put32(rr.ttl), Put16(|rr.data| % 0x1_0000));
    HoldsConcat(msg, off, Put16(rr.rtype) + Put16(rr.rclass), Put32(rr.ttl));
    HoldsConcat(msg, off, Put16(rr.rtype), Put16(rr.rclass));
    Get16Holds(msg, off, rr.rtype);
    Get16Holds(msg, off + 2, rr.rclass);
    Get32Holds(msg, off + 4, rr.ttl);
    Get16Holds(msg, off + 8, |rr.data| % 0x1_0000);
  }

  /** The fixed fields and the RDATA, read after an owner that ended at `at.next`. */
  lemma RestOfRecordReads(msg: bytes, at: TextAt, rr: ResourceRecord, section: nat, qname: bytes)
    requires |rr.data| < 0x1_0000 && at.text == OwnerText(rr.name, qname)
    requires Holds(msg, at.next, FixedBytes(rr)) && Holds(msg, at.next + 10, rr.data)
    ensures var r := RecordAfter(msg, at, section);
            r.Ok? && Recovers(msg, r.value, rr, section, qname) && r.value.End() == at.next + 10 + |rr.data|
  {
    FixedReads(msg, at.next, rr);
  }

  lemma RecordReads(msg: bytes, off: nat, rr: ResourceRecord, section: nat, qname: bytes)
    requires AsksFor(msg, qname) && GoodRecord(rr) && Holds(msg, off, RecordBytes(rr))
    ensures var r := RecordAt(msg, off, section);
            r.Ok? && Recovers(msg, r.value, rr, section, qname) && r.value.End() == off + |RecordBytes(rr)|
  {
    HoldsConcat(msg, off, rr.name + FixedBytes(rr), rr.data);
    HoldsConcat(msg, off, rr.name, FixedBytes(rr));
    OwnerReads(msg, off, rr.name, qname);
    RestOfRecordReads(msg, TextAt(OwnerText(rr.name, qname), off + |rr.name|), rr, section, qname);
  }

  /** `items` are what a reader of `msg` must find for `rrs`. */
  ghost predicate RecoversAll(msg: bytes, items: seq<ParsedRR>, rrs: seq<ResourceRecord>, section: nat, qname: bytes) {
    |items| == |rrs| && forall i :: 0 <= i < |rrs| ==> Recovers(msg, items[i], rrs[i], section, qname)
  }

  lemma RecoversCons(msg: bytes, items: seq<ParsedRR>, rrs: seq<ResourceRecord>, section: nat, qname: bytes)
    requires items != [] && rrs != [] && Recovers(msg, items[0], rrs[0], section, qname)
    requires RecoversAll(msg, items[1..], rrs[1..], section, qname)
    ensures RecoversAll(msg, items, rrs, section, qname)
  {
    forall i | 0 <= i < |rrs|
      ensures Recovers(msg, items[i], rrs[i], section, qname)
    {
      if i > 0 {
        assert items[i] == items[1..][i - 1] && rrs[i] == rrs[1..][i - 1];
      }
    }
  }

  lemma {:induction false} RecordsCons(msg: bytes, off: nat, count: nat, section: nat, rr: ParsedRR, rest: Parsed<ParsedRR>)
    requires RecordAt(msg, off, section) == Ok(rr) && Records(msg, rr.End(), count, section) == Ok(rest)
    ensures Records(msg, off, count + 1, section) == Ok(Parsed([rr] + rest.items, rest.next))
  {
  }

  lemma {:induction false} RecordsRead(msg: bytes, off: nat, rrs: seq<ResourceRecord>, section: nat, qname: bytes)
    returns (p: Parsed<ParsedRR>)
    requires AsksFor(msg, qname) && Holds(msg, off, RecordsBytes(rrs))
    requires forall rr :: rr in rrs ==> GoodRecord(rr)
    ensures Records(msg, off, |rrs|, section) == Ok(p)
    ensures p.next == off + |RecordsBytes(rrs)| && RecoversAll(msg, p.items, rrs, section, qname)
    decreases |rrs|
  {
    hide AsksFor, RecordAt, RecordBytes, GoodRecord, Recovers;
    if rrs == [] {
      p := Parsed([], off);
    } else {
      HoldsConcat(msg, off, RecordBytes(rrs[0]), RecordsBytes(rrs[1..]));
      RecordReads(msg, off, rrs[0], section, qname);
      var first := RecordAt(msg, off, section).value;
      var rest := RecordsRead(msg, first.End(), rrs[1..], section, qname);
      RecordsCons(msg, off, |rrs| - 1, section, first, rest);
      p := Parsed([first] + rest.items, rest.next);
      assert p.items[1..] == rest.items;
      RecoversCons(msg, p.items, rrs, section, qname);
    }
  }

  // ---------------------------------------------------------------------
  // The theorem
  // ---------------------------------------------------------------------

  /** The reply echoes the question, so its name is read there as in the request. */
  lemma EchoReads(req: bytes, q: Question, reply: bytes)
    requires FirstQuestion(req) == Ok(q)
    requires Holds(reply, HEADER_LEN, req[HEADER_LEN..q.end])
    ensures ReadPlainName(reply, HEADER_LEN) == ReadPlainName(req, HEADER_LEN)
    ensures QuestionAt(reply, HEADER_LEN) == Ok(q)
    ensures AsText(ReadPlainName(reply, HEADER_LEN)) == Ok(TextAt(q.name, q.end - 4))
  {
    var next := q.end - 4;
    forall i | HEADER_LEN <= i < q.end
      ensures reply[i] == req[i]
    {
      assert reply[HEADER_LEN..q.end][i - HEADER_LEN] == req[HEADER_LEN..q.end][i - HEADER_LEN];
    }
    SegmentLocal(req, reply, HEADER_LEN);
    PlainNameAgrees(reply, HEADER_LEN, 0);
  }

  /** The parts of a reply, by offset. */
  lemma ReplyLayout(h: Header, echo: bytes, an: bytes, ns: bytes)
    ensures var reply := HeaderBytes(h) + echo + an + ns;
            && ParseHeader(reply) == Ok(h)
            && Holds(reply, HEADER_LEN, echo)
            && Holds(reply, HEADER_LEN + |echo|, an)
            && Holds(reply, HEADER_LEN + |echo| + |an|, ns)
  {
    var head := HeaderBytes(h);
    HoldsParts(head, echo, an, ns);
    assert head + echo + an + ns == head + (echo + an + ns);
    ParseHeaderBytes(h, echo + an + ns);
  }

  lemma {:induction false} SectionsCons(msg: bytes, off: nat, count: nat, counts: seq<nat>, section: nat,
                     here: Parsed<ParsedRR>, rest: Parsed<ParsedRR>)
    requires Records(msg, off, count, section) == Ok(here)
    requires Sections(msg, here.next, counts, section + 1) == Ok(rest)
    ensures Sections(msg, off, [count] + counts, section) == Ok(Parsed(here.items + rest.items, rest.next))
  {
    assert ([count] + counts)[1..] == counts;
  }

  lemma {:induction false} LastSections(msg: bytes, off: nat, nsCount: nat, ns: Parsed<ParsedRR>)
    requires Records(msg, off, nsCount, 1) == Ok(ns)
    ensures Sections(msg, off, [nsCount, 0], 1) == Ok(ns)
  {
    var none := Parsed([], ns.next);
    assert Records(msg, ns.next, 0, 2) == Ok(none) && Sections(msg, ns.next, [], 3) == Ok(none);
    hide Records, Sections;
    SectionsCons(msg, ns.next, 0, [], 2, none, none);
    assert [0] + [] == [0] && none.items + none.items == none.items;
    SectionsCons(msg, off, nsCount, [0], 1, ns, none);
    assert [nsCount] + [0] == [nsCount, 0] && ns.items + [] == ns.items;
  }

  lemma {:induction false} SectionsOfTwo(msg: bytes, off: nat, anCount: nat, nsCount: nat, an: Parsed<ParsedRR>, ns: Parsed<ParsedRR>)
    requires Records(msg, off, anCount, 0) == Ok(an) && Records(msg, an.next, nsCount, 1) == Ok(ns)
    ensures Sections(msg, off, [anCount, nsCount, 0], 0) == Ok(Parsed(an.items + ns.items, ns.next))
  {
    hide Records, Sections;
    LastSections(msg, an.next, nsCount, ns);
    SectionsCons(msg, off, anCount, [nsCount, 0], 0, an, ns);
    assert [anCount] + [nsCount, 0] == [anCount, nsCount, 0];
  }

  lemma {:induction false} OneQuestion(msg: bytes, q: Question)
    requires QuestionAt(msg, HEADER_LEN) == Ok(q)
    ensures Questions(msg, HEADER_LEN, 1) == Ok(Parsed([q], q.end))
  {
    assert Questions(msg, q.end, 0) == Ok(Parsed([], q.end));
    assert [q] + [] == [q];
  }

  /** `msg` parses to this header, this question and, in order, exactly these records. */
  ghost predicate Carries(msg: bytes, h: Header, q: Question,
                          answers: seq<ResourceRecord>, authority: seq<ResourceRecord>)
  {
    && MessageOf(msg).Ok?
    && var m := MessageOf(msg).value;
    && m.header == h && m.questions == [q] && |m.records| == |answers| + |authority|
    && RecoversAll(msg, m.records[..|answers|], answers, 0, q.name)
    && RecoversAll(msg, m.records[|answers|..], authority, 1, q.name)
  }

  /** A message laid out like a reply parses to its question and its records. */
  lemma {:induction false} LayoutParses(reply: bytes, h: Header, q: Question,
                     answers: seq<ResourceRecord>, authority: seq<ResourceRecord>)
    requires ParseHeader(reply) == Ok(h) && QuestionAt(reply, HEADER_LEN) == Ok(q) && AsksFor(reply, q.name)
    requires h.qdCount == 1 && h.anCount == |answers| && h.nsCount == |authority| && h.arCount == 0
    requires GoodRecords(answers) && Holds(reply, q.end, RecordsBytes(answers))
    requires GoodRecords(authority) && Holds(reply, q.end + |RecordsBytes(answers)|, RecordsBytes(authority))
    ensures Carries(reply, h, q, answers, authority)
  {
    hide Records, Questions, QuestionAt, AsksFor, ParseHeader, RecordsBytes, Recovers, Holds, Sections;
    OneQuestion(reply, q);
    var an := RecordsRead(reply, q.end, answers, 0, q.name);
    var ns := RecordsRead(reply, an.next, authority, 1, q.name);
    SectionsOfTwo(reply, q.end, |answers|, |authority|, an, ns);
    var records := an.items + ns.items;
    assert MessageOf(reply) == Ok(Message(h, [q], records));
    assert records[..|answers|] == an.items && records[|answers|..] == ns.items;
  }

  lemma {:induction false} EchoedParses(req: bytes, q: Question, h: Header,
                     answers: seq<ResourceRecord>, authority: seq<ResourceRecord>)
    requires FirstQuestion(req) == Ok(q) && HEADER_LEN <= q.end <= |req|
    requires GoodRecords(answers) && GoodRecords(authority)
    requires h.qdCount == 1 && h.anCount == |answers| && h.nsCount == |authority| && h.arCount == 0
    ensures var reply := HeaderBytes(h) + req[HEADER_LEN..q.end] + RecordsBytes(answers) + RecordsBytes(authority);
            Carries(reply, h, q, answers, authority)
  {
    hide FirstQuestion, HeaderBytes, RecordsBytes, ParseHeader, QuestionAt, Carries, GoodRecords, ReadPlainName;
    var echo, an, ns := req[HEADER_LEN..q.end], RecordsBytes(answers), RecordsBytes(authority);
    ReplyLayout(h, echo, an, ns);
    EchoReads(req, q, HeaderBytes(h) + echo + an + ns);
    LayoutParses(HeaderBytes(h) + echo + an + ns, h, q, answers, authority);
  }

  /** Every reply built for a parsed question parses back to its header, the same question
      and, in order, exactly the records it was built from. */
  lemma ReplyParses(req: bytes, q: Question, extra: bv16, rcode: bv16,
                    answers: seq<ResourceRecord>, authority: seq<ResourceRecord>)
    requires FirstQuestion(req) == Ok(q) && GoodRecords(answers) && GoodRecords(authority)
    ensures ParseHeader(req).Ok? && Reply(req, q, extra, rcode, answers, authority).Ok?
    ensures Carries(Reply(req, q, extra, rcode, answers, authority).value,
                    ReplyHeader(ParseHeader(req).value, extra, rcode, |answers|, |authority|),
                    q, answers, authority)
  {
    EchoedParses(req, q, ReplyHeader(ParseHeader(req).value, extra, rcode, |answers|, |authority|),
                 answers, authority);
  }

  /** `ParseQuestion` undoes `BuildQuery` for every encodable name. */
  lemma QueryParses(id: u16, name: bytes, qtype: u16, qclass: u16, rd: bool)
    requires WireName(name).Ok?
    ensures Query(id, name, qtype, qclass, rd).Ok?
    ensures var msg := Query(id, name, qtype, qclass, rd).value;
            && ParseHeader(msg) == Ok(Header(id, if rd then 0x0100 else 0, 1, 0, 0, 0))
            && FirstQuestion(msg) == Ok(Question(Lower(TrimDot(name)), qtype, qclass, |msg|))
  {
    hide ReadPlainName, ReadName, WireName, HeaderBytes, Put16, Get16;
    var msg, wire := Query(id, name, qtype, qclass, rd).value, WireName(name).value;
    var h := Header(id, if rd then FLAG_RD else 0, 1, 0, 0, 0);
    var head := HeaderBytes(h);
    HoldsParts(head, wire, Put16(qtype), Put16(qclass));
    assert msg == head + (wire + Put16(qtype) + Put16(qclass));
    ParseHeaderBytes(h, wire + Put16(qtype) + Put16(qclass));
    DecodeEncode(name, msg, HEADER_LEN, 0);
    Get16Holds(msg, HEADER_LEN + |wire|, qtype);
    Get16Holds(msg, HEADER_LEN + |wire| + 2, qclass);
  }

  /** Reading a name and going on after it. */
  ghost predicate NameReads(msg: bytes, off: nat, text: bytes, next: nat) {
    AsText(ReadName(msg, off, 0)) == Ok(TextAt(text, next))
  }

  lemma FiveReads(msg: bytes, off: nat, a: u32, b: u32, c: u32, d: u32, e: u32)
    requires Holds(msg, off, Put32(a) + Put32(b) + Put32(c) + Put32(d) + Put32(e))
    ensures Get32(msg, off) == a && Get32(msg, off + 4) == b && Get32(msg, off + 8) == c
            && Get32(msg, off + 12) == d && Get32(msg, off + 16) == e
  {
    hide Put32, Get32, Holds;
    HoldsConcat(msg, off, Put32(a) + Put32(b) + Put32(c) + Put32(d), Put32(e));
    HoldsConcat(msg, off, Put32(a) + Put32(b) + Put32(c), Put32(d));
    HoldsConcat(msg, off, Put32(a) + Put32(b), Put32(c));
    HoldsConcat(msg, off, Put32(a), Put32(b));
    Get32Holds(msg, off, a);
    Get32Holds(msg, off + 4, b);
    Get32Holds(msg, off + 8, c);
    Get32Holds(msg, off + 12, d);
    Get32Holds(msg, off + 16, e);
  }

  lemma HoldsInside(msg: bytes, off: nat, part: bytes)
    requires Holds(msg, off, part)
    ensures off + |part| <= |msg|
  {
  }

  /** SOA data, wherever it stands in a message, reads back as its two names and its five numbers in
      the order of section 3.3.13 of RFC 1035. */
  lemma SoaDataReads(msg: bytes, off: nat, mname: bytes, rname: bytes,
                     serial: u32, refresh: u32, retry: u32, expire: u32, minTtl: u32)
    requires SoaData(mname, rname, serial, refresh, retry, expire, minTtl).Ok?
    requires Holds(msg, off, SoaData(mname, rname, serial, refresh, retry, expire, minTtl).value)
    ensures WireName(mname).Ok? && WireName(rname).Ok?
    ensures var second := off + |WireName(mname).value|;
            var at := second + |WireName(rname).value|;
            && NameReads(msg, off, Lower(TrimDot(mname)), second)
            && NameReads(msg, second, Lower(TrimDot(rname)), at)
            && at + 20 == off + |SoaData(mname, rname, serial, refresh, retry, expire, minTtl).value| <= |msg|
            && Get32(msg, at) == serial && Get32(msg, at + 4) == refresh && Get32(msg, at + 8) == retry
            && Get32(msg, at + 12) == expire && Get32(msg, at + 16) == minTtl
  {
    hide WireName, ReadName, ReadPlainName, Put32, Get32, Holds, Lower, TrimDot;
    var mw, rw := WireName(mname).value, WireName(rname).value;
    var numbers := Put32(serial) + Put32(refresh) + Put32(retry) + Put32(expire) + Put32(minTtl);
    assert SoaData(mname, rname, serial, refresh, retry, expire, minTtl).value == mw + rw + numbers;
    HoldsInside(msg, off, mw + rw + numbers);
    HoldsConcat(msg, off, mw + rw, numbers);
    HoldsConcat(msg, off, mw, rw);
    DecodeEncode(mname, msg, off, 0);
    DecodeEncode(rname, msg, off + |mw|, 0);
    FiveReads(msg, off + |mw| + |rw|, serial, refresh, retry, expire, minTtl);
  }

  /** A bare header parses back with no question and no record: the ID, opcode and RD bit of the
      request are kept, the rest of its flags is dropped, and the rcode is cut to four bits. */
  lemma HeaderOnlyParses(h: Header, rcode: bv16)
    ensures var m := MessageOf(HeaderOnly(h.id, h.flags, rcode));
            && m.Ok? && m.value.questions == [] && m.value.records == []
            && m.value.header == Header(h.id, 0x8080 | (h.flags & 0x7900) | (rcode & 0x000F), 0, 0, 0, 0)
  {
    var bare := Header(h.id, ReplyFlags(h.flags, FLAG_RA, rcode), 0, 0, 0, 0);
    var msg := HeaderBytes(bare);
    assert msg == msg + [];
    ParseHeaderBytes(bare, []);
    ReplyFlagBits(h.flags, FLAG_RA, rcode);
    assert bare.flags == 0x8080 | (h.flags & 0x7900) | (rcode & 0x000F);
    hide ReplyFlags, HeaderBytes, ParseHeader;
    var none := Parsed([], HEADER_LEN);
    assert Questions(msg, HEADER_LEN, 0) == Ok(Parsed([], HEADER_LEN));
    assert forall s :: Records(msg, HEADER_LEN, 0, s) == Ok(none);
    hide Records, Sections;
    SectionsOfTwo(msg, HEADER_LEN, 0, 0, none, none);
  }
}
