/**
 DNS messages: headers, questions and resource records, as internal/dnsmsg/dnsmsg.go
 writes and parses them (section 4.1 of RFC 1035).
 */
module Message {
  import opened Results
  import opened Bytes
  import opened NameCodec

  const TYPE_A: u16 := 1
  const TYPE_SOA: u16 := 6
  const TYPE_PTR: u16 := 12
  const TYPE_AAAA: u16 := 28
  const TYPE_ANY: u16 := 255
  const CLASS_IN: u16 := 1

  const FLAG_QR: bv16 := 0x8000
  const FLAG_AA: bv16 := 0x0400
  const FLAG_RD: bv16 := 0x0100
  const FLAG_RA: bv16 := 0x0080
  const OPCODE_MASK: bv16 := 0x7800
  const RCODE_MASK: bv16 := 0x000F

  const RCODE_NO_ERROR: bv16 := 0
  const RCODE_FORM_ERR: bv16 := 1
  const RCODE_SERV_FAIL: bv16 := 2
  const RCODE_NX_DOMAIN: bv16 := 3

  const HEADER_LEN := 12

  // ---------------------------------------------------------------------
  // Header
  // ---------------------------------------------------------------------

  datatype Header = Header(id: u16, flags: bv16, qdCount: u16, anCount: u16, nsCount: u16, arCount: u16) {
    /** Whether the QR bit is set. */
    predicate Response() {
      flags & FLAG_QR != 0
    }

    function Opcode(): bv16 {
      (flags >> 11) & 0xF
    }

    function Rcode(): bv16 {
      flags & RCODE_MASK
    }
  }

  function ParseHeader(msg: bytes): Result<Header, Error> {
    if |msg| < HEADER_LEN then Err(Short)
    else Ok(Header(Get16(msg, 0), Get16(msg, 2) as bv16, Get16(msg, 4), Get16(msg, 6), Get16(msg, 8), Get16(msg, 10)))
  }

  function HeaderBytes(h: Header): (b: bytes)
    ensures |b| == HEADER_LEN
  {
    Put16(h.id) + Put16(h.flags as u16) + Put16(h.qdCount) + Put16(h.anCount) + Put16(h.nsCount) + Put16(h.arCount)
  }

  // ---------------------------------------------------------------------
  // Questions
  // ---------------------------------------------------------------------

  datatype Question = Question(name: bytes, qtype: u16, qclass: u16, end: nat)

  /** The question that follows a name. */
  function QuestionAfter(msg: bytes, name: TextAt): Result<Question, Error> {
    if name.next + 4 > |msg| then Err(Short)
    else Ok(Question(name.text, Get16(msg, name.next), Get16(msg, name.next + 2), name.next + 4))
  }

  /** `ParseQuestion`: the first question, whose name must not be compressed. */
  function FirstQuestion(msg: bytes): Result<Question, Error> {
    var name :- AsText(ReadPlainName(msg, HEADER_LEN));
    QuestionAfter(msg, name)
  }

  method ParseQuestion(msg: bytes) returns (r: Result<Question, Error>)
    ensures r == FirstQuestion(msg)
  {
    var name :- DecodeNameUncompressed(msg, HEADER_LEN);
    return QuestionAfter(msg, name);
  }

  // ---------------------------------------------------------------------
  // Resource records
  // ---------------------------------------------------------------------

  /** `NamePtr`: the top two bits are set, the other 14 are the offset. */
  function NamePtr(off: nat): bytes {
    [0xC0 + off / 0x100 % 0x40, off % 0x100]
  }

  datatype ResourceRecord = ResourceRecord(name: bytes, rtype: u16, rclass: u16, ttl: u32, data: bytes)

  /** The ten octets between the owner and the RDATA; the length is truncated to 16 bits. */
  function FixedBytes(rr: ResourceRecord): (b: bytes)
    ensures |b| == 10
  {
    Put16(rr.rtype) + Put16(rr.rclass) + Put32(rr.ttl) + Put16(|rr.data| % 0x1_0000)
  }

  function RecordBytes(rr: ResourceRecord): bytes {
    rr.name + FixedBytes(rr) + rr.data
  }

  function RecordsBytes(rrs: seq<ResourceRecord>): bytes {
    if rrs == [] then [] else RecordBytes(rrs[0]) + RecordsBytes(rrs[1..])
  }

  lemma {:induction false} RecordsBytesSnoc(rrs: seq<ResourceRecord>, rr: ResourceRecord)
    ensures RecordsBytes(rrs + [rr]) == RecordsBytes(rrs) + RecordBytes(rr)
  {
    if rrs == [] {
      assert RecordsBytes([rr]) == RecordBytes(rr) + RecordsBytes([]) == RecordBytes(rr);
    } else {
      assert (rrs + [rr])[1..] == rrs[1..] + [rr];
      RecordsBytesSnoc(rrs[1..], rr);
    }
  }

  // ---------------------------------------------------------------------
  // Building
  // ---------------------------------------------------------------------

  function ReplyFlags(request: bv16, extra: bv16, rcode: bv16): bv16 {
    FLAG_QR | (request & OPCODE_MASK) | (request & FLAG_RD) | extra | (rcode & RCODE_MASK)
  }

  function ReplyHeader(h: Header, extra: bv16, rcode: bv16, answers: nat, authority: nat): Header {
    Header(h.id, ReplyFlags(h.flags, extra, rcode), 1, answers % 0x1_0000, authority % 0x1_0000, 0)
  }

  /** What `BuildReply` computes. */
  function Reply(req: bytes, q: Question, extra: bv16, rcode: bv16,
                 answers: seq<ResourceRecord>, authority: seq<ResourceRecord>): Result<bytes, Error>
  {
    var h :- ParseHeader(req);
    if q.end > |req| || q.end < HEADER_LEN then Err(Short)
    else Ok(HeaderBytes(ReplyHeader(h, extra, rcode, |answers|, |authority|)) + req[HEADER_LEN..q.end]
            + RecordsBytes(answers) + RecordsBytes(authority))
  }

  /** `BuildReply`: records are appended one at a time to the echoed question. */
  method BuildReply(req: bytes, q: Question, extra: bv16, rcode: bv16,
                    answers: seq<ResourceRecord>, authority: seq<ResourceRecord>)
    returns (r: Result<bytes, Error>)
    ensures r == Reply(req, q, extra, rcode, answers, authority)
  {
    var h :- ParseHeader(req);
    if q.end > |req| || q.end < HEADER_LEN {
      return Err(Short);
    }
    var out := HeaderBytes(ReplyHeader(h, extra, rcode, |answers|, |authority|));
    out := out + req[HEADER_LEN..q.end];
    out := AppendRecords(out, answers);
    out := AppendRecords(out, authority);
    return Ok(out);
  }

  method AppendRecords(start: bytes, rrs: seq<ResourceRecord>) returns (out: bytes)
    ensures out == start + RecordsBytes(rrs)
  {
    out := start;
    for i := 0 to |rrs|
      invariant out == start + RecordsBytes(rrs[..i])
    {
      assert rrs[..i + 1] == rrs[..i] + [rrs[i]];
      RecordsBytesSnoc(rrs[..i], rrs[i]);
      out := out + RecordBytes(rrs[i]);
    }
    assert rrs[..|rrs|] == rrs;
  }

  /** `BuildHeaderOnly`. */
  function HeaderOnly(id: u16, flags: bv16, rcode: bv16): bytes {
    HeaderBytes(Header(id, ReplyFlags(flags, FLAG_RA, rcode), 0, 0, 0, 0))
  }

  /** `BuildQuery`. */
  function Query(id: u16, name: bytes, qtype: u16, qclass: u16, rd: bool): Result<bytes, Error> {
    var wire :- WireName(name);
    Ok(HeaderBytes(Header(id, if rd then FLAG_RD else 0, 1, 0, 0, 0)) + wire + Put16(qtype) + Put16(qclass))
  }

  /** `SOAData`. */
  function SoaData(mname: bytes, rname: bytes, serial: u32, refresh: u32, retry: u32, expire: u32, minTtl: u32):
    Result<bytes, Error>
  {
    var mw :- WireName(mname);
    var rw :- WireName(rname);
    Ok(mw + rw + Put32(serial) + Put32(refresh) + Put32(retry) + Put32(expire) + Put32(minTtl))
  }

  // ---------------------------------------------------------------------
  // Parsing
  // ---------------------------------------------------------------------

  datatype ParsedRR = ParsedRR(name: bytes, rtype: u16, rclass: u16, ttl: u32,
                               dataStart: nat, dataLen: nat, section: nat)
  {
    function End(): nat {
      dataStart + dataLen
    }
  }

  datatype Parsed<+T> = Parsed(items: seq<T>, next: nat)

  datatype Message = Message(header: Header, questions: seq<Question>, records: seq<ParsedRR>)

  function QuestionAt(msg: bytes, off: nat): (r: Result<Question, Error>)
    ensures r.Ok? ==> off + 5 <= r.value.end <= |msg|
  {
    var name :- AsText(ReadName(msg, off, 0));
    QuestionAfter(msg, name)
  }

  function RecordAfter(msg: bytes, name: TextAt, section: nat): Result<ParsedRR, Error> {
    var next := name.next;
    if next + 10 > |msg| then Err(Short)
    else
      var length := Get16(msg, next + 8);
      if next + 10 + length > |msg| then Err(Short)
      else Ok(ParsedRR(name.text, Get16(msg, next), Get16(msg, next + 2), Get32(msg, next + 4),
                       next + 10, length, section))
  }

  function RecordAt(msg: bytes, off: nat, section: nat): (r: Result<ParsedRR, Error>)
    ensures r.Ok? ==> off + 11 <= r.value.dataStart && r.value.End() <= |msg| && r.value.section == section
  {
    var name :- AsText(ReadName(msg, off, 0));
    RecordAfter(msg, name, section)
  }

  function Questions(msg: bytes, off: nat, count: nat): Result<Parsed<Question>, Error>
    decreases count
  {
    if count == 0 then Ok(Parsed([], off))
    else
      var q :- QuestionAt(msg, off);
      var rest :- Questions(msg, q.end, count - 1);
      Ok(Parsed([q] + rest.items, rest.next))
  }

  function Records(msg: bytes, off: nat, count: nat, section: nat): Result<Parsed<ParsedRR>, Error>
    decreases count
  {
    if count == 0 then Ok(Parsed([], off))
    else
      var rr :- RecordAt(msg, off, section);
      var rest :- Records(msg, rr.End(), count - 1, section);
      Ok(Parsed([rr] + rest.items, rest.next))
  }

  /** Record sections number `section` and later, in order. */
  function Sections(msg: bytes, off: nat, counts: seq<nat>, section: nat): Result<Parsed<ParsedRR>, Error>
    decreases counts
  {
    if counts == [] then Ok(Parsed([], off))
    else
      var here :- Records(msg, off, counts[0], section);
      var rest :- Sections(msg, here.next, counts[1..], section + 1);
      Ok(Parsed(here.items + rest.items, rest.next))
  }

  /** A message that parses as a whole. */
  function MessageOf(msg: bytes): Result<Message, Error> {
    var h :- ParseHeader(msg);
    var qs :- Questions(msg, HEADER_LEN, h.qdCount);
    var rrs :- Sections(msg, qs.next, [h.anCount, h.nsCount, h.arCount], 0);
    Ok(Message(h, qs.items, rrs.items))
  }

  /** How far a loop over records got: what it parsed, the offset it reached and the error it stopped at. */
  datatype Progress = Progress(items: seq<ParsedRR>, next: nat, error: Option<Error>)

  function RecordsUntil(msg: bytes, off: nat, count: nat, section: nat): Progress
    decreases count
  {
    if count == 0 then Progress([], off, None)
    else
      match RecordAt(msg, off, section)
      case Err(e) => Progress([], off, Some(e))
      case Ok(rr) => Further([rr], RecordsUntil(msg, rr.End(), count - 1, section))
  }

  function SectionsUntil(msg: bytes, off: nat, counts: seq<nat>, section: nat): Progress
    decreases counts
  {
    if counts == [] then Progress([], off, None)
    else
      var here := RecordsUntil(msg, off, counts[0], section);
      if here.error.Some? then here
      else Further(here.items, SectionsUntil(msg, here.next, counts[1..], section + 1))
  }

  /** What `ParseMessage` returns. With an error come the header if that was read, and the questions
      and the records before the error if all questions were read. */
  datatype Outcome = Outcome(header: Header, questions: seq<Question>, records: seq<ParsedRR>, error: Option<Error>)

  const NO_HEADER := Header(0, 0, 0, 0, 0, 0)

  /** What `ParseMessage` computes. */
  function OutcomeOf(msg: bytes): Outcome {
    match ParseHeader(msg)
    case Err(e) => Outcome(NO_HEADER, [], [], Some(e))
    case Ok(h) =>
      match Questions(msg, HEADER_LEN, h.qdCount)
      case Err(e) => Outcome(h, [], [], Some(e))
      case Ok(qs) =>
        var p := SectionsUntil(msg, qs.next, [h.anCount, h.nsCount, h.arCount], 0);
        Outcome(h, qs.items, p.items, p.error)
  }

  /** Items already parsed, put in front of the rest. */
  function Prepend<T>(done: seq<T>, rest: Result<Parsed<T>, Error>): Result<Parsed<T>, Error> {
    match rest
    case Err(e) => Err(e)
    case Ok(p) => Ok(Parsed(done + p.items, p.next))
  }

  lemma PrependTwice<T>(a: seq<T>, b: seq<T>, rest: Result<Parsed<T>, Error>)
    ensures Prepend([], rest) == rest
    ensures Prepend(a, Prepend(b, rest)) == Prepend(a + b, rest)
  {
    if rest.Ok? {
      assert [] + rest.value.items == rest.value.items;
      assert a + (b + rest.value.items) == a + b + rest.value.items;
    }
  }

  /** Records already parsed, put in front of the rest. */
  function Further(done: seq<ParsedRR>, rest: Progress): Progress {
    Progress(done + rest.items, rest.next, rest.error)
  }

  lemma FurtherTwice(a: seq<ParsedRR>, b: seq<ParsedRR>, rest: Progress)
    ensures Further([], rest) == rest
    ensures Further(a, Further(b, rest)) == Further(a + b, rest)
  {
    assert [] + rest.items == rest.items;
    assert a + (b + rest.items) == a + b + rest.items;
  }

  method ParseQuestionAt(msg: bytes, off: nat) returns (r: Result<Question, Error>)
    ensures r == QuestionAt(msg, off)
  {
    var name :- DecodeName(msg, off, 0);
    return QuestionAfter(msg, name);
  }

  method ParseRecordAt(msg: bytes, off: nat, section: nat) returns (r: Result<ParsedRR, Error>)
    ensures r == RecordAt(msg, off, section)
  {
    var name :- DecodeName(msg, off, 0);
    return RecordAfter(msg, name, section);
  }

  /** The loop over the question section. */
  method ParseQuestions(msg: bytes, start: nat, count: nat) returns (r: Result<Parsed<Question>, Error>)
    ensures r == Questions(msg, start, count)
  {
    hide QuestionAt;
    var off, questions := start, [];
    PrependTwice([], [], Questions(msg, start, count));
    for i := 0 to count
      invariant Questions(msg, start, count) == Prepend(questions, Questions(msg, off, count - i))
    {
      var q :- ParseQuestionAt(msg, off);
      PrependTwice(questions, [q], Questions(msg, q.end, count - i - 1));
      questions := questions + [q];
      off := q.end;
    }
    assert questions + [] == questions;
    return Ok(Parsed(questions, off));
  }

  /** The loop over one record section. */
  method ParseRecords(msg: bytes, start: nat, count: nat, section: nat) returns (p: Progress)
    ensures p == RecordsUntil(msg, start, count, section)
  {
    hide RecordAt, Further;
    var off, rrs := start, [];
    FurtherTwice([], [], RecordsUntil(msg, start, count, section));
    for i := 0 to count
      invariant RecordsUntil(msg, start, count, section) == Further(rrs, RecordsUntil(msg, off, count - i, section))
    {
      var rr := ParseRecordAt(msg, off, section);
      if rr.Err? {
        FurtherStops(rrs, off, Some(rr.error));
        return Progress(rrs, off, Some(rr.error));
      }
      FurtherTwice(rrs, [rr.value], RecordsUntil(msg, rr.value.End(), count - i - 1, section));
      rrs := rrs + [rr.value];
      off := rr.value.End();
    }
    FurtherStops(rrs, off, None);
    return Progress(rrs, off, None);
  }

  lemma FurtherStops(done: seq<ParsedRR>, next: nat, error: Option<Error>)
    ensures Further(done, Progress([], next, error)) == Progress(done, next, error)
  {
    assert done + [] == done;
  }

  /** `ParseMessage`: questions, then the answer, authority and additional sections. */
  method ParseMessage(msg: bytes) returns (r: Outcome)
    ensures r == OutcomeOf(msg)
  {
    hide RecordsUntil, Further, Questions;
    var header := ParseHeader(msg);
    if header.Err? {
      return Outcome(NO_HEADER, [], [], Some(header.error));
    }
    var h := header.value;
    var qs := ParseQuestions(msg, HEADER_LEN, h.qdCount);
    if qs.Err? {
      return Outcome(h, [], [], Some(qs.error));
    }
    var counts: seq<nat> := [h.anCount, h.nsCount, h.arCount];
    ghost var whole := SectionsUntil(msg, qs.value.next, counts, 0);
    var off, rrs := qs.value.next, [];
    FurtherTwice([], [], whole);
    assert counts[0..] == counts;
    for section := 0 to 3
      invariant whole == Further(rrs, SectionsUntil(msg, off, counts[section..], section))
    {
      var here := ParseRecords(msg, off, counts[section], section);
      assert counts[section..][1..] == counts[section + 1..];
      if here.error.Some? {
        assert whole == Further(rrs, here);
        FurtherIs(rrs, here);
        return Outcome(h, qs.value.items, rrs + here.items, here.error);
      }
      FurtherTwice(rrs, here.items, SectionsUntil(msg, here.next, counts[section + 1..], section + 1));
      rrs := rrs + here.items;
      off := here.next;
    }
    FurtherStops(rrs, off, None);
    return Outcome(h, qs.value.items, rrs, None);
  }

  lemma FurtherIs(done: seq<ParsedRR>, rest: Progress)
    ensures Further(done, rest) == Progress(done + rest.items, rest.next, rest.error)
  {
  }

  // ---------------------------------------------------------------------
  // Whole messages and partial ones
  // ---------------------------------------------------------------------

  function Whole(p: Progress): Result<Parsed<ParsedRR>, Error> {
    if p.error.Some? then Err(p.error.value) else Ok(Parsed(p.items, p.next))
  }

  lemma {:induction false} RecordsWhole(msg: bytes, off: nat, count: nat, section: nat)
    ensures Records(msg, off, count, section) == Whole(RecordsUntil(msg, off, count, section))
    decreases count
  {
    hide RecordAt;
    if count == 0 {
    } else if RecordAt(msg, off, section).Ok? {
      RecordsWhole(msg, RecordAt(msg, off, section).value.End(), count - 1, section);
    }
  }

  lemma {:induction false} SectionsWhole(msg: bytes, off: nat, counts: seq<nat>, section: nat)
    ensures Sections(msg, off, counts, section) == Whole(SectionsUntil(msg, off, counts, section))
    decreases counts
  {
    hide Records, RecordsUntil;
    if counts == [] {
    } else {
      RecordsWhole(msg, off, counts[0], section);
      var here := RecordsUntil(msg, off, counts[0], section);
      SectionsWhole(msg, here.next, counts[1..], section + 1);
    }
  }

  /** Parsing succeeds exactly on the messages that parse as a whole, with the same parts; otherwise
      the errors are the same. */
  lemma OutcomeWhole(msg: bytes)
    ensures var o := OutcomeOf(msg);
            MessageOf(msg) ==
            if o.error.Some? then Err(o.error.value) else Ok(Message(o.header, o.questions, o.records))
  {
    hide Questions, Sections, SectionsUntil;
    if ParseHeader(msg).Ok? {
      var h := ParseHeader(msg).value;
      if Questions(msg, HEADER_LEN, h.qdCount).Ok? {
        var qs := Questions(msg, HEADER_LEN, h.qdCount).value;
        SectionsWhole(msg, qs.next, [h.anCount, h.nsCount, h.arCount], 0);
      }
    }
  }
}
