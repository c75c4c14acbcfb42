/** Answering queries: `handle`, `local` and what they call in internal/dnsserver/server.go. */
module Server {
  import opened Results
  import opened Bytes
  import opened Text
  import opened NameCodec
  import opened Message
  import opened ReverseNames
  import opened Addresses

  /** The `Resolver` interface. `resolveName` gives None for an unknown name and Some(None) for a
      name without a current address. */
  datatype Resolver = Resolver(resolveName: bytes -> Option<Option<Address>>, resolvePtr: Address -> Option<bytes>)

  datatype Server = Server(domain: bytes, ttl: u32, singleLabel: bool, resolver: Resolver)

  /** "ns." and "hostmaster.". */
  const NS: bytes := [0x6E, 0x73, DOT]
  const HOSTMASTER: bytes := [0x68, 0x6F, 0x73, 0x74, 0x6D, 0x61, 0x73, 0x74, 0x65, 0x72, DOT]

  const SOA_REFRESH: u32 := 3600
  const SOA_RETRY: u32 := 600
  const SOA_EXPIRE: u32 := 86400

  /** A result whose error the source ignores: nil takes its place. */
  function OrNil(r: Result<bytes, Error>): bytes {
    match r
    case Ok(b) => b
    case Err(_) => []
  }

  /** `soaRecord`; `serial` is the clock. */
  function SoaRecord(s: Server, serial: u32): ResourceRecord {
    ResourceRecord(OrNil(WireName(s.domain)), TYPE_SOA, CLASS_IN, s.ttl,
                   OrNil(SoaData(NS + s.domain, HOSTMASTER + s.domain,
                                 serial, SOA_REFRESH, SOA_RETRY, SOA_EXPIRE, s.ttl)))
  }

  // ---------------------------------------------------------------------
  // Local answers
  // ---------------------------------------------------------------------

  /** What goes into a reply. */
  datatype Answer = Answer(rcode: bv16, answers: seq<ResourceRecord>, authority: seq<ResourceRecord>)

  /** `answerApex`. */
  function AnswerApex(s: Server, q: Question, serial: u32): Answer {
    if q.qtype == TYPE_SOA || q.qtype == TYPE_ANY
    then Answer(RCODE_NO_ERROR, [SoaRecord(s, serial)], [])
    else Answer(RCODE_NO_ERROR, [], [SoaRecord(s, serial)])
  }

  /** The address records of `answerName`. */
  function AddressRecords(s: Server, q: Question, ip: Option<Address>): seq<ResourceRecord> {
    match ip
    case None => []
    case Some(a) =>
      var wantA := q.qtype == TYPE_A || q.qtype == TYPE_ANY;
      var wantAaaa := q.qtype == TYPE_AAAA || q.qtype == TYPE_ANY;
      match a
      case V4(o) => if wantA then [ResourceRecord(NamePtr(HEADER_LEN), TYPE_A, CLASS_IN, s.ttl, o)] else []
      case V6(o) => if wantAaaa then [ResourceRecord(NamePtr(HEADER_LEN), TYPE_AAAA, CLASS_IN, s.ttl, o)] else []
  }

  /** `answerName`. */
  function AnswerName(s: Server, q: Question, hostname: bytes, serial: u32): Answer {
    match s.resolver.resolveName(hostname)
    case None => Answer(RCODE_NX_DOMAIN, [], [SoaRecord(s, serial)])
    case Some(ip) =>
      var answers := AddressRecords(s, q, ip);
      Answer(RCODE_NO_ERROR, answers, if answers == [] then [SoaRecord(s, serial)] else [])
  }

  /** `answerPTR`. */
  function AnswerPtr(s: Server, hostname: bytes): Answer {
    match WireName(hostname + [DOT] + s.domain)
    case Err(_) => Answer(RCODE_SERV_FAIL, [], [])
    case Ok(fqdn) =>
      Answer(RCODE_NO_ERROR, [ResourceRecord(NamePtr(HEADER_LEN), TYPE_PTR, CLASS_IN, s.ttl, fqdn)], [])
  }

  /** "." and the zone. */
  function ZoneSuffix(s: Server): bytes {
    [DOT] + s.domain
  }

  /** The answer `local` gives, None when the query is not for this server. */
  function LocalAnswer(s: Server, q: Question, serial: u32): Option<Answer> {
    if q.name == s.domain then Some(AnswerApex(s, q, serial))
    else if HasSuffix(q.name, ZoneSuffix(s)) then
      Some(AnswerName(s, q, TrimSuffix(q.name, ZoneSuffix(s)), serial))
    else if q.qtype == TYPE_PTR then
      match AddressOf(q.name)
      case None => None
      case Some(ip) =>
        match s.resolver.resolvePtr(V4(ip))
        case None => None
        case Some(hostname) => Some(AnswerPtr(s, hostname))
    else if s.singleLabel && q.name != [] && DOT !in q.name then
      if s.resolver.resolveName(q.name).Some? then Some(AnswerName(s, q, q.name, serial)) else None
    else None
  }

  function AsOption(r: Result<bytes, Error>): Option<bytes> {
    match r
    case Ok(b) => Some(b)
    case Err(_) => None
  }

  /** `local`: a reply that cannot be built is treated like no answer. */
  function Local(s: Server, req: bytes, q: Question, serial: u32): Option<bytes> {
    match LocalAnswer(s, q, serial)
    case None => None
    case Some(a) => AsOption(Reply(req, q, FLAG_AA | FLAG_RA, a.rcode, a.answers, a.authority))
  }

  // ---------------------------------------------------------------------
  // Forwarding
  // ---------------------------------------------------------------------

  /** The first answer among the upstreams, each of which answers or fails. */
  function FirstAnswer(upstreams: seq<Option<bytes>>): Option<bytes> {
    if upstreams == [] then None
    else if upstreams[0].Some? then upstreams[0]
    else FirstAnswer(upstreams[1..])
  }

  /** The reply when every upstream has failed. */
  function AllFailed(req: bytes, q: Option<Question>): Option<bytes> {
    var servFail :=
      match q
      case None => None
      case Some(question) => AsOption(Reply(req, question, FLAG_RA, RCODE_SERV_FAIL, [], []));
    if servFail.Some? then servFail
    else
      match ParseHeader(req)
      case Ok(h) => Some(HeaderOnly(h.id, h.flags, RCODE_SERV_FAIL))
      case Err(_) => None
  }

  /** What `forward` returns when the upstreams answer like this. */
  function Forwarded(req: bytes, q: Option<Question>, upstreams: seq<Option<bytes>>): Option<bytes> {
    var first := FirstAnswer(upstreams);
    if first.Some? then first else AllFailed(req, q)
  }

  /** `forward`: the upstreams are asked in turn until one answers. */
  method Forward(req: bytes, q: Option<Question>, upstreams: seq<Option<bytes>>) returns (r: Option<bytes>)
    ensures r == Forwarded(req, q, upstreams)
  {
    assert upstreams[0..] == upstreams;
    for i := 0 to |upstreams|
      invariant FirstAnswer(upstreams) == FirstAnswer(upstreams[i..])
    {
      assert upstreams[i..][0] == upstreams[i] && upstreams[i..][1..] == upstreams[i + 1..];
      var resp := upstreams[i];
      if resp.Some? {
        return resp;
      }
    }
    if q.Some? {
      var resp := Reply(req, q.value, FLAG_RA, RCODE_SERV_FAIL, [], []);
      if resp.Ok? {
        return Some(resp.value);
      }
    }
    var h := ParseHeader(req);
    if h.Ok? {
      return Some(HeaderOnly(h.value.id, h.value.flags, RCODE_SERV_FAIL));
    }
    return None;
  }

  // ---------------------------------------------------------------------
  // One raw message
  // ---------------------------------------------------------------------

  /** What `handle` returns for one raw message, None when it is dropped. */
  function Response(s: Server, req: bytes, serial: u32, upstreams: seq<Option<bytes>>): Option<bytes> {
    match ParseHeader(req)
    case Err(_) => None
    case Ok(h) =>
      if h.Response() then None
      else if h.Opcode() != 0 || h.qdCount != 1 then Forwarded(req, None, upstreams)
      else
        match FirstQuestion(req)
        case Err(_) => Some(HeaderOnly(h.id, h.flags, RCODE_FORM_ERR))
        case Ok(q) =>
          if q.qclass != CLASS_IN then Forwarded(req, Some(q), upstreams)
          else
            var here := Local(s, req, q, serial);
            if here.Some? then here else Forwarded(req, Some(q), upstreams)
  }

  /** `handle`. */
  method Handle(s: Server, req: bytes, serial: u32, upstreams: seq<Option<bytes>>) returns (r: Option<bytes>)
    ensures r == Response(s, req, serial, upstreams)
  {
    hide Local, Forwarded, FirstQuestion, HeaderOnly;
    var header := ParseHeader(req);
    if header.Err? || header.value.Response() {
      return None;
    }
    var h := header.value;
    if h.Opcode() != 0 || h.qdCount != 1 {
      r := Forward(req, None, upstreams);
      return;
    }
    var question := ParseQuestion(req);
    if question.Err? {
      return Some(HeaderOnly(h.id, h.flags, RCODE_FORM_ERR));
    }
    var q := question.value;
    if q.qclass != CLASS_IN {
      r := Forward(req, Some(q), upstreams);
      return;
    }
    r := Local(s, req, q, serial);
    if r.None? {
      r := Forward(req, Some(q), upstreams);
    }
  }
}
