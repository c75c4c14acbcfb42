/**
 What message parsing guarantees: questions and records follow one another without a gap, as many as
 the header announces, and an error is that of the first record that cannot be read.
 */
module MessageTheorems {
  import opened Results
  import opened Bytes
  import opened NameCodec
  import opened Message

  // ---------------------------------------------------------------------
  // Tiling
  // ---------------------------------------------------------------------

  /** RDATA ranges lie in order between `lo` and `hi`, at least 11 octets before each of them. */
  ghost predicate Tiled(rrs: seq<ParsedRR>, lo: nat, hi: nat) {
    && lo + 11 * |rrs| <= hi
    && (forall i :: 0 <= i < |rrs| ==> lo + 11 <= rrs[i].dataStart && rrs[i].End() <= hi)
    && (forall i, j :: 0 <= i < j < |rrs| ==> rrs[i].End() + 11 <= rrs[j].dataStart)
  }

  lemma TiledConcat(a: seq<ParsedRR>, b: seq<ParsedRR>, lo: nat, mid: nat, hi: nat)
    requires Tiled(a, lo, mid) && Tiled(b, mid, hi)
    ensures Tiled(a + b, lo, hi)
  {
    var c := a + b;
    forall i, j | 0 <= i < j < |c|
      ensures c[i].End() + 11 <= c[j].dataStart
    {
      if j < |a| {
        assert c[i] == a[i] && c[j] == a[j];
      } else {
        assert c[j] == b[j - |a|];
        assert c[i] == if i < |a| then a[i] else b[i - |a|];
      }
    }
    forall i | 0 <= i < |c|
      ensures lo + 11 <= c[i].dataStart && c[i].End() <= hi
    {
      assert c[i] == if i < |a| then a[i] else b[i - |a|];
    }
  }

  lemma {:induction false} RecordsTile(msg: bytes, off: nat, count: nat, section: nat)
    requires off <= |msg| && Records(msg, off, count, section).Ok?
    ensures var p := Records(msg, off, count, section).value;
            && |p.items| == count && p.next <= |msg|
            && Tiled(p.items, off, p.next)
            && forall rr :: rr in p.items ==> rr.section == section
    decreases count
  {
    if count == 0 {
    } else {
      var rr := RecordAt(msg, off, section).value;
      RecordsTile(msg, rr.End(), count - 1, section);
      var rest := Records(msg, rr.End(), count - 1, section).value;
      TiledConcat([rr], rest.items, off, rr.End(), rest.next);
    }
  }

  /** Where record `i` starts when the first one starts at `start`. */
  function StartOf(rrs: seq<ParsedRR>, i: nat, start: nat): nat
    requires i <= |rrs|
  {
    if i == 0 then start else rrs[i - 1].End()
  }

  /** Every record is read from the very octet at which the one before it ends. */
  ghost predicate Contiguous(msg: bytes, rrs: seq<ParsedRR>, start: nat) {
    forall i :: 0 <= i < |rrs| ==> RecordAt(msg, StartOf(rrs, i, start), rrs[i].section) == Ok(rrs[i])
  }

  lemma StartOfConcat(a: seq<ParsedRR>, b: seq<ParsedRR>, i: nat, start: nat)
    requires i <= |a + b|
    ensures StartOf(a + b, i, start) ==
            if i <= |a| then StartOf(a, i, start) else StartOf(b, i - |a|, StartOf(a, |a|, start))
    ensures i == |a| ==> StartOf(a + b, i, start) == StartOf(b, 0, StartOf(a, |a|, start))
  {
  }

  lemma ContiguousConcat(msg: bytes, a: seq<ParsedRR>, b: seq<ParsedRR>, start: nat)
    requires Contiguous(msg, a, start) && Contiguous(msg, b, StartOf(a, |a|, start))
    ensures Contiguous(msg, a + b, start)
    ensures StartOf(a + b, |a + b|, start) == StartOf(b, |b|, StartOf(a, |a|, start))
  {
    hide RecordAt, StartOf;
    var c := a + b;
    StartOfConcat(a, b, |c|, start);
    forall i | 0 <= i < |c|
      ensures RecordAt(msg, StartOf(c, i, start), c[i].section) == Ok(c[i])
    {
      StartOfConcat(a, b, i, start);
      if i < |a| {
        assert c[i] == a[i];
      } else {
        assert c[i] == b[i - |a|];
      }
    }
  }

  /** A section's records are contiguous, even when it stops at an error; the error is then that of the
      next record. */
  lemma {:induction false} RecordsContiguous(msg: bytes, off: nat, count: nat, section: nat)
    ensures var p := RecordsUntil(msg, off, count, section);
            && Contiguous(msg, p.items, off) && p.next == StartOf(p.items, |p.items|, off)
            && (p.error.None? ==> |p.items| == count)
            && (p.error.Some? ==> |p.items| < count && RecordAt(msg, p.next, section) == Err(p.error.value))
    decreases count
  {
    hide RecordAt, Contiguous;
    if count == 0 {
      NothingContiguous(msg, off);
    } else if RecordAt(msg, off, section).Err? {
      NothingContiguous(msg, off);
    } else {
      var rr := RecordAt(msg, off, section).value;
      RecordsContiguous(msg, rr.End(), count - 1, section);
      OneContiguous(msg, off, section);
      ContiguousConcat(msg, [rr], RecordsUntil(msg, rr.End(), count - 1, section).items, off);
    }
  }

  lemma NothingContiguous(msg: bytes, off: nat)
    ensures Contiguous(msg, [], off)
  {
  }

  lemma OneContiguous(msg: bytes, off: nat, section: nat)
    requires RecordAt(msg, off, section).Ok?
    ensures var rr := RecordAt(msg, off, section).value;
            Contiguous(msg, [rr], off) && StartOf([rr], 1, off) == rr.End()
  {
    assert RecordAt(msg, off, section).value.section == section;
    hide RecordAt;
  }

  lemma {:induction false} QuestionsTile(msg: bytes, off: nat, count: nat)
    requires off <= |msg| && Questions(msg, off, count).Ok?
    ensures var p := Questions(msg, off, count).value;
            |p.items| == count && off + 5 * count <= p.next <= |msg|
    decreases count
  {
    if count == 0 {
    } else {
      QuestionsTile(msg, QuestionAt(msg, off).value.end, count - 1);
    }
  }

  /** The three record sections of a message, one after another. */
  lemma {:induction false} SectionsAre(msg: bytes, off: nat, h: Header)
    requires Sections(msg, off, [h.anCount, h.nsCount, h.arCount], 0).Ok?
    ensures Records(msg, off, h.anCount, 0).Ok?
    ensures var an := Records(msg, off, h.anCount, 0).value;
            && Records(msg, an.next, h.nsCount, 1).Ok?
            && var ns := Records(msg, an.next, h.nsCount, 1).value;
            && Records(msg, ns.next, h.arCount, 2).Ok?
            && var ar := Records(msg, ns.next, h.arCount, 2).value;
            && Sections(msg, off, [h.anCount, h.nsCount, h.arCount], 0).value.items == an.items + ns.items + ar.items
  {
    var counts: seq<nat> := [h.anCount, h.nsCount, h.arCount];
    assert counts[1..] == [h.nsCount, h.arCount];
    var an := Records(msg, off, h.anCount, 0).value;
    SectionsAreTwo(msg, an.next, h.nsCount, h.arCount);
    var rest := Sections(msg, an.next, [h.nsCount, h.arCount], 1).value;
    assert an.items + rest.items == Sections(msg, off, counts, 0).value.items;
  }

  lemma {:induction false} SectionsAreTwo(msg: bytes, off: nat, nsCount: nat, arCount: nat)
    requires Sections(msg, off, [nsCount, arCount], 1).Ok?
    ensures Records(msg, off, nsCount, 1).Ok?
    ensures var ns := Records(msg, off, nsCount, 1).value;
            && Records(msg, ns.next, arCount, 2).Ok?
            && var ar := Records(msg, ns.next, arCount, 2).value;
            && Sections(msg, off, [nsCount, arCount], 1) == Ok(Parsed(ns.items + ar.items, ar.next))
  {
    var counts: seq<nat> := [nsCount, arCount];
    assert counts[1..] == [arCount] && [arCount][1..] == [];
    var ns := Records(msg, off, nsCount, 1).value;
    assert Sections(msg, ns.next, [arCount], 2).Ok?;
    var ar := Records(msg, ns.next, arCount, 2).value;
    assert ar.items + [] == ar.items;
    assert Sections(msg, ar.next, [], 3) == Ok(Parsed([], ar.next));
    assert Sections(msg, ns.next, [arCount], 2) == Ok(Parsed(ar.items, ar.next));
  }

  /** Whether a record can be read does not depend on its section. */
  lemma SameError(msg: bytes, off: nat, section: nat)
    ensures RecordAt(msg, off, section).Err? ==> RecordAt(msg, off, 0) == RecordAt(msg, off, section)
  {
  }

  function Total(counts: seq<nat>): nat {
    if counts == [] then 0 else counts[0] + Total(counts[1..])
  }

  lemma {:induction false} SectionsContiguous(msg: bytes, off: nat, counts: seq<nat>, section: nat)
    ensures var p := SectionsUntil(msg, off, counts, section);
            && Contiguous(msg, p.items, off) && p.next == StartOf(p.items, |p.items|, off)
            && (p.error.None? ==> |p.items| == Total(counts))
            && (p.error.Some? ==> |p.items| < Total(counts) && RecordAt(msg, p.next, 0) == Err(p.error.value))
    decreases counts
  {
    hide RecordAt, Contiguous, RecordsUntil, StartOf;
    if counts == [] {
      NothingContiguous(msg, off);
      NothingStarts(off);
    } else {
      var here := RecordsUntil(msg, off, counts[0], section);
      RecordsContiguous(msg, off, counts[0], section);
      if here.error.Some? {
        SameError(msg, here.next, section);
      } else {
        SectionsContiguous(msg, here.next, counts[1..], section + 1);
        ContiguousConcat(msg, here.items, SectionsUntil(msg, here.next, counts[1..], section + 1).items, off);
      }
    }
  }

  lemma NothingStarts(off: nat)
    ensures StartOf([], 0, off) == off
  {
  }

  /** Where question `i` starts. */
  function QuestionStart(qs: seq<Question>, i: nat): nat
    requires i <= |qs|
  {
    if i == 0 then HEADER_LEN else qs[i - 1].end
  }

  /** Questions, too, follow one another from the end of the header. */
  ghost predicate QuestionsInOrder(msg: bytes, qs: seq<Question>, off: nat) {
    forall i :: 0 <= i < |qs| ==> QuestionAt(msg, if i == 0 then off else qs[i - 1].end) == Ok(qs[i])
  }

  lemma {:induction false} QuestionsContiguous(msg: bytes, off: nat, count: nat)
    requires Questions(msg, off, count).Ok?
    ensures var p := Questions(msg, off, count).value;
            QuestionsInOrder(msg, p.items, off) && p.next == if p.items == [] then off else p.items[|p.items| - 1].end
    decreases count
  {
    hide QuestionAt;
    if count == 0 {
    } else {
      var q := QuestionAt(msg, off).value;
      QuestionsContiguous(msg, q.end, count - 1);
      var rest := Questions(msg, q.end, count - 1).value.items;
      forall i | 0 <= i < |[q] + rest|
        ensures QuestionAt(msg, if i == 0 then off else ([q] + rest)[i - 1].end) == Ok(([q] + rest)[i])
      {
        if i > 0 {
          assert ([q] + rest)[i] == rest[i - 1] && ([q] + rest)[i - 1] == if i == 1 then q else rest[i - 2];
        }
      }
    }
  }

  /** Once the questions are read, the records that come back are contiguous from the last question
      on, whether or not parsing fails, and an error is that of the first record that is missing. */
  lemma {:induction false} ParsingStopsAtFirstError(msg: bytes)
    requires ParseHeader(msg).Ok? && Questions(msg, HEADER_LEN, ParseHeader(msg).value.qdCount).Ok?
    ensures var o := OutcomeOf(msg);
            var h := o.header;
            && ParseHeader(msg) == Ok(h) && |o.questions| == h.qdCount
            && QuestionsInOrder(msg, o.questions, HEADER_LEN)
            && var start := QuestionStart(o.questions, |o.questions|);
            var end := StartOf(o.records, |o.records|, start);
            && Contiguous(msg, o.records, start)
            && (o.error.None? ==> |o.records| == h.anCount + h.nsCount + h.arCount)
            && (o.error.Some? ==>
                  |o.records| < h.anCount + h.nsCount + h.arCount && RecordAt(msg, end, 0) == Err(o.error.value))
  {
    var h := ParseHeader(msg).value;
    QuestionsTile(msg, HEADER_LEN, h.qdCount);
    QuestionsContiguous(msg, HEADER_LEN, h.qdCount);
    var counts: seq<nat> := [h.anCount, h.nsCount, h.arCount];
    SectionsContiguous(msg, Questions(msg, HEADER_LEN, h.qdCount).value.next, counts, 0);
    TotalOfThree(h.anCount, h.nsCount, h.arCount);
    hide ParseHeader, Questions, SectionsUntil, Contiguous, QuestionsInOrder, RecordAt, Total;
  }

  lemma TotalOfThree(a: nat, b: nat, c: nat)
    ensures Total([a, b, c]) == a + b + c
  {
    assert Total([]) == 0;
    assert Total([c]) == c + Total([c][1..]);
    assert [a, b, c][1..] == [b, c] && [b, c][1..] == [c];
  }

  /** The section a record of this index belongs to. */
  function SectionOf(h: Header, i: nat): nat {
    if i < h.anCount then 0 else if i < h.anCount + h.nsCount then 1 else 2
  }

  /** A message that parses has exactly the questions and records its header announces, in section
      order and without a gap, with RDATA ranges in bounds, disjoint and strictly increasing. */
  lemma ParsedMessageTiles(msg: bytes)
    requires MessageOf(msg).Ok?
    ensures var m := MessageOf(msg).value;
            && |m.questions| == m.header.qdCount
            && |m.records| == m.header.anCount + m.header.nsCount + m.header.arCount
            && (forall i :: 0 <= i < |m.records| ==> m.records[i].section == SectionOf(m.header, i))
            && Tiled(m.records, HEADER_LEN + 5 * m.header.qdCount, |msg|)
            && QuestionsInOrder(msg, m.questions, HEADER_LEN)
            && Contiguous(msg, m.records, QuestionStart(m.questions, |m.questions|))
  {
    MessageWithoutGaps(msg);
    hide Contiguous, QuestionsInOrder, RecordAt, QuestionAt, QuestionStart;
    var h := ParseHeader(msg).value;
    QuestionsTile(msg, HEADER_LEN, h.qdCount);
    var start := Questions(msg, HEADER_LEN, h.qdCount).value.next;
    SectionsAre(msg, start, h);
    RecordsTile(msg, start, h.anCount, 0);
    var an := Records(msg, start, h.anCount, 0).value;
    RecordsTile(msg, an.next, h.nsCount, 1);
    var ns := Records(msg, an.next, h.nsCount, 1).value;
    RecordsTile(msg, ns.next, h.arCount, 2);
    var ar := Records(msg, ns.next, h.arCount, 2).value;
    TiledConcat(an.items, ns.items, start, an.next, ns.next);
    TiledConcat(an.items + ns.items, ar.items, start, ns.next, ar.next);
  }

  lemma MessageWithoutGaps(msg: bytes)
    requires MessageOf(msg).Ok?
    ensures var m := MessageOf(msg).value;
            && QuestionsInOrder(msg, m.questions, HEADER_LEN)
            && Contiguous(msg, m.records, QuestionStart(m.questions, |m.questions|))
  {
    OutcomeWhole(msg);
    assert ParseHeader(msg).Ok? && Questions(msg, HEADER_LEN, ParseHeader(msg).value.qdCount).Ok?;
    hide MessageOf, OutcomeOf, Contiguous, QuestionsInOrder, ParseHeader, Questions;
    ParsingStopsAtFirstError(msg);
  }

  // ---------------------------------------------------------------------
  // Headers
  // ---------------------------------------------------------------------

  lemma ParseHeaderBytes(h: Header, rest: bytes)
    ensures ParseHeader(HeaderBytes(h) + rest) == Ok(h)
  {
    var msg := HeaderBytes(h) + rest;
    var f := h.flags as u16;
    assert f as bv16 == h.flags;
    assert HeaderBytes(h)[2..4] == Put16(f);
    assert Holds(msg, 0, Put16(h.id)) && Holds(msg, 2, Put16(f)) && Holds(msg, 4, Put16(h.qdCount));
    assert Holds(msg, 6, Put16(h.anCount)) && Holds(msg, 8, Put16(h.nsCount)) && Holds(msg, 10, Put16(h.arCount));
    Get16Holds(msg, 0, h.id);
    Get16Holds(msg, 2, f);
    Get16Holds(msg, 4, h.qdCount);
    Get16Holds(msg, 6, h.anCount);
    Get16Holds(msg, 8, h.nsCount);
    Get16Holds(msg, 10, h.arCount);
  }

  /** Where the fields of a header stand (section 4.1.1 of RFC 1035). */
  lemma HeaderLayout(msg: bytes)
    ensures ParseHeader(msg).Ok? <==> |msg| >= 12
    ensures |msg| >= 12 ==>
              var h := ParseHeader(msg).value;
              && h.id == msg[0] as int * 0x100 + msg[1]
              && h.flags == FlagWord(msg[2] as int * 0x100 + msg[3])
              && h.qdCount == msg[4] as int * 0x100 + msg[5] && h.anCount == msg[6] as int * 0x100 + msg[7]
              && h.nsCount == msg[8] as int * 0x100 + msg[9] && h.arCount == msg[10] as int * 0x100 + msg[11]
  {
    if |msg| >= 12 {
      FlagWordAt(msg);
    }
  }

  function FlagWord(v: u16): bv16 {
    v as bv16
  }

  lemma FlagWordAt(msg: bytes)
    requires |msg| >= 12
    ensures ParseHeader(msg).value.flags == FlagWord(msg[2] as int * 0x100 + msg[3])
  {
    var v: u16 := msg[2] as int * 0x100 + msg[3];
    assert Get16(msg, 2) == v;
    assert ParseHeader(msg).value.flags == Get16(msg, 2) as bv16;
  }

  /** The bits of the flag word. */
  lemma HeaderBits(h: Header)
    ensures h.Response() <==> h.flags & 0x8000 != 0
    ensures h.Opcode() == (h.flags >> 11) & 0xF && h.Rcode() == h.flags & 0xF
  {
  }

  /** The type and the class of a question are the four octets after its name, which starts at octet 12. */
  lemma QuestionLayout(msg: bytes)
    ensures match FirstQuestion(msg)
            case Err(_) => ReadPlainName(msg, 12).Err? || ReadPlainName(msg, 12).value.next + 4 > |msg|
            case Ok(q) =>
              && ReadPlainName(msg, 12).Ok?
              && q.name == NameText(ReadPlainName(msg, 12).value.labels) && q.end == ReadPlainName(msg, 12).value.next + 4
              && q.end <= |msg|
              && q.qtype == msg[q.end - 4] as int * 0x100 + msg[q.end - 3]
              && q.qclass == msg[q.end - 2] as int * 0x100 + msg[q.end - 1]
  {
    PlainNameSizes(msg);
    hide ReadPlainName, NameText;
  }

  lemma PlainNameSizes(msg: bytes)
    ensures ReadPlainName(msg, 12).Ok? ==> 12 < ReadPlainName(msg, 12).value.next <= |msg|
  {
  }

  /** The fields of a record are the ten octets before its RDATA, which follow its name. */
  lemma {:induction false} RecordLayout(msg: bytes, off: nat, section: nat)
    ensures match RecordAt(msg, off, section)
            case Err(_) =>
              || ReadName(msg, off, 0).Err?
              || var at := ReadName(msg, off, 0).value.next + 10;
                 at > |msg| || at + (msg[at - 2] as int * 0x100 + msg[at - 1]) > |msg|
            case Ok(p) =>
              var at := p.dataStart;
              && ReadName(msg, off, 0).Ok? && at == ReadName(msg, off, 0).value.next + 10
              && p.name == NameText(ReadName(msg, off, 0).value.labels) && p.End() <= |msg|
              && p.rtype == msg[at - 10] as int * 0x100 + msg[at - 9]
              && p.rclass == msg[at - 8] as int * 0x100 + msg[at - 7]
              && p.ttl == ((msg[at - 6] as int * 0x100 + msg[at - 5]) * 0x100 + msg[at - 4]) * 0x100 + msg[at - 3]
              && p.dataLen == msg[at - 2] as int * 0x100 + msg[at - 1]
  {
    hide ReadName, NameText;
  }

  /** A reply is a response, keeps the request's opcode and RD bit, and carries the extra bits
      and the rcode; no other bit is set. */
  lemma ReplyFlagBits(request: bv16, extra: bv16, rcode: bv16)
    ensures ReplyFlags(request, extra, rcode) == 0x8000 | (request & 0x7900) | extra | (rcode & 0x000F)
  {
  }
}
