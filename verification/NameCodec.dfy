/**
 Domain names on the wire: `EncodeName`, `decodeNameUncompressed` and
 `decodeName` of internal/dnsmsg/dnsmsg.go (sections 2.3.4, 3.1 and 4.1.4 of RFC 1035).
 */
module NameCodec {
  import opened Results
  import opened Bytes
  import opened Text

  datatype Error = Short | BadName

  const MAX_LABEL := 63
  const MAX_TOTAL := 255
  const MAX_HOPS := 16
  const POINTER_BITS: byte := 0xC0

  // ---------------------------------------------------------------------
  // Wire form
  // ---------------------------------------------------------------------

  predicate ValidLabel(l: bytes) {
    1 <= |l| <= MAX_LABEL
  }

  predicate ValidLabels(labels: seq<bytes>) {
    forall l :: l in labels ==> ValidLabel(l)
  }

  /** Each label preceded by its length octet, without the final zero octet. */
  function WireLabels(labels: seq<bytes>): bytes
    requires ValidLabels(labels)
  {
    if labels == [] then []
    else
      assert ValidLabel(labels[0]);
      var length: byte := |labels[0]|;
      [length] + labels[0] + WireLabels(labels[1..])
  }

  lemma {:induction false} WireLabelsConcat(a: seq<bytes>, b: seq<bytes>)
    requires ValidLabels(a) && ValidLabels(b)
    ensures ValidLabels(a + b)
    ensures WireLabels(a + b) == WireLabels(a) + WireLabels(b)
  {
    if a == [] {
      assert a + b == b;
    } else {
      assert (a + b)[1..] == a[1..] + b;
      WireLabelsConcat(a[1..], b);
    }
  }

  /** The text of a name is one octet shorter than its labels on the wire. */
  lemma {:induction false} JoinLength(labels: seq<bytes>)
    requires ValidLabels(labels)
    ensures |Join(labels)| == if labels == [] then 0 else |WireLabels(labels)| - 1
    ensures labels != [] ==> |Join(labels)| >= 1
  {
    if labels == [] {
    } else {
      assert ValidLabel(labels[0]);
      JoinLength(labels[1..]);
    }
  }

  /** `strings.TrimSuffix(name, ".")`. */
  function TrimDot(name: bytes): bytes {
    TrimSuffix(name, [DOT])
  }

  /** The labels the encoder is about to write. */
  function NameLabels(name: bytes): seq<bytes> {
    if name == [] || name == [DOT] then [] else Split(TrimDot(name))
  }

  /** What `EncodeName` computes. */
  function WireName(name: bytes): Result<bytes, Error> {
    var labels := NameLabels(name);
    if ValidLabels(labels) && |WireLabels(labels)| + 1 <= MAX_TOTAL
    then Ok(WireLabels(labels) + [0])
    else Err(BadName)
  }

  lemma WireLabelsNext(labels: seq<bytes>, i: nat)
    requires i < |labels| && ValidLabels(labels[..i]) && ValidLabel(labels[i])
    ensures ValidLabels(labels[..i + 1])
    ensures var length: byte := |labels[i]|;
            WireLabels(labels[..i + 1]) == WireLabels(labels[..i]) + [length] + labels[i]
  {
    assert labels[..i + 1] == labels[..i] + [labels[i]];
    WireLabelsConcat(labels[..i], [labels[i]]);
    assert WireLabels([labels[i]]) == [|labels[i]|] + labels[i] + WireLabels([]);
  }

  /** `EncodeName`: the labels are checked and appended one at a time. */
  method EncodeName(name: bytes) returns (r: Result<bytes, Error>)
    ensures r == WireName(name)
  {
    if name == [] || name == [DOT] {
      assert WireLabels([]) + [0] == [0];
      return Ok([0]);
    }
    var labels := Split(TrimDot(name));
    var out: bytes := [];
    for i := 0 to |labels|
      invariant ValidLabels(labels[..i]) && out == WireLabels(labels[..i])
    {
      var piece := labels[i];
      assert ValidLabel(piece) <==> piece != [] && |piece| <= MAX_LABEL;
      if piece == [] {
        return Err(BadName);
      }
      if |piece| > MAX_LABEL {
        return Err(BadName);
      }
      WireLabelsNext(labels, i);
      out := out + [|piece|];
      out := out + piece;
    }
    assert labels[..|labels|] == labels;
    if |out| + 1 > MAX_TOTAL {
      return Err(BadName);
    }
    return Ok(out + [0]);
  }

  /** `EncodeName` accepts exactly the root and, after one trailing dot is dropped,
      the texts of at most 253 octets whose labels all have 1 to 63 octets. */
  lemma EncodeNameAccepts(name: bytes)
    ensures WireName(name).Ok? <==>
            (name == [] || name == [DOT] || (ValidLabels(Split(TrimDot(name))) && |TrimDot(name)| <= 253))
    ensures WireName(name).Ok? && NameLabels(name) != [] ==> |WireName(name).value| == |TrimDot(name)| + 2
  {
    var labels := NameLabels(name);
    if labels != [] && ValidLabels(labels) {
      JoinLength(labels);
      JoinSplit(TrimDot(name));
    }
  }

  // ---------------------------------------------------------------------
  // Reading
  // ---------------------------------------------------------------------

  /** Labels up to, and the offset of, the octet that ends them: a zero or a pointer. */
  datatype Segment = Segment(labels: seq<bytes>, end: nat)

  /** The label loop shared by both decoders; `total` counts the octets read before. */
  function ReadSegment(msg: bytes, off: nat, total: nat): (r: Result<Segment, Error>)
    ensures r.Ok? ==> off <= r.value.end < |msg|
    ensures r.Ok? ==> msg[r.value.end] == 0 || msg[r.value.end] >= POINTER_BITS
    ensures r.Ok? ==> ValidLabels(r.value.labels)
    decreases |msg| - off
  {
    if off >= |msg| then Err(Short)
    else
      var b := msg[off];
      if b == 0 || b >= POINTER_BITS then Ok(Segment([], off))
      else if b >= 0x40 then Err(BadName)
      else if off + 1 + b > |msg| then Err(Short)
      else if total + b + 1 > MAX_TOTAL then Err(BadName)
      else
        match ReadSegment(msg, off + 1 + b, total + b + 1)
        case Err(e) => Err(e)
        case Ok(s) => Ok(Segment([msg[off + 1..off + 1 + b]] + s.labels, s.end))
  }

  /** Labels of a whole name, and the offset just after its first segment. */
  datatype Decoded = Decoded(labels: seq<bytes>, next: nat)

  /** What `decodeNameUncompressed` computes, as labels in their original case. */
  function ReadPlainName(msg: bytes, off: nat): Result<Decoded, Error> {
    match ReadSegment(msg, off, 0)
    case Err(e) => Err(e)
    case Ok(s) => if msg[s.end] == 0 then Ok(Decoded(s.labels, s.end + 1)) else Err(BadName)
  }

  /** The 14-bit offset of a compression pointer. */
  function PointerTarget(msg: bytes, off: nat): nat
    requires off + 1 < |msg| && msg[off] >= POINTER_BITS
  {
    (msg[off] - POINTER_BITS) as int * 0x100 + msg[off + 1]
  }

  /** What `decodeName` computes, as labels in their original case. */
  function ReadName(msg: bytes, off: nat, depth: nat): (r: Result<Decoded, Error>)
    ensures r.Ok? ==> off < r.value.next <= |msg|
    decreases MAX_HOPS + 1 - depth
  {
    if depth > MAX_HOPS then Err(BadName)
    else
      match ReadSegment(msg, off, 0)
      case Err(e) => Err(e)
      case Ok(s) =>
        if msg[s.end] == 0 then Ok(Decoded(s.labels, s.end + 1))
        else if s.end + 1 >= |msg| then Err(Short)
        else
          match ReadName(msg, PointerTarget(msg, s.end), depth + 1)
          case Err(e) => Err(e)
          case Ok(d) => Ok(Decoded(s.labels + d.labels, s.end + 2))
  }

  /** The text the decoders return: labels joined by dots, in lower case. */
  function NameText(labels: seq<bytes>): bytes {
    Lower(Join(labels))
  }

  datatype TextAt = TextAt(text: bytes, next: nat)

  function AsText(r: Result<Decoded, Error>): Result<TextAt, Error> {
    match r
    case Err(e) => Err(e)
    case Ok(d) => Ok(TextAt(NameText(d.labels), d.next))
  }

  /** Labels already read, put in front of the rest of the segment. */
  function After(read: seq<bytes>, rest: Result<Segment, Error>): Result<Segment, Error> {
    match rest
    case Err(e) => Err(e)
    case Ok(s) => Ok(Segment(read + s.labels, s.end))
  }

  /** The bytes the builder holds once `piece` follows what it held before. */
  function Extend(sb: bytes, piece: bytes): bytes {
    (if |sb| > 0 then sb + [DOT] else sb) + Lower(piece)
  }

  lemma {:induction false} ExtendText(read: seq<bytes>, more: seq<bytes>)
    requires ValidLabels(read)
    ensures NameText(read + more) ==
            if more == [] then NameText(read) else Extend(NameText(read), Join(more))
  {
    JoinLength(read);
    JoinConcat(read, more);
    LowerConcat(Join(read) + [DOT], Join(more));
    LowerConcat(Join(read), [DOT]);
    assert Lower([DOT]) == [DOT];
    assert Join([]) == [];
    hide Join, Lower, WireLabels;
  }

  /** What a decoding loop that started at `start` knows when it has come to `off`. */
  ghost predicate Reading(msg: bytes, start: nat, off: nat, total: nat, read: seq<bytes>, sb: bytes) {
    && ValidLabels(read)
    && sb == NameText(read)
    && ReadSegment(msg, start, 0) == After(read, ReadSegment(msg, off, total))
  }

  lemma ReadingStarts(msg: bytes, start: nat)
    ensures Reading(msg, start, start, 0, [], [])
  {
    var whole := ReadSegment(msg, start, 0);
    if whole.Ok? {
      assert [] + whole.value.labels == whole.value.labels;
    }
  }

  lemma ReadingLabel(msg: bytes, start: nat, off: nat, total: nat, read: seq<bytes>, sb: bytes, piece: bytes)
    requires Reading(msg, start, off, total, read, sb)
    requires off < |msg| && 0 < msg[off] < 0x40 && off + 1 + msg[off] <= |msg|
    requires total + msg[off] + 1 <= MAX_TOTAL
    requires piece == msg[off + 1..off + 1 + msg[off]]
    ensures Reading(msg, start, off + 1 + msg[off], total + msg[off] + 1, read + [piece], Extend(sb, piece))
  {
    ExtendText(read, [piece]);
    hide NameText, Extend;
    var rest := ReadSegment(msg, off + 1 + msg[off], total + msg[off] + 1);
    if rest.Ok? {
      assert read + ([piece] + rest.value.labels) == read + [piece] + rest.value.labels;
    }
  }

  lemma {:induction false} ReadingEnds(msg: bytes, start: nat, off: nat, total: nat, read: seq<bytes>, sb: bytes)
    requires Reading(msg, start, off, total, read, sb)
    requires off < |msg| && (msg[off] == 0 || msg[off] >= POINTER_BITS)
    ensures ReadSegment(msg, start, 0) == Ok(Segment(read, off)) && sb == NameText(read)
  {
    assert read + [] == read;
  }

  lemma {:induction false} ReadingFails(msg: bytes, start: nat, off: nat, total: nat, read: seq<bytes>, sb: bytes, e: Error)
    requires Reading(msg, start, off, total, read, sb) && ReadSegment(msg, off, total) == Err(e)
    ensures ReadSegment(msg, start, 0) == Err(e)
  {
  }

  /** One turn of the label loop. */
  lemma SegmentStep(msg: bytes, off: nat, total: nat)
    requires off < |msg|
    ensures msg[off] == 0 || msg[off] >= POINTER_BITS ==> ReadSegment(msg, off, total) == Ok(Segment([], off))
    ensures 0 < msg[off] < 0x40 && off + 1 + msg[off] <= |msg| && total + msg[off] + 1 <= MAX_TOTAL ==>
              ReadSegment(msg, off, total) ==
              After([msg[off + 1..off + 1 + msg[off]]], ReadSegment(msg, off + 1 + msg[off], total + msg[off] + 1))
  {
  }

  /** Why the label loop stops with an error, if it does. */
  lemma {:induction false} SegmentErrors(msg: bytes, off: nat, total: nat)
    ensures off >= |msg| ==> ReadSegment(msg, off, total) == Err(Short)
    ensures off < |msg| && 0x40 <= msg[off] < POINTER_BITS ==> ReadSegment(msg, off, total) == Err(BadName)
    ensures off < |msg| && 0 < msg[off] < 0x40 && off + 1 + msg[off] > |msg| ==>
              ReadSegment(msg, off, total) == Err(Short)
    ensures off < |msg| && 0 < msg[off] < 0x40 && off + 1 + msg[off] <= |msg| && total + msg[off] + 1 > MAX_TOTAL ==>
              ReadSegment(msg, off, total) == Err(BadName)
  {
  }

  /** The byte loop that copies one label into the builder in lower case. */
  method AppendLower(sb: bytes, piece: bytes) returns (r: bytes)
    ensures r == Extend(sb, piece)
  {
    r := sb;
    if |sb| > 0 {
      r := r + [DOT];
    }
    ghost var head := r;
    for i := 0 to |piece|
      invariant r == head + Lower(piece[..i])
    {
      assert Lower(piece[..i + 1]) == Lower(piece[..i]) + [LowerByte(piece[i])];
      r := r + [LowerByte(piece[i])];
    }
    assert piece[..|piece|] == piece;
  }

  /** `decodeNameUncompressed`. */
  method DecodeNameUncompressed(msg: bytes, start: nat) returns (r: Result<TextAt, Error>)
    ensures r == AsText(ReadPlainName(msg, start))
  {
    hide ReadSegment, Reading;
    var off: nat, total: nat, sb: bytes := start, 0, [];
    ghost var read: seq<bytes> := [];
    ReadingStarts(msg, start);
    while true
      invariant Reading(msg, start, off, total, read, sb)
      decreases |msg| - off
    {
      SegmentErrors(msg, off, total);
      if off >= |msg| {
        ReadingFails(msg, start, off, total, read, sb, Short);
        return Err(Short);
      }
      var l := msg[off];
      if l == 0 {
        ReadingEnds(msg, start, off, total, read, sb);
        off := off + 1;
        return Ok(TextAt(sb, off));
      }
      if l >= 0x40 {
        if l >= POINTER_BITS {
          ReadingEnds(msg, start, off, total, read, sb);
        } else {
          ReadingFails(msg, start, off, total, read, sb, BadName);
        }
        return Err(BadName);
      }
      if off + 1 + l > |msg| {
        ReadingFails(msg, start, off, total, read, sb, Short);
        return Err(Short);
      }
      if total + l + 1 > MAX_TOTAL {
        ReadingFails(msg, start, off, total, read, sb, BadName);
        return Err(BadName);
      }
      var piece := msg[off + 1..off + 1 + l];
      ReadingLabel(msg, start, off, total, read, sb, piece);
      sb := AppendLower(sb, piece);
      read := read + [piece];
      off, total := off + 1 + l, total + l + 1;
    }
  }

  /** Text of a segment followed by the text its pointer leads to. */
  function WithPart(sb: bytes, part: bytes): bytes {
    if part == [] then sb else if |sb| > 0 then sb + [DOT] + part else part
  }

  lemma PartText(read: seq<bytes>, tail: seq<bytes>)
    requires ValidLabels(read) && ValidLabels(tail)
    ensures NameText(read + tail) == WithPart(NameText(read), NameText(tail))
  {
    JoinLength(tail);
    ExtendText(read, tail);
  }

  function AfterPointer(sb: bytes, next: nat, part: Result<TextAt, Error>): Result<TextAt, Error> {
    match part
    case Err(e) => Err(e)
    case Ok(p) => Ok(TextAt(WithPart(sb, p.text), next))
  }

  /** A segment that ends in a pointer takes the rest of its text from the target. */
  lemma FollowPointer(msg: bytes, start: nat, depth: nat, read: seq<bytes>, off: nat)
    requires depth <= MAX_HOPS && ReadSegment(msg, start, 0) == Ok(Segment(read, off))
    requires off + 1 < |msg| && msg[off] >= POINTER_BITS
    ensures AsText(ReadName(msg, start, depth)) ==
            AfterPointer(NameText(read), off + 2, AsText(ReadName(msg, PointerTarget(msg, off), depth + 1)))
  {
    var target := PointerTarget(msg, off);
    if ReadName(msg, target, depth + 1).Ok? {
      ReadNameLabels(msg, target, depth + 1);
      PartText(read, ReadName(msg, target, depth + 1).value.labels);
    }
  }

  /** `decodeName`. */
  method DecodeName(msg: bytes, start: nat, depth: nat) returns (r: Result<TextAt, Error>)
    ensures r == AsText(ReadName(msg, start, depth))
    decreases MAX_HOPS + 1 - depth
  {
    hide ReadSegment, Reading;
    if depth > MAX_HOPS {
      return Err(BadName);
    }
    var off: nat, total: nat, sb: bytes := start, 0, [];
    ghost var read: seq<bytes> := [];
    ReadingStarts(msg, start);
    while true
      invariant Reading(msg, start, off, total, read, sb)
      decreases |msg| - off
    {
      SegmentErrors(msg, off, total);
      if off >= |msg| {
        ReadingFails(msg, start, off, total, read, sb, Short);
        return Err(Short);
      }
      var b := msg[off];
      if b == 0 {
        ReadingEnds(msg, start, off, total, read, sb);
        return Ok(TextAt(sb, off + 1));
      } else if b >= POINTER_BITS {
        ReadingEnds(msg, start, off, total, read, sb);
        if off + 1 >= |msg| {
          return Err(Short);
        }
        FollowPointer(msg, start, depth, read, off);
        var part := DecodeName(msg, PointerTarget(msg, off), depth + 1);
        if part.Err? {
          return Err(part.error);
        }
        ghost var built := sb;
        if part.value.text != [] {
          if |sb| > 0 {
            sb := sb + [DOT];
          }
          sb := sb + part.value.text;
        }
        assert sb == WithPart(built, part.value.text);
        return Ok(TextAt(sb, off + 2));
      } else if b >= 0x40 {
        ReadingFails(msg, start, off, total, read, sb, BadName);
        return Err(BadName);
      }
      if off + 1 + b > |msg| {
        ReadingFails(msg, start, off, total, read, sb, Short);
        return Err(Short);
      }
      if total + b + 1 > MAX_TOTAL {
        ReadingFails(msg, start, off, total, read, sb, BadName);
        return Err(BadName);
      }
      var piece := msg[off + 1..off + 1 + b];
      ReadingLabel(msg, start, off, total, read, sb, piece);
      sb := AppendLower(sb, piece);
      read := read + [piece];
      off, total := off + 1 + b, total + b + 1;
    }
  }

  lemma {:induction false} ReadNameLabels(msg: bytes, off: nat, depth: nat)
    requires ReadName(msg, off, depth).Ok?
    ensures ValidLabels(ReadName(msg, off, depth).value.labels)
    decreases MAX_HOPS + 1 - depth
  {
    var s := ReadSegment(msg, off, 0).value;
    if msg[s.end] == 0 {
    } else {
      ReadNameLabels(msg, PointerTarget(msg, s.end), depth + 1);
    }
  }
}
