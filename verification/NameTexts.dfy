/**
 Decoded names octet by octet: which octet of the message each octet of a decoded text comes from, where
 compression pointers lead, and that the case of letters does not matter (sections 2.3.3 and 4.1.4 of
 RFC 1035; internal/dnsmsg/dnsmsg.go).
 */
module NameTexts {
  import opened Results
  import opened Bytes
  import opened Text
  import opened NameCodec
  import opened NameTheorems
  import opened Message

  // ---------------------------------------------------------------------
  // The octets of a text
  // ---------------------------------------------------------------------

  /** The octet at `at` is the length of a label of the segment that starts at `off`. */
  ghost predicate LengthAt(msg: bytes, off: nat, at: nat)
    decreases |msg| - off
  {
    off < |msg| && 0 < msg[off] < 0x40
    && (at == off || (off + 1 + msg[off] <= at && LengthAt(msg, off + 1 + msg[off], at)))
  }

  /** What stands in a text for the octet at `at`: a dot for a length, a small letter for a capital
      one, and any other octet itself. */
  ghost function Spelled(msg: bytes, off: nat, at: nat): int
    requires at < |msg|
  {
    if LengthAt(msg, off, at) then 0x2E
    else if 0x41 <= msg[at] <= 0x5A then msg[at] as int + 0x20
    else msg[at]
  }

  /** `text` is spelled by the octets that follow the first length octet at `off`. */
  ghost predicate Spells(msg: bytes, off: nat, text: bytes) {
    off + |text| < |msg| &&
    forall i :: 0 <= i < |text| ==> text[i] == Spelled(msg, off, off + 1 + i)
  }

  lemma LowerAt(l: bytes, i: nat)
    requires i < |l|
    ensures Lower(l)[i] == if 0x41 <= l[i] <= 0x5A then l[i] as int + 0x20 else l[i] as int
  {
  }

  /** The first label of a segment, and the length octet that follows it, if any. */
  lemma FirstLabelSpelled(msg: bytes, off: nat, total: nat, labels: seq<bytes>, end: nat)
    requires SegmentAt(msg, off, total, labels, end) && labels != []
    ensures var n := |labels[0]|;
            && off + n < end
            && forall i :: 0 <= i < n ==> Lower(labels[0])[i] == Spelled(msg, off, off + 1 + i)
  {
    var l := labels[0];
    SegmentTail(msg, off, total, labels, end);
    hide SegmentAt, Lower;
    forall i | 0 <= i < |l|
      ensures Lower(l)[i] == Spelled(msg, off, off + 1 + i)
    {
      LowerAt(l, i);
      assert msg[off + 1..off + 1 + |l|][i] == msg[off + 1 + i];
      assert !LengthAt(msg, off, off + 1 + i);
    }
  }

  /** Lengths of later labels are lengths of the segment. */
  lemma LaterLengths(msg: bytes, off: nat, at: nat)
    requires off < |msg| && 0 < msg[off] < 0x40 && off + 1 + msg[off] <= at < |msg|
    ensures Spelled(msg, off, at) == Spelled(msg, off + 1 + msg[off], at)
  {
  }

  /** The text of a segment, octet by octet. */
  lemma {:induction false} SegmentSpelled(msg: bytes, off: nat, total: nat, labels: seq<bytes>, end: nat)
    requires SegmentAt(msg, off, total, labels, end)
    ensures Spells(msg, off, NameText(labels))
    ensures |NameText(labels)| == if labels == [] then 0 else end - off - 1
    decreases |labels|
  {
    hide NameText, Spells, Spelled, SegmentAt;
    TextLength(msg, off, total, labels, end);
    if labels == [] {
      NoText(msg, off);
    } else if |labels| == 1 {
      FirstLabelSpelled(msg, off, total, labels, end);
      ShortText(msg, off, labels);
    } else {
      var n := |labels[0]|;
      FirstLabelSpelled(msg, off, total, labels, end);
      SegmentTail(msg, off, total, labels, end);
      SegmentTail(msg, off + 1 + n, total + 1 + n, labels[1..], end);
      SegmentSpelled(msg, off + 1 + n, total + 1 + n, labels[1..], end);
      LongerText(msg, off, labels);
    }
  }

  lemma TextLength(msg: bytes, off: nat, total: nat, labels: seq<bytes>, end: nat)
    requires SegmentAt(msg, off, total, labels, end)
    ensures |NameText(labels)| == (if labels == [] then 0 else end - off - 1) && off <= end < |msg|
  {
    JoinLength(labels);
  }

  lemma NoText(msg: bytes, off: nat)
    requires off < |msg|
    ensures Spells(msg, off, NameText([]))
  {
  }

  lemma ShortText(msg: bytes, off: nat, labels: seq<bytes>)
    requires |labels| == 1 && off + |labels[0]| < |msg|
    requires forall i :: 0 <= i < |labels[0]| ==> Lower(labels[0])[i] == Spelled(msg, off, off + 1 + i)
    ensures Spells(msg, off, NameText(labels))
  {
    hide Lower, Spelled;
  }

  lemma LongerText(msg: bytes, off: nat, labels: seq<bytes>)
    requires |labels| > 1
    requires var n := |labels[0]|;
             && 1 <= n <= 63 && off + 1 + n < |msg| && msg[off] == n && 0 < msg[off + 1 + n] < 0x40
             && (forall i :: 0 <= i < n ==> Lower(labels[0])[i] == Spelled(msg, off, off + 1 + i))
             && Spells(msg, off + 1 + n, NameText(labels[1..]))
    ensures Spells(msg, off, NameText(labels))
  {
    var n, rest := |labels[0]|, NameText(labels[1..]);
    LowerConcat(labels[0] + [DOT], Join(labels[1..]));
    LowerConcat(labels[0], [DOT]);
    var text := NameText(labels);
    assert text == Lower(labels[0]) + [0x2E] + rest;
    hide NameText, Lower, Spelled;
    forall i | 0 <= i < |text|
      ensures text[i] == Spelled(msg, off, off + 1 + i)
    {
      if i == n {
        DotSpelled(msg, off);
      } else if i > n {
        LaterLengths(msg, off, off + 1 + i);
        assert text[i] == rest[i - n - 1];
      }
    }
  }

  lemma DotSpelled(msg: bytes, off: nat)
    requires off < |msg| && 0 < msg[off] < 0x40 && off + 1 + msg[off] < |msg| && 0 < msg[off + 1 + msg[off]] < 0x40
    ensures Spelled(msg, off, off + 1 + msg[off]) == 0x2E
  {
    assert LengthAt(msg, off + 1 + msg[off], off + 1 + msg[off]);
  }

  /** Every octet of the text `decodeNameUncompressed` returns: the wire octet, with capital letters made
      small, and a dot where the length of a later label stands. */
  lemma PlainTextSpelled(msg: bytes, off: nat)
    requires ReadPlainName(msg, off).Ok?
    ensures var r := AsText(ReadPlainName(msg, off)).value;
            && Spells(msg, off, r.text)
            && |r.text| == if msg[off] == 0 then 0 else r.next - off - 2
  {
    ReadSegmentIs(msg, off, 0);
    var s := ReadSegment(msg, off, 0).value;
    SegmentSpelled(msg, off, 0, s.labels, s.end);
    if s.labels != [] {
      SegmentTail(msg, off, 0, s.labels, s.end);
    }
    hide NameText, Spells;
  }

  /** No decoder returns a capital letter. */
  lemma {:induction false} NoCapitals(msg: bytes, off: nat, depth: nat)
    ensures ReadName(msg, off, depth).Ok? ==>
              forall c :: c in AsText(ReadName(msg, off, depth)).value.text ==> !(0x41 <= c <= 0x5A)
    ensures ReadPlainName(msg, off).Ok? ==>
              forall c :: c in AsText(ReadPlainName(msg, off)).value.text ==> !(0x41 <= c <= 0x5A)
  {
    hide ReadName, ReadPlainName, Join;
    assert forall s: bytes, c :: c in Lower(s) ==> !(0x41 <= c <= 0x5A);
  }

  // ---------------------------------------------------------------------
  // Pointers
  // ---------------------------------------------------------------------

  /** A segment that ends in a pointer is read as its own text and, after a dot, the text of the name the
      pointer's lower 14 bits lead to; the name ends right after the pointer. */
  lemma PointedText(msg: bytes, off: nat, depth: nat, labels: seq<bytes>, end: nat)
    requires SegmentAt(msg, off, 0, labels, end) && msg[end] >= 0xC0 && end + 1 < |msg| && depth <= 16
    ensures var target := (msg[end] - 0xC0) as int * 0x100 + msg[end + 1];
            match ReadName(msg, target, depth + 1)
            case Err(e) => ReadName(msg, off, depth) == Err(e)
            case Ok(d) =>
              && AsText(ReadName(msg, off, depth)).Ok?
              && var r, own, pointed := AsText(ReadName(msg, off, depth)).value, NameText(labels), NameText(d.labels);
              && Spells(msg, off, own) && r.next == end + 2
              && r.text == if own == [] then pointed else if pointed == [] then own else own + [0x2E] + pointed
  {
    SegmentReads(msg, off, 0, labels, end);
    SegmentSpelled(msg, off, 0, labels, end);
    FollowPointer(msg, off, depth, labels, end);
    hide ReadSegment, SegmentAt, Spells, NameText;
  }

  /** For every offset below 0x4000, the two octets that point to it are read as the name that stands
      there, and end after them. */
  lemma PointerIsFollowed(msg: bytes, at: nat, off: nat, depth: nat)
    requires off < 0x4000 && depth < 16
    requires at + 1 < |msg| && msg[at] == 0xC0 + off / 0x100 && msg[at + 1] == off % 0x100
    ensures match ReadName(msg, off, depth + 1)
            case Err(e) => ReadName(msg, at, depth) == Err(e)
            case Ok(d) => ReadName(msg, at, depth) == Ok(Decoded(d.labels, at + 2))
  {
    assert (msg[at] - 0xC0) as int * 0x100 + msg[at + 1] == off;
    assert ReadSegment(msg, at, 0) == Ok(Segment([], at));
    if ReadName(msg, off, depth + 1).Ok? {
      var labels := ReadName(msg, off, depth + 1).value.labels;
      assert [] + labels == labels;
    }
  }

  /** What `NamePtr` writes for such an offset is read so, wherever it stands. */
  lemma NamePtrIsFollowed(msg: bytes, at: nat, off: nat, depth: nat)
    requires off < 0x4000 && depth < 16 && Holds(msg, at, NamePtr(off))
    ensures match ReadName(msg, off, depth + 1)
            case Err(e) => ReadName(msg, at, depth) == Err(e)
            case Ok(d) => ReadName(msg, at, depth) == Ok(Decoded(d.labels, at + 2))
  {
    assert msg[at..at + 2][0] == msg[at] && msg[at..at + 2][1] == msg[at + 1];
    hide ReadName;
    PointerIsFollowed(msg, at, off, depth);
  }

  // ---------------------------------------------------------------------
  // Encoding
  // ---------------------------------------------------------------------

  /** A trailing dot makes no difference to the encoder. */
  lemma TrailingDot(name: bytes)
    requires name == [] || name[|name| - 1] != 0x2E
    ensures WireName(name + [0x2E]) == WireName(name)
  {
    var dotted := name + [0x2E];
    if name == [] {
      assert dotted == [DOT];
    } else {
      TrimSuffixConcat(name, [DOT]);
      assert name[|name| - 1..] == [name[|name| - 1]];
      assert TrimDot(dotted) == name == TrimDot(name);
      assert name != [DOT] && |dotted| > 1;
      hide WireLabels, Split;
    }
  }

  // ---------------------------------------------------------------------
  // Case
  // ---------------------------------------------------------------------

  /** The same octet, or the same letter in the other case. */
  ghost predicate CaseOnly(a: byte, b: byte) {
    b == a || (0x41 <= a <= 0x5A && b == a + 0x20) || (0x61 <= a <= 0x7A && b == a - 0x20)
  }

  lemma LowerCase(a: bytes, b: bytes)
    requires |a| == |b| && forall i :: 0 <= i < |a| ==> CaseOnly(a[i], b[i])
    ensures Lower(a) == Lower(b)
  {
  }

  /** A segment whose octets differ at most in case has the same end and the same small letters. */
  lemma {:induction false} SegmentCase(msg: bytes, other: bytes, off: nat, total: nat)
    requires |msg| == |other| && total <= MAX_TOTAL && ReadSegment(msg, off, total).Ok?
    requires forall i :: off <= i <= ReadSegment(msg, off, total).value.end ==> CaseOnly(msg[i], other[i])
    ensures ReadSegment(other, off, total).Ok?
    ensures var s, s' := ReadSegment(msg, off, total).value, ReadSegment(other, off, total).value;
            s'.end == s.end && LowerLabels(s'.labels) == LowerLabels(s.labels) && other[s.end] == msg[s.end]
    decreases |msg| - off
  {
    hide ReadSegment, CaseOnly, Lower, LowerLabels;
    var b := msg[off];
    SegmentErrors(msg, off, total);
    LengthCase(b, other[off]);
    SegmentStep(msg, off, total);
    SegmentStep(other, off, total);
    if b == 0 || b >= POINTER_BITS {
    } else {
      var next := off + 1 + b;
      SegmentCase(msg, other, next, total + b + 1);
      var l, l' := msg[off + 1..next], other[off + 1..next];
      forall i | 0 <= i < |l|
        ensures CaseOnly(l[i], l'[i])
      {
        assert l[i] == msg[off + 1 + i] && l'[i] == other[off + 1 + i];
      }
      LowerCase(l, l');
      CaseLabels(l, ReadSegment(msg, next, total + b + 1).value.labels);
      CaseLabels(l', ReadSegment(other, next, total + b + 1).value.labels);
    }
  }

  lemma LengthCase(a: byte, b: byte)
    requires CaseOnly(a, b) && (a < 0x40 || a >= 0xC0)
    ensures b == a
  {
  }

  lemma {:induction false} CaseLabels(l: bytes, labels: seq<bytes>)
    ensures LowerLabels([l] + labels) == [Lower(l)] + LowerLabels(labels)
  {
    assert ([l] + labels)[1..] == labels;
  }

  /** Two messages whose question names differ at most in the case of letters, and which are otherwise the
      same octets, ask the same question. */
  lemma CaseIsIgnored(req: bytes, other: bytes, q: Question)
    requires FirstQuestion(req) == Ok(q) && |other| == |req|
    requires forall i :: 0 <= i < |req| ==> other[i] == req[i] || (12 <= i < q.end - 4 && CaseOnly(req[i], other[i]))
    ensures FirstQuestion(other) == Ok(q) && ParseHeader(other) == ParseHeader(req)
  {
    hide ReadSegment, LowerLabels, NameText;
    var s := ReadSegment(req, 12, 0).value;
    SegmentCase(req, other, 12, 0);
    LowerLabelsText(s.labels);
    LowerLabelsText(ReadSegment(other, 12, 0).value.labels);
  }
}
