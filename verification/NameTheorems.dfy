/**
 What the name codec guarantees: the decoder reads exactly the names section 4.1.4
 of RFC 1035 describes, it only looks at the octets it consumes, and it undoes the encoder.
 */
module NameTheorems {
  import opened Results
  import opened Bytes
  import opened Text
  import opened NameCodec

  // ---------------------------------------------------------------------
  // One segment
  // ---------------------------------------------------------------------

  /** `msg[off..end]` is the wire form of `labels`, and a zero or a pointer follows. */
  ghost predicate SegmentAt(msg: bytes, off: nat, total: nat, labels: seq<bytes>, end: nat) {
    && ValidLabels(labels)
    && total + |WireLabels(labels)| <= 255
    && off + |WireLabels(labels)| == end < |msg|
    && msg[off..end] == WireLabels(labels)
    && (msg[end] == 0 || msg[end] >= 0xC0)
  }

  lemma SegmentTail(msg: bytes, off: nat, total: nat, labels: seq<bytes>, end: nat)
    requires SegmentAt(msg, off, total, labels, end) && labels != []
    ensures var n := |labels[0]|;
            && 1 <= n <= MAX_LABEL && off + 1 + n <= end && msg[off] == n
            && msg[off + 1..off + 1 + n] == labels[0]
            && SegmentAt(msg, off + 1 + n, total + 1 + n, labels[1..], end)
  {
    var wire, l := WireLabels(labels), labels[0];
    assert ValidLabel(l);
    assert msg[off] == wire[0] == |l|;
    assert wire[1 + |l|..] == WireLabels(labels[1..]);
    assert wire[1..1 + |l|] == l;
    SubSlice(msg, off, end, 1, 1 + |l|);
    SubSlice(msg, off, end, 1 + |l|, end - off);
  }

  lemma SegmentFits(msg: bytes, off: nat, total: nat, labels: seq<bytes>, end: nat)
    requires SegmentAt(msg, off, total, labels, end) && labels != []
    ensures off < |msg| && off + 1 + |labels[0]| <= |msg| && total + |labels[0]| + 1 <= 255
  {
  }

  lemma {:induction false} SegmentReads(msg: bytes, off: nat, total: nat, labels: seq<bytes>, end: nat)
    requires SegmentAt(msg, off, total, labels, end)
    ensures ReadSegment(msg, off, total) == Ok(Segment(labels, end))
    decreases |labels|
  {
    if labels == [] {
    } else {
      var n := |labels[0]|;
      SegmentTail(msg, off, total, labels, end);
      SegmentStep(msg, off, total);
      SegmentFits(msg, off, total, labels, end);
      hide ReadSegment, SegmentAt;
      SegmentReads(msg, off + 1 + n, total + 1 + n, labels[1..], end);
      assert [labels[0]] + labels[1..] == labels;
    }
  }

  lemma {:induction false} ReadSegmentIs(msg: bytes, off: nat, total: nat)
    requires total <= MAX_TOTAL && ReadSegment(msg, off, total).Ok?
    ensures var s := ReadSegment(msg, off, total).value; SegmentAt(msg, off, total, s.labels, s.end)
    decreases |msg| - off
  {
    var b := msg[off];
    if b == 0 || b >= POINTER_BITS {
    } else {
      ReadSegmentIs(msg, off + 1 + b, total + b + 1);
      var rest := ReadSegment(msg, off + 1 + b, total + b + 1).value;
      SegmentCons(msg, off, total, rest.labels, rest.end);
      hide SegmentAt;
    }
  }

  lemma SegmentCons(msg: bytes, off: nat, total: nat, labels: seq<bytes>, end: nat)
    requires off < |msg| && 0 < msg[off] < 0x40 && off + 1 + msg[off] <= |msg|
    requires SegmentAt(msg, off + 1 + msg[off], total + msg[off] + 1, labels, end)
    ensures SegmentAt(msg, off, total, [msg[off + 1..off + 1 + msg[off]]] + labels, end)
  {
    var n := msg[off];
    var l := msg[off + 1..off + 1 + n];
    assert ([l] + labels)[1..] == labels;
    assert msg[off..end] == [n] + l + msg[off + 1 + n..end];
  }

  /** Reading a segment is deciding `SegmentAt`. */
  lemma {:induction false} SegmentExact(msg: bytes, off: nat, labels: seq<bytes>, end: nat)
    ensures ReadSegment(msg, off, 0) == Ok(Segment(labels, end)) <==> SegmentAt(msg, off, 0, labels, end)
  {
    if ReadSegment(msg, off, 0).Ok? {
      ReadSegmentIs(msg, off, 0);
    }
    if SegmentAt(msg, off, 0, labels, end) {
      SegmentReads(msg, off, 0, labels, end);
    }
  }

  /** A segment is read from its own octets and its terminator, wherever they stand. */
  lemma {:induction false} SegmentLocal(msg: bytes, other: bytes, off: nat)
    requires ReadSegment(msg, off, 0).Ok?
    requires ReadSegment(msg, off, 0).value.end < |other|
    requires forall i :: off <= i <= ReadSegment(msg, off, 0).value.end ==> other[i] == msg[i]
    ensures ReadSegment(other, off, 0) == ReadSegment(msg, off, 0)
  {
    var s := ReadSegment(msg, off, 0).value;
    ReadSegmentIs(msg, off, 0);
    assert other[off..s.end] == msg[off..s.end];
    SegmentReads(other, off, 0, s.labels, s.end);
  }

  // ---------------------------------------------------------------------
  // The compressed decoder is exact
  // ---------------------------------------------------------------------

  datatype Hop = Hop(off: nat, labels: seq<bytes>, end: nat)

  ghost predicate HopAt(msg: bytes, h: Hop) {
    SegmentAt(msg, h.off, 0, h.labels, h.end)
  }

  /** The pointer at `at`: two bits set, and 14 bits that are the offset. */
  ghost predicate PointsTo(msg: bytes, at: nat, target: nat) {
    at + 1 < |msg| && msg[at] >= 0xC0 && target == (msg[at] - 0xC0) as int * 0x100 + msg[at + 1]
  }

  /** Section 4.1.4 of RFC 1035: label sequences, each but the last ending in a pointer to
      the next, the last ending in a zero octet. */
  ghost predicate Chain(msg: bytes, off: nat, hops: seq<Hop>) {
    && hops != []
    && hops[0].off == off
    && (forall i :: 0 <= i < |hops| ==> HopAt(msg, hops[i]))
    && (forall i, j :: 0 <= i && j == i + 1 && j < |hops| ==> PointsTo(msg, hops[i].end, hops[j].off))
    && msg[hops[|hops| - 1].end] == 0
  }

  ghost function ChainLabels(hops: seq<Hop>): seq<bytes> {
    if hops == [] then [] else hops[0].labels + ChainLabels(hops[1..])
  }

  ghost function ChainName(hops: seq<Hop>): Decoded
    requires hops != []
  {
    Decoded(ChainLabels(hops), hops[0].end + if |hops| == 1 then 1 else 2)
  }

  lemma {:induction false} ChainReads(msg: bytes, off: nat, depth: nat, hops: seq<Hop>)
    requires Chain(msg, off, hops) && depth + |hops| <= MAX_HOPS + 1
    ensures ReadName(msg, off, depth) == Ok(ChainName(hops))
    decreases |hops|
  {
    hide ReadSegment, WireLabels;
    var h := hops[0];
    assert HopAt(msg, h);
    SegmentReads(msg, off, 0, h.labels, h.end);
    if |hops| == 1 {
      assert h.labels + ChainLabels(hops[1..]) == h.labels;
    } else {
      var rest := hops[1..];
      assert PointsTo(msg, hops[0].end, hops[1].off);
      ChainReads(msg, hops[1].off, depth + 1, rest);
    }
  }

  lemma {:induction false} ReadNameChain(msg: bytes, off: nat, depth: nat) returns (hops: seq<Hop>)
    requires ReadName(msg, off, depth).Ok?
    ensures Chain(msg, off, hops) && depth + |hops| <= MAX_HOPS + 1
    ensures ReadName(msg, off, depth) == Ok(ChainName(hops))
    decreases MAX_HOPS + 1 - depth
  {
    hide ReadSegment, SegmentAt;
    var s := ReadSegment(msg, off, 0).value;
    ReadSegmentIs(msg, off, 0);
    var h := Hop(off, s.labels, s.end);
    if msg[s.end] == 0 {
      hops := [h];
      assert s.labels + ChainLabels(hops[1..]) == s.labels;
    } else {
      var rest := ReadNameChain(msg, PointerTarget(msg, s.end), depth + 1);
      hops := [h] + rest;
      assert hops[1..] == rest;
    }
  }

  /** `decodeName` succeeds exactly on the names of at most 16 pointers whose segments
      have at most 255 octets each, and returns their labels and the end of the first segment. */
  lemma {:induction false} DecodeNameExact(msg: bytes, off: nat, d: Decoded)
    ensures ReadName(msg, off, 0) == Ok(d) <==>
            exists hops :: Chain(msg, off, hops) && |hops| <= 17 && d == ChainName(hops)
  {
    if ReadName(msg, off, 0) == Ok(d) {
      var hops := ReadNameChain(msg, off, 0);
      assert Chain(msg, off, hops) && d == ChainName(hops);
    }
    forall hops | Chain(msg, off, hops) && |hops| <= 17
      ensures ReadName(msg, off, 0) == Ok(ChainName(hops))
    {
      ChainReads(msg, off, 0, hops);
    }
  }

  /** Every name in a message is read the same after octets are appended and from a smaller depth. */
  lemma {:induction false} ReadNameStable(msg: bytes, more: bytes, off: nat, depth: nat, shallower: nat)
    requires ReadName(msg, off, depth).Ok? && shallower <= depth
    ensures ReadName(msg + more, off, shallower) == ReadName(msg, off, depth)
    decreases MAX_HOPS + 1 - depth
  {
    hide ReadSegment;
    var s := ReadSegment(msg, off, 0).value;
    SegmentLocal(msg, msg + more, off);
    if msg[s.end] == 0 {
    } else {
      ReadNameStable(msg, more, PointerTarget(msg, s.end), depth + 1, shallower + 1);
    }
  }

  /** Where the uncompressed decoder succeeds the compressed one returns the same, at any depth. */
  lemma {:induction false} PlainNameAgrees(msg: bytes, off: nat, depth: nat)
    requires depth <= MAX_HOPS
    ensures ReadPlainName(msg, off).Ok? ==> ReadName(msg, off, depth) == ReadPlainName(msg, off)
  {
  }

  /** The uncompressed decoder accepts exactly the single segments that end in a zero octet. */
  lemma PlainNameExact(msg: bytes, off: nat, d: Decoded)
    ensures ReadPlainName(msg, off) == Ok(d) <==>
            d.next >= 1 && SegmentAt(msg, off, 0, d.labels, d.next - 1) && msg[d.next - 1] == 0
  {
    if d.next >= 1 {
      SegmentExact(msg, off, d.labels, d.next - 1);
    }
  }

  /** A plain name takes at most 256 octets, two more than its text unless it is the root. */
  lemma PlainNameSize(msg: bytes, off: nat)
    requires ReadPlainName(msg, off).Ok?
    ensures var d := ReadPlainName(msg, off).value;
            && off < d.next <= |msg| && d.next - off <= 256
            && d.next - off == if d.labels == [] then 1 else |NameText(d.labels)| + 2
  {
    ReadSegmentIs(msg, off, 0);
    JoinLength(ReadPlainName(msg, off).value.labels);
  }

  /** The longest name a decoder of this depth can return. */
  function MaxText(depth: nat): nat
    requires depth <= MAX_HOPS
  {
    (MAX_HOPS + 1 - depth) * 254 + (MAX_HOPS - depth)
  }

  lemma {:induction false} DecodedLength(msg: bytes, off: nat, depth: nat)
    requires ReadName(msg, off, depth).Ok?
    ensures |NameText(ReadName(msg, off, depth).value.labels)| <= MaxText(depth)
    decreases MAX_HOPS + 1 - depth
  {
    var s := ReadSegment(msg, off, 0).value;
    ReadSegmentIs(msg, off, 0);
    JoinLength(s.labels);
    if msg[s.end] == 0 {
    } else {
      var target := PointerTarget(msg, s.end);
      DecodedLength(msg, target, depth + 1);
      JoinConcat(s.labels, ReadName(msg, target, depth + 1).value.labels);
    }
  }

  /** No accepted name has more than 4334 characters of text, whatever its pointers do. */
  lemma {:induction false} DecodedLengthBound(msg: bytes, off: nat)
    requires ReadName(msg, off, 0).Ok?
    ensures |NameText(ReadName(msg, off, 0).value.labels)| <= 4334
  {
    DecodedLength(msg, off, 0);
  }

  // ---------------------------------------------------------------------
  // The encoder and the decoder undo each other
  // ---------------------------------------------------------------------

  lemma {:induction false} PlainLabelsRead(msg: bytes, off: nat, labels: seq<bytes>)
    requires ValidLabels(labels) && |WireLabels(labels)| <= MAX_TOTAL
    requires Holds(msg, off, WireLabels(labels) + [0])
    ensures ReadPlainName(msg, off) == Ok(Decoded(labels, off + |WireLabels(labels)| + 1))
  {
    hide ReadSegment, WireLabels;
    var end := off + |WireLabels(labels)|;
    HoldsConcat(msg, off, WireLabels(labels), [0]);
    assert msg[end] == msg[end..end + 1][0];
    SegmentReads(msg, off, 0, labels, end);
  }

  /** Joining the labels the encoder wrote gives the name without its trailing dot. */
  lemma NameLabelsText(name: bytes)
    ensures Join(NameLabels(name)) == TrimDot(name)
  {
    JoinSplit(TrimDot(name));
  }

  /** What `EncodeName` wrote is read back, in lower case, at any offset of any message,
      by both decoders and from any depth, and the end offset is exact. */
  lemma {:induction false} DecodeEncode(name: bytes, msg: bytes, off: nat, depth: nat)
    requires WireName(name).Ok? && Holds(msg, off, WireName(name).value) && depth <= MAX_HOPS
    ensures AsText(ReadPlainName(msg, off)) == Ok(TextAt(Lower(TrimDot(name)), off + |WireName(name).value|))
    ensures ReadName(msg, off, depth) == ReadPlainName(msg, off)
  {
    hide ReadName, ReadPlainName, NameLabels, Join;
    PlainLabelsRead(msg, off, NameLabels(name));
    PlainNameAgrees(msg, off, depth);
    NameLabelsText(name);
  }

  function LowerLabels(labels: seq<bytes>): (r: seq<bytes>)
    ensures |r| == |labels|
  {
    if labels == [] then [] else [Lower(labels[0])] + LowerLabels(labels[1..])
  }

  lemma {:induction false} LowerLabelsWire(labels: seq<bytes>)
    requires ValidLabels(labels)
    ensures ValidLabels(LowerLabels(labels))
    ensures |WireLabels(LowerLabels(labels))| == |WireLabels(labels)|
  {
    if labels == [] {
    } else {
      assert ValidLabel(labels[0]) && LowerLabels(labels)[1..] == LowerLabels(labels[1..]);
      LowerLabelsWire(labels[1..]);
    }
  }

  lemma {:induction false} LowerLabelsText(labels: seq<bytes>)
    ensures NameText(labels) == Join(LowerLabels(labels))
  {
    if labels == [] {
    } else {
      var l := labels[0];
      assert LowerLabels(labels)[1..] == LowerLabels(labels[1..]);
      LowerLabelsText(labels[1..]);
      LowerConcat(l + [DOT], Join(labels[1..]));
      LowerConcat(l, [DOT]);
    }
  }

  lemma {:induction false} LowerLabelsDots(labels: seq<bytes>)
    ensures NoDots(labels) <==> NoDots(LowerLabels(labels))
  {
    if labels == [] {
    } else {
      var low := LowerLabels(labels);
      assert low[1..] == LowerLabels(labels[1..]);
      LowerLabelsDots(labels[1..]);
      LowerDots(labels[0]);
      assert NoDots(labels) <==> DOT !in labels[0] && NoDots(labels[1..]);
      assert NoDots(low) <==> DOT !in low[0] && NoDots(low[1..]);
    }
  }

  lemma LowerDots(l: bytes)
    ensures DOT in l <==> DOT in Lower(l)
  {
    if DOT in l {
      var i :| 0 <= i < |l| && l[i] == DOT;
      assert Lower(l)[i] == DOT;
    }
  }

  /** Encoding the text of labels gives their wire form, in lower case, exactly when no label has a
      dot in it and the labels take at most 254 octets. */
  lemma {:induction false} LabelsEncode(labels: seq<bytes>)
    requires ValidLabels(labels)
    ensures var low := LowerLabels(labels);
            && ValidLabels(low) && |WireLabels(low)| == |WireLabels(labels)|
            && (WireName(NameText(labels)) == Ok(WireLabels(low) + [0]) <==>
                NoDots(labels) && |WireLabels(labels)| <= 254)
  {
    LowerLabelsWire(labels);
    LowerLabelsText(labels);
    LowerLabelsDots(labels);
    Reencode(LowerLabels(labels));
  }

  /** What `decodeName` accepts at any depth can be encoded again, in lower case, exactly when no
      label has a dot in it and the labels of all its segments take at most 254 octets. */
  lemma {:induction false} EncodeDecode(msg: bytes, off: nat, depth: nat)
    requires ReadName(msg, off, depth).Ok?
    ensures var labels := ReadName(msg, off, depth).value.labels;
            var low := LowerLabels(labels);
            ValidLabels(labels) && ValidLabels(low) &&
            (WireName(NameText(labels)) == Ok(WireLabels(low) + [0]) <==>
             NoDots(labels) && |WireLabels(labels)| <= 254)
  {
    hide ReadName, WireName;
    ReadNameLabels(msg, off, depth);
    LabelsEncode(ReadName(msg, off, depth).value.labels);
  }

  /** The same for `decodeNameUncompressed`. */
  lemma EncodeDecodePlain(msg: bytes, off: nat)
    requires ReadPlainName(msg, off).Ok?
    ensures var labels := ReadPlainName(msg, off).value.labels;
            var low := LowerLabels(labels);
            ValidLabels(labels) && ValidLabels(low) &&
            (WireName(NameText(labels)) == Ok(WireLabels(low) + [0]) <==>
             NoDots(labels) && |WireLabels(labels)| <= 254)
  {
    hide WireName;
    LabelsEncode(ReadPlainName(msg, off).value.labels);
  }

  function Letters(n: nat): (l: bytes)
    ensures |l| == n && forall c :: c in l ==> c == 0x61
  {
    if n == 0 then [] else [0x61] + Letters(n - 1)
  }

  /** Labels of 63, 63, 63 and 62 octets: with the final zero 256 octets, which the decoder accepts
      and the encoder refuses. */
  lemma LongestNameRefused()
    ensures var labels := [Letters(63), Letters(63), Letters(63), Letters(62)];
            && ValidLabels(labels) && |WireLabels(labels) + [0]| == 256
            && ReadPlainName(WireLabels(labels) + [0], 0) == Ok(Decoded(labels, 256))
            && WireName(NameText(labels)) == Err(BadName)
  {
    var a, b := Letters(63), Letters(62);
    var labels := [a, a, a, b];
    assert labels[1..] == [a, a, b] && [a, a, b][1..] == [a, b] && [a, b][1..] == [b];
    var wire := WireLabels(labels) + [0];
    assert |WireLabels([b])| == 63 && |WireLabels([a, b])| == 127 && |WireLabels([a, a, b])| == 191;
    hide Letters, WireLabels, ReadPlainName, WireName;
    assert wire[0..256] == wire;
    PlainLabelsRead(wire, 0, labels);
    LowerLabelsWire(labels);
    LowerLabelsText(labels);
    LowerLabelsDots(labels);
    JoinEncodes(LowerLabels(labels));
  }

  /** One label that reads "a.b": encoding its text writes two labels. */
  lemma DottedLabelSplits()
    ensures var msg: bytes := [3, 0x61, DOT, 0x62, 0];
            && ReadPlainName(msg, 0) == Ok(Decoded([[0x61, DOT, 0x62]], 5))
            && WireName(NameText([[0x61, DOT, 0x62]])) == Ok([1, 0x61, 1, 0x62, 0])
  {
    var msg: bytes, l: bytes := [3, 0x61, DOT, 0x62, 0], [0x61, DOT, 0x62];
    assert [l][1..] == [];
    assert WireLabels([l]) + [0] == msg;
    assert msg[0..5] == msg;
    PlainLabelsRead(msg, 0, [l]);
    assert NameText([l]) == l;
    DottedTextEncodes();
  }

  lemma DottedTextEncodes()
    ensures WireName([0x61, DOT, 0x62]) == Ok([1, 0x61, 1, 0x62, 0])
  {
    var a: bytes, b: bytes := [0x61], [0x62];
    var name: bytes := [0x61, DOT, 0x62];
    assert name == a + [DOT] + b && name[2..] == b;
    SplitOne(a);
    SplitOne(b);
    SplitConcat(a, b);
    hide Split;
    assert TrimDot(name) == name;
    assert NameLabels(name) == [a] + [b] == [a, b];
    assert [a, b][1..] == [b];
    assert WireLabels([b]) == [1, 0x62] + [];
    assert WireLabels([a, b]) == [1, 0x61] + WireLabels([b]);
    assert WireLabels([a, b]) + [0] == [1, 0x61, 1, 0x62, 0];
  }

  lemma {:induction false} Reencode(low: seq<bytes>)
    requires ValidLabels(low)
    ensures WireName(Join(low)) == Ok(WireLabels(low) + [0]) <==> NoDots(low) && |WireLabels(low)| <= 254
  {
    var name := Join(low);
    if NoDots(low) {
      JoinEncodes(low);
    }
    if WireName(name) == Ok(WireLabels(low) + [0]) {
      var wire := WireLabels(low) + [0];
      PlainLabelsRead(wire, 0, NameLabels(name));
      PlainLabelsRead(wire, 0, low);
      SplitNoDots(TrimDot(name));
    }
  }

  /** The encoder splits a joined name back into the labels it came from. */
  lemma {:induction false} JoinEncodes(labels: seq<bytes>)
    requires ValidLabels(labels) && NoDots(labels)
    ensures NameLabels(Join(labels)) == labels
    ensures WireName(Join(labels)) ==
            if |WireLabels(labels)| <= 254 then Ok(WireLabels(labels) + [0]) else Err(BadName)
  {
    if labels != [] {
      var name, last := Join(labels), labels[|labels| - 1];
      assert ValidLabel(last);
      JoinEnd(labels);
      JoinLength(labels);
      assert last[|last| - 1] in last;
      assert !HasSuffix(name, [DOT]) by {
        assert name[|name| - 1..][0] == name[|name| - 1];
      }
      SplitJoin(labels);
    }
  }

  lemma {:induction false} JoinEnd(labels: seq<bytes>)
    requires labels != [] && ValidLabels(labels)
    ensures var last := labels[|labels| - 1];
            |Join(labels)| >= |last| >= 1 && Join(labels)[|Join(labels)| - 1] == last[|last| - 1]
  {
    assert ValidLabel(labels[|labels| - 1]);
    if |labels| == 1 {
    } else {
      var rest := labels[1..];
      assert Join(labels) == labels[0] + [DOT] + Join(rest) && rest[|rest| - 1] == labels[|labels| - 1];
      hide Join;
      JoinEnd(rest);
    }
  }
}
