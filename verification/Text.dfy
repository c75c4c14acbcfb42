/** The parts of Go's `strings` package the program uses, on ASCII text. */
module Text {
  import opened Bytes

  const DOT: byte := 0x2E

  /** ASCII lower case of one octet. */
  function LowerByte(c: byte): byte {
    if 0x41 <= c <= 0x5A then c + 0x20 else c
  }

  function Lower(s: bytes): (r: bytes)
    ensures |r| == |s|
  {
    seq(|s|, i requires 0 <= i < |s| => LowerByte(s[i]))
  }

  /** `strings.Split(s, ".")`: never empty, and `""` splits into one empty label. */
  function Split(s: bytes): (r: seq<bytes>)
    ensures |r| >= 1
  {
    if s == [] then [[]]
    else
      var rest := Split(s[1..]);
      if s[0] == DOT then [[]] + rest else [[s[0]] + rest[0]] + rest[1..]
  }

  /** Labels written with dots between them. */
  function Join(labels: seq<bytes>): bytes {
    if labels == [] then []
    else if |labels| == 1 then labels[0]
    else labels[0] + [DOT] + Join(labels[1..])
  }

  predicate NoDots(labels: seq<bytes>) {
    forall l :: l in labels ==> DOT !in l
  }

  lemma {:induction false} SplitNoDots(s: bytes)
    ensures NoDots(Split(s))
  {
    if s == [] {
    } else {
      SplitNoDots(s[1..]);
    }
  }

  lemma {:induction false} JoinSplit(s: bytes)
    ensures Join(Split(s)) == s
  {
    if s == [] {
    } else {
      JoinSplit(s[1..]);
      var rest := Split(s[1..]);
      if s[0] == DOT {
        assert ([[]] + rest)[1..] == rest;
      } else if |rest| > 1 {
        assert ([[s[0]] + rest[0]] + rest[1..])[1..] == rest[1..];
      }
    }
  }

  /** The first octet of a text and its labels. */
  lemma {:induction false} SplitFirst(s: bytes)
    ensures s == [] ==> Split(s) == [[]]
    ensures s != [] && s[0] == DOT ==> Split(s) == [[]] + Split(s[1..])
    ensures s != [] && s[0] != DOT ==> Split(s) == [[s[0]] + Split(s[1..])[0]] + Split(s[1..])[1..]
  {
  }

  lemma {:induction false} SplitConcat(a: bytes, b: bytes)
    ensures Split(a + [DOT] + b) == Split(a) + Split(b)
  {
    hide Split;
    SplitFirst(a + [DOT] + b);
    SplitFirst(a);
    if a == [] {
      assert ([DOT] + b)[1..] == b && [] + [DOT] + b == [DOT] + b;
    } else {
      assert (a + [DOT] + b)[1..] == a[1..] + [DOT] + b;
      SplitConcat(a[1..], b);
      assert (Split(a[1..]) + Split(b))[1..] == Split(a[1..])[1..] + Split(b);
    }
  }

  lemma {:induction false} SplitOne(l: bytes)
    requires DOT !in l
    ensures Split(l) == [l]
  {
    if l == [] {
    } else {
      SplitOne(l[1..]);
      assert [l[0]] + l[1..] == l;
    }
  }

  lemma {:induction false} SplitJoin(labels: seq<bytes>)
    requires labels != [] && NoDots(labels)
    ensures Split(Join(labels)) == labels
  {
    SplitOne(labels[0]);
    if |labels| <= 1 {
    } else {
      SplitJoin(labels[1..]);
      SplitConcat(labels[0], Join(labels[1..]));
    }
  }

  lemma LowerConcat(a: bytes, b: bytes)
    ensures Lower(a + b) == Lower(a) + Lower(b)
  {
  }

  /** Labels of two names joined side by side; an empty side adds no dot. */
  lemma {:induction false} JoinConcat(a: seq<bytes>, b: seq<bytes>)
    ensures Join(a + b) == if a == [] then Join(b) else if b == [] then Join(a) else Join(a) + [DOT] + Join(b)
  {
    if a == [] {
      assert a + b == b;
    } else if b == [] {
      assert a + b == a;
    } else {
      assert (a + b)[1..] == a[1..] + b;
      JoinConcat(a[1..], b);
    }
  }

  predicate HasSuffix(s: bytes, suffix: bytes) {
    |suffix| <= |s| && s[|s| - |suffix|..] == suffix
  }

  lemma SuffixStarts(s: bytes, suffix: bytes)
    ensures HasSuffix(s, suffix) && suffix != [] ==> suffix[0] in s
  {
    if HasSuffix(s, suffix) && suffix != [] {
      assert s[|s| - |suffix|..][0] == suffix[0];
    }
  }

  /** `strings.TrimSuffix`: at most one occurrence is removed. */
  function TrimSuffix(s: bytes, suffix: bytes): bytes {
    if HasSuffix(s, suffix) then s[..|s| - |suffix|] else s
  }

  lemma TrimSuffixConcat(s: bytes, suffix: bytes)
    ensures HasSuffix(s + suffix, suffix)
    ensures TrimSuffix(s + suffix, suffix) == s
  {
  }

  lemma {:induction false} SplitEndsInDot(s: bytes)
    requires HasSuffix(s, [DOT])
    ensures Split(s)[|Split(s)| - 1] == []
  {
    var a := s[..|s| - 1];
    assert s == a + [DOT] + [];
    SplitConcat(a, []);
  }

  /** A text consists of its labels' characters and of dots. */
  lemma {:induction false} SplitChars(s: bytes, c: byte)
    requires c in s && c != DOT
    ensures exists l :: l in Split(s) && c in l
  {
    if s == [] {
    } else {
      var rest := Split(s[1..]);
      if c in s[1..] {
        SplitChars(s[1..], c);
        var l :| l in rest && c in l;
        if s[0] != DOT && l == rest[0] {
          assert c in [s[0]] + rest[0] && [s[0]] + rest[0] in Split(s);
        } else {
          assert l in Split(s);
        }
      } else {
        assert s[0] == c && c in Split(s)[0] && Split(s)[0] in Split(s);
      }
    }
  }

  /** `strings.Trim` with a set of characters. */
  function TrimLeft(s: bytes, cut: set<byte>): bytes {
    if s != [] && s[0] in cut then TrimLeft(s[1..], cut) else s
  }

  function TrimRight(s: bytes, cut: set<byte>): bytes {
    if s != [] && s[|s| - 1] in cut then TrimRight(s[..|s| - 1], cut) else s
  }

  function Trim(s: bytes, cut: set<byte>): bytes {
    TrimRight(TrimLeft(s, cut), cut)
  }

  const SPACES: set<byte> := {0x09, 0x0A, 0x0B, 0x0C, 0x0D, 0x20}

  /** `strings.TrimSpace`. */
  function TrimSpace(s: bytes): bytes {
    Trim(s, SPACES)
  }

  /** White space, as far as it is ASCII. */
  predicate Blank(c: byte) {
    c == 0x20 || 0x09 <= c <= 0x0D
  }

  predicate AllBlank(s: bytes) {
    forall c :: c in s ==> Blank(c)
  }

  lemma {:induction false} TrimLeftIs(pre: bytes, rest: bytes, cut: set<byte>)
    requires (forall c :: c in pre ==> c in cut) && (rest == [] || rest[0] !in cut)
    ensures TrimLeft(pre + rest, cut) == rest
  {
    if pre == [] {
      assert pre + rest == rest;
    } else {
      assert pre[0] in pre && (pre + rest)[1..] == pre[1..] + rest;
      TrimLeftIs(pre[1..], rest, cut);
    }
  }

  lemma {:induction false} TrimRightIs(rest: bytes, post: bytes, cut: set<byte>)
    requires (forall c :: c in post ==> c in cut) && (rest == [] || rest[|rest| - 1] !in cut)
    ensures TrimRight(rest + post, cut) == rest
  {
    if post == [] {
      assert rest + post == rest;
    } else {
      var n := |post| - 1;
      assert post[n] in post && (rest + post)[..|rest + post| - 1] == rest + post[..n];
      TrimRightIs(rest, post[..n], cut);
    }
  }

  /** What trimming leaves of a text: everything between the outermost characters that are kept. */
  lemma TrimIs(pre: bytes, mid: bytes, post: bytes, cut: set<byte>)
    requires (forall c :: c in pre ==> c in cut) && (forall c :: c in post ==> c in cut)
    requires mid == [] || (mid[0] !in cut && mid[|mid| - 1] !in cut)
    ensures Trim(pre + mid + post, cut) == mid
  {
    if mid == [] {
      assert pre + mid + post == (pre + post) + [];
      TrimLeftIs(pre + post, [], cut);
    } else {
      assert pre + mid + post == pre + (mid + post);
      TrimLeftIs(pre, mid + post, cut);
      TrimRightIs(mid, post, cut);
    }
  }

  lemma {:induction false} TrimLeftParts(s: bytes, cut: set<byte>) returns (pre: bytes)
    ensures s == pre + TrimLeft(s, cut) && (forall c :: c in pre ==> c in cut)
    ensures var rest := TrimLeft(s, cut); rest == [] || rest[0] !in cut
  {
    if s != [] && s[0] in cut {
      var p := TrimLeftParts(s[1..], cut);
      pre := [s[0]] + p;
      assert s == [s[0]] + s[1..];
    } else {
      pre := [];
    }
  }

  lemma {:induction false} TrimRightParts(s: bytes, cut: set<byte>) returns (post: bytes)
    ensures s == TrimRight(s, cut) + post && (forall c :: c in post ==> c in cut)
    ensures var rest := TrimRight(s, cut); rest == [] || rest[|rest| - 1] !in cut
  {
    if s != [] && s[|s| - 1] in cut {
      var p := TrimRightParts(s[..|s| - 1], cut);
      post := p + [s[|s| - 1]];
      assert s == s[..|s| - 1] + [s[|s| - 1]];
    } else {
      post := [];
    }
  }

  /** Every text is what `TrimSpace` leaves of it between blanks. */
  lemma TrimSpaceParts(s: bytes) returns (pre: bytes, post: bytes)
    ensures s == pre + TrimSpace(s) + post && AllBlank(pre) && AllBlank(post)
  {
    pre := TrimLeftParts(s, SPACES);
    post := TrimRightParts(TrimLeft(s, SPACES), SPACES);
    assert pre + (TrimSpace(s) + post) == pre + TrimSpace(s) + post;
  }

  /** `TrimSpace` takes off exactly the blanks around a text. */
  lemma TrimSpaceIs(pre: bytes, mid: bytes, post: bytes)
    requires AllBlank(pre) && AllBlank(post)
    requires mid == [] || (!Blank(mid[0]) && !Blank(mid[|mid| - 1]))
    ensures TrimSpace(pre + mid + post) == mid
  {
    TrimIs(pre, mid, post, SPACES);
  }

  /** `low` is `s` with the letters A to Z replaced by a to z, and nothing else changed. */
  ghost predicate Folds(s: bytes, low: bytes) {
    |low| == |s| &&
    forall i :: 0 <= i < |s| ==> low[i] == if 0x41 <= s[i] <= 0x5A then s[i] + 0x20 else s[i]
  }

  lemma LowerIs(s: bytes, low: bytes)
    ensures Folds(s, low) <==> low == Lower(s)
  {
  }
}
