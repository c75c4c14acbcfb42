/** The order of Go strings and byte slices, and sorting by a pair of such keys. */
module Ordering {
  import opened Bytes

  /** `bytes.Compare(a, b) < 0`, which is `a < b` on strings. */
  predicate Lt(a: bytes, b: bytes) {
    b != [] && (a == [] || a[0] < b[0] || (a[0] == b[0] && Lt(a[1..], b[1..])))
  }

  /** The first difference decides, and a text comes before any longer one it begins. */
  lemma {:induction false} LtExact(a: bytes, b: bytes)
    ensures Lt(a, b) <==>
            exists i :: 0 <= i <= |a| && i < |b| && a[..i] == b[..i] && (i == |a| || a[i] < b[i])
  {
    if a == [] {
      assert b != [] ==> a[..0] == b[..0];
    } else if b == [] {
    } else if a[0] != b[0] {
      assert a[..0] == b[..0];
      assert forall i :: 0 < i <= |a| && i < |b| ==> a[..i][0] == a[0] && b[..i][0] == b[0];
    } else {
      LtExact(a[1..], b[1..]);
      assert forall i :: 0 <= i <= |a| - 1 && i < |b| - 1 ==>
               a[..i + 1] == [a[0]] + a[1..][..i] && b[..i + 1] == [b[0]] + b[1..][..i];
      forall i | 0 < i <= |a| && i < |b| && a[..i] == b[..i]
        ensures a[1..][..i - 1] == b[1..][..i - 1]
      {
        assert a[1..][..i - 1] == a[..i][1..] && b[1..][..i - 1] == b[..i][1..];
      }
      if Lt(a[1..], b[1..]) {
        var j :| 0 <= j <= |a| - 1 && j < |b| - 1 && a[1..][..j] == b[1..][..j]
                 && (j == |a| - 1 || a[1..][j] < b[1..][j]);
        assert a[..j + 1] == b[..j + 1];
      }
      forall i | 0 <= i <= |a| && i < |b| && a[..i] == b[..i] && (i == |a| || a[i] < b[i])
        ensures Lt(a[1..], b[1..])
      {
        assert i > 0 && a[1..][..i - 1] == b[1..][..i - 1];
      }
    }
  }

  lemma {:induction false} LtIrreflexive(a: bytes)
    ensures !Lt(a, a)
  {
    if a == [] {
    } else {
      LtIrreflexive(a[1..]);
    }
  }

  lemma {:induction false} LtTransitive(a: bytes, b: bytes, c: bytes)
    requires Lt(a, b) && Lt(b, c)
    ensures Lt(a, c)
  {
    if a == [] || a[0] != b[0] || b[0] != c[0] {
    } else {
      LtTransitive(a[1..], b[1..], c[1..]);
    }
  }

  lemma {:induction false} LtTotal(a: bytes, b: bytes)
    ensures a == b || Lt(a, b) || Lt(b, a)
  {
    if a == [] || b == [] || a[0] != b[0] {
    } else {
      LtTotal(a[1..], b[1..]);
      if a[1..] == b[1..] {
        assert a == [a[0]] + a[1..] == [b[0]] + b[1..] == b;
      }
    }
  }

  /** A sort key: a first criterion and one for ties. */
  datatype Key = Key(first: bytes, second: bytes)

  predicate KeyLt(a: Key, b: Key) {
    Lt(a.first, b.first) || (a.first == b.first && Lt(a.second, b.second))
  }

  lemma KeyLtTransitive(a: Key, b: Key, c: Key)
    requires KeyLt(a, b) && KeyLt(b, c)
    ensures KeyLt(a, c)
  {
    if Lt(a.first, b.first) && Lt(b.first, c.first) {
      LtTransitive(a.first, b.first, c.first);
    } else if a.first == b.first == c.first {
      LtTransitive(a.second, b.second, c.second);
    }
  }

  lemma KeyLtAsymmetric(a: Key, b: Key)
    ensures !(KeyLt(a, b) && KeyLt(b, a))
  {
    if KeyLt(a, b) && KeyLt(b, a) {
      KeyLtTransitive(a, b, a);
      LtIrreflexive(a.first);
      LtIrreflexive(a.second);
    }
  }

  lemma KeyLtTotal(a: Key, b: Key)
    ensures a == b || KeyLt(a, b) || KeyLt(b, a)
  {
    LtTotal(a.first, b.first);
    LtTotal(a.second, b.second);
  }

  /** Strictly increasing keys. */
  ghost predicate Strict<T(!new)>(xs: seq<T>, key: T -> Key) {
    forall i, j :: 0 <= i < j < |xs| ==> KeyLt(key(xs[i]), key(xs[j]))
  }

  ghost predicate DistinctKeys<T(!new)>(xs: seq<T>, key: T -> Key) {
    forall i, j :: 0 <= i < j < |xs| ==> key(xs[i]) != key(xs[j])
  }

  /** Insertion into a sorted sequence. */
  function Insert<T(!new)>(x: T, xs: seq<T>, key: T -> Key): (r: seq<T>)
    requires Strict(xs, key) && forall y :: y in xs ==> key(y) != key(x)
    ensures Strict(r, key) && |r| == |xs| + 1
    ensures forall y :: y in r <==> y == x || y in xs
  {
    if xs == [] then [x]
    else
      assert xs[0] in xs;
      KeyLtTotal(key(x), key(xs[0]));
      if KeyLt(key(x), key(xs[0])) then
        assert forall j :: 0 < j < |xs| ==> KeyLt(key(x), key(xs[j])) by {
          forall j | 0 < j < |xs| ensures KeyLt(key(x), key(xs[j])) {
            KeyLtTransitive(key(x), key(xs[0]), key(xs[j]));
          }
        }
        [x] + xs
      else
        var rest := Insert(x, xs[1..], key);
        assert forall y :: y in rest ==> KeyLt(key(xs[0]), key(y));
        [xs[0]] + rest
  }

  /** `sort.Slice` and `sort.Strings` on items whose keys are all different. */
  function SortBy<T(!new)>(xs: seq<T>, key: T -> Key): (r: seq<T>)
    requires DistinctKeys(xs, key)
    ensures Strict(r, key) && |r| == |xs|
    ensures forall y :: y in r <==> y in xs
  {
    if xs == [] then []
    else
      var rest := SortBy(xs[1..], key);
      assert forall y :: y in xs[1..] ==> key(y) != key(xs[0]);
      Insert(xs[0], rest, key)
  }

  /** There is only one way to sort a collection of items. */
  lemma {:induction false} SortingUnique<T(!new)>(a: seq<T>, b: seq<T>, key: T -> Key)
    requires Strict(a, key) && Strict(b, key) && forall y :: y in a <==> y in b
    ensures a == b
  {
    assert (a != [] ==> a[0] in b) && (b != [] ==> b[0] in a);
    if a == [] {
    } else {
      HeadsAgree(a, b, key);
      TailElements(a, b, key);
      SortingUnique(a[1..], b[1..], key);
      assert a == [a[0]] + a[1..] && b == [b[0]] + b[1..];
    }
  }

  lemma HeadsAgree<T(!new)>(a: seq<T>, b: seq<T>, key: T -> Key)
    requires a != [] && b != [] && Strict(a, key) && Strict(b, key) && a[0] in b && b[0] in a
    ensures a[0] == b[0]
  {
    KeyLtAsymmetric(key(a[0]), key(b[0]));
  }

  lemma TailElements<T(!new)>(a: seq<T>, b: seq<T>, key: T -> Key)
    requires a != [] && b != [] && Strict(a, key) && Strict(b, key) && a[0] == b[0]
    requires forall y :: y in a <==> y in b
    ensures forall y :: y in a[1..] <==> y in b[1..]
  {
    KeyLtAsymmetric(key(a[0]), key(a[0]));
    assert a[0] !in a[1..] && b[0] !in b[1..];
    assert forall y :: y in a <==> y == a[0] || y in a[1..];
    assert forall y :: y in b <==> y == b[0] || y in b[1..];
  }

  // ---------------------------------------------------------------------
  // Sorted names
  // ---------------------------------------------------------------------

  function NameKey(name: bytes): Key {
    Key(name, [])
  }

  /** `names` are the elements of `s` in increasing order. */
  ghost predicate Sorts(names: seq<bytes>, s: set<bytes>) {
    Strict(names, NameKey) && forall n :: n in names <==> n in s
  }

  /** The names of a map in an arbitrary order, then sorted, as every `range` followed by
      `sort.Strings` does. */
  method SortedNames(s: set<bytes>) returns (names: seq<bytes>)
    ensures Sorts(names, s)
  {
    var rest := s;
    names := [];
    while rest != {}
      invariant rest <= s
      invariant forall n :: n in names <==> n in s - rest
      invariant DistinctKeys(names, NameKey)
    {
      var n :| n in rest;
      assert forall i :: 0 <= i < |names| ==> names[i] in names;
      names := names + [n];
      rest := rest - {n};
    }
    names := SortBy(names, NameKey);
  }

  lemma SortsExists(s: set<bytes>)
    ensures exists names :: Sorts(names, s)
  {
    if s == {} {
      assert Sorts([], s);
    } else {
      var n :| n in s;
      SortsExists(s - {n});
      var names :| Sorts(names, s - {n});
      assert Sorts(Insert(n, names, NameKey), s);
    }
  }

  /** The elements of a set in increasing order. */
  ghost function Sorted(s: set<bytes>): (names: seq<bytes>)
    ensures Sorts(names, s)
  {
    SortsExists(s);
    var names :| Sorts(names, s);
    names
  }

  lemma SortedIs(names: seq<bytes>, s: set<bytes>)
    requires Sorts(names, s)
    ensures names == Sorted(s)
  {
    SortingUnique(names, Sorted(s), NameKey);
  }
}
