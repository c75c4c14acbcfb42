/** Reverse resolution: `ResolvePTR` of internal/store/store.go as a search for a minimum. */
module Resolution {
  import opened Results
  import opened Bytes
  import opened Addresses
  import opened Ordering
  import opened Registry

  /** `name` is mapped and its current address is `a`. */
  predicate ResolvesTo(t: IPText, r: Registry, name: bytes, a: Address) {
    name in r.mappings && Resolve(t, r, r.mappings[name]) == Some(a)
  }

  /** The first of `names` whose current address is `a`. */
  function FirstMatch(t: IPText, r: Registry, names: seq<bytes>, a: Address): Option<bytes> {
    if names == [] then None
    else if ResolvesTo(t, r, names[0], a) then Some(names[0])
    else FirstMatch(t, r, names[1..], a)
  }

  lemma {:induction false} FirstMatchStarts(t: IPText, r: Registry, names: seq<bytes>, a: Address)
    ensures FirstMatch(t, r, names, a) == FirstMatch(t, r, names[0..], a)
  {
    assert names[0..] == names;
  }

  lemma {:induction false} FirstMatchEnds(t: IPText, r: Registry, names: seq<bytes>, a: Address)
    ensures FirstMatch(t, r, names[|names|..], a) == None
  {
  }

  /** One more name tried. */
  lemma {:induction false} FirstMatchNext(t: IPText, r: Registry, names: seq<bytes>, a: Address, i: nat)
    requires i < |names|
    ensures names[i] in names
    ensures FirstMatch(t, r, names[i..], a) ==
            if ResolvesTo(t, r, names[i], a) then Some(names[i]) else FirstMatch(t, r, names[i + 1..], a)
  {
    assert names[i..][1..] == names[i + 1..];
  }

  /** What `ResolvePTR` returns. */
  ghost function ResolvePtr(t: IPText, r: Registry, a: Address): Option<bytes> {
    FirstMatch(t, r, Sorted(r.mappings.Keys), a)
  }

  lemma {:induction false} FirstMatchLeast(t: IPText, r: Registry, names: seq<bytes>, a: Address)
    requires Strict(names, NameKey)
    ensures match FirstMatch(t, r, names, a)
            case Some(h) =>
              h in names && ResolvesTo(t, r, h, a)
              && forall n :: n in names && n != h && ResolvesTo(t, r, n, a) ==> Lt(h, n)
            case None => forall n :: n in names ==> !ResolvesTo(t, r, n, a)
  {
    if names == [] {
    } else {
      FirstMatchLeast(t, r, names[1..], a);
      forall n | n in names && n != names[0]
        ensures KeyLt(NameKey(names[0]), NameKey(n)) && Lt(names[0], n)
      {
        LtIrreflexive([]);
      }
    }
  }

  /** `ResolvePTR` finds a name exactly when some mapping currently has the address, and then
      the least such name; the order in which the map is walked does not matter. */
  lemma ResolvePtrIsLeast(t: IPText, r: Registry, a: Address)
    ensures match ResolvePtr(t, r, a)
            case Some(h) =>
              ResolvesTo(t, r, h, a) && forall n :: ResolvesTo(t, r, n, a) && n != h ==> Lt(h, n)
            case None => forall n :: !ResolvesTo(t, r, n, a)
  {
    FirstMatchLeast(t, r, Sorted(r.mappings.Keys), a);
  }
}
