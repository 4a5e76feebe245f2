/** Removing duplicate dependency references from an array, in place. */
module Dedup {

  /** `subId` is a 32-bit signed number; 0 refers to the whole object. */
  datatype Addr = Addr(classId: nat, objectId: nat, subId: int)

  predicate SameObject(a: Addr, b: Addr) {
    a.classId == b.classId && a.objectId == b.objectId
  }

  function Unsigned(subId: int): int {
    if subId < 0 then subId + 0x1_0000_0000 else subId
  }

  ghost predicate Int32(a: Addr) {
    -0x8000_0000 <= a.subId < 0x8000_0000
  }

  /** `object_address_comparator`: negative, zero or positive. */
  function Compare(a: Addr, b: Addr): int {
    if a.classId < b.classId then -1
    else if a.classId > b.classId then 1
    else if a.objectId < b.objectId then -1
    else if a.objectId > b.objectId then 1
    else if Unsigned(a.subId) < Unsigned(b.subId) then -1
    else if Unsigned(a.subId) > Unsigned(b.subId) then 1
    else 0
  }

  ghost predicate Sorted(s: seq<Addr>) {
    && (forall i :: 0 <= i < |s| ==> Int32(s[i]))
    && forall i, j :: 0 <= i < j < |s| ==> Compare(s[i], s[j]) <= 0
  }

  ghost predicate StrictlySorted(s: seq<Addr>) {
    forall i, j :: 0 <= i < j < |s| ==> Compare(s[i], s[j]) < 0
  }

  /** A reference stays unless it is to a whole object that also has a reference to a part of it. */
  ghost predicate Kept(s: seq<Addr>, x: Addr) {
    x in s && (x.subId == 0 ==> forall y :: y in s && SameObject(x, y) ==> y.subId == 0)
  }

  /** One step of the compaction loop: `r` is what was kept so far, `x` the next reference. */
  function Absorb(r: seq<Addr>, x: Addr): seq<Addr>
    requires r != []
  {
    var prior := r[|r| - 1];
    if SameObject(prior, x) && prior.subId == x.subId then r
    else if SameObject(prior, x) && prior.subId == 0 then r[..|r| - 1] + [prior.(subId := x.subId)]
    else r + [x]
  }

  /** What the loop makes of a sorted sequence.  The last reference kept is the last one read. */
  function Compact(s: seq<Addr>): (r: seq<Addr>)
    ensures s != [] ==> r != [] && r[|r| - 1] == s[|s| - 1]
  {
    if |s| <= 1 then s else Absorb(Compact(s[..|s| - 1]), s[|s| - 1])
  }

  lemma {:induction false} SortedPrefix(t: seq<Addr>, x: Addr)
    requires Sorted(t + [x])
    ensures Sorted(t) && Int32(x) && forall y :: y in t ==> Compare(y, x) <= 0 && Int32(y)
  {
    assert forall i :: 0 <= i < |t| ==> (t + [x])[i] == t[i];
    assert (t + [x])[|t|] == x;
  }

  lemma {:induction false} Transitive(a: Addr, b: Addr, c: Addr)
    requires Compare(a, b) < 0 && Compare(b, c) < 0
    ensures Compare(a, c) < 0
  {
  }

  lemma {:induction false} StrictSnoc(r: seq<Addr>, x: Addr)
    requires StrictlySorted(r) && (r != [] ==> Compare(r[|r| - 1], x) < 0)
    ensures StrictlySorted(r + [x])
  {
    forall i | 0 <= i < |r| ensures Compare(r[i], x) < 0 {
      if i < |r| - 1 {
        Transitive(r[i], r[|r| - 1], x);
      }
    }
  }

  lemma {:induction false} StrictReplace(r: seq<Addr>, x: Addr)
    requires StrictlySorted(r) && r != [] && Compare(r[|r| - 1], x) < 0
    ensures StrictlySorted(r[..|r| - 1] + [x])
  {
    var n := |r| - 1;
    if n > 0 {
      Transitive(r[n - 1], r[n], x);
    }
    StrictSnoc(r[..n], x);
  }

  lemma {:induction false} AbsorbSorted(r: seq<Addr>, x: Addr)
    requires StrictlySorted(r) && r != [] && Compare(r[|r| - 1], x) <= 0 && Int32(r[|r| - 1]) && Int32(x)
    ensures StrictlySorted(Absorb(r, x))
  {
    if r[|r| - 1] != x {
      StrictSnoc(r, x);
      StrictReplace(r, x);
    }
  }

  lemma {:induction false} CompactSorted(s: seq<Addr>)
    requires Sorted(s)
    ensures StrictlySorted(Compact(s))
  {
    if |s| <= 1 {
    } else {
      var t, x := s[..|s| - 1], s[|s| - 1];
      assert s == t + [x];
      SortedPrefix(t, x);
      CompactSorted(t);
      AbsorbSorted(Compact(t), x);
    }
  }

  /** Between two references to one object there are only references to it. */
  lemma {:induction false} Sandwich(x: Addr, l: Addr, z: Addr)
    requires Compare(x, l) <= 0 && Compare(l, z) <= 0 && SameObject(x, z)
    ensures SameObject(l, z)
  {
  }

  /** How the references to keep change when one more is read. */
  lemma {:induction false} KeptStep(t: seq<Addr>, z: Addr, x: Addr)
    requires t != [] && Sorted(t + [z])
    ensures var l := t[|t| - 1];
      Kept(t + [z], x) <==>
        if z == l then Kept(t, x)
        else if SameObject(l, z) && l.subId == 0 then x == z || (Kept(t, x) && x != l)
        else x == z || Kept(t, x)
  {
    var l := t[|t| - 1];
    SortedPrefix(t, z);
    assert forall y :: y in t + [z] <==> y in t || y == z;
    if x in t && SameObject(x, z) {
      assert Compare(x, l) <= 0;
      Sandwich(x, l, z);
    }
  }

  lemma {:induction false} AbsorbMembers(r: seq<Addr>, z: Addr, x: Addr)
    requires StrictlySorted(r) && r != []
    ensures var l := r[|r| - 1];
      x in Absorb(r, z) <==>
        if z == l then x in r
        else if SameObject(l, z) && l.subId == 0 then x == z || (x in r && x != l)
        else x == z || x in r
  {
    assert r == r[..|r| - 1] + [r[|r| - 1]];
  }

  /** The result is strictly sorted and holds exactly the references to keep. */
  lemma {:induction false} CompactKeepsExactly(s: seq<Addr>, x: Addr)
    requires Sorted(s)
    ensures StrictlySorted(Compact(s))
    ensures x in Compact(s) <==> Kept(s, x)
  {
    CompactSorted(s);
    if |s| > 1 {
      var t, z := s[..|s| - 1], s[|s| - 1];
      assert s == t + [z];
      SortedPrefix(t, z);
      CompactKeepsExactly(t, x);
      KeptStep(t, z, x);
      AbsorbMembers(Compact(t), z, x);
    }
  }

  /** The loop body: compares `refs[oldref]` with the last reference kept. */
  method AbsorbInPlace(refs: array<Addr>, newrefs: nat, oldref: nat) returns (n: nat)
    requires 0 < newrefs <= oldref < refs.Length
    modifies refs
    ensures 0 < n <= oldref + 1 && refs[..n] == Absorb(old(refs[..newrefs]), old(refs[oldref]))
    ensures forall k :: oldref < k < refs.Length ==> refs[k] == old(refs[k])
  {
    var prior := newrefs - 1;
    var next := refs[oldref];
    ghost var r := refs[..newrefs];
    if SameObject(refs[prior], next) && refs[prior].subId == next.subId {
      n := newrefs;
    } else if SameObject(refs[prior], next) && refs[prior].subId == 0 {
      refs[prior] := refs[prior].(subId := next.subId);
      n := newrefs;
      assert refs[..n] == r[..prior] + [refs[prior]];
    } else {
      refs[newrefs] := next;
      n := newrefs + 1;
      assert refs[..n] == r + [next];
    }
  }

  method CompactInPlace(refs: array<Addr>, numrefs: nat, ghost sorted: seq<Addr>) returns (newrefs: nat)
    requires 1 < numrefs <= refs.Length && refs[..numrefs] == sorted
    modifies refs
    ensures newrefs <= numrefs && refs[..newrefs] == Compact(sorted)
  {
    newrefs := 1;
    var oldref := 1;
    assert refs[..1] == sorted[..1];
    while oldref < numrefs
      invariant 0 < newrefs <= oldref <= numrefs
      invariant refs[..newrefs] == Compact(sorted[..oldref])
      invariant forall k :: oldref <= k < numrefs ==> refs[k] == sorted[k]
    {
      assert sorted[..oldref + 1][..oldref] == sorted[..oldref];
      newrefs := AbsorbInPlace(refs, newrefs, oldref);
      oldref := oldref + 1;
    }
    assert sorted[..numrefs] == sorted;
  }

  lemma {:induction false} Singleton(s: seq<Addr>, t: seq<Addr>)
    requires multiset(s) == multiset(t) && |s| == |t| <= 1
    ensures s == t
  {
    if |s| == 1 {
      assert s[0] in multiset(s);
    }
  }

  lemma {:induction false} SamePermutation(s: seq<Addr>, t: seq<Addr>)
    requires multiset(s) == multiset(t)
    ensures |s| == |t| && forall x :: x in s <==> x in t
    ensures forall x :: Kept(s, x) <==> Kept(t, x)
  {
    assert |multiset(s)| == |s| && |multiset(t)| == |t|;
    forall x ensures x in s <==> x in t {
      assert x in multiset(s) <==> x in multiset(t);
    }
  }

  /** `eliminate_duplicate_dependencies`.  `sorted` is what the library sort leaves in the array. */
  method EliminateDuplicates(refs: array<Addr>, numrefs: nat, sorted: seq<Addr>) returns (newrefs: nat)
    requires numrefs <= refs.Length && Sorted(sorted) && multiset(sorted) == multiset(refs[..numrefs])
    modifies refs
    ensures newrefs <= numrefs && StrictlySorted(refs[..newrefs])
    ensures forall x :: x in refs[..newrefs] <==> Kept(old(refs[..numrefs]), x)
  {
    ghost var input := refs[..numrefs];
    SamePermutation(sorted, input);
    if numrefs <= 1 {
      Singleton(sorted, input);
      newrefs := numrefs;
    } else {
      forall k | 0 <= k < numrefs {
        refs[k] := sorted[k];
      }
      newrefs := CompactInPlace(refs, numrefs, sorted);
    }
    forall x ensures x in refs[..newrefs] <==> Kept(input, x) {
      CompactKeepsExactly(sorted, x);
    }
    CompactSorted(sorted);
  }
}
