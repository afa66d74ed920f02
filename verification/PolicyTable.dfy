/** The address policy table (section 2.1 of RFC 6724). */
module PolicyTable {
  import opened Bytes
  import opened Addresses

  /** Only the first len bits of prefix count. */
  datatype Policy = Policy(prefix: Address, len: nat, precedence: byte, lbl: byte)

  predicate Matches(e: Policy, a: Address) {
    e.len <= 128 && SamePrefix(e.prefix, a, e.len)
  }

  predicate SameKey(e: Policy, prefix: Address, len: nat) {
    e.len == len && Matches(e, prefix)
  }

  predicate LenAt(t: seq<Policy>, i: nat, j: nat)
    requires i < |t| && j < |t|
  {
    t[j].len <= t[i].len <= 128
  }

  /** Longest prefixes first. */
  ghost predicate Sorted(t: seq<Policy>) {
    (forall i, j :: 0 <= i < j < |t| ==> LenAt(t, i, j)) && (forall i :: 0 <= i < |t| ==> t[i].len <= 128)
  }

  /** Where a new entry of this length goes: before the first that is not longer. */
  function Place(t: seq<Policy>, len: nat): (i: nat)
    ensures i <= |t|
  {
    if t == [] || t[0].len <= len then 0 else 1 + Place(t[1..], len)
  }

  function Inserted(t: seq<Policy>, e: Policy): seq<Policy> {
    t[..Place(t, e.len)] + [e] + t[Place(t, e.len)..]
  }

  lemma {:induction false} PlaceIs(t: seq<Policy>, len: nat, i: nat)
    requires i <= |t| && (forall j :: 0 <= j < i ==> t[j].len > len) && (i < |t| ==> t[i].len <= len)
    ensures i == Place(t, len)
  {
    if i > 0 {
      PlaceIs(t[1..], len, i - 1);
    }
  }

  lemma {:induction false} PlaceBefore(t: seq<Policy>, len: nat)
    ensures forall j :: 0 <= j < Place(t, len) ==> t[j].len > len
    ensures Place(t, len) < |t| ==> t[Place(t, len)].len <= len
  {
    if t != [] && t[0].len > len {
      PlaceBefore(t[1..], len);
    }
  }

  lemma {:induction false} PlaceAfter(t: seq<Policy>, len: nat)
    requires Sorted(t)
    ensures forall j :: Place(t, len) <= j < |t| ==> t[j].len <= len
  {
    PlaceBefore(t, len);
    var k := Place(t, len);
    forall j | k <= j < |t| ensures t[j].len <= len {
      assert j == k || LenAt(t, k, j);
    }
  }

  /** Every insertion keeps the table sorted. */
  lemma {:induction false} InsertedSorted(t: seq<Policy>, e: Policy)
    requires Sorted(t) && e.len <= 128
    ensures Sorted(Inserted(t, e))
  {
    var k, r := Place(t, e.len), Inserted(t, e);
    PlaceBefore(t, e.len);
    forall i, j | 0 <= i < j < |r| ensures LenAt(r, i, j) {
      var i', j' := if i < k then i else i - 1, if j < k then j else j - 1;
      if i != k && j != k {
        assert LenAt(t, i', j');
      } else if i == k {
        assert k == j' || LenAt(t, k, j');
      }
    }
  }

  /** The matching entry that an address is given, if any. */
  function Find(t: seq<Policy>, a: Address): (i: nat)
    ensures i <= |t| && (i < |t| ==> Matches(t[i], a)) && forall j :: 0 <= j < i ==> !Matches(t[j], a)
  {
    if t == [] || Matches(t[0], a) then 0 else 1 + Find(t[1..], a)
  }

  /** In a sorted table that is a longest match; among equally long ones, the entry added last. */
  lemma {:induction false} FindIsLongest(t: seq<Policy>, a: Address, j: nat)
    requires Sorted(t) && j < |t| && Matches(t[j], a)
    ensures Find(t, a) <= j && t[j].len <= t[Find(t, a)].len
  {
    assert Find(t, a) == j || LenAt(t, Find(t, a), j);
  }

  /** An address keeps its entry when one that does not match it is added. */
  lemma {:induction false} FindInserted(t: seq<Policy>, e: Policy, a: Address)
    requires Sorted(t) && e.len <= 128
    ensures var r := Inserted(t, e);
            var best := if Find(t, a) < |t| then t[Find(t, a)].len else -1;
            && (Matches(e, a) && best <= e.len ==> Find(r, a) < |r| && r[Find(r, a)] == e)
            && (!Matches(e, a) || best > e.len ==> if best >= 0 then Find(r, a) < |r| && r[Find(r, a)] == t[Find(t, a)] else Find(r, a) == |r|)
  {
    var k, r, f := Place(t, e.len), Inserted(t, e), Find(t, a);
    PlaceBefore(t, e.len);
    PlaceAfter(t, e.len);
    if Matches(e, a) && (f == |t| || t[f].len <= e.len) {
      FindIs(r, a, k);
    } else if f < |t| {
      FindShifted(t, e, a, f);
    } else {
      FindIs(r, a, |r|);
    }
  }

  lemma {:induction false} FindShifted(t: seq<Policy>, e: Policy, a: Address, f: nat)
    requires f < |t| && f == Find(t, a) && (Matches(e, a) ==> f < Place(t, e.len))
    ensures var r := Inserted(t, e); Find(r, a) < |r| && r[Find(r, a)] == t[f]
  {
    var k, r := Place(t, e.len), Inserted(t, e);
    var f' := if f < k then f else f + 1;
    forall j | 0 <= j < f' ensures !Matches(r[j], a) {
      assert r[j] == e || r[j] == t[if j < k then j else j - 1];
    }
    FindIs(r, a, f');
  }

  lemma {:induction false} FindIs(t: seq<Policy>, a: Address, i: nat)
    requires i <= |t| && (i < |t| ==> Matches(t[i], a)) && forall j :: 0 <= j < i ==> !Matches(t[j], a)
    ensures i == Find(t, a)
  {
    if i > 0 {
      assert forall j :: 0 <= j < i - 1 ==> t[1..][j] == t[j + 1];
      FindIs(t[1..], a, i - 1);
    }
  }

  datatype Added = Ok | Duplicate

  class Table {
    var entries: seq<Policy>

    ghost predicate Valid()
      reads this
    {
      Sorted(entries)
    }

    constructor ()
      ensures Valid() && entries == []
    {
      entries := [];
    }

    /** addr_policy_table_add_entry. A duplicate is only noticed if it is the first entry of its length. */
    method AddEntry(prefix: Address, len: nat, precedence: byte, lbl: byte) returns (r: Added)
      requires Valid() && len <= 128
      modifies this
      ensures Valid()
      ensures r.Duplicate? <==> Place(old(entries), len) < |old(entries)| && SameKey(old(entries)[Place(old(entries), len)], prefix, len)
      ensures entries == if r.Ok? then Inserted(old(entries), Policy(prefix, len, precedence, lbl)) else old(entries)
      ensures Distinct(old(entries)) ==> (Distinct(entries) <==> r.Duplicate? || NotBehind(old(entries), Policy(prefix, len, precedence, lbl)))
    {
      var e, i := Policy(prefix, len, precedence, lbl), 0;
      InsertedSorted(entries, e);
      if Distinct(entries) && (Place(entries, len) < |entries| ==> !SameKey(entries[Place(entries, len)], prefix, len)) {
        AddedDistinct(entries, e);
      }
      while i < |entries|
        invariant entries == old(entries) && i <= |entries|
        invariant forall j :: 0 <= j < i ==> entries[j].len > len
      {
        if entries[i].len > len {
          i := i + 1;
          continue;
        }
        PlaceIs(entries, len, i);
        if entries[i].len == len && SamePrefix(entries[i].prefix, prefix, len) {
          return Duplicate;
        }
        entries := entries[..i] + [e] + entries[i..];
        return Ok;
      }
      PlaceIs(entries, len, i);
      assert entries + [e] == Inserted(entries, e);
      entries := entries + [e];
      r := Ok;
    }

    /** addr_policy_table_delete_entry. */
    method DeleteEntry(prefix: Address, len: nat) returns (ok: bool)
      requires Valid() && len <= 128
      modifies this
      ensures Valid()
      ensures ok <==> exists i :: 0 <= i < |old(entries)| && SameKey(old(entries)[i], prefix, len)
      ensures !ok ==> entries == old(entries)
      ensures ok ==> exists i :: 0 <= i < |old(entries)| && SameKey(old(entries)[i], prefix, len)
                                 && entries == old(entries)[..i] + old(entries)[i + 1..]
    {
      for i := 0 to |entries|
        invariant entries == old(entries)
        invariant forall j :: 0 <= j < i ==> !SameKey(entries[j], prefix, len)
      {
        if entries[i].len == len && SamePrefix(entries[i].prefix, prefix, len) {
          assert SameKey(entries[i], prefix, len);
          RemovedSorted(entries, i);
          entries := entries[..i] + entries[i + 1..];
          return true;
        }
      }
      ok := false;
    }

    /** addr_get_policy. */
    method GetPolicy(a: Address) returns (i: nat)
      requires Valid()
      ensures i == Find(entries, a)
    {
      i := 0;
      while i < |entries| && !SamePrefix(entries[i].prefix, a, entries[i].len)
        invariant i <= |entries| && forall j :: 0 <= j < i ==> !Matches(entries[j], a)
      {
        i := i + 1;
      }
      FindIs(entries, a, i);
    }
  }

  lemma {:induction false} RemovedSorted(t: seq<Policy>, k: nat)
    requires Sorted(t) && k < |t|
    ensures Sorted(t[..k] + t[k + 1..])
  {
    var r := t[..k] + t[k + 1..];
    forall i, j | 0 <= i < j < |r| ensures LenAt(r, i, j) {
      assert LenAt(t, if i < k then i else i + 1, if j < k then j else j + 1);
    }
  }

  /** No two entries have the same prefix. */
  ghost predicate Distinct(t: seq<Policy>) {
    forall i, j :: 0 <= i < j < |t| ==> DifferAt(t, i, j)
  }

  predicate DifferAt(t: seq<Policy>, i: nat, j: nat)
    requires i < |t| && j < |t|
  {
    !SameKey(t[j], t[i].prefix, t[i].len)
  }

  predicate Absent(t: seq<Policy>, e: Policy, i: nat)
    requires i < |t|
  {
    !SameKey(t[i], e.prefix, e.len)
  }

  /** An insertion keeps prefixes distinct exactly when the prefix is nowhere in the table. */
  lemma {:induction false} InsertedDistinct(t: seq<Policy>, e: Policy)
    requires Distinct(t)
    ensures Distinct(Inserted(t, e)) <==> forall i :: 0 <= i < |t| ==> Absent(t, e, i)
  {
    var k, r := Place(t, e.len), Inserted(t, e);
    if forall i :: 0 <= i < |t| ==> Absent(t, e, i) {
      forall i, j | 0 <= i < j < |r| ensures DifferAt(r, i, j) {
        var i', j' := if i < k then i else i - 1, if j < k then j else j - 1;
        if i == k {
          assert Absent(t, e, j');
        } else if j == k {
          assert Absent(t, e, i');
          SameKeySymmetric(e, t[i']);
        } else {
          assert DifferAt(t, i', j');
        }
      }
    } else {
      var i :| 0 <= i < |t| && !Absent(t, e, i);
      if i < k {
        SameKeySymmetric(t[i], e);
        assert !DifferAt(r, i, k);
      } else {
        assert !DifferAt(r, k, i + 1);
      }
    }
  }

  /** No entry behind the first one that is not longer has this prefix. */
  predicate NotBehind(t: seq<Policy>, e: Policy) {
    forall i :: Place(t, e.len) < i < |t| ==> Absent(t, e, i)
  }

  /** An addition that finds no duplicate keeps prefixes distinct exactly when there is none behind the entry it looks at either. */
  lemma {:induction false} AddedDistinct(t: seq<Policy>, e: Policy)
    requires Distinct(t) && e.len <= 128 && (Place(t, e.len) < |t| ==> !SameKey(t[Place(t, e.len)], e.prefix, e.len))
    ensures Distinct(Inserted(t, e)) <==> NotBehind(t, e)
  {
    InsertedDistinct(t, e);
    PlaceBefore(t, e.len);
    assert forall i :: 0 <= i < Place(t, e.len) ==> Absent(t, e, i);
  }

  lemma SameKeySymmetric(e: Policy, f: Policy)
    ensures SameKey(e, f.prefix, f.len) ==> SameKey(f, e.prefix, e.len)
  {
    if SameKey(e, f.prefix, f.len) {
      forall i | 0 <= i < f.len ensures SameBit(f.prefix, e.prefix, i) {
        assert SameBit(e.prefix, f.prefix, i);
      }
    }
  }

  /** An entry that differs from the first one and is not shorter goes to the front. */
  method AddInFront(t: Table, e: Policy)
    requires t.Valid() && e.len <= 128
    requires t.entries == [] || (t.entries[0].len <= e.len && !SameKey(t.entries[0], e.prefix, e.len))
    modifies t
    ensures t.Valid() && t.entries == [e] + old(t.entries)
  {
    var r := t.AddEntry(e.prefix, e.len, e.precedence, e.lbl);
  }

  lemma DifferAtOnce(a: Address, b: Address, e: Policy)
    requires a[0] == 0 && b[0] == 0x80 && e.len == 1
    ensures e.prefix == b ==> !SameKey(e, a, 1)
    ensures e.prefix == a ==> !SameKey(e, b, 1)
  {
    assert !SameBit(a, b, 0) && !SameBit(b, a, 0);
  }

  /** The table does not check that: the third addition repeats the first and is accepted. */
  method DuplicateSlipsIn() returns (t: Table)
    ensures fresh(t) && t.Valid() && !Distinct(t.entries)
  {
    var a: Address, b: Address := seq(16, _ => 0), seq(16, i => if i == 0 then 0x80 else 0);
    t := new Table();
    var x, y, z := Policy(a, 1, 1, 1), Policy(b, 1, 1, 2), Policy(a, 1, 1, 3);
    DifferAtOnce(a, b, x);
    DifferAtOnce(a, b, y);
    AddInFront(t, x);
    AddInFront(t, y);
    AddInFront(t, z);
    Repeated(t.entries);
  }

  lemma Repeated(t: seq<Policy>)
    requires |t| == 3 && t[0].prefix == t[2].prefix && t[0].len == t[2].len == 1
    ensures !Distinct(t)
  {
    assert !DifferAt(t, 0, 2);
  }
}
