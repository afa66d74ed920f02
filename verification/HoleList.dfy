/**
 The hole list of a partly reassembled datagram, as values: sorted runs of offsets that no accepted fragment
 has covered yet (RFC 815). The class Reassembly.Datagram keeps such a list inside the unfilled bytes of its buffer.
 */
module HoleList {

  const END := 0xffff

  datatype Hole = Hole(first: int, last: int)

  lemma MultiplesApart(a: int, b: int)
    requires a % 8 == 0 && b % 8 == 0 && a < b
    ensures a + 8 <= b
  {
  }

  /** Offset of hole i, or the end-of-list marker: the value of the link that leads to position i. */
  function StartOf(hs: seq<Hole>, i: nat): int {
    if i < |hs| then hs[i].first else END
  }

  predicate WellFormedHole(h: Hole, capacity: int) {
    0 <= h.first && h.first % 8 == 0 && h.first + 8 <= capacity && h.first + 7 <= h.last <= END && (h.last + 1) % 8 == 0
  }

  /** Hole i ends before hole j starts, with at least one received byte between them. */
  predicate Gap(hs: seq<Hole>, i: nat, j: nat)
    requires i < |hs| && j < |hs|
  {
    hs[i].last + 1 < hs[j].first
  }

  /** Sorted, pairwise separated by at least one received byte, aligned, and each with room for a descriptor. */
  ghost predicate Shape(hs: seq<Hole>, capacity: int) {
    && (forall i :: 0 <= i < |hs| ==> WellFormedHole(hs[i], capacity))
    && (forall i, j :: 0 <= i < j < |hs| ==> Gap(hs, i, j))
  }

  ghost predicate InHoles(hs: seq<Hole>, p: int) {
    exists i :: 0 <= i < |hs| && hs[i].first <= p <= hs[i].last
  }

  /** What remains of hole h once it has received the bytes f..l, of the last fragment unless more. */
  function Remains(h: Hole, f: int, l: int, more: bool): seq<Hole> {
    (if f > h.first then [Hole(h.first, f - 1)] else [])
    + (if more && l < h.last then [Hole(l + 1, h.last)] else [])
  }

  /** The list with hole k replaced by the holes mid. */
  function Splice(hs: seq<Hole>, k: nat, mid: seq<Hole>): seq<Hole>
    requires k < |hs|
  {
    hs[..k] + mid + hs[k + 1..]
  }

  /** Where an entry of a spliced list comes from. */
  lemma SpliceEntry(hs: seq<Hole>, k: nat, mid: seq<Hole>, i: nat)
    requires k < |hs| && i < |Splice(hs, k, mid)|
    ensures i < k ==> Splice(hs, k, mid)[i] == hs[i]
    ensures k <= i < k + |mid| ==> Splice(hs, k, mid)[i] == mid[i - k]
    ensures k + |mid| <= i ==> Splice(hs, k, mid)[i] == hs[i + 1 - |mid|]
  {
  }

  lemma SpliceBasics(hs: seq<Hole>, k: nat)
    requires k < |hs|
    ensures Splice(hs, k, []) == hs[..k] + hs[k + 1..]
    ensures Splice(hs, k, [hs[k]]) == hs
  {
    assert hs[..k] + [] == hs[..k];
  }

  lemma SpliceExtend(hs: seq<Hole>, k: nat, mid: seq<Hole>, h: Hole)
    requires k < |hs|
    ensures var t, n := Splice(hs, k, mid), k + |mid|;
            t[..n] + [h] + t[n..] == Splice(hs, k, mid + [h])
  {
    var t, n := Splice(hs, k, mid), k + |mid|;
    assert t[..n] == hs[..k] + mid;
    assert t[n..] == hs[k + 1..];
  }

  lemma SpliceShape(hs: seq<Hole>, k: nat, mid: seq<Hole>, capacity: int)
    requires Shape(hs, capacity) && Shape(mid, capacity) && k < |hs|
    requires forall i :: 0 <= i < |mid| ==> hs[k].first <= mid[i].first && mid[i].last <= hs[k].last
    ensures Shape(Splice(hs, k, mid), capacity)
  {
    var t := Splice(hs, k, mid);
    forall i | 0 <= i < |t| ensures WellFormedHole(t[i], capacity) {
      SpliceEntry(hs, k, mid, i);
    }
    forall i, j | 0 <= i < j < |t| ensures Gap(t, i, j) {
      SpliceEntry(hs, k, mid, i);
      SpliceEntry(hs, k, mid, j);
      if k <= i && j < k + |mid| {
        assert Gap(mid, i - k, j - k);
      } else {
        var i' := if i < k then i else if i < k + |mid| then k else i + 1 - |mid|;
        var j' := if j < k then j else if j < k + |mid| then k else j + 1 - |mid|;
        assert Gap(hs, i', j');
      }
    }
  }

  lemma SpliceMembers(hs: seq<Hole>, k: nat, mid: seq<Hole>, p: int)
    requires k < |hs|
    ensures InHoles(Splice(hs, k, mid), p) <==>
            InHoles(mid, p) || exists i :: 0 <= i < |hs| && i != k && hs[i].first <= p <= hs[i].last
  {
    var t := Splice(hs, k, mid);
    if InHoles(t, p) {
      var i :| 0 <= i < |t| && t[i].first <= p <= t[i].last;
      SpliceEntry(hs, k, mid, i);
    }
    if InHoles(mid, p) {
      var i :| 0 <= i < |mid| && mid[i].first <= p <= mid[i].last;
      assert t[k + i] == mid[i];
    }
    if i :| 0 <= i < |hs| && i != k && hs[i].first <= p <= hs[i].last {
      assert t[if i < k then i else i - 1 + |mid|] == hs[i];
    }
  }

  /** The list after hole k has received the bytes f..l. */
  function Punch(hs: seq<Hole>, k: nat, f: int, l: int, more: bool): seq<Hole>
    requires k < |hs|
  {
    Splice(hs, k, Remains(hs[k], f, l, more))
  }

  lemma PunchShape(hs: seq<Hole>, k: nat, f: int, l: int, more: bool, capacity: int)
    requires Shape(hs, capacity) && k < |hs|
    requires hs[k].first <= f <= l <= hs[k].last && f % 8 == 0
    requires more ==> (l + 1) % 8 == 0 && l + 9 <= capacity
    ensures Shape(Punch(hs, k, f, l, more), capacity)
  {
    var mid := Remains(hs[k], f, l, more);
    if f > hs[k].first { MultiplesApart(hs[k].first, f); }
    if more && l < hs[k].last { MultiplesApart(l + 1, hs[k].last + 1); }
    assert Shape(mid, capacity);
    SpliceShape(hs, k, mid, capacity);
  }

  /** Punching removes exactly the fragment's offsets and, for a last fragment, everything after it. */
  lemma PunchMembers(hs: seq<Hole>, k: nat, f: int, l: int, more: bool, capacity: int, p: int)
    requires Shape(hs, capacity) && k < |hs|
    requires hs[k].first <= f <= l <= hs[k].last
    requires !more ==> k == |hs| - 1
    ensures InHoles(Punch(hs, k, f, l, more), p) <==>
            InHoles(hs, p) && !(f <= p <= l) && (more || p < f)
  {
    var h, mid := hs[k], Remains(hs[k], f, l, more);
    SpliceMembers(hs, k, mid, p);
    RemainsMembers(h, f, l, more, p);
    if InHoles(hs, p) {
      var i :| 0 <= i < |hs| && hs[i].first <= p <= hs[i].last;
      assert i < k ==> Gap(hs, i, k);
      assert k < i ==> Gap(hs, k, i);
    }
    if i :| 0 <= i < |hs| && i != k && hs[i].first <= p <= hs[i].last {
      assert if i < k then Gap(hs, i, k) else Gap(hs, k, i);
    }
  }

  lemma RemainsMembers(h: Hole, f: int, l: int, more: bool, p: int)
    requires h.first <= f <= l <= h.last
    ensures InHoles(Remains(h, f, l, more), p) <==>
            h.first <= p <= h.last && !(f <= p <= l) && (more || p < f)
  {
    var mid := Remains(h, f, l, more);
    if h.first <= p < f {
      assert mid[0].first <= p <= mid[0].last;
    }
    if more && l < p <= h.last {
      assert mid[|mid| - 1].first <= p <= mid[|mid| - 1].last;
    }
  }

  /** The holes are maximal: the offset after a hole is in no hole. */
  lemma HoleIsMaximal(hs: seq<Hole>, capacity: int, k: nat)
    requires Shape(hs, capacity) && k < |hs|
    ensures !InHoles(hs, hs[k].last + 1)
  {
    forall i | 0 <= i < |hs| ensures !(hs[i].first <= hs[k].last + 1 <= hs[i].last) {
      if i < k {
        assert Gap(hs, i, k);
      } else if k < i {
        assert Gap(hs, k, i);
      }
    }
  }

  /** Descriptor i links to position i + 1. */
  ghost predicate LinkAt(described: (Hole, int) -> bool, hs: seq<Hole>, i: nat)
    requires i < |hs|
  {
    described(hs[i], StartOf(hs, i + 1))
  }

  /** The list is linked from this head, where described(h, next) says that h's descriptor holds that next link. */
  ghost predicate Linked(described: (Hole, int) -> bool, head: int, hs: seq<Hole>) {
    && head == StartOf(hs, 0)
    && forall i :: 0 <= i < |hs| ==> LinkAt(described, hs, i)
  }

  /** The effect of storing x in the link to position k: every other descriptor keeps its next link. */
  ghost predicate Relinked(described': (Hole, int) -> bool, head: int, head': int, hs: seq<Hole>, k: nat, x: int)
    requires k <= |hs|
  {
    && (if k == 0 then head' == x else head' == head && described'(hs[k - 1], x))
    && forall i :: 0 <= i < |hs| && i + 1 != k ==> LinkAt(described', hs, i)
  }

  /** Pointing the link to position k past hole k removes that hole and no other. */
  lemma LinkedDelete(described: (Hole, int) -> bool, described': (Hole, int) -> bool, head: int, head': int,
                     hs: seq<Hole>, k: nat)
    requires Linked(described, head, hs) && k < |hs|
    requires Relinked(described', head, head', hs, k, StartOf(hs, k + 1))
    ensures Linked(described', head', hs[..k] + hs[k + 1..])
  {
    var t := hs[..k] + hs[k + 1..];
    forall i | 0 <= i < |t| ensures LinkAt(described', t, i) {
      if i + 1 != k {
        assert LinkAt(described', hs, if i < k then i else i + 1);
      }
    }
  }

  /** A hole whose next link is position k, linked in at position k, joins the list there. */
  lemma LinkedInsert(described: (Hole, int) -> bool, described': (Hole, int) -> bool, head: int, head': int,
                     hs: seq<Hole>, k: nat, h: Hole)
    requires Linked(described, head, hs) && k <= |hs|
    requires Relinked(described', head, head', hs, k, h.first)
    requires described'(h, StartOf(hs, k))
    ensures Linked(described', head', hs[..k] + [h] + hs[k..])
  {
    var t := hs[..k] + [h] + hs[k..];
    forall i | 0 <= i < |t| ensures LinkAt(described', t, i) {
      if i != k && i + 1 != k {
        assert LinkAt(described', hs, if i < k then i else i - 1);
      }
    }
  }
}
