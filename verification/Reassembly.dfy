/** Reassembly of one fragmented datagram (section 4.5 of RFC 8200, section 3 of RFC 815, section 4 of RFC 5722). */
module Reassembly {
  import opened Bytes
  import opened HoleList
  import Ecn

  /** A received fragment: the headers before its fragment header, its place, its bytes. */
  datatype Fragment = Fragment(header: seq<byte>, first: nat, data: seq<byte>, more: bool, ecn: Ecn.Mark)
  {
    function Last(): int { first + |data| - 1 }

    predicate WellFormed() {
      && |header| >= 40
      && first % 8 == 0 && |data| > 0 && first + |data| <= 0x1_0000
      && (more ==> |data| % 8 == 0)
    }

    /** Headers come in units of 8 bytes. */
    predicate Aligned() {
      |header| % 8 == 0
    }
  }

  /** What has been accepted so far, with no holes in sight: bytes by offset, the highest end, the first header. */
  datatype Partial = Partial(mru: nat, got: map<int, byte>, top: nat, hadLast: bool, header: seq<byte>, ecn: Ecn.Mark)

  ghost predicate WellFormedPartial(a: Partial) {
    && 1280 <= a.mru < 0x1_0000 && a.mru % 8 == 0
    && (forall p :: p in a.got ==> 0 <= p < a.top)
    && (a.top > 0 ==> a.top - 1 in a.got)
    && (a.hadLast ==> a.top > 0)
    && a.top <= a.mru - 40
    && (!a.hadLast ==> a.top % 8 == 0 && a.top <= a.mru - 48)
    && (a.header != [] <==> 0 in a.got)
    && (a.header != [] ==> |a.header| >= 40 && |a.header| + a.top + (if a.hadLast then 0 else 8) <= a.mru)
  }

  /** Highest end a fragment may reach: the reassembled packet must fit the MRU, and more data needs 8 bytes of room. */
  function Limit(a: Partial, more: bool): int {
    a.mru - (if a.header == [] then 40 else |a.header|) - (if more then 8 else 0)
  }

  /** RFC 5722: no byte may have been received already, nothing may follow a last fragment. */
  ghost predicate Fits(a: Partial, fr: Fragment) {
    FitsAt(a, fr.first, fr.Last(), fr.more)
  }

  ghost predicate FitsAt(a: Partial, f: int, l: int, more: bool) {
    && (forall p :: f <= p <= l ==> p !in a.got)
    && (a.hadLast ==> more && l < a.top)
    && (!more ==> a.top <= f)
  }

  function Bytewise(fr: Fragment): (m: map<int, byte>) {
    map p {:trigger fr.data[p - fr.first]} | fr.first <= p < fr.first + |fr.data| :: fr.data[p - fr.first]
  }

  /** The partial datagram with the fragment's bytes added. */
  function Merge(a: Partial, fr: Fragment): Partial {
    a.(got := a.got + Bytewise(fr), top := Max(a.top, fr.Last() + 1), hadLast := a.hadLast || !fr.more)
  }

  /** Everything a fragment must satisfy not to have its datagram discarded. */
  ghost predicate Accepts(a: Partial, fr: Fragment) {
    && fr.Last() < Limit(a, fr.more)
    && Fits(a, fr)
    && Ecn.Combine(a.ecn, fr.ecn) != Ecn.ILLEGAL
    && (fr.first == 0 ==>
          |fr.header| + Merge(a, fr).top + (if Merge(a, fr).hadLast then 0 else 8) <= a.mru)
  }

  ghost function Next(a: Partial, fr: Fragment): Partial
    requires Accepts(a, fr)
  {
    Merge(a, fr).(ecn := Ecn.Combine(a.ecn, fr.ecn), header := if fr.first == 0 then fr.header else a.header)
  }

  /** The last fragment and every byte before it have arrived. */
  ghost predicate Whole(a: Partial) {
    a.hadLast && forall p :: 0 <= p < a.top ==> p in a.got
  }

  ghost function Payload(a: Partial): seq<byte>
    requires Whole(a)
  {
    seq(a.top, p requires 0 <= p < a.top => a.got[p])
  }

  /** The header of the first fragment with the combined ECN and the final payload length filled in. */
  function Patched(header: seq<byte>, ecn: Ecn.Mark, length: u16): (h: seq<byte>)
    requires |header| >= 40
    ensures |h| == |header|
  {
    var b := header[1];
    header[1 := b / 64 * 64 + ecn * 16 + b % 16][4 := length / 256][5 := length % 256]
  }

  /** The reassembled packet. */
  ghost function Packet(a: Partial): seq<byte>
    requires WellFormedPartial(a) && Whole(a)
  {
    Patched(a.header, a.ecn, |a.header| + a.top - 40) + Payload(a)
  }

  /** The holes are exactly the complement of what was accepted, up to the end once that is known. */
  ghost predicate Covers(hs: seq<Hole>, a: Partial, room: int) {
    && Shape(hs, room)
    && forall p :: 0 <= p <= END ==> (InHoles(hs, p) <==> p !in a.got && (a.hadLast ==> p < a.top))
  }

  /** The first hole that does not end before the fragment decides whether the fragment overlaps or follows anything. */
  lemma FirstHoleDecides(hs: seq<Hole>, a: Partial, room: int, k: nat, f: int, l: int, more: bool)
    requires WellFormedPartial(a) && Covers(hs, a, room)
    requires 0 <= f <= l < END
    requires k <= |hs| && (forall i :: 0 <= i < k ==> hs[i].last < f) && (k < |hs| ==> f <= hs[k].last)
    ensures FitsAt(a, f, l, more) <==>
            k < |hs| && hs[k].first <= f && l <= hs[k].last && (more || hs[k].last == END)
    ensures FitsAt(a, f, l, more) ==> (if hs[k].last == END then a.top <= f else l < a.top)
  {
    if k < |hs| && hs[k].first <= f {
      HoleIsMaximal(hs, room, k);
      if l <= hs[k].last {
        assert forall p :: hs[k].first <= p <= hs[k].last ==> InHoles(hs, p);
        assert InHoles(hs, l);
        if a.top > 0 {
          assert !InHoles(hs, a.top - 1);
        }
      }
    } else {
      assert !InHoles(hs, f) by {
        forall i | 0 <= i < |hs| ensures !(hs[i].first <= f <= hs[i].last) {
          if k < i {
            assert Gap(hs, k, i);
          }
        }
      }
    }
  }

  /** Punching the accepted fragment out of the holes keeps them the exact complement. */
  lemma PunchCovers(hs: seq<Hole>, a: Partial, room: int, k: nat, fr: Fragment)
    requires WellFormedPartial(a) && Covers(hs, a, room) && fr.WellFormed() && fr.Last() < END
    requires k < |hs| && hs[k].first <= fr.first && fr.Last() <= hs[k].last
    requires fr.more ==> fr.Last() + 9 <= room
    requires !fr.more ==> hs[k].last == END
    requires if hs[k].last == END then a.top <= fr.first else fr.Last() < a.top
    ensures Covers(Punch(hs, k, fr.first, fr.Last(), fr.more), Merge(a, fr), room)
  {
    var f, l := fr.first, fr.Last();
    PunchShape(hs, k, f, l, fr.more, room);
    assert InHoles(hs, hs[k].last);
    assert !fr.more ==> k == |hs| - 1 by {
      if k + 1 < |hs| {
        assert Gap(hs, k, k + 1);
      }
    }
    forall p | 0 <= p <= END
      ensures InHoles(Punch(hs, k, f, l, fr.more), p) <==>
              p !in Merge(a, fr).got && (Merge(a, fr).hadLast ==> p < Merge(a, fr).top)
    {
      PunchMembers(hs, k, f, l, fr.more, room, p);
      assert p in Merge(a, fr).got <==> p in a.got || f <= p <= l;
    }
  }

  lemma MergeWellFormed(a: Partial, fr: Fragment)
    requires WellFormedPartial(a) && fr.WellFormed() && Accepts(a, fr)
    ensures WellFormedPartial(Next(a, fr))
  {
    var b := Next(a, fr);
    MergedBytes(a, fr);
    WholeBlocks(fr);
    TopWithin(a, fr);
    assert b.top == Merge(a, fr).top && b.hadLast == Merge(a, fr).hadLast;
  }

  lemma MergedBytes(a: Partial, fr: Fragment)
    ensures forall p :: p in Merge(a, fr).got <==> p in a.got || fr.first <= p <= fr.Last()
  {
  }

  /** The sizes stay within the limits. */
  lemma TopWithin(a: Partial, fr: Fragment)
    requires WellFormedPartial(a) && fr.WellFormed() && fr.Last() < Limit(a, fr.more)
    requires fr.more ==> (fr.Last() + 1) % 8 == 0
    ensures var b := Merge(a, fr);
            b.top <= a.mru - 40 && (!b.hadLast ==> b.top % 8 == 0 && b.top <= a.mru - 48)
  {
  }

  /** What is left to check once the fragment fits and its mark is legal. */
  lemma AcceptsIs(a: Partial, fr: Fragment)
    requires WellFormedPartial(a) && fr.WellFormed() && fr.Last() < Limit(a, fr.more) && Fits(a, fr)
    requires Ecn.Combine(a.ecn, fr.ecn) != Ecn.ILLEGAL
    ensures fr.first != 0 ==> Accepts(a, fr)
    ensures fr.first == 0 ==> a.header == []
    ensures fr.first == 0 ==> (Accepts(a, fr) <==> |fr.header| + Merge(a, fr).top + (if Merge(a, fr).hadLast then 0 else 8) <= a.mru)
    ensures forall p :: p in Merge(a, fr).got ==> 0 <= p < Merge(a, fr).top
  {
    assert fr.first <= fr.first <= fr.Last();
  }

  /** No hole is left exactly when the last fragment and every byte before it have arrived. */
  lemma NoHolesMeansWhole(hs: seq<Hole>, a: Partial, room: int)
    requires WellFormedPartial(a) && Covers(hs, a, room)
    ensures hs == [] <==> Whole(a)
  {
    if hs == [] {
      forall p | 0 <= p < a.top ensures p in a.got {
        assert !InHoles(hs, p);
      }
      assert !InHoles(hs, END);
    } else {
      assert WellFormedHole(hs[0], room);
      assert InHoles(hs, hs[0].first);
    }
  }

  /** Index of the descriptor of the hole at this offset: the next 2-byte aligned address, given the address of index 0. */
  function HolePointer(base: nat, fragmentable: nat, offset: int): (pos: int)
    ensures fragmentable + offset <= pos <= fragmentable + offset + 1
  {
    (base + fragmentable + offset + 1) / 2 * 2 - base
  }

  /** Native 16-bit read from the buffer. */
  function At16(m: seq<byte>, pos: int): (x: u16)
    requires 0 <= pos && pos + 2 <= |m|
  {
    m[pos] + 256 * (m[pos + 1] as int)
  }

  /** There is room for the descriptor, and its fields fit 16 bits. */
  predicate Placed(h: Hole, room: int) {
    0 <= h.first <= END && h.first + 8 <= room && 0 <= h.last <= END
  }

  /** The hole's descriptor, with this next link, stands at the hole's start. */
  predicate Described(m: seq<byte>, base: nat, fragmentable: nat, h: Hole, next: int) {
    var pos := HolePointer(base, fragmentable, h.first);
    Placed(h, |m| - fragmentable) && At16(m, pos) == h.first && At16(m, pos + 2) == h.last && At16(m, pos + 4) == next
  }

  ghost function Descriptors(m: seq<byte>, base: nat, fragmentable: nat): (Hole, int) -> bool {
    (h, next) => Described(m, base, fragmentable, h, next)
  }

  ghost predicate InDescriptor(fragmentable: nat, h: Hole, j: int) {
    fragmentable + h.first <= j < fragmentable + h.first + 8
  }

  /** Two buffers agree outside the descriptors of these holes. */
  ghost predicate SameOutside(m: seq<byte>, m': seq<byte>, fragmentable: nat, hs: seq<Hole>) {
    && |m| == |m'|
    && forall j :: 0 <= j < |m| && (forall i :: 0 <= i < |hs| ==> !InDescriptor(fragmentable, hs[i], j)) ==> m[j] == m'[j]
  }

  /** A descriptor depends only on the eight bytes at the start of its hole. */
  lemma DescriptorFrame(m: seq<byte>, m': seq<byte>, base: nat, fragmentable: nat, h: Hole, next: int, touched: Hole)
    requires Described(m, base, fragmentable, h, next)
    requires SameOutside(m, m', fragmentable, [touched])
    requires touched.first + 8 <= h.first || h.first + 8 <= touched.first
    ensures Described(m', base, fragmentable, h, next)
  {
    forall j | InDescriptor(fragmentable, h, j) ensures m[j] == m'[j] {
      assert !InDescriptor(fragmentable, touched, j);
    }
  }

  /** Bytes written in the descriptor of one hole leave the descriptors of holes apart from it alone. */
  lemma DescriptorsFrame(m: seq<byte>, m': seq<byte>, base: nat, fragmentable: nat, head: int, hs: seq<Hole>, touched: Hole)
    requires Linked(Descriptors(m, base, fragmentable), head, hs) && SameOutside(m, m', fragmentable, [touched])
    ensures forall i :: 0 <= i < |hs| && (touched.first + 8 <= hs[i].first || hs[i].first + 8 <= touched.first)
                    ==> LinkAt(Descriptors(m', base, fragmentable), hs, i)
  {
    forall i | 0 <= i < |hs| && (touched.first + 8 <= hs[i].first || hs[i].first + 8 <= touched.first)
      ensures LinkAt(Descriptors(m', base, fragmentable), hs, i)
    {
      assert LinkAt(Descriptors(m, base, fragmentable), hs, i);
      DescriptorFrame(m, m', base, fragmentable, hs[i], StartOf(hs, i + 1), touched);
    }
  }

  lemma SameOutsideTwo(m: seq<byte>, m1: seq<byte>, m2: seq<byte>, fragmentable: nat, hs: seq<Hole>, k: nat)
    requires k < |hs| && SameOutside(m, m1, fragmentable, [hs[k]])
    requires if k == 0 then m2 == m1 else SameOutside(m1, m2, fragmentable, [hs[k - 1]])
    ensures SameOutside(m, m2, fragmentable, hs)
  {
    forall j | 0 <= j < |m| && forall i :: 0 <= i < |hs| ==> !InDescriptor(fragmentable, hs[i], j)
      ensures m[j] == m2[j]
    {
      assert !InDescriptor(fragmentable, hs[k], j);
      assert k > 0 ==> !InDescriptor(fragmentable, hs[k - 1], j);
    }
  }

  /** Every descriptor of hs stands inside a hole of outer. */
  ghost predicate DescriptorsInside(hs: seq<Hole>, outer: seq<Hole>) {
    forall i :: 0 <= i < |hs| ==> DescriptorInside(hs[i], outer)
  }

  ghost predicate DescriptorInside(h: Hole, outer: seq<Hole>) {
    exists j :: 0 <= j < |outer| && outer[j].first <= h.first && h.first + 7 <= outer[j].last
  }

  /** Descriptor writes never reach a byte outside the holes. */
  ghost predicate SameOutsideHoles(m: seq<byte>, m': seq<byte>, fragmentable: nat, outer: seq<Hole>) {
    && |m| == |m'|
    && forall j :: 0 <= j < |m| && !InHoles(outer, j - fragmentable) ==> m[j] == m'[j]
  }

  lemma DescriptorWritesStayInHoles(m: seq<byte>, m': seq<byte>, fragmentable: nat, hs: seq<Hole>, outer: seq<Hole>)
    requires SameOutside(m, m', fragmentable, hs) && DescriptorsInside(hs, outer)
    ensures SameOutsideHoles(m, m', fragmentable, outer)
  {
    forall j | 0 <= j < |m| && !InHoles(outer, j - fragmentable) ensures m[j] == m'[j] {
      forall i | 0 <= i < |hs| ensures !InDescriptor(fragmentable, hs[i], j) {
        assert DescriptorInside(hs[i], outer);
      }
    }
  }

  lemma SameOutsideHolesTrans(m: seq<byte>, m1: seq<byte>, m2: seq<byte>, fragmentable: nat, outer: seq<Hole>)
    requires SameOutsideHoles(m, m1, fragmentable, outer) && SameOutsideHoles(m1, m2, fragmentable, outer)
    ensures SameOutsideHoles(m, m2, fragmentable, outer)
  {
  }

  /** Nothing in front of the fragmentable part has changed. */
  predicate SameFront(m: seq<byte>, m': seq<byte>, fragmentable: nat) {
    fragmentable <= |m| && fragmentable <= |m'| && m[..fragmentable] == m'[..fragmentable]
  }

  lemma FrontKept(m: seq<byte>, m': seq<byte>, m'': seq<byte>, fragmentable: nat, at: nat)
    requires SameFront(m, m', fragmentable) && SameFront(m', m'', fragmentable) && at <= fragmentable
    ensures m[at..fragmentable] == m''[at..fragmentable]
  {
    assert m[at..fragmentable] == m[..fragmentable][at..] && m''[at..fragmentable] == m''[..fragmentable][at..];
  }

  lemma WholeBlocks(fr: Fragment)
    requires fr.WellFormed()
    ensures fr.first % 8 == 0 && fr.first <= fr.Last() && (fr.more ==> (fr.Last() + 1) % 8 == 0)
  {
  }

  lemma EvenHeader(fr: Fragment) returns (half: nat)
    requires fr.WellFormed() && fr.Aligned()
    ensures |fr.header| == 40 + 2 * half
  {
    half := (|fr.header| - 40) / 2;
  }

  lemma HeaderCovers(hs: seq<Hole>, a: Partial, header: seq<byte>, room: int)
    requires Covers(hs, a, room)
    ensures Covers(hs, a.(header := header), room)
  {
  }

  lemma EcnCovers(hs: seq<Hole>, a: Partial, mark: Ecn.Mark, room: int)
    requires Covers(hs, a, room)
    ensures Covers(hs, a.(ecn := mark), room)
  {
  }

  /** The last hole starts where everything received ends; the others end before. */
  lemma HolesUpTo(hs: seq<Hole>, a: Partial, room: int, i: nat)
    requires Covers(hs, a, room) && i < |hs| && a.top < END && forall p :: p in a.got ==> 0 <= p < a.top
    ensures hs[i].first + 8 <= a.top + if a.hadLast then 0 else 8
  {
    HoleIsMaximal(hs, room, i);
    assert WellFormedHole(hs[i], room);
    assert InHoles(hs, hs[i].last) && InHoles(hs, hs[i].first);
    if !a.hadLast && a.top < hs[i].first {
      assert InHoles(hs, a.top);
      var j :| 0 <= j < |hs| && hs[j].first <= a.top <= hs[j].last;
      assert WellFormedHole(hs[j], room);
      assert j < i ==> Gap(hs, j, i);
      assert i < j ==> Gap(hs, i, j);
      HoleIsMaximal(hs, room, j);
    }
  }

  /** There is room for every hole at the end of what has been received, and for one more behind it. */
  lemma LessRoom(hs: seq<Hole>, a: Partial, room: int, room': int)
    requires Covers(hs, a, room) && a.top < END && forall p :: p in a.got ==> 0 <= p < a.top
    requires a.top + (if a.hadLast then 0 else 8) <= room'
    ensures Covers(hs, a, room')
  {
    forall i | 0 <= i < |hs| ensures WellFormedHole(hs[i], room') {
      assert WellFormedHole(hs[i], room);
      HolesUpTo(hs, a, room, i);
    }
  }

  /** Bytes that are moved with the start of the data. */
  ghost predicate Carried(m: seq<byte>, from: nat, m': seq<byte>, to: nat, n: nat) {
    from + n <= |m| && to + n <= |m'| && forall j :: 0 <= j < n ==> CarriedAt(m, from, m', to, j)
  }

  predicate CarriedAt(m: seq<byte>, from: nat, m': seq<byte>, to: nat, j: nat)
    requires from + j < |m| && to + j < |m'|
  {
    m'[to + j] == m[from + j]
  }

  lemma EvenShift(base: nat, from: nat, to: nat, half: nat, offset: int)
    requires to == from + 2 * half
    ensures HolePointer(base, to, offset) == HolePointer(base, from, offset) + 2 * half
  {
  }

  /** A descriptor is as good at its new place. */
  lemma DescriptorCarried(m: seq<byte>, m': seq<byte>, base: nat, from: nat, to: nat, half: nat, n: nat, h: Hole, next: int)
    requires Described(m, base, from, h, next) && Carried(m, from, m', to, n) && h.first + 8 <= n
    requires to == from + 2 * half
    ensures Described(m', base, to, h, next)
  {
    EvenShift(base, from, to, half, h.first);
    var pos := HolePointer(base, from, h.first);
    var j := pos - from;
    assert CarriedAt(m, from, m', to, j) && CarriedAt(m, from, m', to, j + 1) && CarriedAt(m, from, m', to, j + 2);
    assert CarriedAt(m, from, m', to, j + 3) && CarriedAt(m, from, m', to, j + 4) && CarriedAt(m, from, m', to, j + 5);
  }

  /** The hole list is carried along. */
  lemma LinkedCarried(m: seq<byte>, m': seq<byte>, base: nat, from: nat, to: nat, half: nat, n: nat, head: int, hs: seq<Hole>, a: Partial)
    requires Linked(Descriptors(m, base, from), head, hs) && Carried(m, from, m', to, n)
    requires Covers(hs, a, |m| - from) && a.top < END && (forall p :: p in a.got ==> 0 <= p < a.top)
    requires a.top + (if a.hadLast then 0 else 8) <= n && to == from + 2 * half
    ensures Linked(Descriptors(m', base, to), head, hs)
  {
    forall i | 0 <= i < |hs| ensures LinkAt(Descriptors(m', base, to), hs, i) {
      assert LinkAt(Descriptors(m, base, from), hs, i);
      HolesUpTo(hs, a, |m| - from, i);
      DescriptorCarried(m, m', base, from, to, half, n, hs[i], StartOf(hs, i + 1));
    }
  }

  lemma BytesCarried(m: seq<byte>, m': seq<byte>, from: nat, to: nat, n: nat, a: Partial)
    requires Carried(m, from, m', to, n) && BytesIn(m, from, a) && forall p :: p in a.got ==> 0 <= p < n
    ensures BytesIn(m', to, a)
  {
    forall p | p in a.got ensures 0 <= p < |m'| - to && m'[to + p] == a.got[p] {
      assert CarriedAt(m, from, m', to, p);
    }
  }

  /** Data copied from one place to another, and a header put in front of it there. */
  lemma MovedUp(m: seq<byte>, m': seq<byte>, block: seq<byte>, header: seq<byte>, from: nat, to: nat)
    requires |header| <= to && to + |block| <= |m| && from + |block| <= |m| && block == m[from..from + |block|]
    requires m' == Overlay(Overlay(m, to, block), to - |header|, header)
    ensures Carried(m, from, m', to, |block|) && m'[to - |header|..to] == header
  {
    var m1 := Overlay(m, to, block);
    forall j | 0 <= j < |block| ensures CarriedAt(m, from, m', to, j) {
      assert m'[to + j] == m1[to + j] == block[j];
    }
    assert m'[to - |header|..to] == header;
  }

  /** Headers written in front of the data leave the data and the hole list alone. */
  lemma HeaderInFront(m: seq<byte>, m': seq<byte>, base: nat, fragmentable: nat, head: int, hs: seq<Hole>, a: Partial, header: seq<byte>)
    requires |header| <= fragmentable <= |m| && m' == Overlay(m, fragmentable - |header|, header)
    requires Linked(Descriptors(m, base, fragmentable), head, hs) && BytesIn(m, fragmentable, a) && Covers(hs, a, |m| - fragmentable)
    ensures Linked(Descriptors(m', base, fragmentable), head, hs) && BytesIn(m', fragmentable, a)
    ensures Covers(hs, a.(header := header), |m| - fragmentable) && m'[fragmentable - |header|..fragmentable] == header
  {
    forall j | 0 <= j < |m| && InHoles(hs, j - fragmentable) ensures m[j] == m'[j] {
      var i :| 0 <= i < |hs| && hs[i].first <= j - fragmentable <= hs[i].last;
      assert WellFormedHole(hs[i], |m| - fragmentable);
    }
    LinkedFrame(m, m', base, fragmentable, head, hs, |m| - fragmentable);
    HeaderCovers(hs, a, header, |m| - fragmentable);
    assert m'[fragmentable - |header|..fragmentable] == header;
  }

  /** All that was in place is in place where the data now start. */
  lemma DatagramCarried(m: seq<byte>, m': seq<byte>, base: nat, from: nat, to: nat, half: nat, n: nat, head: int, hs: seq<Hole>, a: Partial, header: seq<byte>)
    requires Linked(Descriptors(m, base, from), head, hs) && Carried(m, from, m', to, n) && BytesIn(m, from, a) && |m| == |m'|
    requires Covers(hs, a, |m| - from) && a.top < END && (forall p :: p in a.got ==> 0 <= p < a.top)
    requires a.top + (if a.hadLast then 0 else 8) == n && to == from + 2 * half
    ensures Linked(Descriptors(m', base, to), head, hs) && BytesIn(m', to, a) && Covers(hs, a.(header := header), |m| - to)
  {
    LinkedCarried(m, m', base, from, to, half, n, head, hs, a);
    BytesCarried(m, m', from, to, n, a);
    LessRoom(hs, a, |m| - from, |m| - to);
    HeaderCovers(hs, a, header, |m| - to);
  }

  /** What filling hole k leaves: the complement of the merged bytes, and all that was in place. */
  lemma Filled(a: Partial, fr: Fragment, m: seq<byte>, m': seq<byte>, fragmentable: nat, hs: seq<Hole>, k: nat, okay: bool)
    requires WellFormedPartial(a) && Covers(hs, a, |m| - fragmentable) && fr.WellFormed() && fr.Last() < END
    requires k < |hs| && hs[k].first <= fr.first && fr.Last() <= hs[k].last
    requires okay ==> (fr.more ==> fr.Last() + 9 <= |m| - fragmentable) && (!fr.more ==> hs[k].last == END)
                      && if hs[k].last == END then a.top <= fr.first else fr.Last() < a.top
    requires |m| == |m'| && fragmentable <= |m| && SameOutsideHoles(m, m', fragmentable, hs) && BytesIn(m, fragmentable, a)
    ensures okay ==> Covers(Punch(hs, k, fr.first, fr.Last(), fr.more), Merge(a, fr), |m| - fragmentable)
    ensures SameFront(m, m', fragmentable) && BytesIn(m', fragmentable, a)
  {
    if okay {
      PunchCovers(hs, a, |m| - fragmentable, k, fr);
    }
    ReceivedBytesKept(m, m', fragmentable, hs, a);
  }

  /** The bytes received are in their places. */
  ghost predicate BytesIn(m: seq<byte>, fragmentable: nat, a: Partial) {
    forall p :: p in a.got ==> 0 <= p < |m| - fragmentable && m[fragmentable + p] == a.got[p]
  }

  /** Descriptor writes change no header byte and no received byte. */
  lemma ReceivedBytesKept(m: seq<byte>, m': seq<byte>, fragmentable: nat, hs: seq<Hole>, a: Partial)
    requires Covers(hs, a, |m| - fragmentable) && SameOutsideHoles(m, m', fragmentable, hs) && fragmentable <= |m|
    requires a.top <= END && (forall p :: p in a.got ==> 0 <= p < a.top) && BytesIn(m, fragmentable, a)
    ensures SameFront(m, m', fragmentable) && BytesIn(m', fragmentable, a)
  {
    forall j | 0 <= j < fragmentable ensures m[j] == m'[j] {
      forall i | 0 <= i < |hs| ensures !(hs[i].first <= j - fragmentable <= hs[i].last) {
        assert WellFormedHole(hs[i], |m| - fragmentable);
      }
    }
    forall p | p in a.got ensures m'[fragmentable + p] == m[fragmentable + p] {
      assert !InHoles(hs, p);
      assert fragmentable + p - fragmentable == p;
    }
  }

  /** Splicing parts of hole k keeps all descriptors inside the old holes, and apart from any offset x inside hole k. */
  lemma SpliceInside(hs: seq<Hole>, k: nat, mid: seq<Hole>, capacity: int)
    requires Shape(hs, capacity) && k < |hs|
    requires forall i :: 0 <= i < |mid| ==> hs[k].first <= mid[i].first && mid[i].first + 7 <= hs[k].last
    ensures DescriptorsInside(Splice(hs, k, mid), hs)
    ensures forall i :: 0 <= i < k ==> Splice(hs, k, mid)[i].first + 8 <= hs[k].first
    ensures forall i :: k + |mid| <= i < |Splice(hs, k, mid)| ==> hs[k].last + 1 < Splice(hs, k, mid)[i].first
  {
    var t := Splice(hs, k, mid);
    forall i | 0 <= i < |t| ensures DescriptorInside(t[i], hs) {
      SpliceEntry(hs, k, mid, i);
      var j := if i < k then i else if i < k + |mid| then k else i + 1 - |mid|;
      assert hs[j].first <= t[i].first && t[i].first + 7 <= hs[j].last;
    }
    forall i | 0 <= i < |t| && (i < k || k + |mid| <= i)
      ensures if i < k then t[i].first + 8 <= hs[k].first else hs[k].last + 1 < t[i].first
    {
      SpliceEntry(hs, k, mid, i);
      assert if i < k then Gap(hs, i, k) else Gap(hs, k, i + 1 - |mid|);
    }
  }

  /** No two descriptors can overlap. */
  ghost predicate Spaced(hs: seq<Hole>) {
    forall i, j :: 0 <= i < j < |hs| ==> Apart(hs, i, j)
  }

  predicate Apart(hs: seq<Hole>, i: nat, j: nat)
    requires i < |hs| && j < |hs|
  {
    hs[i].first + 8 <= hs[j].first
  }

  lemma SpacedDelete(hs: seq<Hole>, k: nat)
    requires Spaced(hs) && k < |hs|
    ensures Spaced(hs[..k] + hs[k + 1..])
  {
    var t := hs[..k] + hs[k + 1..];
    forall i, j | 0 <= i < j < |t| ensures Apart(t, i, j) {
      assert Apart(hs, if i < k then i else i + 1, if j < k then j else j + 1);
    }
  }

  lemma SpacedInsert(hs: seq<Hole>, k: nat, h: Hole)
    requires Spaced(hs) && k <= |hs|
    requires forall i :: 0 <= i < k ==> hs[i].first + 8 <= h.first
    requires forall i :: k <= i < |hs| ==> h.first + 8 <= hs[i].first
    ensures Spaced(hs[..k] + [h] + hs[k..])
  {
    var t := hs[..k] + [h] + hs[k..];
    forall i, j | 0 <= i < j < |t| ensures Apart(t, i, j) {
      if i != k && j != k {
        assert Apart(hs, if i < k then i else i - 1, if j < k then j else j - 1);
      }
    }
  }

  /** Two buffers agree on every byte inside the holes. */
  ghost predicate SameInHoles(m: seq<byte>, m': seq<byte>, fragmentable: nat, hs: seq<Hole>) {
    && |m| == |m'|
    && forall j :: 0 <= j < |m| && InHoles(hs, j - fragmentable) ==> m[j] == m'[j]
  }

  /** A copy that stays out of the holes leaves the list alone. */
  lemma LinkedFrame(m: seq<byte>, m': seq<byte>, base: nat, fragmentable: nat, head: int, hs: seq<Hole>, capacity: int)
    requires Linked(Descriptors(m, base, fragmentable), head, hs) && Shape(hs, capacity)
    requires SameInHoles(m, m', fragmentable, hs)
    ensures Linked(Descriptors(m', base, fragmentable), head, hs)
  {
    forall i | 0 <= i < |hs| ensures LinkAt(Descriptors(m', base, fragmentable), hs, i) {
      assert LinkAt(Descriptors(m, base, fragmentable), hs, i);
      forall j | InDescriptor(fragmentable, hs[i], j) ensures m[j] == m'[j] {
        assert WellFormedHole(hs[i], capacity);
        assert InHoles(hs, j - fragmentable);
      }
    }
  }

  function Overlay(m: seq<byte>, at: nat, data: seq<byte>): (m': seq<byte>)
    requires at + |data| <= |m|
    ensures |m'| == |m|
    ensures forall j :: 0 <= j < |m| ==> m'[j] == if at <= j < at + |data| then data[j - at] else m[j]
  {
    m[..at] + data + m[at + |data|..]
  }

  /** The fragment's bytes land outside the remaining holes and beside the bytes already received. */
  lemma OverlayMerges(m: seq<byte>, fragmentable: nat, hs: seq<Hole>, a: Partial, fr: Fragment)
    requires fr.WellFormed() && Fits(a, fr) && Covers(hs, Merge(a, fr), |m| - fragmentable)
    requires fragmentable <= |m| && fr.Last() < |m| - fragmentable && fr.Last() < END && BytesIn(m, fragmentable, a)
    requires forall p :: p in a.got ==> p <= END
    ensures var m' := Overlay(m, fragmentable + fr.first, fr.data);
            && SameInHoles(m, m', fragmentable, hs)
            && SameFront(m, m', fragmentable)
            && BytesIn(m', fragmentable, Merge(a, fr))
  {
    var b, m' := Merge(a, fr), Overlay(m, fragmentable + fr.first, fr.data);
    forall j | 0 <= j < |m| && InHoles(hs, j - fragmentable) ensures m[j] == m'[j] {
      var p := j - fragmentable;
      assert p !in b.got;
    }
    forall p | p in b.got ensures 0 <= p < |m| - fragmentable && m'[fragmentable + p] == b.got[p] {
      assert p in a.got ==> !(fr.first <= p <= fr.Last());
    }
  }

  /** Copying the fragment's bytes leaves the hole list alone and puts them in their places. */
  lemma Copied(m: seq<byte>, m': seq<byte>, base: nat, fragmentable: nat, firstHole: u16, hs: seq<Hole>, a: Partial, fr: Fragment)
    requires fr.WellFormed() && Fits(a, fr) && Covers(hs, Merge(a, fr), |m| - fragmentable) && Spaced(hs)
    requires fragmentable <= |m| && fr.Last() < |m| - fragmentable && fr.Last() < END && BytesIn(m, fragmentable, a)
    requires forall p :: p in a.got ==> p <= END
    requires Linked(Descriptors(m, base, fragmentable), firstHole, hs) && m' == Overlay(m, fragmentable + fr.first, fr.data)
    ensures Linked(Descriptors(m', base, fragmentable), firstHole, hs)
    ensures BytesIn(m', fragmentable, Merge(a, fr)) && SameFront(m, m', fragmentable)
  {
    OverlayMerges(m, fragmentable, hs, a, fr);
    LinkedFrame(m, m', base, fragmentable, firstHole, hs, |m| - fragmentable);
  }

  /** Where the data starts in a new buffer: 40 bytes and the headers first received, and what rounding the size adds. */
  function Headroom(unfragLen: nat, mru: nat): int
    requires unfragLen + mru >= 40
  {
    (Max(unfragLen + mru, 127) + 3) / 4 * 4 - (mru - 40)
  }

  /** A link of the hole list: the datagram's own head link or the next field of the descriptor at an index. */
  datatype Link = Head | NextAt(pos: nat)

  datatype Outcome = Dropped | Pending | Complete(packet: seq<byte>)

  class Datagram {
    /** Address of mem[0]; descriptors are aligned by address, not by index. */
    const base: nat
    const mru: nat
    const mem: array<byte>
    /** Index of the first byte of the fragmentable part. */
    var fragmentable: nat
    var bufPtr: nat
    var bufEnd: nat
    var firstHole: u16
    var hadLast: bool
    var discard: bool
    var ecn: Ecn.Mark

    ghost var holes: seq<Hole>
    ghost var got: map<int, byte>
    /** The end of everything received, and how far bufEnd lags behind it. */
    ghost var top: nat
    ghost var lag: nat

    /** Set once the finished packet has been handed on and this record freed. */
    var freed: bool

    ghost predicate Chained()
      reads this`firstHole, this`holes, this`fragmentable, mem
    {
      Linked(Descriptors(mem[..], base, fragmentable), firstHole, holes) && Spaced(holes)
    }

    method Write16(pos: nat, x: u16)
      requires pos + 2 <= mem.Length
      modifies mem
      ensures mem[..] == old(mem[..][pos := x % 256][pos + 1 := x / 256])
    {
      mem[pos] := x % 256;
      mem[pos + 1] := x / 256;
    }

    method WriteDescriptor(pos: nat, first: u16, last: u16, next: u16)
      requires Placed(Hole(first, last), mem.Length - fragmentable)
      requires pos == HolePointer(base, fragmentable, first)
      modifies mem
      ensures Described(mem[..], base, fragmentable, Hole(first, last), next)
      ensures SameOutside(old(mem[..]), mem[..], fragmentable, [Hole(first, last)])
    {
      ghost var m := mem[..];
      Write16(pos, first);
      Write16(pos + 2, last);
      Write16(pos + 4, next);
      forall j | 0 <= j < |m| && mem[..][j] != m[j] ensures InDescriptor(fragmentable, [Hole(first, last)][0], j) {
      }
    }

    /** The link that holds StartOf(holes, k). */
    ghost predicate LinkTo(link: Link, k: nat)
      reads this`holes, this`fragmentable
    {
      if k == 0 then link.Head?
      else k <= |holes| && link.NextAt? && link.pos == HolePointer(base, fragmentable, holes[k - 1].first)
    }

    /** Stores x through the link to position k. */
    method SetLink(link: Link, x: u16, ghost k: nat)
      requires Chained() && k <= |holes| && LinkTo(link, k)
      modifies mem, this`firstHole
      ensures Relinked(Descriptors(mem[..], base, fragmentable), old(firstHole), firstHole, holes, k, x)
      ensures k == 0 ==> mem[..] == old(mem[..])
      ensures k > 0 ==> SameOutside(old(mem[..]), mem[..], fragmentable, [holes[k - 1]])
    {
      match link
      case Head => firstHole := x;
      case NextAt(pos) => SetNext(pos, x, k - 1);
    }

    /** Stores x as the successor of hole k. */
    method SetNext(pos: nat, x: u16, ghost k: nat)
      requires Chained() && k < |holes| && pos == HolePointer(base, fragmentable, holes[k].first)
      modifies mem
      ensures Relinked(Descriptors(mem[..], base, fragmentable), firstHole, firstHole, holes, k + 1, x)
      ensures SameOutside(old(mem[..]), mem[..], fragmentable, [holes[k]])
    {
      assert LinkAt(Descriptors(mem[..], base, fragmentable), holes, k);
      ghost var m := mem[..];
      Write16(pos + 4, x);
      forall j | 0 <= j < |m| && mem[..][j] != m[j] ensures InDescriptor(fragmentable, [holes[k]][0], j) {
      }
      DescriptorsFrame(m, mem[..], base, fragmentable, firstHole, holes, holes[k]);
      forall i | 0 <= i < |holes| && i != k ensures LinkAt(Descriptors(mem[..], base, fragmentable), holes, i) {
        assert if i < k then Apart(holes, i, k) else Apart(holes, k, i);
      }
    }

    method LinkValue(link: Link, ghost k: nat) returns (x: u16)
      requires Chained() && k <= |holes| && LinkTo(link, k)
      ensures x == StartOf(holes, k)
    {
      match link
      case Head => x := firstHole;
      case NextAt(pos) =>
        assert LinkAt(Descriptors(mem[..], base, fragmentable), holes, k - 1);
        x := At16(mem[..], pos + 4);
    }

    /** Unhooks hole k from the list. */
    method DeleteHole(holeOff: u16, link: Link, ghost k: nat)
      requires Chained() && k < |holes| && LinkTo(link, k) && holeOff == holes[k].first
      modifies mem, this`firstHole, this`holes
      ensures Chained() && holes == old(holes[..k] + holes[k + 1..])
      ensures LinkTo(link, k)
      ensures SameOutside(old(mem[..]), mem[..], fragmentable, old(holes))
    {
      ghost var hs, d, head := holes, Descriptors(mem[..], base, fragmentable), firstHole;
      assert LinkAt(d, hs, k);
      SetLink(link, At16(mem[..], HolePointer(base, fragmentable, holeOff) + 4), k);
      LinkedDelete(d, Descriptors(mem[..], base, fragmentable), head, firstHole, hs, k);
      SpacedDelete(hs, k);
      holes := hs[..k] + hs[k + 1..];
    }

    /** Puts a new hole in front of list position k and returns the link that follows it. */
    method CreateHole(first: u16, last: u16, link: Link, ghost k: nat) returns (next: Link)
      requires Chained() && k <= |holes| && LinkTo(link, k)
      requires Placed(Hole(first, last), mem.Length - fragmentable)
      requires forall i :: 0 <= i < k ==> holes[i].first + 8 <= first
      requires forall i :: k <= i < |holes| ==> first + 8 <= holes[i].first
      modifies mem, this`firstHole, this`holes
      ensures Chained() && holes == old(holes[..k] + [Hole(first, last)] + holes[k..])
      ensures LinkTo(next, k + 1)
      ensures SameOutside(old(mem[..]), mem[..], fragmentable, holes)
    {
      ghost var hs, m, head, h := holes, mem[..], firstHole, Hole(first, last);
      var pos := HolePointer(base, fragmentable, first);
      var x := LinkValue(link, k);
      WriteDescriptor(pos, first, last, x);
      ghost var m1 := mem[..];
      DescriptorsFrame(m, m1, base, fragmentable, head, hs, h);
      ghost var d := Descriptors(m1, base, fragmentable);
      assert Linked(d, head, hs);
      SetLink(link, first, k);
      if k > 0 {
        DescriptorFrame(m1, mem[..], base, fragmentable, h, x, hs[k - 1]);
      }
      LinkedInsert(d, Descriptors(mem[..], base, fragmentable), head, firstHole, hs, k, h);
      SpacedInsert(hs, k, h);
      holes := hs[..k] + [h] + hs[k..];
      next := NextAt(pos);
      assert holes[k] == h && (k > 0 ==> holes[k - 1] == hs[k - 1]);
      SameOutsideTwo(m, m1, mem[..], fragmentable, holes, k);
    }

    function Room(): int
      reads this`fragmentable
    {
      mem.Length - fragmentable
    }

    /** The data have room for the MRU behind 40 bytes of headers, or exactly behind those that there are; and the end of the buffer
        is where the data end, or lags behind by what the headers exceed 40 bytes. */
    ghost predicate Bounds()
      reads this`bufPtr, this`bufEnd, this`fragmentable, this`top, this`lag
    {
      && bufPtr <= fragmentable && 80 <= fragmentable <= mem.Length && top <= Room()
      && (Room() == mru - 40 || (bufPtr < fragmentable && Room() == mru - (fragmentable - bufPtr)))
      && bufEnd + lag == fragmentable + top && (lag == 0 || lag == fragmentable - bufPtr - 40)
    }

    ghost function View(): Partial
      reads this`bufPtr, this`bufEnd, this`fragmentable, this`top, this`lag, this`hadLast, this`ecn, this`got, mem
      requires Bounds()
    {
      Partial(mru, got, top, hadLast, mem[bufPtr..fragmentable], ecn)
    }

    /** The record stores a: its bytes in place, the holes their exact complement, linked through the buffer. */
    ghost predicate Stored(a: Partial)
      reads this`bufPtr, this`bufEnd, this`fragmentable, this`top, this`lag, this`firstHole, this`hadLast, this`ecn, this`holes, this`got, mem
    {
      Bounds() && View() == a && InPlace(a)
    }

    ghost predicate InPlace(a: Partial)
      reads this`firstHole, this`holes, this`fragmentable, mem
    {
      Covers(holes, a, Room()) && Chained() && BytesIn(mem[..], fragmentable, a)
    }

    ghost predicate Valid()
      reads this, mem
    {
      Bounds() && (!discard ==> WellFormedPartial(View()) && Stored(View()) && (!freed ==> holes != []))
    }

    /** A new record: room for the headers of the first-received fragment, one hole, nothing received. */
    constructor (unfragLen: nat, mru: nat, base: nat, ecn: Ecn.Mark)
      requires unfragLen >= 40 && 1280 <= mru < 0x1_0000 && mru % 8 == 0
      ensures Valid() && !discard && !freed && fresh(mem)
      ensures View() == Partial(mru, map[], 0, false, [], ecn) && lag == 0
      ensures unfragLen + 40 <= bufPtr == fragmentable == Headroom(unfragLen, mru)
    {
      var size := unfragLen + mru - 40;
      var total := Max(size + 40, 127);
      total := (total + 3) / 4 * 4;
      this.base, this.mru, this.ecn := base, mru, ecn;
      mem := new byte[total];
      fragmentable := total - size + unfragLen;
      bufPtr := total - size + unfragLen;
      bufEnd := total - size + unfragLen;
      top, lag := 0, 0;
      firstHole, hadLast, discard, freed := END, false, false, false;
      holes, got := [], map[];
      new;
      var _ := CreateHole(0, END, Head, 0);
      assert holes == [Hole(0, END)];
    }

    /** Replaces hole k, which takes all of bytes f..l, by what remains of it. */
    method FillHole(f: u16, l: u16, more: bool, holeOff: u16, link: Link, holeFirst: u16, holeLast: u16, ghost k: nat) returns (okay: bool)
      requires Bounds() && Chained() && Shape(holes, Room())
      requires f <= l < Room() - (if more then 8 else 0) && f % 8 == 0 && (more ==> (l + 1) % 8 == 0)
      requires k < |holes| && LinkTo(link, k) && holeOff == holes[k].first && holes[k] == Hole(holeFirst, holeLast)
      requires holeFirst <= f && l <= holeLast
      modifies mem, this`firstHole, this`holes, this`hadLast, this`bufEnd, this`top, this`lag
      ensures okay <==> more || holeLast == END
      ensures Bounds() && Chained() && holes == Punch(old(holes), k, f, l, more)
      ensures okay ==> hadLast == (old(hadLast) || !more)
      ensures okay && holeLast == END ==> bufEnd == fragmentable + l + 1 && top == l + 1 && lag == 0
      ensures okay && holeLast != END ==> bufEnd == old(bufEnd) && top == old(top) && lag == old(lag)
      ensures SameOutsideHoles(old(mem[..]), mem[..], fragmentable, old(holes))
    {
      ReplaceHole(f, l, more, holeOff, link, holeFirst, holeLast, k);
      okay := more || holeLast == END;
      if okay {
        hadLast := hadLast || !more;
        if holeLast == END {
          bufEnd, top, lag := fragmentable + l + 1, l + 1, 0;
        }
      }
    }

    /** Deletes hole k and creates the holes that remain in front of and behind bytes f..l. */
    method ReplaceHole(f: u16, l: u16, more: bool, holeOff: u16, link: Link, holeFirst: u16, holeLast: u16, ghost k: nat)
      requires Chained() && Shape(holes, mem.Length - fragmentable)
      requires k < |holes| && LinkTo(link, k) && holeOff == holes[k].first && holes[k] == Hole(holeFirst, holeLast)
      requires holeFirst <= f <= l <= holeLast && f % 8 == 0
      requires more ==> (l + 1) % 8 == 0 && l + 9 <= mem.Length - fragmentable
      modifies mem, this`firstHole, this`holes
      ensures Chained() && holes == Punch(old(holes), k, f, l, more)
      ensures SameOutsideHoles(old(mem[..]), mem[..], fragmentable, old(holes))
    {
      ghost var hs, m := holes, mem[..];
      assert WellFormedHole(hs[k], mem.Length - fragmentable);
      if f > holeFirst { MultiplesApart(holeFirst, f); }
      if more && l < holeLast { MultiplesApart(l + 1, holeLast + 1); }
      DropHole(holeOff, link, k);
      AddParts(f, l, more, link, holeFirst, holeLast, m, hs, k);
    }

    method AddParts(f: u16, l: u16, more: bool, link: Link, holeFirst: u16, holeLast: u16, ghost m: seq<byte>, ghost hs: seq<Hole>, ghost k: nat)
      requires Shape(hs, mem.Length - fragmentable) && k < |hs| && hs[k] == Hole(holeFirst, holeLast)
      requires Chained() && holes == Splice(hs, k, []) && LinkTo(link, k) && SameOutsideHoles(m, mem[..], fragmentable, hs)
      requires holeFirst <= f <= l <= holeLast && holeFirst + 8 <= mem.Length - fragmentable
      requires (f > holeFirst ==> holeFirst + 8 <= f) && (more && l < holeLast ==> l + 8 <= holeLast)
      requires more ==> l + 9 <= mem.Length - fragmentable
      modifies mem, this`firstHole, this`holes
      ensures Chained() && holes == Punch(hs, k, f, l, more)
      ensures SameOutsideHoles(m, mem[..], fragmentable, hs)
    {
      ghost var front := [];
      var after := link;
      if f > holeFirst {
        after := AddPart(holeFirst, f - 1, link, m, hs, k, []);
        front := [Hole(holeFirst, f - 1)];
      }
      if more && l < holeLast {
        assert forall i :: 0 <= i < |front| ==> front[i] == Hole(holeFirst, f - 1);
        var _ := AddPart(l + 1, holeLast, after, m, hs, k, front);
      }
    }

    method DropHole(holeOff: u16, link: Link, ghost k: nat)
      requires Chained() && Shape(holes, mem.Length - fragmentable)
      requires k < |holes| && LinkTo(link, k) && holeOff == holes[k].first
      modifies mem, this`firstHole, this`holes
      ensures Chained() && holes == Splice(old(holes), k, []) && LinkTo(link, k)
      ensures SameOutsideHoles(old(mem[..]), mem[..], fragmentable, old(holes))
    {
      ghost var hs, m := holes, mem[..];
      SpliceInside(hs, k, [hs[k]], mem.Length - fragmentable);
      SpliceBasics(hs, k);
      DeleteHole(holeOff, link, k);
      DescriptorWritesStayInHoles(m, mem[..], fragmentable, hs, hs);
    }

    /** Adds one more remaining part of the former hole k behind the parts already added. */
    method AddPart(first: u16, last: u16, link: Link, ghost m: seq<byte>, ghost hs: seq<Hole>, ghost k: nat, ghost parts: seq<Hole>)
      returns (next: Link)
      requires Shape(hs, mem.Length - fragmentable) && k < |hs|
      requires Chained() && holes == Splice(hs, k, parts) && LinkTo(link, k + |parts|)
      requires forall i :: 0 <= i < |parts| ==> hs[k].first <= parts[i].first && parts[i].first + 8 <= first
      requires hs[k].first <= first && first + 7 <= last <= hs[k].last
      requires Placed(Hole(first, last), mem.Length - fragmentable) && SameOutsideHoles(m, mem[..], fragmentable, hs)
      modifies mem, this`firstHole, this`holes
      ensures Chained() && holes == Splice(hs, k, parts + [Hole(first, last)]) && LinkTo(next, k + |parts| + 1)
      ensures SameOutsideHoles(m, mem[..], fragmentable, hs)
    {
      ghost var m1, n, h := mem[..], k + |parts|, Hole(first, last);
      SpliceInside(hs, k, parts, mem.Length - fragmentable);
      forall i | 0 <= i < n ensures holes[i].first + 8 <= first {
        SpliceEntry(hs, k, parts, i);
      }
      next := CreateHole(first, last, link, n);
      SpliceExtend(hs, k, parts, h);
      SpliceInside(hs, k, parts + [h], mem.Length - fragmentable);
      DescriptorWritesStayInHoles(m1, mem[..], fragmentable, holes, hs);
      SameOutsideHolesTrans(m, m1, mem[..], fragmentable, hs);
    }

    /** The hole-filling loop: finds the hole that takes bytes f..l and updates the list. */
    method Fill(ghost a: Partial, ghost fr: Fragment, f: u16, l: u16, more: bool) returns (okay: bool)
      requires Stored(a) && WellFormedPartial(a) && holes != []
      requires fr.WellFormed() && f == fr.first && l == fr.Last() && more == fr.more
      requires l < Room() - (if more then 8 else 0) && l < END
      modifies mem, this`firstHole, this`holes, this`hadLast, this`bufEnd, this`top, this`lag
      ensures okay <==> Fits(a, fr)
      ensures Bounds()
      ensures okay ==> hadLast == Merge(a, fr).hadLast && top == Merge(a, fr).top && lag == if a.top <= f then 0 else old(lag)
      ensures okay ==> Chained() && Covers(holes, Merge(a, fr), Room())
      ensures SameFront(old(mem[..]), mem[..], fragmentable) && BytesIn(mem[..], fragmentable, a)
    {
      var holeOff, link, k := FindHole(f);
      FirstHoleDecides(holes, a, Room(), k, f, l, more);
      if holeOff == END {
        return false;
      }
      var _, holeFirst, holeLast, _ := ReadHole(holeOff, k);
      if f < holeFirst || l > holeLast {
        return false;
      }
      okay := FillKept(a, fr, f, l, more, holeOff, link, holeFirst, holeLast, k);
    }

    /** Filling a hole leaves alone what is in front of the fragmentable part and what was received. */
    method FillKept(ghost a: Partial, ghost fr: Fragment, f: u16, l: u16, more: bool, holeOff: u16, link: Link, holeFirst: u16, holeLast: u16,
                    ghost k: nat) returns (okay: bool)
      requires Bounds() && Chained() && Covers(holes, a, Room()) && BytesIn(mem[..], fragmentable, a) && WellFormedPartial(a)
      requires a.hadLast == hadLast && a.top == top
      requires fr.WellFormed() && f == fr.first && l == fr.Last() && more == fr.more
      requires l < Room() - (if more then 8 else 0) && l < END
      requires k < |holes| && LinkTo(link, k) && holeOff == holes[k].first && holes[k] == Hole(holeFirst, holeLast)
      requires holeFirst <= f && l <= holeLast
      requires more || holeLast == END ==> if holeLast == END then top <= f else l < top
      modifies mem, this`firstHole, this`holes, this`hadLast, this`bufEnd, this`top, this`lag
      ensures okay <==> more || holeLast == END
      ensures Bounds()
      ensures okay ==> hadLast == Merge(a, fr).hadLast && top == Merge(a, fr).top && lag == if a.top <= f then 0 else old(lag)
      ensures okay ==> Chained() && Covers(holes, Merge(a, fr), Room())
      ensures SameFront(old(mem[..]), mem[..], fragmentable) && BytesIn(mem[..], fragmentable, a)
    {
      ghost var m, hs := mem[..], holes;
      WholeBlocks(fr);
      okay := FillHole(f, l, more, holeOff, link, holeFirst, holeLast, k);
      Filled(a, fr, m, mem[..], fragmentable, hs, k, okay);
    }

    /** The walk along the list: the first hole that does not end before f, and the link that leads to it. */
    method FindHole(f: u16) returns (holeOff: u16, link: Link, ghost k: nat)
      requires Chained() && Shape(holes, mem.Length - fragmentable)
      ensures k <= |holes| && LinkTo(link, k) && holeOff == StartOf(holes, k)
      ensures holeOff == END <==> k == |holes|
      ensures (forall i :: 0 <= i < k ==> holes[i].last < f) && (k < |holes| ==> f <= holes[k].last)
    {
      holeOff, link, k := firstHole, Head, 0;
      while holeOff != END
        invariant k <= |holes| && LinkTo(link, k) && holeOff == StartOf(holes, k)
        invariant forall i :: 0 <= i < k ==> holes[i].last < f
        decreases |holes| - k
      {
        var pos, _, holeLast, next := ReadHole(holeOff, k);
        if f <= holeLast {
          assert WellFormedHole(holes[k], mem.Length - fragmentable);
          return;
        }
        link, holeOff, k := NextAt(pos), next, k + 1;
      }
    }

    /** Reads the descriptor of hole k. */
    method ReadHole(holeOff: u16, ghost k: nat) returns (pos: nat, first: u16, last: u16, next: u16)
      requires Chained() && k < |holes| && holeOff == holes[k].first
      ensures pos == HolePointer(base, fragmentable, holes[k].first)
      ensures holes[k] == Hole(first, last) && next == StartOf(holes, k + 1)
    {
      assert LinkAt(Descriptors(mem[..], base, fragmentable), holes, k);
      assert Described(mem[..], base, fragmentable, holes[k], StartOf(holes, k + 1));
      pos := HolePointer(base, fragmentable, holeOff);
      first, last, next := At16(mem[..], pos), At16(mem[..], pos + 2), At16(mem[..], pos + 4);
    }

    method CopyIn(at: nat, data: seq<byte>)
      requires at + |data| <= mem.Length
      modifies mem
      ensures mem[..] == Overlay(old(mem[..]), at, data)
    {
      ghost var m := mem[..];
      for i := 0 to |data|
        invariant mem[..] == Overlay(m, at, data[..i])
      {
        mem[at + i] := data[i];
      }
      assert data[..|data|] == data;
    }

    /** Fills the holes and copies the fragment's bytes to their place. */
    method Insert(ghost a: Partial, fr: Fragment) returns (okay: bool)
      requires Stored(a) && WellFormedPartial(a) && holes != [] && fr.WellFormed()
      requires fr.Last() < Room() - (if fr.more then 8 else 0) && fr.Last() < END
      modifies mem, this`firstHole, this`holes, this`hadLast, this`bufEnd, this`top, this`lag, this`got
      ensures Bounds()
      ensures okay <==> Fits(a, fr)
      ensures okay ==> Stored(Merge(a, fr)) && lag == if a.top <= fr.first then 0 else old(lag)
    {
      ghost var m := mem[..];
      okay := Fill(a, fr, fr.first, fr.Last(), fr.more);
      if !okay {
        return;
      }
      ghost var m1 := mem[..];
      CopyData(a, fr);
      FrontKept(m, m1, mem[..], fragmentable, bufPtr);
    }

    method CopyData(ghost a: Partial, fr: Fragment)
      requires Bounds() && fr.WellFormed() && fr.Last() < Room() && fr.Last() < END && WellFormedPartial(a)
      requires Chained() && Covers(holes, Merge(a, fr), Room()) && got == a.got && Fits(a, fr)
      requires BytesIn(mem[..], fragmentable, a)
      modifies mem, this`got
      ensures InPlace(Merge(a, fr)) && got == Merge(a, fr).got && SameFront(old(mem[..]), mem[..], fragmentable)
    {
      ghost var m := mem[..];
      CopyIn(fragmentable + fr.first, fr.data);
      Copied(m, mem[..], base, fragmentable, firstHole, holes, a, fr);
      got := Merge(a, fr).got;
    }

    /** Copies the first fragment's headers in front of the fragmentable part. */
    method CopyHeader(ghost a: Partial, header: seq<byte>)
      requires Stored(a) && a.header == [] && |header| <= bufPtr
      modifies mem, this`bufPtr
      ensures Stored(a.(header := header))
    {
      ghost var m := mem[..];
      bufPtr := bufPtr - |header|;
      CopyIn(bufPtr, header);
      HeaderInFront(m, mem[..], base, fragmentable, firstHole, holes, a, header);
      assert mem[bufPtr..fragmentable] == mem[..][bufPtr..fragmentable];
    }

    /** Length checks, hole filling, copying and ECN: everything that can fail. */
    method Absorb(ghost a: Partial, fr: Fragment) returns (okay: bool)
      requires Stored(a) && WellFormedPartial(a) && holes != [] && fr.WellFormed() && fr.Aligned()
      modifies mem, this`firstHole, this`holes, this`hadLast, this`bufEnd, this`got, this`ecn, this`bufPtr, this`fragmentable
      modifies this`top, this`lag
      ensures okay <==> Accepts(a, fr)
      ensures Bounds() && (okay ==> Stored(Next(a, fr)) && lag == LagAfter(a, fr, old(bufPtr), old(lag)))
      ensures okay && HeaderFits(fr, old(bufPtr)) ==> fragmentable == old(fragmentable)
    {
      var limit := LengthLimit(a, fr.more);
      if fr.Last() >= limit {
        return false;
      }
      okay := Insert(a, fr);
      if !okay {
        return;
      }
      okay := Combine(a, fr);
    }

    method LengthLimit(ghost a: Partial, more: bool) returns (limit: int)
      requires Stored(a) && WellFormedPartial(a)
      ensures limit == Limit(a, more) && limit <= Room() - (if more then 8 else 0) && limit < END
    {
      limit := if bufPtr == fragmentable then mru - 40 else mru - (fragmentable - bufPtr);
      if more {
        limit := limit - 8;
      }
    }

    /** Combines the ECN field and, for the first fragment, repeats the MRU check and takes the headers. */
    method Combine(ghost a: Partial, fr: Fragment) returns (okay: bool)
      requires Stored(Merge(a, fr)) && WellFormedPartial(a) && fr.WellFormed() && fr.Aligned()
      requires fr.Last() < Limit(a, fr.more) && Fits(a, fr)
      modifies mem, this`ecn, this`bufPtr, this`fragmentable, this`lag
      ensures okay <==> Accepts(a, fr)
      ensures Bounds() && (okay ==> Stored(Next(a, fr)))
      ensures okay ==> lag == if HeaderFits(fr, old(bufPtr)) then old(lag) else |fr.header| - 40
      ensures okay && HeaderFits(fr, old(bufPtr)) ==> fragmentable == old(fragmentable)
    {
      var combined := Ecn.Combine(ecn, fr.ecn);
      if combined == Ecn.ILLEGAL {
        return false;
      }
      ghost var b := Merge(a, fr);
      SetEcn(b, combined);
      AcceptsIs(a, fr);
      okay := true;
      if fr.first == 0 {
        ghost var half := EvenHeader(fr);
        okay := TakeHeader(b.(ecn := combined), fr.header, half);
      }
    }

    method SetEcn(ghost b: Partial, mark: Ecn.Mark)
      requires Stored(b)
      modifies this`ecn
      ensures Stored(b.(ecn := mark))
    {
      ecn := mark;
      EcnCovers(holes, b, mark, Room());
    }

    /** The MRU check, now that the size of the headers is known, and the headers themselves. */
    method TakeHeader(ghost b: Partial, header: seq<byte>, ghost half: nat) returns (okay: bool)
      requires Stored(b) && b.header == [] && |header| == 40 + 2 * half && mru < END && forall p :: p in b.got ==> 0 <= p < b.top
      modifies mem, this`bufPtr, this`fragmentable, this`lag
      ensures okay <==> |header| + b.top + (if b.hadLast then 0 else 8) <= b.mru
      ensures Stored(if okay then b.(header := header) else b)
      ensures okay ==> lag == if |header| <= old(bufPtr) then old(lag) else |header| - 40
      ensures okay && |header| <= old(bufPtr) ==> fragmentable == old(fragmentable)
    {
      var soFar := bufEnd - fragmentable;
      if !hadLast {
        soFar := soFar + 8;
      }
      if |header| + soFar > mru {
        return false;
      }
      if bufPtr < |header| {
        Shuffle(b, header, soFar, half);
      } else {
        CopyHeader(b, header);
      }
      okay := true;
    }

    /** The data are shuffled up into what will be their final position, and the headers put in front of them; the hole list goes with
        the data, the end of the buffer stays behind. */
    method Shuffle(ghost b: Partial, header: seq<byte>, soFar: nat, ghost half: nat)
      requires Stored(b) && b.header == [] && bufPtr < |header| == 40 + 2 * half && |header| + soFar <= mru < END
      requires soFar == b.top + (if b.hadLast then 0 else 8) && forall p :: p in b.got ==> 0 <= p < b.top
      modifies mem, this`bufPtr, this`fragmentable, this`lag
      ensures Stored(b.(header := header)) && lag == |header| - 40
    {
      var offset := mem.Length - mru + |header|;
      MoveUp(b, offset, header, soFar, half);
      fragmentable, bufPtr, lag := offset, offset - |header|, |header| - 40;
    }

    method MoveBytes(offset: nat, start: nat, header: seq<byte>, n: nat)
      requires start + |header| == offset && offset + n <= mem.Length && fragmentable + n <= mem.Length
      modifies mem
      ensures Carried(old(mem[..]), fragmentable, mem[..], offset, n) && mem[start..offset] == header
    {
      ghost var m := mem[..];
      var block := mem[fragmentable..fragmentable + n];
      CopyIn(offset, block);
      CopyIn(start, header);
      MovedUp(m, mem[..], block, header, fragmentable, offset);
      assert mem[start..offset] == mem[..][start..offset];
    }

    /** The list and the bytes stand at the new place. */
    method MoveUp(ghost b: Partial, offset: nat, header: seq<byte>, soFar: nat, ghost half: nat)
      requires InPlace(b) && soFar == b.top + (if b.hadLast then 0 else 8) && b.top < END && forall p :: p in b.got ==> 0 <= p < b.top
      requires |header| <= offset == fragmentable + 2 * half && offset + soFar <= mem.Length
      modifies mem
      ensures Linked(Descriptors(mem[..], base, offset), firstHole, holes) && BytesIn(mem[..], offset, b)
      ensures Covers(holes, b.(header := header), mem.Length - offset) && mem[offset - |header|..offset] == header
    {
      ghost var m := mem[..];
      MoveBytes(offset, offset - |header|, header, soFar);
      DatagramCarried(m, mem[..], base, fragmentable, offset, half, soFar, firstHole, holes, b, header);
    }

    /** Takes one fragment of this datagram: discards the datagram, waits for more, or hands on what is in the buffer once the datagram
        is whole, which is the packet exactly if the end of the buffer does not lag behind. */
    method Receive(fr: Fragment) returns (r: Outcome)
      requires Valid() && !freed && fr.WellFormed() && fr.Aligned()
      modifies this, mem
      ensures Valid()
      ensures discard <==> old(discard) || !Accepts(old(View()), fr)
      ensures discard ==> !freed && r == Dropped
      ensures !discard ==> View() == Next(old(View()), fr) && lag == LagAfter(old(View()), fr, old(bufPtr), old(lag))
      ensures !discard && HeaderFits(fr, old(bufPtr)) ==> fragmentable == old(fragmentable)
      ensures !discard && View().header == [] ==> bufPtr == old(bufPtr)
      ensures !discard ==> (freed <==> Whole(View())) && r == Conclusion(View(), lag)
      ensures freed ==> (r == Complete(Packet(View())) <==> lag == 0)
    {
      if discard {
        return Dropped;
      }
      var okay, v := Prepare(View(), fr);
      if !okay {
        discard := true;
        return Dropped;
      }
      r := Conclude(v.after);
    }

    ghost predicate Collecting(a: Partial, frs: seq<Fragment>, room: nat)
      reads this, mem
    {
      Valid() && !freed && !discard && Progress(a, frs, room, View(), bufPtr, lag)
    }

    /** One more fragment of a run. */
    method ReceiveNext(fr: Fragment, ghost a: Partial, ghost frs: seq<Fragment>, ghost room: nat) returns (r: Outcome)
      requires Collecting(a, frs, room) && fr.WellFormed() && fr.Aligned()
      modifies this, mem
      ensures Outcomes(a, frs + [fr], room, r)
      ensures r == Pending ==> Collecting(a, frs + [fr], room)
    {
      ghost var b, ptr, behind := View(), bufPtr, lag;
      r := Receive(fr);
      NextOutcome(a, frs, fr, room, b, ptr, behind, bufPtr, r);
    }

    /** The fragments from number i on, in the order of their arrival, until the record is whole or discarded. */
    method ReceiveFrom(i: nat, frs: seq<Fragment>, ghost a: Partial, ghost room: nat) returns (r: Outcome, used: nat)
      requires i <= |frs| && Collecting(a, frs[..i], room) && AllWellFormed(frs)
      modifies this, mem
      ensures used <= |frs| && (r == Pending ==> used == |frs|)
      ensures Outcomes(a, frs[..used], room, r)
      decreases |frs| - i
    {
      r, used := Pending, i;
      if i < |frs| {
        OneFurther(frs, i);
        r := ReceiveNext(frs[i], a, frs[..i], room);
        used := i + 1;
        if r == Pending {
          r, used := ReceiveFrom(i + 1, frs, a, room);
        }
      }
    }

    /** Everything up to the completion check. */
    method Prepare(ghost a: Partial, fr: Fragment) returns (okay: bool, ghost v: Verdict)
      requires Stored(a) && WellFormedPartial(a) && holes != [] && fr.WellFormed() && fr.Aligned()
      modifies mem, this`firstHole, this`holes, this`hadLast, this`bufEnd, this`got, this`ecn, this`bufPtr, this`fragmentable
      modifies this`top, this`lag
      ensures v == Judge(a, fr) && okay == v.Accepted? && Bounds()
      ensures okay ==> WellFormedPartial(v.after) && Stored(v.after) && Prepared(v.after) && lag == LagAfter(a, fr, old(bufPtr), old(lag))
      ensures okay && HeaderFits(fr, old(bufPtr)) ==> fragmentable == old(fragmentable)
    {
      okay := Absorb(a, fr);
      v := Judge(a, fr);
      if okay {
        MergeWellFormed(a, fr);
        Ready(v.after);
      }
    }

    /** The record after a fragment that was accepted, and the result. */
    ghost predicate Taken(a: Partial, r: Outcome)
      reads this, mem
    {
      && WellFormedPartial(a) && Stored(a) && (freed <==> Whole(a)) && (holes == [] <==> Whole(a))
      && r == Conclusion(a, lag)
    }

    /** What is in the buffer is what will be handed on. */
    ghost predicate Prepared(a: Partial)
      reads this`bufPtr, this`bufEnd, this`lag, this`firstHole, this`ecn, this`holes, mem
      requires WellFormedPartial(a)
    {
      && (firstHole == END <==> Whole(a)) && (holes == [] <==> Whole(a))
      && (Whole(a) ==>
            && bufPtr + 40 <= bufEnd <= mem.Length && bufEnd - bufPtr - 40 <= 0xffff
            && Patched(mem[bufPtr..bufEnd], ecn, bufEnd - bufPtr - 40) == Handed(a, lag)
            && (Handed(a, lag) == Packet(a) <==> lag == 0))
    }

    lemma Ready(a: Partial)
      requires Stored(a) && WellFormedPartial(a)
      ensures Prepared(a)
    {
      NoHolesMeansWhole(holes, a, Room());
      if Whole(a) {
        BufferBytes(a);
        ShortenedLoses(a, lag);
      }
    }

    /** Without holes, the datagram is whole: the first eight bytes of the header are patched and the buffer is handed on. */
    method Conclude(ghost a: Partial) returns (r: Outcome)
      requires !freed && WellFormedPartial(a) && Prepared(a) && Stored(a)
      modifies this`freed
      ensures Taken(a, r) && discard == old(discard)
    {
      if firstHole != END {
        return Pending;
      }
      r := Complete(Patched(mem[bufPtr..bufEnd], ecn, bufEnd - bufPtr - 40));
      freed := true;
    }

    /** What lies between start and end of the buffer. */
    lemma BufferBytes(a: Partial)
      requires Stored(a) && WellFormedPartial(a) && Whole(a)
      ensures bufEnd - bufPtr == |a.header| + a.top - lag && bufPtr + 40 <= bufEnd <= mem.Length && a.header != []
      ensures Patched(mem[bufPtr..bufEnd], ecn, bufEnd - bufPtr - 40) == Handed(a, lag)
    {
      assert 0 in got;
      HeldBytes(mem[..], fragmentable, a, bufEnd);
      assert mem[bufPtr..bufEnd] == mem[..][bufPtr..bufEnd];
      HandedIs(a, lag);
    }
  }

  /** There is room for the headers of a first fragment in front of the data. */
  predicate HeaderFits(fr: Fragment, room: nat) {
    fr.first == 0 ==> |fr.header| <= room
  }

  /** How far the end of the buffer lags behind the end of the data: it is left behind when the data are shuffled up, and catches up
      when a fragment arrives behind everything received before. */
  function LagAfter(a: Partial, fr: Fragment, room: nat, lag: nat): nat
    requires |fr.header| >= 40
  {
    if !HeaderFits(fr, room) then |fr.header| - 40 else if a.top <= fr.first then 0 else lag
  }

  /** Whether the fragment is accepted, and what the datagram is then. */
  datatype Verdict = Refused | Accepted(after: Partial)

  ghost function Judge(a: Partial, fr: Fragment): Verdict {
    if Accepts(a, fr) then Accepted(Next(a, fr)) else Refused
  }

  lemma HeldBytes(m: seq<byte>, at: nat, a: Partial, end: nat)
    requires |a.header| <= at && at + a.top <= |m| && m[at - |a.header|..at] == a.header && BytesIn(m, at, a)
    requires Whole(a) && at - |a.header| <= end <= at + a.top
    ensures m[at - |a.header|..end] == (a.header + Payload(a))[..end - (at - |a.header|)]
  {
    var from, t := at - |a.header|, a.header + Payload(a);
    forall k | 0 <= k < end - from ensures m[from + k] == t[k] {
      if k < |a.header| {
        assert m[from..at][k] == m[from + k];
      } else {
        assert k - |a.header| in a.got;
      }
    }
    assert m[from..end] == t[..end - from];
  }

  /** Only the first bytes are patched. */
  lemma PatchedFront(header: seq<byte>, payload: seq<byte>, ecn: Ecn.Mark, length: u16)
    requires |header| >= 40
    ensures Patched(header + payload, ecn, length) == Patched(header, ecn, length) + payload
  {
  }

  /** What is handed on: the headers and the bytes received, without as many at the end as the end of the buffer lags behind, and with
      the length of what there is. */
  ghost function Handed(a: Partial, lag: nat): seq<byte> {
    var length := |a.header| + a.top - lag;
    if Whole(a) && 40 <= length <= 0xffff then Patched((a.header + Payload(a))[..length], a.ecn, length - 40) else []
  }

  ghost function Conclusion(a: Partial, lag: nat): Outcome {
    if Whole(a) then Complete(Handed(a, lag)) else Pending
  }

  lemma HandedIs(a: Partial, lag: nat)
    requires WellFormedPartial(a) && Whole(a) && 40 <= |a.header| + a.top - lag
    ensures |Handed(a, lag)| == |a.header| + a.top - lag
    ensures lag == 0 ==> Handed(a, lag) == Packet(a)
  {
    if lag == 0 {
      assert (a.header + Payload(a))[..|a.header| + a.top] == a.header + Payload(a);
      PatchedFront(a.header, Payload(a), a.ecn, |a.header| + a.top - 40);
    }
  }

  /** It is the packet exactly if nothing is missing. */
  lemma ShortenedLoses(a: Partial, lag: nat)
    requires WellFormedPartial(a) && Whole(a) && 40 <= |a.header| + a.top - lag
    ensures |Handed(a, lag)| == |Packet(a)| - lag
    ensures Handed(a, lag) == Packet(a) <==> lag == 0
  {
    HandedIs(a, lag);
  }

  /** All of these were accepted, one after the other. */
  ghost predicate AllAccepted(a: Partial, frs: seq<Fragment>)
    decreases |frs|, 0
  {
    frs == [] || (AllAccepted(a, Init(frs)) && Accepts(After(a, Init(frs)), Last(frs)))
  }

  ghost function After(a: Partial, frs: seq<Fragment>): Partial
    requires AllAccepted(a, frs)
    decreases |frs|, 1
  {
    if frs == [] then a else Next(After(a, Init(frs)), Last(frs))
  }

  function Init(frs: seq<Fragment>): (r: seq<Fragment>)
    requires frs != []
    ensures |r| == |frs| - 1
  {
    frs[..|frs| - 1]
  }

  function Last(frs: seq<Fragment>): Fragment
    requires frs != []
  {
    frs[|frs| - 1]
  }

  /** Fragment j lies behind all that arrived before it. */
  predicate BehindAll(frs: seq<Fragment>, j: nat)
    requires j < |frs|
  {
    forall h :: 0 <= h < j ==> frs[h].Last() < frs[j].first
  }

  /** The headers came when there was no room for them, and nothing that arrived later lay behind all that came before it. */
  ghost predicate Stale(frs: seq<Fragment>, room: int) {
    exists i :: 0 <= i < |frs| && frs[i].first == 0 && StaleSince(frs, i, room)
  }

  predicate StaleSince(frs: seq<Fragment>, i: nat, room: int)
    requires i < |frs|
  {
    |frs[i].header| > room && forall j :: i < j < |frs| ==> !BehindAll(frs, j)
  }

  /** One more fragment. */
  lemma StaleStep(frs: seq<Fragment>, fr: Fragment, room: nat)
    ensures Stale(frs + [fr], room) <==> !HeaderFits(fr, room) || (Stale(frs, room) && !BehindAll(frs + [fr], |frs|))
  {
    var t := frs + [fr];
    forall j | 0 <= j < |frs| ensures BehindAll(t, j) <==> BehindAll(frs, j) {
      assert forall h :: 0 <= h <= j ==> t[h] == frs[h];
    }
    forall i | 0 <= i < |frs|
      ensures StaleSince(t, i, room) <==> StaleSince(frs, i, room) && !BehindAll(t, |frs|)
    {
      if StaleSince(t, i, room) {
        assert forall j :: i < j < |frs| ==> !BehindAll(t, j) && (BehindAll(t, j) <==> BehindAll(frs, j));
      }
    }
    assert !HeaderFits(fr, room) ==> t[|frs|].first == 0 && StaleSince(t, |frs|, room);
    if Stale(t, room) {
      var i :| 0 <= i < |t| && t[i].first == 0 && StaleSince(t, i, room);
      assert i < |frs| ==> frs[i].first == 0 && StaleSince(frs, i, room);
    }
    if Stale(frs, room) && !BehindAll(t, |frs|) {
      var i :| 0 <= i < |frs| && frs[i].first == 0 && StaleSince(frs, i, room);
      assert t[i].first == 0 && StaleSince(t, i, room);
    }
  }

  /** The end of what a record holds is the end of the fragment that reaches furthest. */
  lemma {:induction false} TopIsFurthest(a: Partial, frs: seq<Fragment>)
    requires a.top == 0 && AllAccepted(a, frs)
    ensures forall h :: 0 <= h < |frs| ==> frs[h].Last() < After(a, frs).top
    ensures frs != [] ==> exists h :: 0 <= h < |frs| && frs[h].Last() + 1 == After(a, frs).top
  {
    if frs != [] {
      TopIsFurthest(a, Init(frs));
      var b := After(a, Init(frs));
      if Last(frs).Last() < b.top && Init(frs) != [] {
        var h :| 0 <= h < |Init(frs)| && Init(frs)[h].Last() + 1 == b.top;
        assert frs[h].Last() + 1 == After(a, frs).top;
      } else {
        assert frs[|frs| - 1].Last() + 1 == After(a, frs).top;
      }
    }
  }

  /** Behind all that arrived before means behind the end of what the record holds. */
  lemma BehindTop(a: Partial, frs: seq<Fragment>, fr: Fragment)
    requires a.top == 0 && AllAccepted(a, frs)
    ensures BehindAll(frs + [fr], |frs|) <==> After(a, frs).top <= fr.first
  {
    TopIsFurthest(a, frs);
    var t := frs + [fr];
    assert forall h :: 0 <= h < |frs| ==> t[h] == frs[h];
    if frs != [] {
      var h :| 0 <= h < |frs| && frs[h].Last() + 1 == After(a, frs).top;
      assert t[h].Last() + 1 == After(a, frs).top;
    }
  }

  lemma OneMore(a: Partial, frs: seq<Fragment>, fr: Fragment)
    requires AllAccepted(a, frs)
    ensures AllAccepted(a, frs + [fr]) <==> Accepts(After(a, frs), fr)
    ensures AllAccepted(a, frs + [fr]) ==> After(a, frs + [fr]) == Next(After(a, frs), fr)
  {
    assert Init(frs + [fr]) == frs;
  }

  /** The end of the buffer lags behind exactly while the record is stale. */
  lemma LagIsStale(a: Partial, frs: seq<Fragment>, fr: Fragment, room: nat, room': nat, lag: nat)
    requires a.top == 0 && AllAccepted(a, frs) && 80 <= room && |fr.header| >= 40
    requires (lag > 0 <==> Stale(frs, room)) && (fr.first == 0 ==> room' == room)
    ensures LagAfter(After(a, frs), fr, room', lag) > 0 <==> Stale(frs + [fr], room)
  {
    StaleStep(frs, fr, room);
    BehindTop(a, frs, fr);
  }

  predicate AllWellFormed(frs: seq<Fragment>) {
    forall i :: 0 <= i < |frs| ==> frs[i].WellFormed() && frs[i].Aligned()
  }

  lemma OneFurther(frs: seq<Fragment>, i: nat)
    requires i < |frs| && AllWellFormed(frs)
    ensures frs[..i + 1] == frs[..i] + [frs[i]] && frs[i].WellFormed() && frs[i].Aligned()
  {
  }

  /** What a new record holds. */
  function Empty(mru: nat, ecn: Ecn.Mark): Partial {
    Partial(mru, map[], 0, false, [], ecn)
  }

  /** What has become of a record after these fragments, the headers in front of which got this much room. */
  ghost predicate Outcomes(a: Partial, frs: seq<Fragment>, room: int, r: Outcome) {
    match r
    case Pending => AllAccepted(a, frs) && !Whole(After(a, frs))
    case Dropped => frs != [] && AllAccepted(a, Init(frs)) && !Accepts(After(a, Init(frs)), Last(frs))
    case Complete(packet) => AllAccepted(a, frs) && WholePacket(After(a, frs), Stale(frs, room), packet)
  }

  /** The packet exactly if the record is not stale, else what is left of it without the last bytes. */
  ghost predicate WholePacket(a: Partial, stale: bool, packet: seq<byte>) {
    && WellFormedPartial(a) && Whole(a)
    && (packet == Packet(a) <==> !stale)
    && (stale ==> |packet| == 40 + a.top)
  }

  /** A new record that takes fragments in the order of their arrival until it is whole or discarded. */
  method Collect(frs: seq<Fragment>, mru: nat, base: nat) returns (r: Outcome, used: nat)
    requires frs != [] && 1280 <= mru < 0x1_0000 && mru % 8 == 0 && AllWellFormed(frs)
    ensures used <= |frs| && (r == Pending ==> used == |frs|)
    ensures Outcomes(Empty(mru, frs[0].ecn), frs[..used], Headroom(|frs[0].header|, mru), r)
  {
    var d := new Datagram(|frs[0].header|, mru, base, frs[0].ecn);
    r, used := d.ReceiveFrom(0, frs, Empty(mru, frs[0].ecn), Headroom(|frs[0].header|, mru));
  }

  /** A run so far: what the record holds, where its headers will end while there are none, and how far the end of the buffer lags. */
  ghost predicate Progress(a: Partial, frs: seq<Fragment>, room: nat, b: Partial, bufPtr: nat, lag: nat) {
    && a.top == 0 && 80 <= room && AllAccepted(a, frs) && b == After(a, frs) && WellFormedPartial(b) && !Whole(b)
    && (b.header == [] ==> bufPtr == room)
    && (lag == 0 || lag + 40 == |b.header|)
    && (lag > 0 <==> Stale(frs, room))
  }

  /** What one more fragment does to the run. */
  lemma NextOutcome(a: Partial, frs: seq<Fragment>, fr: Fragment, room: nat, b: Partial, bufPtr: nat, lag: nat, bufPtr': nat, r: Outcome)
    requires Progress(a, frs, room, b, bufPtr, lag) && fr.WellFormed()
    requires r == Dropped <==> !Accepts(b, fr)
    requires Accepts(b, fr) ==> r == Conclusion(Next(b, fr), LagAfter(b, fr, bufPtr, lag))
    requires Accepts(b, fr) && Next(b, fr).header == [] ==> bufPtr' == bufPtr
    ensures Outcomes(a, frs + [fr], room, r)
    ensures r == Pending ==> Progress(a, frs + [fr], room, Next(b, fr), bufPtr', LagAfter(b, fr, bufPtr, lag))
  {
    OneMore(a, frs, fr);
    assert Init(frs + [fr]) == frs;
    if Accepts(b, fr) {
      NextProgress(a, frs, fr, room, b, bufPtr, lag);
      if Whole(Next(b, fr)) {
        ShortenedLoses(Next(b, fr), LagAfter(b, fr, bufPtr, lag));
      }
    }
  }

  lemma NextProgress(a: Partial, frs: seq<Fragment>, fr: Fragment, room: nat, b: Partial, bufPtr: nat, lag: nat)
    requires Progress(a, frs, room, b, bufPtr, lag) && fr.WellFormed() && Accepts(b, fr)
    ensures LagAfter(b, fr, bufPtr, lag) == 0 || LagAfter(b, fr, bufPtr, lag) + 40 == |Next(b, fr).header|
    ensures LagAfter(b, fr, bufPtr, lag) > 0 <==> Stale(frs + [fr], room)
    ensures WellFormedPartial(Next(b, fr)) && (Next(b, fr).header == [] ==> b.header == [])
  {
    if fr.first == 0 {
      NoHeaderYet(b, fr);
    }
    MergeWellFormed(b, fr);
    LagIsStale(a, frs, fr, room, bufPtr, lag);
  }

  lemma NoHeaderYet(a: Partial, fr: Fragment)
    requires WellFormedPartial(a) && fr.WellFormed() && fr.first == 0
    ensures Accepts(a, fr) ==> a.header == []
  {
  }

  lemma {:induction false} AcceptedFront(a: Partial, frs: seq<Fragment>, k: nat)
    requires AllAccepted(a, frs) && k <= |frs|
    ensures AllAccepted(a, frs[..k])
  {
    if k < |frs| {
      AcceptedFront(a, Init(frs), k);
      assert Init(frs)[..k] == frs[..k];
    } else {
      assert frs[..k] == frs;
    }
  }

  /** A datagram that is whole takes nothing more. */
  lemma WholeRefuses(a: Partial, fr: Fragment)
    requires Whole(a) && fr.WellFormed()
    ensures !Accepts(a, fr)
  {
    assert fr.first <= fr.first <= fr.Last() && (fr.first < a.top ==> fr.first in a.got);
  }

  /** Where another one is accepted, the datagram was not whole. */
  lemma NotYetWhole(a: Partial, frs: seq<Fragment>, n: nat)
    requires AllAccepted(a, frs) && n < |frs| && AllWellFormed(frs)
    ensures AllAccepted(a, frs[..n]) && !Whole(After(a, frs[..n]))
  {
    AcceptedFront(a, frs, n);
    AcceptedFront(a, frs, n + 1);
    OneFurther(frs, n);
    OneMore(a, frs[..n], frs[n]);
    if Whole(After(a, frs[..n])) {
      WholeRefuses(After(a, frs[..n]), frs[n]);
    }
  }

  /** Fragments that are all accepted and are a whole datagram together are all needed, and complete it. */
  lemma AllNeeded(a: Partial, frs: seq<Fragment>, used: nat, room: int, r: Outcome)
    requires AllAccepted(a, frs) && Whole(After(a, frs)) && AllWellFormed(frs)
    requires used <= |frs| && (r == Pending ==> used == |frs|) && Outcomes(a, frs[..used], room, r)
    ensures used == |frs| && r.Complete?
  {
    AcceptedFront(a, frs, used);
    assert frs[..|frs|] == frs;
    if used < |frs| {
      NotYetWhole(a, frs, used);
    }
  }

  /** Such fragments give the packet, unless the record is stale at the end. */
  method CollectWhole(frs: seq<Fragment>, mru: nat, base: nat) returns (packet: seq<byte>)
    requires frs != [] && 1280 <= mru < 0x1_0000 && mru % 8 == 0 && AllWellFormed(frs)
    requires AllAccepted(Empty(mru, frs[0].ecn), frs) && Whole(After(Empty(mru, frs[0].ecn), frs))
    ensures WholePacket(After(Empty(mru, frs[0].ecn), frs), Stale(frs, Headroom(|frs[0].header|, mru)), packet)
  {
    var r, used := Collect(frs, mru, base);
    AllNeeded(Empty(mru, frs[0].ecn), frs, used, Headroom(|frs[0].header|, mru), r);
    assert frs[..used] == frs;
    packet := r.packet;
  }

  /** Pieces of 24 bytes behind 40 bytes of headers, but for the first, which comes behind 88. */
  function PieceOf(header: seq<byte>, longer: seq<byte>, data: seq<byte>, i: nat): Fragment
    requires |data| == 24 && i < 3
  {
    Fragment(if i == 0 then longer else header, 8 * i, data[8 * i..8 * i + 8], i < 2, 0)
  }

  function ThreePieces(header: seq<byte>, longer: seq<byte>, data: seq<byte>, i: nat, j: nat, k: nat): seq<Fragment>
    requires |data| == 24 && i < 3 && j < 3 && k < 3
  {
    [PieceOf(header, longer, data, i), PieceOf(header, longer, data, j), PieceOf(header, longer, data, k)]
  }

  /** The record is left behind when the headers that did not fit arrive after the last piece: 64 of 112 bytes are handed on. */
  method LastPieceFirst(header: seq<byte>, longer: seq<byte>, data: seq<byte>, base: nat) returns (out: seq<byte>)
    requires |header| == 40 && |longer| == 88 && |data| == 24
    ensures |out| == 64
  {
    LeftBehind(header, longer, data);
    out := CollectWhole(ThreePieces(header, longer, data, 2, 0, 1), 1280, base);
  }

  lemma LeftBehind(header: seq<byte>, longer: seq<byte>, data: seq<byte>)
    requires |header| == 40 && |longer| == 88 && |data| == 24
    ensures var a, frs := Empty(1280, 0), ThreePieces(header, longer, data, 2, 0, 1);
            Stale(frs, 80) && AllWellFormed(frs) && AllAccepted(a, frs) && Whole(After(a, frs)) && After(a, frs).top == 24
  {
    var frs := ThreePieces(header, longer, data, 2, 0, 1);
    ThreeAccepted(Empty(1280, 0), frs[0], frs[1], frs[2]);
    assert !(frs[0].Last() < frs[2].first) && frs[1].first == 0 && StaleSince(frs, 1, 80);
  }

  /** It catches up when the last piece arrives after them. */
  method LastPieceLast(header: seq<byte>, longer: seq<byte>, data: seq<byte>, base: nat) returns (out: seq<byte>)
    requires |header| == 40 && |longer| == 88 && |data| == 24
    ensures out == Patched(longer, 0, 72) + data
  {
    CaughtUp(header, longer, data);
    out := CollectWhole(ThreePieces(header, longer, data, 1, 0, 2), 1280, base);
  }

  lemma CaughtUp(header: seq<byte>, longer: seq<byte>, data: seq<byte>)
    requires |header| == 40 && |longer| == 88 && |data| == 24
    ensures var a, frs := Empty(1280, 0), ThreePieces(header, longer, data, 1, 0, 2);
            && !Stale(frs, 80) && AllWellFormed(frs) && AllAccepted(a, frs) && Whole(After(a, frs)) && WellFormedPartial(After(a, frs))
            && Packet(After(a, frs)) == Patched(longer, 0, 72) + data
  {
    var y, x, z := PieceOf(header, longer, data, 1), PieceOf(header, longer, data, 0), PieceOf(header, longer, data, 2);
    ThreeAccepted(Empty(1280, 0), y, x, z);
    LastBehind([y, x, z]);
    ThreeWellFormed(y, x, z);
    ThreeTogether(longer, data, y, x, z, After(Empty(1280, 0), [y, x, z]));
  }

  lemma ThreeWellFormed(f: Fragment, g: Fragment, h: Fragment)
    requires EightBytes(f) && EightBytes(g) && EightBytes(h) && f.first % 8 == g.first % 8 == h.first % 8 == 0
    requires |f.header| in {40, 88} && |g.header| in {40, 88} && |h.header| in {40, 88}
    ensures AllWellFormed([f, g, h])
  {
  }

  lemma LastBehind(frs: seq<Fragment>)
    requires |frs| == 3 && frs[0].first == 8 && frs[1].first == 0 && frs[2].first == 16
    requires |frs[0].data| == |frs[1].data| == 8
    ensures forall room :: !Stale(frs, room)
  {
    assert BehindAll(frs, 2);
  }

  lemma ThreeTogether(header: seq<byte>, data: seq<byte>, y: Fragment, x: Fragment, z: Fragment, a: Partial)
    requires |header| == 88 && |data| == 24 && x.first == 0 && y.first == 8 && z.first == 16
    requires x.data == data[..8] && y.data == data[8..16] && z.data == data[16..]
    requires a == Partial(1280, map[] + Bytewise(y) + Bytewise(x) + Bytewise(z), 24, true, header, 0) && Whole(a)
    ensures WellFormedPartial(a) && Packet(a) == Patched(header, 0, 72) + data
  {
    forall p | 0 <= p < 24 ensures a.got[p] == data[p] {
    }
    assert Payload(a) == data;
  }

  /** The three pieces, the first of them second, are accepted and are the whole datagram. */
  lemma ThreeAccepted(a: Partial, f: Fragment, g: Fragment, h: Fragment)
    requires a == Empty(1280, 0) && EightBytes(f) && EightBytes(g) && EightBytes(h) && g.first == 0 && |g.header| == 88
    requires (f.first == 8 && h.first == 16) || (f.first == 16 && h.first == 8)
    ensures AllAccepted(a, [f, g, h]) && Whole(After(a, [f, g, h]))
    ensures After(a, [f, g, h]) == Partial(1280, map[] + Bytewise(f) + Bytewise(g) + Bytewise(h), 24, true, g.header, 0)
  {
    assert [] + [f] == [f] && [f] + [g] == [f, g] && [f, g] + [h] == [f, g, h];
    FirstOfThree(a, f);
    OneMore(a, [], f);
    SecondOfThree(Next(a, f), f, g);
    OneMore(a, [f], g);
    ThirdOfThree(Next(Next(a, f), g), f, g, h);
    OneMore(a, [f, g], h);
  }

  predicate EightBytes(f: Fragment) {
    f.first <= 16 && |f.data| == 8 && f.ecn == 0 && (f.more <==> f.first < 16)
  }

  lemma FirstOfThree(a: Partial, f: Fragment)
    requires a == Empty(1280, 0) && EightBytes(f) && f.first > 0
    ensures Accepts(a, f) && Next(a, f) == Partial(1280, map[] + Bytewise(f), f.first + 8, !f.more, [], 0)
  {
  }

  lemma SecondOfThree(a: Partial, f: Fragment, g: Fragment)
    requires EightBytes(f) && EightBytes(g) && 8 <= f.first && g.first == 0 && |g.header| == 88
    requires a == Partial(1280, map[] + Bytewise(f), f.first + 8, !f.more, [], 0)
    ensures Accepts(a, g) && Next(a, g) == Partial(1280, a.got + Bytewise(g), a.top, a.hadLast, g.header, 0)
  {
  }

  lemma ThirdOfThree(a: Partial, f: Fragment, g: Fragment, h: Fragment)
    requires EightBytes(f) && EightBytes(g) && EightBytes(h) && g.first == 0 && |g.header| == 88
    requires (f.first == 8 && h.first == 16) || (f.first == 16 && h.first == 8)
    requires a == Partial(1280, map[] + Bytewise(f) + Bytewise(g), f.first + 8, !f.more, g.header, 0)
    ensures Accepts(a, h) && Whole(Next(a, h)) && Next(a, h) == Partial(1280, a.got + Bytewise(h), 24, true, g.header, 0)
  {
  }
}
