/** Which part of an arriving TCP segment a receiver takes. */
module TcpReceiver {
  import opened Bytes
  import opened Sockbuf
  import opened TcpNumbers
  import opened TcpSender

  /** The test of section 3.3 of RFC 793, on positions in the peer's stream. */
  predicate Acceptable(at: int, segLen: nat, next: int, window: nat) {
    if window == 0 then segLen == 0 && at == next
    else next <= at < next + window || (segLen > 0 && next <= at + segLen - 1 < next + window)
  }

  /** The window that counts on arrival: free space, but never less than what was advertised. */
  function ReceiveWindow(space: int, adv: u32, next: u32): (w: nat)
    ensures space <= w && Int32(Wrap(adv - next)) <= w
    ensures space < HALF ==> w < HALF
  {
    Max(Max(space, 0), Int32(Wrap(adv - next)))
  }

  lemma ReceiveWindowIs(space: int, adv: u32, next: u32)
    ensures var w := ReceiveWindow(space, adv, next); w == 0 || w == space || w == Int32(Wrap(adv - next))
  {
  }

  /** Position of a segment's first data byte. */
  function DataAt(seg: Segment, at: int): int {
    at + Count(seg.syn)
  }

  /** The arrival is close enough to the next expected position for its numbers to be compared. */
  predicate Comparable(seg: Segment, at: int, next: int) {
    |seg.data| <= 0xffff - 20 && -HALF <= at - next && at + SegLen(seg) - next < HALF
  }

  /** What data at position p has between position from and the edge. */
  function Overlap(data: seq<byte>, p: int, from: int, edge: int): seq<byte> {
    var end := Min(p + |data|, edge);
    if p <= from <= end then data[from - p..end - p] else []
  }

  /** What is left of an acceptable segment: what precedes and what follows the window is cut off. */
  predicate Cut(seg: Segment, at: int, next: int, window: nat, base: u32, seg': Segment) {
    var from, p := Max(at, next), DataAt(seg, at);
    && seg'.seqNo == Wrap(base + from)
    && seg'.syn == (seg.syn && next <= at)
    && seg'.ack == seg.ack && seg'.rst == seg.rst && seg'.psh == seg.psh && seg'.ackNo == seg.ackNo && seg'.window == seg.window
    && (!seg'.syn ==>
          && p <= from <= p + |seg.data|
          && from <= Min(p + |seg.data|, next + window)
          && seg'.data == Overlap(seg.data, p, from, next + window)
          && seg'.fin == (seg.fin && p + |seg.data| <= next + window))
  }

  /** A distance between numbers, as the 16-bit variable that holds it sees it. */
  lemma Excess(base: u32, a: int, b: int)
    requires Near(a, b)
    ensures SeqGt(Wrap(base + a), Wrap(base + b)) <==> a > b
    ensures b < a < b + 0x1_0000 ==> Wrap(Wrap(base + a) - Wrap(base + b)) % 0x1_0000 == a - b
  {
    SeqGtAt(base, a, b);
    WrapDiff(base, a, b);
    WrapSmall(a - b);
  }

  method Front(seg: Segment, next: u32, ghost base: u32, ghost at: int, ghost nextAt: int) returns (seg': Segment)
    requires seg.seqNo == Wrap(base + at) && next == Wrap(base + nextAt) && Comparable(seg, at, nextAt)
    requires nextAt <= at || nextAt <= at + SegLen(seg) - 1
    ensures seg' == if nextAt <= at then seg
                    else seg.(seqNo := Wrap(base + nextAt), syn := false, data := seg.data[nextAt - DataAt(seg, at)..])
  {
    seg' := seg;
    Excess(base, nextAt, at);
    if SeqGt(next, seg.seqNo) {
      var excess := Wrap(next - seg.seqNo) % 0x1_0000;
      assert excess == nextAt - at;
      if seg'.syn {
        WrapAdd(base + at, 1);
        seg' := seg'.(syn := false, seqNo := Wrap(seg'.seqNo + 1));
        excess := excess - 1;
      }
      WrapAdd(base + DataAt(seg, at), excess);
      seg' := seg'.(data := seg'.data[excess..], seqNo := Wrap(seg'.seqNo + excess));
    }
  }

  /** How far the end of n bytes at position at lies behind the edge of the window. */
  lemma BackExcess(base: u32, at: int, n: nat, nextAt: int, window: nat)
    requires Near(at + n, nextAt + window) && n <= 0xffff && nextAt <= at <= nextAt + window
    ensures var end: int, edge: int := Wrap(Wrap(base + at) + n), Wrap(Wrap(base + nextAt) + window);
            && (SeqGt(end, edge) <==> at + n > nextAt + window)
            && (at + n > nextAt + window ==> Wrap(end - edge) % 0x1_0000 == at + n - (nextAt + window))
  {
    WrapAdd(base + at, n);
    WrapAdd(base + nextAt, window);
    Excess(base, at + n, nextAt + window);
  }

  method Back(seg: Segment, next: u32, window: nat, ghost base: u32, ghost at: int, ghost nextAt: int) returns (seg': Segment)
    requires seg.seqNo == Wrap(base + at) && next == Wrap(base + nextAt) && Comparable(seg, at, nextAt)
    requires nextAt <= at <= nextAt + window && window < HALF
    ensures seg' == if at + |seg.data| <= nextAt + window then seg
                    else seg.(fin := false, data := seg.data[..nextAt + window - at])
  {
    seg' := seg;
    BackExcess(base, at, |seg.data|, nextAt, window);
    var end: int, edge: int := Wrap(seg.seqNo + |seg.data|), Wrap(next + window);
    if SeqGt(end, edge) {
      var excess := Wrap(end - edge) % 0x1_0000;
      seg' := seg'.(fin := false, data := seg'.data[..|seg'.data| - excess]);
    }
  }

  /** The window test on sequence numbers. */
  predicate InWindow(seqNo: u32, segLen: nat, next: u32, window: nat) {
    if window == 0 then segLen == 0 && seqNo == next
    else
      var last := Wrap(next + window - 1);
      SeqInRange(next, seqNo, last) || (segLen > 0 && SeqInRange(next, Wrap(seqNo + segLen - 1), last))
  }

  lemma InWindowIs(seg: Segment, window: nat, base: u32, at: int, nextAt: int)
    requires Comparable(seg, at, nextAt) && window < HALF
    ensures InWindow(Wrap(base + at), SegLen(seg), Wrap(base + nextAt), window) <==> Acceptable(at, SegLen(seg), nextAt, window)
  {
    if window == 0 {
      SeqGtAt(base, at, nextAt);
    } else {
      EndInWindow(base, at, 1, nextAt, window);
      WrapAdd(base + at, 0);
      if SegLen(seg) > 0 {
        EndInWindow(base, at, SegLen(seg), nextAt, window);
      }
    }
  }

  lemma EndInWindow(base: u32, at: int, n: nat, nextAt: int, window: nat)
    requires 0 < n && 0 < window < HALF && -HALF <= at + n - 1 - nextAt < HALF
    ensures SeqInRange(Wrap(base + nextAt), Wrap(Wrap(base + at) + n - 1), Wrap(Wrap(base + nextAt) + window - 1))
            <==> nextAt <= at + n - 1 < nextAt + window
  {
    WrapAdd(base + nextAt, window - 1);
    WrapAdd(base + at, n - 1);
    SeqInRangeAt(base, nextAt, at + n - 1, nextAt + window - 1);
  }

  /** The window checks and both trims. */
  method Trim(seg: Segment, next: u32, window: nat, ghost base: u32, ghost at: int, ghost nextAt: int)
      returns (ok: bool, seg': Segment)
    requires seg.seqNo == Wrap(base + at) && next == Wrap(base + nextAt) && Comparable(seg, at, nextAt) && window < HALF
    ensures ok <==> Acceptable(at, SegLen(seg), nextAt, window)
    ensures ok ==> Cut(seg, at, nextAt, window, base, seg')
  {
    InWindowIs(seg, window, base, at, nextAt);
    ok, seg' := InWindow(seg.seqNo, SegLen(seg), next, window), seg;
    if ok {
      var front := Front(seg, next, base, at, nextAt);
      seg' := Back(front, next, window, base, Max(at, nextAt), nextAt);
      CutBoth(seg, front, seg', window, base, at, nextAt);
    }
  }

  lemma CutBoth(seg: Segment, front: Segment, back: Segment, window: nat, base: u32, at: int, nextAt: int)
    requires seg.seqNo == Wrap(base + at) && Acceptable(at, SegLen(seg), nextAt, window)
    requires front == if nextAt <= at then seg
                      else seg.(seqNo := Wrap(base + nextAt), syn := false, data := seg.data[Min(nextAt - DataAt(seg, at), |seg.data|)..])
    requires var from := Max(at, nextAt);
             back == if from + |front.data| <= nextAt + window then front
                     else front.(fin := false, data := front.data[..nextAt + window - from])
    ensures Cut(seg, at, nextAt, window, base, back)
  {
    if nextAt > at {
      var p := DataAt(seg, at);
      assert p <= nextAt <= p + |seg.data|;
      CutEnd(seg, p, nextAt, nextAt + window, front.data, back);
    } else if !seg.syn {
      WholeFront(seg.data);
      CutEnd(seg, at, at, nextAt + window, front.data, back);
    }
  }

  /** The end of a segment is cut off at the edge. */
  lemma CutEnd(seg: Segment, p: int, from: int, edge: int, front: seq<byte>, back: Segment)
    requires p <= from <= Min(p + |seg.data|, edge) && front == seg.data[from - p..]
    requires if from + |front| <= edge then back.data == front && back.fin == seg.fin else back.data == front[..edge - from] && !back.fin
    ensures back.data == Overlap(seg.data, p, from, edge) && back.fin == (seg.fin && p + |seg.data| <= edge)
  {
    OverlapIs(seg.data, p, from, edge);
  }

  lemma WholeFront(data: seq<byte>)
    ensures data[0..] == data
  {
  }

  lemma OverlapIs(data: seq<byte>, p: int, from: int, edge: int)
    requires p <= from <= Min(p + |data|, edge)
    ensures var front := data[from - p..];
            Overlap(data, p, from, edge) == if from + |front| <= edge then front else front[..edge - from]
  {
    if p + |data| > edge {
      FrontBack(data, from - p, edge - from);
    }
  }

  lemma FrontBack(data: seq<byte>, a: nat, n: nat)
    requires a + n <= |data|
    ensures data[a..][..n] == data[a..a + n]
  {
  }

  /** Everything below the advertised edge is taken, in full, even if the space behind it has gone. */
  lemma AdvertisedTaken(seg: Segment, at: int, next: int, space: int, adv: int, base: u32, seg': Segment)
    requires !seg.syn && at <= next < at + SegLen(seg) && at + SegLen(seg) <= adv <= next + 0xffff
    requires space < HALF
    ensures var w := ReceiveWindow(space, Wrap(base + adv), Wrap(base + next));
            && Acceptable(at, SegLen(seg), next, w)
            && (Cut(seg, at, next, w, base, seg') ==> seg'.data == seg.data[next - at..] && seg'.fin == seg.fin)
  {
    WrapDiff(base, adv, next);
    WrapSmall(adv - next);
  }

  /** The receiving half of a session. */
  datatype In = In(next: u32, adv: u32, rcvq: seq<Buf>)

  /** What it stands for: the number of the first byte, everything put on the receive queue and how much of it was read, whether
      the peer's FIN was taken, and the positions of next and adv. */
  datatype Heard = Heard(irs: u32, recvd: seq<byte>, readAt: nat, eof: bool, nextAt: nat, advAt: int)

  /** Nothing is received twice or skipped; owed counts what has been queued but not yet acknowledged. */
  predicate RcvOk(r: In, h: Heard, receiving: bool, owed: nat) {
    && r.next == Wrap(h.irs + h.nextAt) && r.adv == Wrap(h.irs + h.advAt)
    && h.readAt <= |h.recvd| && Contents(r.rcvq) == h.recvd[h.readAt..]
    && (receiving ==> h.nextAt + owed == |h.recvd| && !h.eof)
  }

  /** The advertised edge is ahead of what has arrived, by no more than the window field can say. */
  predicate WindowOk(h: Heard) {
    h.nextAt <= h.advAt <= h.nextAt + 0xffff
  }

  lemma {:induction false} MovedOk(r: In, h: Heard, receiving: bool, space: int, limit: nat, mss: nat)
    requires RcvOk(r, h, receiving, 0)
    ensures var incr := WindowIncr(space, r.adv, r.next, limit, mss);
            && RcvOk(r.(adv := Wrap(r.adv + incr)), h.(advAt := h.advAt + incr), receiving, 0)
            && (WindowOk(h) ==> WindowOk(h.(advAt := h.advAt + incr)))
  {
    WrapAdd(h.irs + h.advAt, WindowIncr(space, r.adv, r.next, limit, mss));
    if WindowOk(h) {
      WindowKept(h.irs, space, h.advAt, h.nextAt, limit, mss);
    }
  }

  lemma {:induction false} ArrivedOk(r: In, h: Heard, receiving: bool, n: nat)
    requires RcvOk(r, h, receiving, n)
    ensures RcvOk(r.(next := Wrap(r.next + n)), h.(nextAt := h.nextAt + n), receiving, 0)
    ensures WindowOk(h) && h.nextAt + n <= h.advAt ==> WindowOk(h.(nextAt := h.nextAt + n))
  {
    WrapAdd(h.irs + h.nextAt, n);
  }

  lemma {:induction false} TakenOk(r: In, h: Heard, b: Buf)
    requires RcvOk(r, h, true, 0)
    ensures RcvOk(r.(rcvq := Compressed(r.rcvq, b)), h.(recvd := h.recvd + b.data), true, |b.data|)
  {
    CompressedGrows(r.rcvq, b, 0);
    assert Contents(r.rcvq) + b.data == (h.recvd + b.data)[h.readAt..];
  }

  lemma {:induction false} ReadOk(r: In, h: Heard, receiving: bool, n: nat)
    requires RcvOk(r, h, receiving, 0)
    ensures RcvOk(r.(rcvq := Dropped(r.rcvq, n)), h.(readAt := h.readAt + Min(n, |Contents(r.rcvq)|)), receiving, 0)
    ensures Contents(r.rcvq)[..Min(n, |Contents(r.rcvq)|)] + Contents(Dropped(r.rcvq, n)) == Contents(r.rcvq)
  {
    var q := Contents(r.rcvq);
    var m := Min(n, |q|);
    DroppedShrinks(r.rcvq, n);
    SplitAt(q, h.recvd, h.readAt, m);
  }

  lemma SplitAt(q: seq<byte>, all: seq<byte>, at: nat, m: nat)
    requires at <= |all| && q == all[at..] && m <= |q|
    ensures q[m..] == all[at + m..] && q[..m] + q[m..] == q
  {
  }

  /** The field sent is the window itself. */
  lemma {:induction false} WindowField(r: In, h: Heard, receiving: bool)
    requires RcvOk(r, h, receiving, 0) && WindowOk(h)
    ensures Wrap(r.adv - r.next) % 0x1_0000 == h.advAt - h.nextAt
  {
    WrapDiff(h.irs, h.advAt, h.nextAt);
    WrapSmall(h.advAt - h.nextAt);
  }

  /** Behind the expected number, the edge shows in the field as almost the largest window there is. */
  lemma {:induction false} OverrunField(r: In, h: Heard, receiving: bool)
    requires RcvOk(r, h, receiving, 0) && h.advAt < h.nextAt <= h.advAt + 0xffff
    ensures Wrap(r.adv - r.next) % 0x1_0000 == 0x1_0000 - (h.nextAt - h.advAt)
  {
    WrapDiff(h.irs, h.advAt, h.nextAt);
    WrapSmall(h.advAt - h.nextAt);
  }
}
