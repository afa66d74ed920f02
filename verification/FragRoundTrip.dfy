/** Reassembly undoes fragmentation, whatever the order of arrival. */
module FragRoundTrip {
  import opened Bytes
  import opened HoleList
  import opened Reassembly
  import opened Fragmenter
  import Ecn

  /** The packet with another ECN field. */
  function Marked(b: seq<byte>, m: Ecn.Mark): (r: seq<byte>)
    requires |b| >= 2
    ensures |r| == |b|
  {
    b[1 := b[1] / 64 * 64 + m * 16 + b[1] % 16]
  }

  function MarkOf(b: seq<byte>): Ecn.Mark
    requires |b| >= 2
  {
    b[1] / 16 % 4
  }

  lemma MarkOfMarked(b: seq<byte>, m: Ecn.Mark)
    requires |b| >= 2
    ensures MarkOf(Marked(b, m)) == m
    ensures Marked(b, m)[1] / 64 == b[1] / 64 && Marked(b, m)[1] % 16 == b[1] % 16
  {
  }

  datatype Parsed = ParameterProblem(pointer: nat) | Atomic(packet: seq<byte>) | Part(id: seq<byte>, fr: Fragment)

  /** The first half of ipv6_frag_up: the checks on one fragment packet, before its datagram is looked up. */
  function ParseFragment(b: seq<byte>, nhPos: nat, u: nat, payloadLength: u16): (r: Parsed)
    requires nhPos < u && 40 <= u && u + 8 <= |b| && u + payloadLength <= |b|
    ensures r.Part? ==> r.fr.WellFormed() && (r.fr.first == 0 ==> r.fr.more)
  {
    if payloadLength <= 8 then ParameterProblem(4)
    else
      var len := payloadLength - 8;
      var first := Get16(b, u + 2) / 8 * 8;
      var last := (first + len - 1) % 0x1_0000;
      var more := b[u + 3] % 2 == 1;
      if more && len % 8 != 0 then ParameterProblem(4)
      else if last < first then ParameterProblem(u + 2)
      else
        var unfrag := if first == 0 then b[..u][nhPos := b[u]] else b[..u];
        if first == 0 && !more then
          var length := (Get16(b, 4) + 0x1_0000 - 8) % 0x1_0000;
          Atomic(unfrag[4 := length / 256][5 := length % 256] + b[u + 8..])
        else
          Part(b[u + 4..u + 8], Fragment(unfrag, first, b[u + 8..u + 8 + len], more, MarkOf(b)))
  }

  /** What is refused, and with which pointer: too little data, a length that is no multiple of 8 although more follows, or an end
      beyond 65535. What is left is a packet in itself exactly if it starts at 0 and nothing follows. */
  lemma Refused(b: seq<byte>, nhPos: nat, u: nat, payloadLength: u16)
    requires nhPos < u && 40 <= u && u + 8 <= |b| && u + payloadLength <= |b|
    ensures var r, more, off := ParseFragment(b, nhPos, u, payloadLength), b[u + 3] % 2 == 1, Get16(b, u + 2) - b[u + 3] % 8;
            if payloadLength <= 8 || (more && payloadLength % 8 != 0) then r == ParameterProblem(4)
            else if off + payloadLength - 8 > 0x1_0000 then r == ParameterProblem(u + 2)
            else (r.Atomic? <==> off == 0 && !more)
                 && (r.Part? <==> off > 0 || more)
                 && (r.Part? ==> r.id == b[u + 4..u + 8] && r.fr.first == off && r.fr.more == more && r.fr.data == b[u + 8..u + payloadLength])
  {
    var len, off: int := payloadLength - 8, Get16(b, u + 2) - b[u + 3] % 8;
    Offset(b[u + 2], b[u + 3]);
    if payloadLength > 8 {
      LastWraps(off, len);
    }
  }

  lemma Offset(x: byte, y: byte)
    ensures var off := (x as int) * 256 + y; off / 8 * 8 == off - y % 8 && 0 <= off - y % 8 <= 0xfff8
  {
  }

  lemma LastWraps(first: nat, len: nat)
    requires first <= 0xfff8 && 0 < len <= 0xffff
    ensures (first + len - 1) % 0x1_0000 < first <==> first + len > 0x1_0000
  {
  }

  /** The receiver's walk over the headers of a fragment finds the fragment header where the sender put it. */
  lemma {:induction false} ChainAgrees(b: seq<byte>, f: seq<byte>, nhPos: nat, pos: nat)
    requires 6 <= nhPos < pos && pos >= 40 && ChainOk(b, nhPos, pos)
    requires var (n, u) := Chain(b, nhPos, pos);
             && u <= |f| && !Skipped(f[n])
             && forall j :: 6 <= j < u && j != n ==> f[j] == b[j]
    ensures ChainOk(f, nhPos, pos) && Chain(f, nhPos, pos) == Chain(b, nhPos, pos)
    decreases |b| - pos
  {
    if Skipped(b[nhPos]) {
      ChainAgrees(b, f, pos, pos + (b[pos + 1] as int + 1) * 8);
    }
  }

  /** What the receiver makes of a piece that arrived with this ECN mark: the first piece brings the headers. */
  ghost predicate SeenAs(unfrag: seq<byte>, payload: seq<byte>, p: Piece, m: Ecn.Mark, fr: Fragment)
    requires |unfrag| >= 2
  {
    && fr.WellFormed()
    && p.off + p.len <= |payload|
    && fr.first == p.off && fr.data == payload[p.off..p.off + p.len] && fr.more == p.more && fr.ecn == m
    && |fr.header| == |unfrag|
    && (p.off == 0 ==> forall j :: 0 <= j < |unfrag| && j != 4 && j != 5 ==> fr.header[j] == Marked(unfrag, m)[j])
  }

  lemma OffsetField(x: nat, more: bool)
    requires x % 8 == 0 && x < 0x1_0000
    ensures var bs := Put16(x + if more then 1 else 0);
            Get16(bs, 0) / 8 * 8 == x && (bs[1] % 2 == 1 <==> more)
  {
    var v, q := x + if more then 1 else 0, x / 8;
    assert v / 256 * 256 + v % 256 == v;
    SmallPart(q, if more then 1 else 0);
    Parity(4 * q, if more then 1 else 0);
    EvenByte(v);
  }

  lemma SmallPart(q: nat, r: nat)
    requires r < 8
    ensures (8 * q + r) / 8 == q
  {
  }

  lemma Parity(h: nat, r: nat)
    requires r < 2
    ensures (2 * h + r) % 2 == r
  {
  }

  lemma EvenByte(v: nat)
    ensures v % 256 % 2 == v % 2
  {
  }

  /** The fields of a fragment packet. */
  lemma WireFields(unfrag: seq<byte>, nh: byte, id: seq<byte>, payload: seq<byte>, p: Piece)
    requires |unfrag| >= 40 && |id| == 4
    requires p.off % 8 == 0 && p.off + p.len <= |payload| && |unfrag| + |payload| < 0x1_0000
    ensures var u, f := |unfrag|, Wire(unfrag, nh, id, payload, p);
            && |f| == u + 8 + p.len && Get16(f, 4) == |f| - 40
            && (forall j :: 0 <= j < u && j != 4 && j != 5 ==> f[j] == unfrag[j])
            && f[u] == nh
            && f[u + 2..u + 4] == Put16(p.off + if p.more then 1 else 0)
            && f[u + 4..u + 8] == id
            && f[u + 8..] == payload[p.off..p.off + p.len]
  {
  }

  /** Parsing a fragment packet that ipv6_frag_down made gives back the piece it carries. */
  lemma ParseUndoesBuild(b: seq<byte>, id: seq<byte>, p: Piece, m: Ecn.Mark)
    requires WellFormedPacket(b) && |id| == 4
    requires p.off % 8 == 0 && p.len > 0 && p.off + p.len <= |b| - UnfragLen(b)
    requires p.more ==> p.len % 8 == 0
    requires p.off > 0 || p.more
    ensures var (nhPos, u) := Chain(b, 6, 40);
            var f := Marked(FragmentOf(b, id, p), m);
            && ChainOk(f, 6, 40) && Chain(f, 6, 40) == (nhPos, u) && u + 8 + p.len == |f| && Get16(f, 4) == |f| - 40
            && var r := ParseFragment(f, nhPos, u, 8 + p.len);
               r.Part? && r.id == id && SeenAs(b[..u], b[u..], p, m, r.fr)
  {
    var (nhPos, u) := Chain(b, 6, 40);
    var w := FragmentOf(b, id, p);
    var unfrag: seq<byte>, payload: seq<byte> := b[..u], b[u..];
    WireFields(unfrag[nhPos := NH_FRAGMENT], b[nhPos], id, payload, p);
    ParseFields(unfrag, payload, w, nhPos, id, p, m);
    SameHeaders(b, w, nhPos, u, m);
    ChainAgrees(b, Marked(w, m), 6, 40);
  }

  /** Behind the length field the headers differ in nothing that the walk looks at but the announcement of the fragment header. */
  lemma SameHeaders(b: seq<byte>, w: seq<byte>, nhPos: nat, u: nat, m: Ecn.Mark)
    requires 6 <= nhPos < u && 40 <= u <= |b| && u <= |w|
    requires forall j :: 0 <= j < u && j != 4 && j != 5 ==> w[j] == b[..u][nhPos := NH_FRAGMENT][j]
    ensures !Skipped(Marked(w, m)[nhPos]) && forall j :: 6 <= j < u && j != nhPos ==> Marked(w, m)[j] == b[j]
  {
    var f, h: seq<byte> := Marked(w, m), b[..u][nhPos := NH_FRAGMENT];
    assert f[nhPos] == w[nhPos] == h[nhPos] == NH_FRAGMENT;
    forall j | 6 <= j < u && j != nhPos ensures f[j] == b[j] {
      assert f[j] == w[j] == h[j] == b[j];
    }
  }

  lemma ParseFields(unfrag: seq<byte>, payload: seq<byte>, w: seq<byte>, nhPos: nat, id: seq<byte>, p: Piece, m: Ecn.Mark)
    requires 6 <= nhPos < |unfrag| && 40 <= |unfrag| && |unfrag| + |payload| < 0x1_0000
    requires p.off % 8 == 0 && p.len > 0 && p.off + p.len <= |payload|
    requires p.more ==> p.len % 8 == 0
    requires p.off > 0 || p.more
    requires |w| == |unfrag| + 8 + p.len
    requires forall j :: 0 <= j < |unfrag| && j != 4 && j != 5 ==> w[j] == unfrag[nhPos := NH_FRAGMENT][j]
    requires w[|unfrag|] == unfrag[nhPos] && w[|unfrag| + 4..|unfrag| + 8] == id
    requires w[|unfrag| + 2..|unfrag| + 4] == Put16(p.off + if p.more then 1 else 0)
    requires w[|unfrag| + 8..] == payload[p.off..p.off + p.len]
    ensures var r := ParseFragment(Marked(w, m), nhPos, |unfrag|, 8 + p.len);
            r.Part? && r.id == id && SeenAs(unfrag, payload, p, m, r.fr)
  {
    var u, f := |unfrag|, Marked(w, m);
    OffsetField(p.off, p.more);
    var field := w[u + 2..u + 4];
    assert f[u + 2] == field[0] && f[u + 3] == field[1];
    assert Get16(f, u + 2) == Get16(field, 0);
    assert f[u + 4..u + 8] == w[u + 4..u + 8];
    assert f[u + 8..u + 8 + p.len] == w[u + 8..];
    MarkOfMarked(w, m);
  }

  predicate Contains(ps: seq<Piece>, i: nat, x: int)
    requires i < |ps|
  {
    ps[i].off <= x < ps[i].off + ps[i].len
  }

  /** Offset x belongs to a piece that has arrived. */
  ghost predicate Arrived(ps: seq<Piece>, s: set<nat>, x: int) {
    exists i :: i in s && i < |ps| && Contains(ps, i, x)
  }

  lemma ArrivedMore(ps: seq<Piece>, s: set<nat>, i: nat, x: int)
    requires i < |ps|
    ensures Arrived(ps, s + {i}, x) <==> Arrived(ps, s, x) || Contains(ps, i, x)
  {
    if Arrived(ps, s, x) {
      var j :| j in s && j < |ps| && Contains(ps, j, x);
      assert j in s + {i};
    }
    assert i in s + {i};
  }

  /** The bytes received are exactly the pieces numbered in s, each byte the payload's. */
  ghost predicate HasPieces(got: map<int, byte>, payload: seq<byte>, ps: seq<Piece>, s: set<nat>) {
    && (forall x :: x in got <==> Arrived(ps, s, x))
    && (forall x :: x in got ==> 0 <= x < |payload| && got[x] == payload[x])
  }

  lemma HasPiecesMore(a: Partial, unfrag: seq<byte>, payload: seq<byte>, ps: seq<Piece>, s: set<nat>, i: nat, fr: Fragment)
    requires HasPieces(a.got, payload, ps, s) && i < |ps| && |unfrag| >= 2 && SeenAs(unfrag, payload, ps[i], fr.ecn, fr)
    ensures HasPieces(Merge(a, fr).got, payload, ps, s + {i})
  {
    forall x ensures x in Merge(a, fr).got <==> Arrived(ps, s + {i}, x) {
      ArrivedMore(ps, s, i, x);
    }
  }

  /** The partial datagram holds exactly the pieces numbered in s. */
  ghost predicate Holding(a: Partial, hlen: nat, payload: seq<byte>, ps: seq<Piece>, s: set<nat>) {
    && WellFormedPartial(a)
    && HasPieces(a.got, payload, ps, s)
    && (a.hadLast <==> |ps| - 1 in s)
    && (a.header != [] ==> |a.header| == hlen)
  }

  /** How far the received data reaches: all of it once the last piece is there, else up to the start of the last piece. */
  lemma TopOf(a: Partial, hlen: nat, payload: seq<byte>, ps: seq<Piece>, s: set<nat>, room: nat)
    requires Tiling(ps, 0, |payload|, room) && ps != [] && Holding(a, hlen, payload, ps, s)
    ensures a.hadLast ==> a.top == |payload|
    ensures !a.hadLast ==> a.top <= ps[|ps| - 1].off
  {
    var n, total := |ps| - 1, |payload|;
    assert PieceOk(ps, n, 0, total, room);
    if a.hadLast {
      assert Contains(ps, n, total - 1);
      assert Arrived(ps, s, total - 1);
    } else if a.top > 0 {
      var i :| i in s && i < |ps| && Contains(ps, i, a.top - 1);
      assert Before(ps, i, n);
    }
  }

  /** A piece that has not arrived fits: no overlap, and the last one comes after everything else. */
  lemma PieceFits(a: Partial, unfrag: seq<byte>, payload: seq<byte>, ps: seq<Piece>, s: set<nat>, room: nat, i: nat, fr: Fragment)
    requires Tiling(ps, 0, |payload|, room) && Holding(a, |unfrag|, payload, ps, s)
    requires i < |ps| && i !in s && |unfrag| >= 2 && SeenAs(unfrag, payload, ps[i], fr.ecn, fr)
    ensures Fits(a, fr)
  {
    assert PieceOk(ps, i, 0, |payload|, room);
    forall x | fr.first <= x <= fr.Last() ensures x !in a.got {
      forall j | j in s && j < |ps| ensures !Contains(ps, j, x) {
        assert if j < i then Before(ps, j, i) else Before(ps, i, j);
      }
    }
    TopOf(a, |unfrag|, payload, ps, s, room);
  }

  /** The sizes stay within the MRU: with more data to come, eight bytes are left over because everything is a multiple of 8. */
  lemma PieceWithinMru(a: Partial, unfrag: seq<byte>, payload: seq<byte>, ps: seq<Piece>, s: set<nat>, room: nat, i: nat, fr: Fragment)
    requires Tiling(ps, 0, |payload|, room) && Holding(a, |unfrag|, payload, ps, s)
    requires i < |ps| && i !in s && |unfrag| >= 40 && SeenAs(unfrag, payload, ps[i], fr.ecn, fr)
    requires |unfrag| % 8 == 0 && |unfrag| + |payload| <= a.mru
    ensures fr.Last() < Limit(a, fr.more)
    ensures |unfrag| + Merge(a, fr).top + (if Merge(a, fr).hadLast then 0 else 8) <= a.mru
  {
    var u, n := |unfrag|, |ps| - 1;
    assert PieceOk(ps, i, 0, |payload|, room) && PieceOk(ps, n, 0, |payload|, room);
    assert (a.mru - u) % 8 == 0;
    TopOf(a, u, payload, ps, s, room);
    if fr.more {
      MultiplesApart(fr.first + |fr.data|, a.mru - u);
      assert Before(ps, i, n);
    }
    if !Merge(a, fr).hadLast {
      MultiplesApart(ps[n].off, a.mru - u);
    }
  }

  /** Each arrival is accepted and adds its piece: the step of the round trip. */
  lemma PieceAccepted(a: Partial, unfrag: seq<byte>, payload: seq<byte>, ps: seq<Piece>, s: set<nat>, room: nat, i: nat, fr: Fragment)
    requires Tiling(ps, 0, |payload|, room) && Holding(a, |unfrag|, payload, ps, s)
    requires i < |ps| && i !in s && |unfrag| >= 40 && SeenAs(unfrag, payload, ps[i], fr.ecn, fr)
    requires |unfrag| % 8 == 0 && |unfrag| + |payload| <= a.mru
    requires Ecn.Combine(a.ecn, fr.ecn) != Ecn.ILLEGAL
    ensures Accepts(a, fr) && Holding(Next(a, fr), |unfrag|, payload, ps, s + {i})
  {
    PieceFits(a, unfrag, payload, ps, s, room, i, fr);
    PieceWithinMru(a, unfrag, payload, ps, s, room, i, fr);
    MergeWellFormed(a, fr);
    HasPiecesMore(a, unfrag, payload, ps, s, i, fr);
    assert PieceOk(ps, i, 0, |payload|, room);
  }

  /** All pieces together are the whole payload, and no fewer are. */
  lemma AllPiecesWhole(a: Partial, hlen: nat, payload: seq<byte>, ps: seq<Piece>, s: set<nat>, room: nat)
    requires Tiling(ps, 0, |payload|, room) && ps != [] && Holding(a, hlen, payload, ps, s)
    ensures Whole(a) <==> forall i :: 0 <= i < |ps| ==> i in s
    ensures Whole(a) ==> Payload(a) == payload
  {
    TopOf(a, hlen, payload, ps, s, room);
    if forall i :: 0 <= i < |ps| ==> i in s {
      forall x | 0 <= x < |payload| ensures x in a.got {
        assert Covered(ps, x);
        var i :| 0 <= i < |ps| && ps[i].off <= x < ps[i].off + ps[i].len;
        assert Contains(ps, i, x);
        assert Arrived(ps, s, x);
      }
    }
    if Whole(a) {
      forall i | 0 <= i < |ps| ensures i in s {
        assert PieceOk(ps, i, 0, |payload|, room);
        assert ps[i].off in a.got;
        var j :| j in s && j < |ps| && Contains(ps, j, ps[i].off);
        assert j < i ==> Before(ps, j, i);
        assert i < j ==> Before(ps, i, j);
      }
    }
  }

  /** The packet's own length field is right. */
  predicate LengthOk(b: seq<byte>) {
    40 <= |b| < 0x1_0000 && b[4] == (|b| - 40) / 256 && b[5] == (|b| - 40) % 256
  }

  /** The header kept is the packet's, apart from its length and ECN fields. */
  ghost predicate HeaderKept(header: seq<byte>, b: seq<byte>) {
    && 40 <= |header| <= |b|
    && (forall j :: 0 <= j < |header| && j != 1 && j != 4 && j != 5 ==> header[j] == b[j])
    && exists m: Ecn.Mark :: header[1] == Marked(b, m)[1]
  }

  /** Patching the kept header and appending the payload gives back the packet, with the combined ECN. */
  lemma PatchRestores(header: seq<byte>, b: seq<byte>, ecn: Ecn.Mark)
    requires LengthOk(b) && HeaderKept(header, b)
    ensures Patched(header, ecn, |b| - 40) + b[|header|..] == Marked(b, ecn)
  {
    var m: Ecn.Mark :| header[1] == Marked(b, m)[1];
    MarkOfMarked(b, m);
    var h := Patched(header, ecn, |b| - 40);
    assert h == Marked(b, ecn)[..|header|];
  }

  /** The pieces arrive in this order, each exactly once. */
  ghost predicate Arrangement(order: seq<nat>, n: nat) {
    && |order| == n
    && (forall k :: 0 <= k < n ==> order[k] < n)
    && (forall k, j :: 0 <= k < j < n ==> Differ(order, k, j))
    && (forall i: nat :: i < n ==> i in order)
  }

  predicate Differ(order: seq<nat>, k: nat, j: nat)
    requires k < |order| && j < |order|
  {
    order[k] != order[j]
  }

  ghost function First(order: seq<nat>, k: nat): set<nat>
    requires k <= |order|
  {
    set i | i in order[..k]
  }

  lemma FirstSteps(order: seq<nat>, n: nat, k: nat)
    requires Arrangement(order, n) && k < n
    ensures order[k] !in First(order, k)
    ensures First(order, k + 1) == First(order, k) + {order[k]}
  {
    assert order[..k + 1] == order[..k] + [order[k]];
    forall j | 0 <= j < k ensures order[..k][j] != order[k] {
      assert Differ(order, j, k);
    }
  }

  /** Everything has arrived exactly when the whole order is through. */
  lemma FirstIsAll(order: seq<nat>, n: nat, k: nat)
    requires Arrangement(order, n) && k <= n
    ensures (forall i :: 0 <= i < n ==> i in First(order, k)) <==> k == n
  {
    if k == n {
      assert order[..k] == order;
    } else {
      FirstSteps(order, n, k);
    }
  }

  lemma EcnArrival(marks: seq<Ecn.Mark>, k: nat)
    requires k < |marks| && Ecn.Verdict(Ecn.SeenIn(marks)) != Ecn.ILLEGAL
    ensures var seen, seen' := {marks[0]} + Ecn.SeenIn(marks[..k]), {marks[0]} + Ecn.SeenIn(marks[..k + 1]);
            Ecn.Verdict(seen) != Ecn.ILLEGAL && Ecn.Combine(Ecn.Verdict(seen), marks[k]) == Ecn.Verdict(seen')
            && Ecn.Verdict(seen') != Ecn.ILLEGAL
  {
    var seen := {marks[0]} + Ecn.SeenIn(marks[..k]);
    assert marks[..k + 1] == marks[..k] + [marks[k]];
    assert {marks[0]} + Ecn.SeenIn(marks[..k + 1]) == seen + {marks[k]};
    assert seen + {marks[k]} <= Ecn.SeenIn(marks);
    Ecn.VerdictStep(seen, marks[k]);
  }

  /** A piece among several. */
  lemma PieceAt(ps: seq<Piece>, i: nat, total: nat, room: nat)
    requires Tiling(ps, 0, total, room) && |ps| >= 2 && i < |ps|
    ensures var p := ps[i];
            && p.off % 8 == 0 && p.len > 0 && p.off + p.len <= total && (p.more ==> p.len % 8 == 0) && (p.off > 0 || p.more)
  {
    assert PieceOk(ps, i, 0, total, room);
    if i > 0 {
      assert Before(ps, 0, i) && PieceOk(ps, 0, 0, total, room);
    }
  }

  /** One arrival, parsed. */
  method ParseArrival(b: seq<byte>, pmtu: nat, id: seq<byte>, f: seq<byte>, nhPos: nat, u: nat, i: nat, m: Ecn.Mark)
    returns (fr: Fragment)
    requires WellFormedPacket(b) && |id| == 4 && UnfragLen(b) + 16 <= pmtu && (nhPos, u) == Chain(b, 6, 40)
    requires Tiling(Cut(b, pmtu), 0, |b| - u, pmtu - u - 8) && |Cut(b, pmtu)| >= 2 && |f| >= 2
    requires exists w :: IsFragment(b, pmtu, id, i, w) && |w| >= 2 && f == Marked(w, m)
    ensures SeenAs(b[..u], b[u..], Cut(b, pmtu)[i], m, fr) && i < |Cut(b, pmtu)|
  {
    ghost var ps := Cut(b, pmtu);
    PieceAt(ps, i, |b| - u, pmtu - u - 8);
    ArrivalParses(b, id, ps[i], f, nhPos, u, m);
    var r := ParseFragment(f, nhPos, u, Get16(f, 4) - (u - 40));
    fr := r.fr;
  }

  lemma ArrivalParses(b: seq<byte>, id: seq<byte>, p: Piece, f: seq<byte>, nhPos: nat, u: nat, m: Ecn.Mark)
    requires WellFormedPacket(b) && |id| == 4 && (nhPos, u) == Chain(b, 6, 40)
    requires p.off % 8 == 0 && p.len > 0 && p.off + p.len <= |b| - u && (p.more ==> p.len % 8 == 0) && (p.off > 0 || p.more)
    requires f == Marked(FragmentOf(b, id, p), m)
    ensures nhPos < u && 40 <= u && u + 8 < |f| && |f| - u <= 0xffff && Get16(f, 4) == |f| - 40 && Parses(b, f, nhPos, u, p, m)
  {
    ParseUndoesBuild(b, id, p, m);
  }

  ghost predicate Parses(b: seq<byte>, f: seq<byte>, nhPos: nat, u: nat, p: Piece, m: Ecn.Mark)
    requires nhPos < u && 40 <= u <= |b| && u + 8 <= |f| && |f| - u <= 0xffff
  {
    var r := ParseFragment(f, nhPos, u, |f| - u);
    r.Part? && SeenAs(b[..u], b[u..], p, m, r.fr)
  }

  lemma HeaderFromFirst(b: seq<byte>, u: nat, p: Piece, fr: Fragment)
    requires 40 <= u <= |b| && SeenAs(b[..u], b[u..], p, fr.ecn, fr) && p.off == 0
    ensures HeaderKept(fr.header, b)
  {
    assert fr.header[1] == Marked(b, fr.ecn)[1];
  }

  /** The whole of it, with its header, is the packet. */
  lemma WholeIsPacket(a: Partial, b: seq<byte>, u: nat)
    requires LengthOk(b) && 40 <= u <= |b| && WellFormedPartial(a) && Whole(a)
    requires Payload(a) == b[u..] && HeaderKept(a.header, b) && |a.header| == u
    ensures Packet(a) == Marked(b, a.ecn)
  {
    PatchRestores(a.header, b, a.ecn);
  }

  /** What the record is between arrivals: it holds the pieces in s and, once known, the packet's header. */
  ghost predicate Between(d: Datagram, b: seq<byte>, u: nat, ps: seq<Piece>, s: set<nat>)
    reads d, d.mem
    requires 40 <= u <= |b|
  {
    && d.Valid() && !d.discard
    && Holding(d.View(), u, b[u..], ps, s)
    && d.lag == 0 && (if d.View().header == [] then u <= d.bufPtr else HeaderKept(d.View().header, b))
  }

  /** One arrival: never dropped, and the last one completes the packet. */
  method Arrive(d: Datagram, ghost b: seq<byte>, ghost u: nat, ghost ps: seq<Piece>, ghost s: set<nat>, ghost room: nat,
                ghost i: nat, fr: Fragment) returns (r: Outcome)
    requires 40 <= u <= |b| && u % 8 == 0 && |b| <= d.mru && LengthOk(b)
    requires Between(d, b, u, ps, s) && !d.freed
    requires Tiling(ps, 0, |b| - u, room) && i < |ps| && i !in s
    requires SeenAs(b[..u], b[u..], ps[i], fr.ecn, fr) && Ecn.Combine(d.ecn, fr.ecn) != Ecn.ILLEGAL
    modifies d, d.mem
    ensures Between(d, b, u, ps, s + {i}) && d.ecn == Ecn.Combine(old(d.ecn), fr.ecn)
    ensures d.freed <==> forall j :: 0 <= j < |ps| ==> j in s + {i}
    ensures r == if d.freed then Complete(Marked(b, d.ecn)) else Pending
  {
    ghost var a := d.View();
    PieceAccepted(a, b[..u], b[u..], ps, s, room, i, fr);
    if fr.first == 0 {
      HeaderFromFirst(b, u, ps[i], fr);
      assert fr.first !in a.got;
    }
    r := d.Receive(fr);
    ghost var c := d.View();
    AllPiecesWhole(c, u, b[u..], ps, s + {i}, room);
    if d.freed {
      assert 0 in c.got;
      WholeIsPacket(c, b, u);
    }
  }

  /** The record after the first k arrivals. */
  ghost predicate Delivered(d: Datagram, b: seq<byte>, u: nat, ps: seq<Piece>, order: seq<nat>, marks: seq<Ecn.Mark>, k: nat, r: Outcome)
    reads d, d.mem
    requires 40 <= u <= |b| && k <= |order| == |marks| && marks != []
  {
    && Between(d, b, u, ps, First(order, k))
    && (d.freed <==> k == |order|)
    && d.ecn == Ecn.Verdict({marks[0]} + Ecn.SeenIn(marks[..k]))
    && (d.freed ==> r == Complete(Marked(b, d.ecn)))
  }

  /** Arrival number k. */
  method DeliverNext(d: Datagram, ghost b: seq<byte>, ghost u: nat, ghost ps: seq<Piece>, ghost room: nat,
                     ghost order: seq<nat>, ghost marks: seq<Ecn.Mark>, ghost k: nat, fr: Fragment) returns (r: Outcome)
    requires 40 <= u <= |b| <= d.mru && u % 8 == 0 && LengthOk(b)
    requires Tiling(ps, 0, |b| - u, room) && Arrangement(order, |ps|) && |marks| == |order| && k < |order|
    requires Ecn.Verdict(Ecn.SeenIn(marks)) != Ecn.ILLEGAL
    requires SeenAs(b[..u], b[u..], ps[order[k]], marks[k], fr)
    requires Delivered(d, b, u, ps, order, marks, k, Pending)
    modifies d, d.mem
    ensures Delivered(d, b, u, ps, order, marks, k + 1, r)
  {
    ghost var s, s' := First(order, k), First(order, k + 1);
    ghost var ecn' := Ecn.Verdict({marks[0]} + Ecn.SeenIn(marks[..k + 1]));
    assert Ecn.Combine(d.ecn, marks[k]) == ecn' != Ecn.ILLEGAL by {
      EcnArrival(marks, k);
    }
    assert order[k] !in s && s' == s + {order[k]} by {
      FirstSteps(order, |ps|, k);
    }
    r := Arrive(d, b, u, ps, s, room, order[k], fr);
    assert d.freed <==> k + 1 == |order| by {
      FirstIsAll(order, |ps|, k + 1);
    }
  }

  /** Feeds a new record all fragments of a packet in the given order. */
  method DeliverAll(d: Datagram, ghost b: seq<byte>, ghost u: nat, ghost ps: seq<Piece>, ghost room: nat, frs: seq<Fragment>,
                    ghost order: seq<nat>, ghost marks: seq<Ecn.Mark>) returns (r: Outcome)
    requires 40 <= u <= |b| <= d.mru && u % 8 == 0 && LengthOk(b)
    requires Tiling(ps, 0, |b| - u, room) && ps != [] && Arrangement(order, |ps|) && |marks| == |order| == |frs|
    requires Ecn.Verdict(Ecn.SeenIn(marks)) != Ecn.ILLEGAL
    requires forall k :: 0 <= k < |frs| ==> SeenAs(b[..u], b[u..], ps[order[k]], marks[k], frs[k])
    requires Delivered(d, b, u, ps, order, marks, 0, Pending)
    modifies d, d.mem
    ensures Delivered(d, b, u, ps, order, marks, |order|, r)
  {
    r := Pending;
    for k := 0 to |frs|
      invariant Delivered(d, b, u, ps, order, marks, k, r)
    {
      r := DeliverNext(d, b, u, ps, room, order, marks, k, frs[k]);
    }
  }

  /** Parses the fragment packets in their order of arrival, each marked on its way. */
  method ParseAll(b: seq<byte>, pmtu: nat, id: seq<byte>, pushed: seq<seq<byte>>, nhPos: nat, u: nat, order: seq<nat>,
                  marks: seq<Ecn.Mark>) returns (frs: seq<Fragment>)
    requires WellFormedPacket(b) && |id| == 4 && UnfragLen(b) + 16 <= pmtu && (nhPos, u) == Chain(b, 6, 40)
    requires |Cut(b, pmtu)| == |pushed| >= 2 && Tiling(Cut(b, pmtu), 0, |b| - u, pmtu - u - 8)
    requires forall i :: 0 <= i < |pushed| ==> IsFragment(b, pmtu, id, |pushed| - 1 - i, pushed[i])
    requires |marks| == |order| && forall k :: 0 <= k < |order| ==> order[k] < |pushed|
    ensures |frs| == |order|
    ensures forall k :: 0 <= k < |frs| ==> SeenAs(b[..u], b[u..], Cut(b, pmtu)[order[k]], marks[k], frs[k])
  {
    frs := [];
    for k := 0 to |order|
      invariant |frs| == k
      invariant forall j :: 0 <= j < k ==> SeenAs(b[..u], b[u..], Cut(b, pmtu)[order[j]], marks[j], frs[j])
    {
      var w := pushed[|pushed| - 1 - order[k]];
      assert IsFragment(b, pmtu, id, order[k], w);
      var fr := ParseArrival(b, pmtu, id, Marked(w, marks[k]), nhPos, u, order[k], marks[k]);
      frs := frs + [fr];
    }
  }

  /** Fragments a packet, marks and reorders the fragments, and reassembles them in a record set up for the first. */
  method Deliver(b: seq<byte>, pmtu: nat, id: seq<byte>, mru: nat, base: nat, order: seq<nat>, marks: seq<Ecn.Mark>)
    returns (out: seq<byte>)
    requires WellFormedPacket(b) && LengthOk(b) && |id| == 4 && UnfragLen(b) + 16 <= pmtu
    requires |b| <= mru < 0x1_0000 && mru % 8 == 0 && 1280 <= mru
    requires |Cut(b, pmtu)| >= 2 && Arrangement(order, |Cut(b, pmtu)|) && |marks| == |order|
    requires Ecn.Verdict(Ecn.SeenIn(marks)) != Ecn.ILLEGAL
    ensures out == Marked(b, Ecn.Verdict(Ecn.SeenIn(marks)))
  {
    var ok, pushed := FragDown(b, pmtu, id);
    var nhPos, u := SkipHeaders(b);
    ghost var ps, room := Cut(b, pmtu), pmtu - u - 8;
    var frs := ParseAll(b, pmtu, id, pushed, nhPos, u, order, marks);
    out := Reassemble(b, u, mru, base, ps, room, frs, order, marks);
  }

  method Reassemble(ghost b: seq<byte>, u: nat, mru: nat, base: nat, ghost ps: seq<Piece>, ghost room: nat, frs: seq<Fragment>,
                    ghost order: seq<nat>, marks: seq<Ecn.Mark>) returns (out: seq<byte>)
    requires 40 <= u <= |b| <= mru < 0x1_0000 && mru % 8 == 0 && 1280 <= mru && u % 8 == 0 && LengthOk(b)
    requires Tiling(ps, 0, |b| - u, room) && ps != [] && Arrangement(order, |ps|) && |marks| == |order| == |frs|
    requires Ecn.Verdict(Ecn.SeenIn(marks)) != Ecn.ILLEGAL
    requires forall k :: 0 <= k < |frs| ==> SeenAs(b[..u], b[u..], ps[order[k]], marks[k], frs[k])
    ensures out == Marked(b, Ecn.Verdict(Ecn.SeenIn(marks)))
  {
    var d := new Datagram(u, mru, base, marks[0]);
    assert Ecn.SeenIn(marks[..0]) == {} && First(order, 0) == {};
    var r := DeliverAll(d, b, u, ps, room, frs, order, marks);
    out := r.packet;
    assert marks[..|order|] == marks && {marks[0]} + Ecn.SeenIn(marks) == Ecn.SeenIn(marks);
  }

  /** A single piece travels as an atomic fragment, which is turned back into the packet at once. */
  lemma AtomicRoundTrip(b: seq<byte>, id: seq<byte>, m: Ecn.Mark)
    requires WellFormedPacket(b) && LengthOk(b) && |id| == 4 && UnfragLen(b) < |b| < 0x1_0000 - 8
    ensures var (nhPos, u) := Chain(b, 6, 40);
            var p := Piece(0, |b| - u, false);
            var f := Marked(FragmentOf(b, id, p), m);
            u <= Get16(f, 4) + 40 <= |f| && ParseFragment(f, nhPos, u, Get16(f, 4) - (u - 40)) == Atomic(Marked(b, m))
  {
    var (nhPos, u) := Chain(b, 6, 40);
    var p := Piece(0, |b| - u, false);
    var w := FragmentOf(b, id, p);
    AtomicWire(b, id);
    AtomicFields(b, w, nhPos, u, m);
  }

  /** The fields of an atomic fragment. */
  lemma AtomicWire(b: seq<byte>, id: seq<byte>)
    requires WellFormedPacket(b) && |id| == 4 && UnfragLen(b) < |b| < 0x1_0000 - 8
    ensures var (nhPos, u) := Chain(b, 6, 40);
            var w := FragmentOf(b, id, Piece(0, |b| - u, false));
            && |w| == |b| + 8 && w[4] == (|b| - 32) / 256 && w[5] == (|b| - 32) % 256
            && (forall j :: 0 <= j < u && j != 4 && j != 5 ==> w[j] == b[..u][nhPos := NH_FRAGMENT][j])
            && w[u] == b[nhPos] && w[u + 2..u + 4] == [0, 0] && w[u + 8..] == b[u..]
  {
    var (nhPos, u) := Chain(b, 6, 40);
    var unfrag: seq<byte>, payload: seq<byte> := b[..u], b[u..];
    WireFields(unfrag[nhPos := NH_FRAGMENT], b[nhPos], id, payload, Piece(0, |b| - u, false));
  }

  lemma AtomicFields(b: seq<byte>, w: seq<byte>, nhPos: nat, u: nat, m: Ecn.Mark)
    requires LengthOk(b) && 6 <= nhPos < u && 40 <= u < |b| < 0x1_0000 - 8
    requires |w| == |b| + 8 && w[4] == (|b| - 32) / 256 && w[5] == (|b| - 32) % 256
    requires forall j :: 0 <= j < u && j != 4 && j != 5 ==> w[j] == b[..u][nhPos := NH_FRAGMENT][j]
    requires w[u] == b[nhPos] && w[u + 2..u + 4] == [0, 0] && w[u + 8..] == b[u..]
    ensures ParseFragment(Marked(w, m), nhPos, u, |w| - u) == Atomic(Marked(b, m))
  {
    var f := Marked(w, m);
    var field := w[u + 2..u + 4];
    assert f[u + 2] == field[0] == 0 && f[u + 3] == field[1] == 0;
    assert Get16(f, 4) == |b| - 32;
    ParseAtomic(f, nhPos, u, |b| - 40);
    AtomicHeader(b, w, nhPos, u, m);
    AtomicTail(b, w, u, m);
  }

  lemma ParseAtomic(f: seq<byte>, nhPos: nat, u: nat, length: nat)
    requires nhPos < u && 40 <= u && u + 8 < |f| && |f| - u <= 0xffff && f[u + 2] == f[u + 3] == 0
    requires Get16(f, 4) == length + 8
    ensures ParseFragment(f, nhPos, u, |f| - u) == Atomic(f[..u][nhPos := f[u]][4 := length / 256][5 := length % 256] + f[u + 8..])
  {
    assert (Get16(f, 4) + 0x1_0000 - 8) % 0x1_0000 == length;
  }

  /** The announcement and the length are put back. */
  lemma AtomicHeader(b: seq<byte>, w: seq<byte>, nhPos: nat, u: nat, m: Ecn.Mark)
    requires LengthOk(b) && 6 <= nhPos < u && 40 <= u < |b| < 0x1_0000 - 8 && |w| == |b| + 8
    requires forall j :: 0 <= j < u && j != 4 && j != 5 ==> w[j] == b[..u][nhPos := NH_FRAGMENT][j]
    requires w[u] == b[nhPos]
    ensures var f, length := Marked(w, m), |b| - 40;
            f[..u][nhPos := f[u]][4 := length / 256][5 := length % 256] == Marked(b, m)[..u]
  {
    var f, length := Marked(w, m), |b| - 40;
    var r, r' := f[..u][nhPos := f[u]][4 := length / 256][5 := length % 256], Marked(b, m)[..u];
    forall j | 0 <= j < u ensures r[j] == r'[j] {
    }
    assert r == r';
  }

  lemma AtomicTail(b: seq<byte>, w: seq<byte>, u: nat, m: Ecn.Mark)
    requires 40 <= u < |b| && |w| == |b| + 8 && w[u + 8..] == b[u..]
    ensures Marked(w, m)[u + 8..] == Marked(b, m)[u..] && Marked(b, m) == Marked(b, m)[..u] + Marked(b, m)[u..]
  {
    assert Marked(w, m)[u + 8..] == w[u + 8..] && Marked(b, m)[u..] == b[u..];
  }
}
