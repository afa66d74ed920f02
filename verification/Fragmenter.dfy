/** Fragment creation and fragment parsing, on whole packets of bytes (section 4.5 of RFC 8200). */
module Fragmenter {
  import opened Bytes
  import opened Reassembly
  import Ecn

  const NH_HOP_BY_HOP := 0
  const NH_ROUTING := 43
  const NH_FRAGMENT := 44

  predicate Skipped(nh: byte) {
    nh == NH_HOP_BY_HOP || nh == NH_ROUTING
  }

  /** The chain of hop-by-hop and routing headers from pos, announced at nhPos, stays inside the packet. */
  predicate ChainOk(b: seq<byte>, nhPos: nat, pos: nat)
    requires nhPos < pos
    decreases |b| - pos
  {
    pos <= |b| && (Skipped(b[nhPos]) ==> pos + 2 <= |b| && ChainOk(b, pos, pos + (b[pos + 1] as int + 1) * 8))
  }

  /** Where the Next Header octet that announces the fragmentable part stands, and where that part starts. */
  function Chain(b: seq<byte>, nhPos: nat, pos: nat): (r: (nat, nat))
    requires nhPos < pos && ChainOk(b, nhPos, pos)
    ensures nhPos <= r.0 < r.1 <= |b| && pos <= r.1 && (r.0 == nhPos || pos <= r.0)
    ensures !Skipped(b[r.0])
    ensures (r.1 - pos) % 8 == 0
    decreases |b| - pos
  {
    if Skipped(b[nhPos]) then Chain(b, pos, pos + (b[pos + 1] as int + 1) * 8) else (nhPos, pos)
  }

  predicate WellFormedPacket(b: seq<byte>) {
    40 <= |b| < 0x1_0000 && ChainOk(b, 6, 40)
  }

  function UnfragLen(b: seq<byte>): nat
    requires WellFormedPacket(b)
  {
    Chain(b, 6, 40).1
  }

  /** A piece of the fragmentable part. */
  datatype Piece = Piece(off: nat, len: nat, more: bool)

  /** The pieces from offset off on, when each fragment has room for this many bytes. */
  function Pieces(total: nat, off: nat, room: nat): seq<Piece>
    requires off <= total && room >= 8
    decreases total - off
  {
    if off == total then []
    else
      var len := if total - off > room then room / 8 * 8 else total - off;
      [Piece(off, len, len != total - off)] + Pieces(total, off + len, room)
  }

  /** A fragment packet: the unfragmentable part with its length adjusted, a fragment header, a piece of the data. */
  function Wire(unfrag: seq<byte>, nh: byte, id: seq<byte>, payload: seq<byte>, p: Piece): seq<byte>
    requires |unfrag| >= 40 && |id| == 4
    requires p.off % 8 == 0 && p.off + p.len <= |payload| && |unfrag| + |payload| < 0x1_0000
  {
    var length: u16 := |unfrag| - 40 + 8 + p.len;
    unfrag[4 := length / 256][5 := length % 256]
    + [nh, 0] + Put16(p.off + if p.more then 1 else 0) + id + payload[p.off..p.off + p.len]
  }

  /** Field by field: fragment f of packet b carries this piece of what lies behind its first u bytes, and says how long it is itself. */
  ghost predicate Fields(b: seq<byte>, nhPos: nat, u: nat, id: seq<byte>, p: Piece, f: seq<byte>)
    requires nhPos < u && 40 <= u && |id| == 4
  {
    && u + p.off + p.len <= |b| && |f| == u + 8 + p.len
    && Get16(f, 4) == |f| - 40
    && f[nhPos] == NH_FRAGMENT && (forall j :: 0 <= j < u && j != 4 && j != 5 && j != nhPos ==> f[j] == b[j])
    && f[u] == b[nhPos] && f[u + 1] == 0
    && Get16(f, u + 2) == p.off + (if p.more then 1 else 0)
    && f[u + 4..u + 8] == id
    && f[u + 8..] == b[u + p.off..u + p.off + p.len]
  }

  lemma GetIs(f: seq<byte>, i: nat, x: u16)
    requires i + 1 < |f| && f[i] == x / 256 && f[i + 1] == x % 256
    ensures Get16(f, i) == x
  {
  }

  /** Where the parts of the wire form stand. */
  lemma WireParts(unfrag: seq<byte>, nh: byte, id: seq<byte>, payload: seq<byte>, p: Piece)
    requires |unfrag| >= 40 && |id| == 4
    requires p.off % 8 == 0 && p.off + p.len <= |payload| && |unfrag| + |payload| < 0x1_0000
    ensures var f, u, length, offset := Wire(unfrag, nh, id, payload, p), |unfrag|, |unfrag| - 32 + p.len, p.off + if p.more then 1 else 0;
            && |f| == u + 8 + p.len && f[..u] == unfrag[4 := length / 256][5 := length % 256]
            && f[u] == nh && f[u + 1] == 0 && f[u + 2] == offset / 256 && f[u + 3] == offset % 256
            && f[u + 4..u + 8] == id && f[u + 8..] == payload[p.off..p.off + p.len]
  {
  }

  /** The wire form of a piece has these fields. */
  lemma WireHasFields(b: seq<byte>, nhPos: nat, u: nat, id: seq<byte>, p: Piece)
    requires 6 <= nhPos < u && 40 <= u <= |b| < 0x1_0000 && |id| == 4
    requires p.off % 8 == 0 && u + p.off + p.len <= |b|
    ensures Fields(b, nhPos, u, id, p, Wire(b[..u][nhPos := NH_FRAGMENT], b[nhPos], id, b[u..], p))
  {
    var unfrag: seq<byte>, payload: seq<byte> := b[..u][nhPos := NH_FRAGMENT], b[u..];
    var f := Wire(unfrag, b[nhPos], id, payload, p);
    WireParts(unfrag, b[nhPos], id, payload, p);
    forall j | 0 <= j < u ensures f[j] == f[..u][j] {
    }
    assert payload[p.off..p.off + p.len] == b[u + p.off..u + p.off + p.len];
    GetIs(f, 4, u - 32 + p.len);
    GetIs(f, u + 2, p.off + if p.more then 1 else 0);
  }

  /** The pieces are in order and disjoint, on multiples of 8, no larger than room, and cover off..total. */
  ghost predicate Tiling(ps: seq<Piece>, off: nat, total: nat, room: nat) {
    && (forall i :: 0 <= i < |ps| ==> PieceOk(ps, i, off, total, room))
    && (forall i, j :: 0 <= i < j < |ps| ==> Before(ps, i, j))
    && (forall x :: off <= x < total ==> Covered(ps, x))
  }

  predicate PieceOk(ps: seq<Piece>, i: nat, off: nat, total: nat, room: nat)
    requires i < |ps|
  {
    var p := ps[i];
    && off <= p.off && p.len <= room
    && p.len > 0 && p.off % 8 == 0 && p.off + p.len <= total
    && (p.more <==> i < |ps| - 1) && (p.more ==> p.len % 8 == 0) && (p.more <==> p.off + p.len < total)
  }

  predicate Before(ps: seq<Piece>, i: nat, j: nat)
    requires i < |ps| && j < |ps|
  {
    ps[i].off + ps[i].len <= ps[j].off
  }

  ghost predicate Covered(ps: seq<Piece>, x: int) {
    exists i :: 0 <= i < |ps| && ps[i].off <= x < ps[i].off + ps[i].len
  }

  /** The splitting loop tiles what it has left, and no piece is larger than a fragment has room for. */
  lemma {:induction false} PiecesTile(total: nat, off: nat, room: nat)
    requires off <= total && room >= 8 && off % 8 == 0
    ensures Tiling(Pieces(total, off, room), off, total, room)
    decreases total - off
  {
    if off < total {
      var len := if total - off > room then room / 8 * 8 else total - off;
      var p := Piece(off, len, len != total - off);
      if off + len == total {
        var ps := [p];
        assert Pieces(total, off, room) == ps;
        forall x | off <= x < total ensures Covered(ps, x) {
          assert ps[0] == p;
        }
      } else {
        PiecesTile(total, off + len, room);
        TilingCons(p, Pieces(total, off + len, room), total, room);
      }
    }
  }

  /** Every piece but the last takes as many blocks of 8 bytes as there is room for. */
  lemma {:induction false} PiecesFull(total: nat, off: nat, room: nat, i: nat)
    requires off <= total && room >= 8 && i < |Pieces(total, off, room)|
    ensures i < |Pieces(total, off, room)| - 1 ==> Pieces(total, off, room)[i].len % 8 == 0 && room < Pieces(total, off, room)[i].len + 8
    decreases i
  {
    var len := if total - off > room then room / 8 * 8 else total - off;
    if i > 0 {
      PiecesFull(total, off + len, room, i - 1);
    }
  }

  /** One more piece in front of pieces that tile the rest. */
  lemma TilingCons(p: Piece, rest: seq<Piece>, total: nat, room: nat)
    requires p.len > 0 && p.off % 8 == 0 && p.len % 8 == 0 && p.more && p.len <= room && p.off + p.len < total
    requires Tiling(rest, p.off + p.len, total, room) && rest != []
    ensures Tiling([p] + rest, p.off, total, room)
  {
    var ps, next := [p] + rest, p.off + p.len;
    forall i | 0 <= i < |ps| ensures PieceOk(ps, i, p.off, total, room) {
      assert i > 0 ==> PieceOk(rest, i - 1, next, total, room);
    }
    forall i, j | 0 <= i < j < |ps| ensures Before(ps, i, j) {
      assert PieceOk(rest, j - 1, next, total, room);
      assert i > 0 ==> Before(rest, i - 1, j - 1);
    }
    forall x | p.off <= x < total ensures Covered(ps, x) {
      if next <= x {
        assert Covered(rest, x);
        var i :| 0 <= i < |rest| && rest[i].off <= x < rest[i].off + rest[i].len;
        assert ps[i + 1] == rest[i];
      } else {
        assert ps[0] == p;
      }
    }
  }

  /** The walk over the hop-by-hop and routing headers. */
  method SkipHeaders(b: seq<byte>) returns (nhPos: nat, fragmentable: nat)
    requires WellFormedPacket(b)
    ensures (nhPos, fragmentable) == Chain(b, 6, 40)
  {
    nhPos, fragmentable := 6, 40;
    while Skipped(b[nhPos])
      invariant nhPos < fragmentable && ChainOk(b, nhPos, fragmentable)
      invariant Chain(b, nhPos, fragmentable) == Chain(b, 6, 40)
      decreases |b| - nhPos
    {
      nhPos, fragmentable := fragmentable, fragmentable + (b[fragmentable + 1] as int + 1) * 8;
    }
  }

  /** The pieces a packet is cut into for this path. */
  function Cut(b: seq<byte>, pmtu: nat): seq<Piece>
    requires WellFormedPacket(b) && UnfragLen(b) + 16 <= pmtu
  {
    Pieces(|b| - UnfragLen(b), 0, pmtu - UnfragLen(b) - 8)
  }

  /** The fragment packet that carries one piece of a packet. */
  function FragmentOf(b: seq<byte>, id: seq<byte>, p: Piece): seq<byte>
    requires WellFormedPacket(b) && |id| == 4
    requires p.off % 8 == 0 && p.off + p.len <= |b| - UnfragLen(b)
  {
    var (nhPos, u) := Chain(b, 6, 40);
    Wire(b[..u][nhPos := NH_FRAGMENT], b[nhPos], id, b[u..], p)
  }

  /** ipv6_frag_down: all fragments are made in one go and pushed last one first; none if the path is too narrow. */
  method FragDown(b: seq<byte>, pmtu: nat, id: seq<byte>) returns (ok: bool, pushed: seq<seq<byte>>)
    requires WellFormedPacket(b) && |id| == 4
    ensures ok <==> UnfragLen(b) + 16 <= pmtu
    ensures ok ==> |pushed| == |Cut(b, pmtu)| && Tiling(Cut(b, pmtu), 0, |b| - UnfragLen(b), pmtu - UnfragLen(b) - 8)
    ensures ok ==> forall i :: 0 <= i < |pushed| ==> IsFragment(b, pmtu, id, |pushed| - 1 - i, pushed[i])
    ensures ok ==> forall i :: 0 <= i < |pushed| ==> WellMade(b, pmtu, id, |pushed| - 1 - i, pushed[i])
    ensures !ok ==> pushed == []
  {
    var nhPos, unfragLen := SkipHeaders(b);
    var nh := b[nhPos];
    var unfrag := b[..unfragLen][nhPos := NH_FRAGMENT];
    pushed := [];
    if unfragLen + 8 + 8 > pmtu {
      return false, [];
    }
    var fragmentable := b[unfragLen..];
    pushed := CutUp(unfrag, nh, id, fragmentable, pmtu - unfragLen - 8);
    PiecesTile(|fragmentable|, 0, pmtu - unfragLen - 8);
    forall i | 0 <= i < |pushed| ensures IsFragment(b, pmtu, id, |pushed| - 1 - i, pushed[i]) && WellMade(b, pmtu, id, |pushed| - 1 - i, pushed[i]) {
      assert Carries(unfrag, nh, id, fragmentable, Cut(b, pmtu)[|pushed| - 1 - i], pushed[i]);
      CarriesMade(b, pmtu, id, |pushed| - 1 - i, pushed[i]);
    }
    ok := true;
  }

  ghost predicate Carries(unfrag: seq<byte>, nh: byte, id: seq<byte>, payload: seq<byte>, p: Piece, f: seq<byte>)
    requires |unfrag| >= 40 && |id| == 4 && |unfrag| + |payload| < 0x1_0000
  {
    p.off % 8 == 0 && p.off + p.len <= |payload| && f == Wire(unfrag, nh, id, payload, p)
  }

  /** The wire form of a piece of the tiling is its fragment, with all fields as they should be. */
  lemma CarriesMade(b: seq<byte>, pmtu: nat, id: seq<byte>, i: nat, f: seq<byte>)
    requires WellFormedPacket(b) && |id| == 4 && UnfragLen(b) + 16 <= pmtu && i < |Cut(b, pmtu)|
    requires Tiling(Cut(b, pmtu), 0, |b| - UnfragLen(b), pmtu - UnfragLen(b) - 8)
    requires var (nhPos, u) := Chain(b, 6, 40); Carries(b[..u][nhPos := NH_FRAGMENT], b[nhPos], id, b[u..], Cut(b, pmtu)[i], f)
    ensures IsFragment(b, pmtu, id, i, f) && WellMade(b, pmtu, id, i, f)
  {
    var (nhPos, u) := Chain(b, 6, 40);
    assert PieceOk(Cut(b, pmtu), i, 0, |b| - u, pmtu - u - 8);
    WireHasFields(b, nhPos, u, id, Cut(b, pmtu)[i]);
  }

  /** The splitting loop. */
  method CutUp(unfrag: seq<byte>, nh: byte, id: seq<byte>, fragmentable: seq<byte>, room: nat) returns (pushed: seq<seq<byte>>)
    requires |unfrag| >= 40 && |id| == 4 && |unfrag| + |fragmentable| < 0x1_0000 && room >= 8
    ensures var ps := Pieces(|fragmentable|, 0, room);
            |pushed| == |ps| && forall i :: 0 <= i < |ps| ==> Carries(unfrag, nh, id, fragmentable, ps[|ps| - 1 - i], pushed[i])
  {
    pushed := [];
    var left, offset := |fragmentable|, 0;
    ghost var made: seq<Piece> := [];
    while left > 0
      invariant 0 <= left <= |fragmentable| && offset == |fragmentable| - left
      invariant left > 0 ==> offset % 8 == 0
      invariant Pieces(|fragmentable|, 0, room) == made + Pieces(|fragmentable|, offset, room)
      invariant PushedSo(unfrag, nh, id, fragmentable, made, pushed)
    {
      var len := room;
      if left > len {
        len := len / 8 * 8;
      } else {
        len := left;
      }
      ghost var p := Piece(offset, len, len != left);
      PieceStep(|fragmentable|, offset, room, len);
      var f := BuildFragment(unfrag, nh, id, fragmentable, offset, len, left);
      MadeMore(made, p, Pieces(|fragmentable|, offset, room), Pieces(|fragmentable|, offset + len, room));
      PushedMore(unfrag, nh, id, fragmentable, made, pushed, p, f);
      made, pushed := made + [p], [f] + pushed;
      left, offset := left - len, offset + len;
    }
    assert made + [] == made;
  }

  /** The last piece made is pushed first. */
  ghost predicate PushedSo(unfrag: seq<byte>, nh: byte, id: seq<byte>, fragmentable: seq<byte>, made: seq<Piece>, pushed: seq<seq<byte>>)
    requires |unfrag| >= 40 && |id| == 4 && |unfrag| + |fragmentable| < 0x1_0000
  {
    |pushed| == |made| && forall i :: 0 <= i < |made| ==> Carries(unfrag, nh, id, fragmentable, made[|made| - 1 - i], pushed[i])
  }

  lemma PushedMore(unfrag: seq<byte>, nh: byte, id: seq<byte>, fragmentable: seq<byte>, made: seq<Piece>, pushed: seq<seq<byte>>,
                   p: Piece, f: seq<byte>)
    requires |unfrag| >= 40 && |id| == 4 && |unfrag| + |fragmentable| < 0x1_0000
    requires PushedSo(unfrag, nh, id, fragmentable, made, pushed) && Carries(unfrag, nh, id, fragmentable, p, f)
    ensures PushedSo(unfrag, nh, id, fragmentable, made + [p], [f] + pushed)
  {
    var made', pushed' := made + [p], [f] + pushed;
    forall i | 0 <= i < |made'| ensures Carries(unfrag, nh, id, fragmentable, made'[|made'| - 1 - i], pushed'[i]) {
      assert i > 0 ==> made'[|made'| - 1 - i] == made[|made| - 1 - (i - 1)] && pushed'[i] == pushed[i - 1];
    }
  }

  /** One turn of the splitting loop. */
  lemma PieceStep(total: nat, offset: nat, room: nat, len: nat)
    requires offset < total && offset % 8 == 0 && room >= 8
    requires len == if total - offset > room then room / 8 * 8 else total - offset
    ensures 0 < len <= total - offset && (len < total - offset ==> (offset + len) % 8 == 0)
    ensures Pieces(total, offset, room) == [Piece(offset, len, len != total - offset)] + Pieces(total, offset + len, room)
  {
  }

  lemma MadeMore(made: seq<Piece>, p: Piece, from: seq<Piece>, rest: seq<Piece>)
    requires from == [p] + rest
    ensures made + from == (made + [p]) + rest
  {
  }

  /** Packet f is the fragment for piece i. */
  ghost predicate IsFragment(b: seq<byte>, pmtu: nat, id: seq<byte>, i: int, f: seq<byte>)
    requires WellFormedPacket(b) && |id| == 4 && UnfragLen(b) + 16 <= pmtu
  {
    var ps := Cut(b, pmtu);
    0 <= i < |ps| && ps[i].off % 8 == 0 && ps[i].off + ps[i].len <= |b| - UnfragLen(b) && f == FragmentOf(b, id, ps[i])
  }

  /** Packet f fits the path and has the fields of piece i. */
  ghost predicate WellMade(b: seq<byte>, pmtu: nat, id: seq<byte>, i: int, f: seq<byte>)
    requires WellFormedPacket(b) && |id| == 4 && UnfragLen(b) + 16 <= pmtu
  {
    var (nhPos, u) := Chain(b, 6, 40);
    0 <= i < |Cut(b, pmtu)| && |f| <= pmtu && Fields(b, nhPos, u, id, Cut(b, pmtu)[i], f)
  }

  /** The packet contents of one fragment, one after the other. */
  method BuildFragment(unfrag: seq<byte>, nh: byte, id: seq<byte>, fragmentable: seq<byte>, offset: nat, len: nat, left: nat)
    returns (f: seq<byte>)
    requires |unfrag| >= 40 && |id| == 4 && |unfrag| + |fragmentable| < 0x1_0000
    requires offset % 8 == 0 && len <= left && offset + left == |fragmentable|
    ensures f == Wire(unfrag, nh, id, fragmentable, Piece(offset, len, len != left))
  {
    var length: u16 := |unfrag| - 40 + 8 + len;
    f := unfrag[4 := length / 256][5 := length % 256];
    f := f + [nh, 0];
    f := f + Put16(offset + if len != left then 1 else 0);
    f := f + id;
    f := f + fragmentable[offset..offset + len];
  }
}
