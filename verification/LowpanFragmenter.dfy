/** 6LoWPAN fragmentation (section 5.3 of RFC 4944): compressed data, offsets in the uncompressed datagram. */
module LowpanFragmenter {
  import opened Bytes

  const FRAG1 := 0xC0
  const FRAGN := 0xE0
  const HARD_MTU_LIMIT := 2047

  /** A fragment as a receiver reads it; the first one has no offset. */
  datatype Fragment = Fragment(first: bool, size: nat, tag: u16, offset: nat, payload: seq<byte>)
  {
    predicate Ok() {
      size <= HARD_MTU_LIMIT && offset < 256 && (first ==> offset == 0)
    }
  }

  /** The frame for a fragment, behind the headers that precede it. */
  function Encode(unfrag: seq<byte>, f: Fragment): seq<byte>
    requires f.Ok()
  {
    unfrag + Put16((if f.first then FRAG1 else FRAGN) * 256 + f.size) + Put16(f.tag)
    + (if f.first then [] else [f.offset as byte]) + f.payload
  }

  /** What a receiver reads from a frame. */
  function Decode(frame: seq<byte>, unfragLen: nat): Fragment
    requires unfragLen + 5 <= |frame|
  {
    var word: int, tag := Get16(frame, unfragLen), Get16(frame, unfragLen + 2);
    var first := frame[unfragLen] / 8 == FRAG1 / 8;
    Fragment(first, word % 2048, tag, if first then 0 else frame[unfragLen + 4], frame[unfragLen + if first then 4 else 5..])
  }

  lemma DecodeUndoesEncode(unfrag: seq<byte>, f: Fragment)
    requires f.Ok() && f.payload != []
    ensures |Encode(unfrag, f)| == |unfrag| + (if f.first then 4 else 5) + |f.payload|
    ensures Decode(Encode(unfrag, f), |unfrag|) == f
  {
    var u, frame: seq<byte>, word := |unfrag|, Encode(unfrag, f), (if f.first then FRAG1 else FRAGN) * 256 + f.size;
    assert frame[u] == word / 256 && frame[u + 1] == word % 256;
    assert frame[u + 2] == f.tag / 256 && frame[u + 3] == f.tag % 256;
    WordSplits(f.first, f.size);
    assert frame[u + if f.first then 4 else 5..] == f.payload;
  }

  lemma WordSplits(first: bool, size: nat)
    requires size <= HARD_MTU_LIMIT
    ensures var word := (if first then FRAG1 else FRAGN) * 256 + size;
            word % 2048 == size && (word / 256 / 8 == FRAG1 / 8 <==> first) && word / 256 * 256 + word % 256 == word
  {
  }

  function Last(fs: seq<Fragment>): Fragment
    requires fs != []
  {
    fs[|fs| - 1]
  }

  function Front(fs: seq<Fragment>): seq<Fragment>
    requires fs != []
  {
    fs[..|fs| - 1]
  }

  /** A later fragment that lies in the datagram where its offset says. */
  predicate Tile(f: Fragment, full: seq<byte>, tag: u16) {
    && !f.first && f.Ok() && f.size == |full| && f.tag == tag && f.payload != []
    && f.offset * 8 + |f.payload| <= |full| && f.payload == full[f.offset * 8..f.offset * 8 + |f.payload|]
  }

  /** Fragments, one after the other, cover the datagram from position at to position to, without gap or overlap. */
  ghost predicate Tiles(fs: seq<Fragment>, full: seq<byte>, at: int, to: int, tag: u16) {
    if fs == [] then at == to
    else
      var f := Last(fs);
      Tile(f, full, tag) && to == f.offset * 8 + |f.payload| && Tiles(Front(fs), full, at, f.offset * 8, tag)
  }

  function Payloads(fs: seq<Fragment>): seq<byte> {
    if fs == [] then [] else Payloads(Front(fs)) + Last(fs).payload
  }

  /** Tiles put together are what they tile. */
  lemma {:induction false} TilesAll(fs: seq<Fragment>, full: seq<byte>, at: nat, to: int, tag: u16)
    requires Tiles(fs, full, at, to, tag) && at <= |full|
    ensures at <= to <= |full| && Payloads(fs) == full[at..to]
  {
    if fs != [] {
      TilesAll(Front(fs), full, at, Last(fs).offset * 8, tag);
    }
  }

  lemma TilesMore(fs: seq<Fragment>, full: seq<byte>, at: int, f: Fragment, tag: u16)
    requires Tiles(fs, full, at, f.offset * 8, tag) && Tile(f, full, tag)
    ensures Tiles(fs + [f], full, at, f.offset * 8 + |f.payload|, tag)
  {
    assert Front(fs + [f]) == fs;
  }

  /** Frame i is the wire form of fragment i and fits the MAC payload. */
  predicate FrameAt(unfrag: seq<byte>, fragMax: nat, frames: seq<seq<byte>>, fs: seq<Fragment>, i: nat)
    requires i < |frames| && i < |fs|
  {
    fs[i].Ok() && frames[i] == Encode(unfrag, fs[i]) && |frames[i]| <= fragMax
  }

  /** How much a later fragment takes of what is left. */
  function LaterLen(unfragLen: nat, fragMax: nat, left: nat): (n: nat)
    requires unfragLen + 5 <= fragMax
    ensures n <= left && unfragLen + 5 + n <= fragMax
    ensures n < left ==> n % 8 == 0 && fragMax < unfragLen + 5 + n + 8
  {
    if unfragLen + 5 + left > fragMax then (fragMax - 5 - unfragLen) / 8 * 8 else left
  }

  /** What decides how often a transmission is confirmed: how much is left, and how much of it is on its way. */
  datatype Sizes = Sizes(unfragLen: nat, fragMax: nat, left: nat, fragLen: nat)

  type Progress = s: Sizes | s.fragLen <= s.left && s.unfragLen + 5 <= s.fragMax witness Sizes(0, 5, 0, 0)

  /** After the confirm of one fragment; nothing left means that it was the last. */
  function Confirmed(p: Progress): Progress {
    var left := p.left - p.fragLen;
    Sizes(p.unfragLen, p.fragMax, left, LaterLen(p.unfragLen, p.fragMax, left))
  }

  /** One transmission: the entry's fields, the data still to be sent and the headers to repeat in front of every fragment. */
  class Entry {
    const unfrag: seq<byte>
    const fragMax: nat
    const tag: u16
    /** Compressed data not yet confirmed. */
    var data: seq<byte>
    var size: nat
    var offset: nat
    var fragLen: nat
    var first: bool

    constructor (unfrag: seq<byte>, data: seq<byte>, fragMax: nat, tag: u16)
      ensures this.unfrag == unfrag && this.data == data && this.fragMax == fragMax && this.tag == tag && first
    {
      this.unfrag, this.data, this.fragMax, this.tag := unfrag, data, fragMax, tag;
      size, offset, fragLen, first := 0, 0, 0, true;
    }

    /** lowpan_message_fragmentation_init: the headers take pattern bytes, and uncompressed bytes (a multiple of 8) in the datagram. */
    method Init(pattern: nat, uncompressed: nat) returns (ok: bool)
      requires first && pattern <= |data| && uncompressed % 8 == 0 && |unfrag| + |data| > fragMax
      modifies this`size, this`offset, this`fragLen
      ensures ok <==> |data| - pattern + uncompressed <= HARD_MTU_LIMIT && |unfrag| + 4 + pattern <= fragMax
      ensures size == |data| - pattern + uncompressed
      ensures ok ==> pattern <= fragLen < |data| && |unfrag| + 4 + fragLen <= fragMax < |unfrag| + 4 + fragLen + 8
      ensures ok ==> offset * 8 == uncompressed + fragLen - pattern && offset < 256
      ensures ok && pattern > 0 ==> |unfrag| + 5 <= fragMax
    {
      size := |data| + uncompressed - pattern;
      if size > HARD_MTU_LIMIT {
        return false;
      }
      offset, fragLen := uncompressed / 8, pattern;
      if |unfrag| + 4 + fragLen > fragMax {
        return false;
      }
      while |unfrag| + 4 + fragLen + 8 <= fragMax
        invariant size == |data| + uncompressed - pattern
        invariant pattern <= fragLen && |unfrag| + 4 + fragLen <= fragMax
        invariant offset * 8 == uncompressed + fragLen - pattern
        decreases fragMax - fragLen
      {
        offset, fragLen := offset + 1, fragLen + 8;
      }
      ok := true;
    }

    /** The fragment that is about to go out. */
    function Current(): Fragment
      reads this
      requires fragLen <= |data|
    {
      Fragment(first, size, tag, if first then 0 else offset, data[..fragLen])
    }

    /** lowpan_message_fragmentation_message_write. */
    method Write() returns (msdu: seq<byte>)
      requires fragLen <= |data| && Current().Ok()
      ensures msdu == Encode(unfrag, Current())
    {
      msdu := unfrag;
      if first {
        msdu := msdu + Put16(FRAG1 * 256 + size) + Put16(tag);
      } else {
        msdu := msdu + Put16(FRAGN * 256 + size) + Put16(tag);
        msdu := msdu + [offset as byte];
      }
      msdu := msdu + data[..fragLen];
    }

    /** What is left, as much of it as the next fragment can take. */
    function NextLen(left: nat): nat
      requires |unfrag| + 5 <= fragMax
    {
      LaterLen(|unfrag|, fragMax, left)
    }

    function InProgress(): Progress
      reads this
      requires fragLen <= |data| && |unfrag| + 5 <= fragMax
    {
      Sizes(|unfrag|, fragMax, |data|, fragLen)
    }

    /** lowpan_adaptation_tx_process_ready for fragmented data: the fragment was sent; is that all? */
    method Ready() returns (done: bool)
      requires fragLen <= |data| && |unfrag| + 5 <= fragMax
      modifies this`data, this`offset, this`fragLen, this`first
      ensures data == old(data)[old(fragLen)..] && !first
      ensures offset == old(offset) + if old(first) then 0 else old(fragLen) / 8
      ensures done <==> data == []
      ensures fragLen == NextLen(|data|) <= |data|
      ensures InProgress() == Confirmed(old(InProgress())) && (done <==> InProgress().left == 0)
    {
      data := data[fragLen..];
      if !first {
        offset := offset + fragLen / 8;
      } else {
        first := false;
      }
      fragLen := |data|;
      if fragLen == 0 {
        return true;
      }
      if |unfrag| + 5 + fragLen > fragMax {
        fragLen := fragMax - 5 - |unfrag|;
        fragLen := fragLen / 8 * 8;
      }
      done := false;
    }

    /** A later fragment can carry eight bytes, or all that is left. */
    predicate Progresses(left: nat) {
      |unfrag| + 5 <= fragMax && (|unfrag| + 13 <= fragMax || |unfrag| + 5 + left <= fragMax)
    }

    /** What is left to send is the datagram from position pos on, which is where offset says. */
    ghost predicate Left(full: seq<byte>, pos: nat)
      reads this
    {
      && !first && size == |full| <= HARD_MTU_LIMIT && Progresses(|data|)
      && pos <= |full| && data == full[pos..] && fragLen == NextLen(|data|) && (data != [] ==> offset * 8 == pos)
    }

    /** Sends one later fragment. */
    method SendNext(ghost full: seq<byte>, ghost pos: nat) returns (msdu: seq<byte>, f: Fragment, done: bool)
      requires Left(full, pos) && data != []
      modifies this`data, this`offset, this`fragLen, this`first
      ensures Tile(f, full, tag) && f.offset * 8 == pos
      ensures msdu == Encode(unfrag, f) && |msdu| <= fragMax
      ensures Left(full, pos + |f.payload|) && (done <==> data == [])
    {
      assert fragLen > 0 && |unfrag| + 5 + fragLen <= fragMax;
      f := Current();
      DecodeUndoesEncode(unfrag, f);
      msdu := Write();
      assert fragLen < |data| ==> fragLen % 8 == 0;
      done := Ready();
    }

    /** The whole send loop, every transmission confirmed: full is the uncompressed datagram, of which the compressed data is the
        part behind the headers. */
    method SendAll(pattern: nat, ghost full: seq<byte>) returns (frames: seq<seq<byte>>, head: Fragment, tail: seq<Fragment>)
      requires first && 0 < fragLen < |data| && pattern <= fragLen && size == |full| <= HARD_MTU_LIMIT
      requires |full| == |data| + (offset * 8 - fragLen) && offset * 8 - (fragLen - pattern) >= 0
      requires full[offset * 8 - (fragLen - pattern)..] == data[pattern..]
      requires |unfrag| + 4 + fragLen <= fragMax && Progresses(|data| - fragLen)
      modifies this`data, this`offset, this`fragLen, this`first
      ensures head == Fragment(true, |full|, tag, 0, old(data)[..old(fragLen)])
      ensures Tiles(tail, full, old(offset) * 8, |full|, tag)
      ensures head.payload + Payloads(tail) == old(data)
      ensures |frames| == |tail| + 1 && forall i :: 0 <= i < |frames| ==> FrameAt(unfrag, fragMax, frames, [head] + tail, i)
    {
      ghost var all, at: nat, n := data, offset * 8, fragLen;
      head, tail := Current(), [];
      DecodeUndoesEncode(unfrag, head);
      var msdu := Write();
      frames := [msdu];
      var done := Ready();
      FirstTile(all, pattern, full, at, n);
      ghost var pos: nat := at;
      while !done
        invariant (done <==> data == []) && Left(full, pos) && Tiles(tail, full, at, pos, tag)
        invariant |frames| == |tail| + 1 && forall i :: 0 <= i < |frames| ==> FrameAt(unfrag, fragMax, frames, [head] + tail, i)
        decreases |data|
      {
        var g;
        msdu, g, done := SendNext(full, pos);
        TilesMore(tail, full, at, g, tag);
        FramesMore(frames, head, tail, msdu, g);
        frames, tail, pos := frames + [msdu], tail + [g], pos + |g.payload|;
      }
      TilesAll(tail, full, at, pos, tag);
      assert all == all[..n] + all[n..] && full[at..pos] == full[at..];
    }

    lemma FramesMore(frames: seq<seq<byte>>, head: Fragment, tail: seq<Fragment>, msdu: seq<byte>, g: Fragment)
      requires |frames| == |tail| + 1 && forall i :: 0 <= i < |frames| ==> FrameAt(unfrag, fragMax, frames, [head] + tail, i)
      requires g.Ok() && msdu == Encode(unfrag, g) && |msdu| <= fragMax
      ensures forall i :: 0 <= i < |frames| + 1 ==> FrameAt(unfrag, fragMax, frames + [msdu], [head] + (tail + [g]), i)
    {
      var frames', fs' := frames + [msdu], [head] + (tail + [g]);
      forall i | 0 <= i < |frames| + 1 ensures FrameAt(unfrag, fragMax, frames', fs', i) {
        assert i < |frames| ==> FrameAt(unfrag, fragMax, frames, [head] + tail, i);
      }
    }

    /** Otherwise the loop never ends: every later fragment is empty, and confirming it changes nothing. */
    method Stuck() returns (done: bool)
      requires !first && |unfrag| + 5 <= fragMax && !Progresses(|data|) && fragLen == NextLen(|data|)
      modifies this
      ensures !done && data == old(data) && offset == old(offset) && fragLen == old(fragLen) == 0 && first == old(first) && size == old(size)
    {
      done := Ready();
    }
  }

  lemma FirstTile(data: seq<byte>, pattern: nat, full: seq<byte>, at: nat, n: nat)
    requires pattern <= n <= |data| && at - (n - pattern) >= 0 && |full| == |data| + (at - n) && full[at - (n - pattern)..] == data[pattern..]
    ensures at <= |full| && full[at..] == data[n..]
  {
    assert full[at..] == full[at - (n - pattern)..][n - pattern..];
    assert data[n..] == data[pattern..][n - pattern..];
  }

  /** A datagram that is too long for one frame: header is the uncompressed form of its first pattern bytes. */
  method SendDatagram(unfrag: seq<byte>, data: seq<byte>, pattern: nat, uncompressed: nat, fragMax: nat, tag: u16, ghost header: seq<byte>)
      returns (ok: bool, frames: seq<seq<byte>>, head: Fragment, tail: seq<Fragment>)
    requires pattern <= |data| && |header| == uncompressed && uncompressed % 8 == 0
    requires |unfrag| + |data| > fragMax >= |unfrag| + 13
    ensures ok <==> |header| + |data| - pattern <= HARD_MTU_LIMIT && |unfrag| + 4 + pattern <= fragMax
    ensures ok ==> head.payload + Payloads(tail) == data && pattern <= |head.payload|
    ensures ok ==> var full := header + data[pattern..];
                   && head.first && head.size == |full| && head.tag == tag
                   && Tiles(tail, full, |header| + |head.payload| - pattern, |full|, tag)
    ensures ok ==> |frames| == |tail| + 1
                   && forall i :: 0 <= i < |frames| ==> FrameAt(unfrag, fragMax, frames, [head] + tail, i)
  {
    frames, head, tail := [], Fragment(true, 0, tag, 0, []), [];
    var e := new Entry(unfrag, data, fragMax, tag);
    ok := e.Init(pattern, uncompressed);
    if ok {
      ghost var full := header + data[pattern..];
      assert full[uncompressed..] == data[pattern..];
      frames, head, tail := e.SendAll(pattern, full);
    }
  }
}
