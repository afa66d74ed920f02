/** Socket buffers: a list of packet buffers that stands for one queue of bytes. */
module Sockbuf {
  import opened Bytes

  /** A packet buffer as its queue sees it: its capacity and its data. */
  datatype Buf = Buf(size: nat, data: seq<byte>)

  function Contents(bufs: seq<Buf>): seq<byte> {
    if bufs == [] then [] else bufs[0].data + Contents(bufs[1..])
  }

  /** What sockbuf_check recomputes. */
  function DataBytes(bufs: seq<Buf>): nat {
    if bufs == [] then 0 else |bufs[0].data| + DataBytes(bufs[1..])
  }

  function OverheadBytes(bufs: seq<Buf>, header: nat): nat {
    if bufs == [] then 0 else header + bufs[0].size + OverheadBytes(bufs[1..], header)
  }

  /** sockbuf_space: negative when the queue is overfilled. */
  function Space(bufs: seq<Buf>, header: nat, dataLimit: nat, overheadLimit: nat): int {
    var data, overhead := dataLimit - DataBytes(bufs), overheadLimit - OverheadBytes(bufs, header);
    if data < overhead then data else overhead
  }

  function Last(bufs: seq<Buf>): Buf
    requires bufs != []
  {
    bufs[|bufs| - 1]
  }

  predicate Packs(bufs: seq<Buf>, b: Buf) {
    bufs != [] && |Last(bufs).data| + |b.data| <= Last(bufs).size
  }

  /** sockbuf_append_and_compress: into the last buffer if it has the capacity. */
  function Compressed(bufs: seq<Buf>, b: Buf): seq<Buf> {
    if b.data == [] then bufs
    else if Packs(bufs, b) then bufs[..|bufs| - 1] + [Last(bufs).(data := Last(bufs).data + b.data)]
    else bufs + [b]
  }

  /** sockbuf_drop: whole buffers first, then the front of the one that is left. */
  function Dropped(bufs: seq<Buf>, n: nat): seq<Buf> {
    if n == 0 || bufs == [] then bufs
    else if |bufs[0].data| > n then [bufs[0].(data := bufs[0].data[n..])] + bufs[1..]
    else Dropped(bufs[1..], n - |bufs[0].data|)
  }

  lemma {:induction false} DataBytesCount(bufs: seq<Buf>)
    ensures DataBytes(bufs) == |Contents(bufs)|
  {
    if bufs != [] {
      DataBytesCount(bufs[1..]);
    }
  }

  lemma {:induction false} ContentsAppend(a: seq<Buf>, b: seq<Buf>, header: nat)
    ensures Contents(a + b) == Contents(a) + Contents(b)
    ensures DataBytes(a + b) == DataBytes(a) + DataBytes(b)
    ensures OverheadBytes(a + b, header) == OverheadBytes(a, header) + OverheadBytes(b, header)
  {
    if a == [] {
      assert a + b == b;
    } else {
      assert (a + b)[1..] == a[1..] + b;
      ContentsAppend(a[1..], b, header);
    }
  }

  lemma {:induction false} ContentsOne(b: Buf, header: nat)
    ensures Contents([b]) == b.data && DataBytes([b]) == |b.data| && OverheadBytes([b], header) == header + b.size
  {
  }

  /** Bytes are added at the end, whether or not they were packed. */
  lemma {:induction false} AppendGrows(bufs: seq<Buf>, b: Buf, header: nat)
    ensures Contents(bufs + [b]) == Contents(bufs) + b.data
    ensures DataBytes(bufs + [b]) == DataBytes(bufs) + |b.data|
    ensures OverheadBytes(bufs + [b], header) == OverheadBytes(bufs, header) + header + b.size
  {
    ContentsAppend(bufs, [b], header);
    ContentsOne(b, header);
  }

  lemma {:induction false} CompressedGrows(bufs: seq<Buf>, b: Buf, header: nat)
    ensures Contents(Compressed(bufs, b)) == Contents(bufs) + b.data
    ensures DataBytes(Compressed(bufs, b)) == DataBytes(bufs) + |b.data|
    ensures OverheadBytes(Compressed(bufs, b), header) ==
            OverheadBytes(bufs, header) + if b.data == [] || Packs(bufs, b) then 0 else header + b.size
  {
    if Packs(bufs, b) {
      var a, last := bufs[..|bufs| - 1], Last(bufs);
      assert bufs == a + [last];
      AppendGrows(a, last, header);
      AppendGrows(a, last.(data := last.data + b.data), header);
    } else {
      AppendGrows(bufs, b, header);
    }
  }

  /** Bytes are dropped from the front; dropping more than there is empties the queue. */
  lemma {:induction false} DroppedOverhead(bufs: seq<Buf>, n: nat, header: nat)
    ensures OverheadBytes(Dropped(bufs, n), header) <= OverheadBytes(bufs, header)
  {
    if n > 0 && bufs != [] {
      if |bufs[0].data| > n {
        assert Dropped(bufs, n)[1..] == bufs[1..];
      } else {
        DroppedOverhead(bufs[1..], n - |bufs[0].data|, header);
      }
    }
  }

  lemma {:induction false} DroppedShrinks(bufs: seq<Buf>, n: nat)
    ensures Contents(Dropped(bufs, n)) == Contents(bufs)[Min(n, |Contents(bufs)|)..]
  {
    if n > 0 && bufs != [] {
      var first, rest := bufs[0].data, Contents(bufs[1..]);
      TailOfSum(first, rest, Min(n, |first + rest|));
      if |first| > n {
        assert Dropped(bufs, n)[1..] == bufs[1..];
      } else {
        DroppedShrinks(bufs[1..], n - |first|);
      }
    }
  }

  lemma TailOfSum(a: seq<byte>, b: seq<byte>, n: nat)
    requires n <= |a + b|
    ensures n <= |a| ==> (a + b)[n..] == a[n..] + b
    ensures n >= |a| ==> (a + b)[n..] == b[n - |a|..]
  {
  }

  /** No buffer on the queue is empty: what appending with compression and dropping keep. */
  predicate NonEmpty(bufs: seq<Buf>) {
    forall i :: 0 <= i < |bufs| ==> bufs[i].data != []
  }

  lemma CompressedNonEmpty(bufs: seq<Buf>, b: Buf)
    requires NonEmpty(bufs)
    ensures NonEmpty(Compressed(bufs, b))
  {
  }

  lemma {:induction false} DroppedNonEmpty(bufs: seq<Buf>, n: nat)
    requires NonEmpty(bufs)
    ensures NonEmpty(Dropped(bufs, n))
  {
    if n > 0 && bufs != [] && |bufs[0].data| <= n {
      DroppedNonEmpty(bufs[1..], n - |bufs[0].data|);
    }
  }

  /** A packet buffer. */
  class Buffer {
    const buf: array<byte>
    var ptr: nat
    var end: nat

    predicate Valid()
      reads this
    {
      ptr <= end <= buf.Length
    }

    function View(): Buf
      reads this, buf
      requires Valid()
    {
      Buf(buf.Length, buf[ptr..end])
    }

    constructor (buf: array<byte>, ptr: nat, end: nat)
      requires ptr <= end <= buf.Length
      ensures Valid() && this.buf == buf && this.ptr == ptr && this.end == end
    {
      this.buf, this.ptr, this.end := buf, ptr, end;
    }

    /** Moves the data to the start of the buffer if n more bytes would not fit behind it. */
    method Pack(n: nat)
      requires Valid() && end - ptr + n <= buf.Length
      modifies this, buf
      ensures Valid() && end + n <= buf.Length && View() == old(View())
    {
      if buf.Length - end < n {
        var len := end - ptr;
        forall i | 0 <= i < len {
          buf[i] := buf[ptr + i];
        }
        ptr, end := 0, len;
        assert buf[ptr..end] == old(buf[ptr..end]);
      }
    }

    /** buffer_data_add. */
    method Add(src: Buffer)
      requires Valid() && src.Valid() && src.buf != buf && end + (src.end - src.ptr) <= buf.Length
      modifies this`end, buf
      ensures Valid()
      ensures View() == old(View()).(data := old(View()).data + old(src.View()).data)
    {
      var n := src.end - src.ptr;
      forall i | 0 <= i < n {
        buf[end + i] := src.buf[src.ptr + i];
      }
      end := end + n;
      ghost var a, b, r := old(buf[ptr..end]), old(src.buf[src.ptr..src.end]), buf[ptr..end];
      forall i | 0 <= i < |r| ensures r[i] == (a + b)[i] {
      }
      assert r == a + b;
    }
  }

  /** Buffer i on the list has this view. */
  ghost predicate Shows(bufs: seq<Buffer>, vals: seq<Buf>, i: nat)
    requires i < |bufs| && i < |vals|
    reads bufs[i], bufs[i].buf
  {
    bufs[i].Valid() && bufs[i].View() == vals[i]
  }

  predicate Separate(bufs: seq<Buffer>, i: nat, j: nat)
    requires i < |bufs| && j < |bufs|
  {
    bufs[i] != bufs[j] && bufs[i].buf != bufs[j].buf
  }

  class SockBuf {
    var bufs: seq<Buffer>
    var dataBytes: nat
    var overheadBytes: nat
    /** Size of the buffer structure in front of its data. */
    const header: nat
    const dataLimit: nat
    const overheadLimit: nat

    /** What the list of buffers stands for. */
    ghost var vals: seq<Buf>

    ghost predicate Valid()
      reads this, bufs, set b | b in bufs :: b.buf
    {
      && |vals| == |bufs|
      && (forall i :: 0 <= i < |bufs| ==> Shows(bufs, vals, i))
      && (forall i, j :: 0 <= i < j < |bufs| ==> Separate(bufs, i, j))
      && dataBytes == DataBytes(vals) && overheadBytes == OverheadBytes(vals, header)
    }

    /** sockbuf_init and sockbuf_reserve. */
    constructor (header: nat, space: nat)
      requires space < 0x1_0000
      ensures Valid() && vals == [] && this.header == header && dataLimit == space && overheadLimit == 2 * space
    {
      bufs, vals, dataBytes, overheadBytes := [], [], 0, 0;
      this.header, dataLimit, overheadLimit := header, space, 2 * space;
    }

    predicate Outside(b: Buffer)
      reads this
    {
      forall i :: 0 <= i < |bufs| ==> bufs[i] != b && bufs[i].buf != b.buf
    }

    method Append(b: Buffer)
      requires Valid() && b.Valid() && Outside(b)
      modifies this
      ensures Valid() && vals == old(vals) + [b.View()]
      ensures Contents(vals) == old(Contents(vals)) + b.View().data
    {
      AppendGrows(vals, b.View(), header);
      overheadBytes := overheadBytes + header + b.buf.Length;
      dataBytes := dataBytes + (b.end - b.ptr);
      ghost var bufs0, vals0 := bufs, vals;
      bufs, vals := bufs + [b], vals + [b.View()];
      forall i | 0 <= i < |bufs| ensures Shows(bufs, vals, i) {
        assert i < |bufs0| ==> Shows(bufs0, vals0, i);
      }
      forall i, j | 0 <= i < j < |bufs| ensures Separate(bufs, i, j) {
        assert j < |bufs0| ==> Separate(bufs0, i, j);
      }
    }

    /** Packs the last buffer down if b would not fit behind its data. */
    method MakeRoom(n: nat)
      requires Valid() && bufs != [] && bufs[|bufs| - 1].Valid()
      requires bufs[|bufs| - 1].end - bufs[|bufs| - 1].ptr + n <= bufs[|bufs| - 1].buf.Length
      modifies bufs[|bufs| - 1], bufs[|bufs| - 1].buf
      ensures Valid() && bufs[|bufs| - 1].end + n <= bufs[|bufs| - 1].buf.Length
    {
      var k := |bufs| - 1;
      bufs[k].Pack(n);
      forall i | 0 <= i < |bufs| ensures Shows(bufs, vals, i) {
        assert i < k ==> Separate(bufs, i, k);
        assert old(Shows(bufs, vals, i));
      }
    }

    /** The last buffer takes the data of b. */
    method Extend(b: Buffer)
      requires Valid() && b.Valid() && Outside(b) && b.View().data != [] && Packs(vals, b.View())
      requires bufs[|bufs| - 1].end + |b.View().data| <= bufs[|bufs| - 1].buf.Length
      modifies this`dataBytes, this`vals, bufs[|bufs| - 1], bufs[|bufs| - 1].buf
      ensures Valid() && vals == Compressed(old(vals), old(b.View()))
    {
      var k := |bufs| - 1;
      assert Shows(bufs, vals, k);
      CompressedGrows(vals, b.View(), header);
      ghost var v := b.View();
      dataBytes := dataBytes + (b.end - b.ptr);
      bufs[k].Add(b);
      vals := Compressed(vals, v);
      forall i | 0 <= i < |bufs| ensures Shows(bufs, vals, i) {
        assert i < k ==> Separate(bufs, i, k);
        assert old(Shows(bufs, vals, i));
      }
    }

    method AppendAndCompress(b: Buffer)
      requires Valid() && b.Valid() && Outside(b)
      modifies this, if bufs == [] then {} else {bufs[|bufs| - 1], bufs[|bufs| - 1].buf}
      ensures Valid() && vals == Compressed(old(vals), old(b.View()))
      ensures Contents(vals) == old(Contents(vals)) + old(b.View()).data
    {
      CompressedGrows(vals, b.View(), header);
      if b.ptr == b.end {
        return;
      }
      if bufs != [] {
        var last := bufs[|bufs| - 1];
        assert Shows(bufs, vals, |bufs| - 1);
        var total := (last.end - last.ptr) + (b.end - b.ptr);
        if total <= last.buf.Length {
          MakeRoom(b.end - b.ptr);
          Extend(b);
          return;
        }
      }
      Append(b);
    }

    /** Takes the first buffer off the list. */
    method DropFirst()
      requires Valid() && bufs != []
      modifies this
      ensures Valid() && vals == old(vals)[1..] && bufs == old(bufs)[1..]
    {
      assert Shows(bufs, vals, 0);
      overheadBytes := overheadBytes - (header + bufs[0].buf.Length);
      dataBytes := dataBytes - (bufs[0].end - bufs[0].ptr);
      ghost var bufs0, vals0 := bufs, vals;
      bufs, vals := bufs[1..], vals[1..];
      forall i | 0 <= i < |bufs| ensures Shows(bufs, vals, i) {
        assert Shows(bufs0, vals0, i + 1);
      }
      forall i, j | 0 <= i < j < |bufs| ensures Separate(bufs, i, j) {
        assert Separate(bufs0, i + 1, j + 1);
      }
    }

    /** Takes n bytes off the front of the first buffer. */
    method StripFirst(n: nat)
      requires Valid() && bufs != [] && bufs[0].Valid() && n < bufs[0].end - bufs[0].ptr
      modifies this`dataBytes, this`vals, bufs[0]
      ensures Valid() && vals == Dropped(old(vals), n)
    {
      assert Shows(bufs, vals, 0);
      bufs[0].ptr := bufs[0].ptr + n;
      dataBytes := dataBytes - n;
      ghost var v := vals[0].(data := vals[0].data[n..]);
      assert bufs[0].View() == v;
      ghost var vals0 := vals;
      vals := Dropped(vals, n);
      assert n > 0 ==> vals[1..] == vals0[1..];
      forall i | 0 <= i < |bufs| ensures Shows(bufs, vals, i) {
        assert i > 0 ==> Separate(bufs, 0, i);
        assert old(Shows(bufs, vals, i));
      }
    }

    /** sockbuf_drop. */
    method Drop(len: nat)
      requires Valid()
      modifies this, bufs
      ensures Valid() && vals == Dropped(old(vals), len)
      ensures Contents(vals) == old(Contents(vals))[Min(len, |old(Contents(vals))|)..]
    {
      DroppedShrinks(vals, len);
      var n: nat := len;
      while n > 0
        invariant Valid() && Dropped(vals, n) == Dropped(old(vals), len)
        invariant forall b :: b in bufs ==> b in old(bufs)
        decreases |bufs|, n
      {
        if bufs == [] {
          return;
        }
        assert Shows(bufs, vals, 0) && bufs[0] in bufs;
        if bufs[0].end - bufs[0].ptr > n {
          StripFirst(n);
          break;
        }
        n := n - (bufs[0].end - bufs[0].ptr);
        DropFirst();
      }
    }

    method Flush()
      requires Valid()
      modifies this
      ensures Valid() && vals == [] && Contents(vals) == []
    {
      bufs, vals, dataBytes, overheadBytes := [], [], 0, 0;
    }

    /** sockbuf_check: the counters it recomputes are the ones already kept. */
    method Check() returns (data: nat, overhead: nat)
      requires Valid()
      ensures data == dataBytes && overhead == overheadBytes && data == |Contents(vals)|
    {
      data, overhead := 0, 0;
      for k := 0 to |bufs|
        invariant data + DataBytes(vals[k..]) == DataBytes(vals)
        invariant overhead + OverheadBytes(vals[k..], header) == OverheadBytes(vals, header)
      {
        assert Shows(bufs, vals, k);
        assert vals[k..][1..] == vals[k + 1..];
        data := data + (bufs[k].end - bufs[k].ptr);
        overhead := overhead + header + bufs[k].buf.Length;
      }
      DataBytesCount(vals);
    }

    method SpaceLeft() returns (space: int)
      requires Valid()
      ensures space == Space(vals, header, dataLimit, overheadLimit)
      ensures space <= dataLimit - |Contents(vals)|
    {
      DataBytesCount(vals);
      var data, buf := dataLimit - dataBytes, overheadLimit - overheadBytes;
      space := if data < buf then data else buf;
    }
  }
}
