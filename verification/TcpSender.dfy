/** What a TCP sender promises about its stream, whatever the network does. */
module TcpSender {
  import opened Bytes
  import opened Sockbuf
  import opened TcpNumbers

  const MAX_MSS := 1220

  datatype State = Established | FinWait1 | FinWait2 | CloseWait | LastAck | Closing | TimeWait

  /** States whose outgoing segments carry FIN once the queue is empty. */
  predicate SendsFin(s: State) {
    s.FinWait1? || s.LastAck? || s.Closing?
  }

  /** The application has closed: nothing is added to the stream any more. */
  predicate Shut(s: State) {
    !s.Established? && !s.CloseWait?
  }

  /** States that take data and FIN from the peer. */
  predicate Receiving(s: State) {
    s.Established? || s.FinWait1? || s.FinWait2?
  }

  datatype Segment = Segment(seqNo: u32, ackNo: u32, syn: bool, ack: bool, fin: bool, rst: bool, psh: bool, window: u16,
                             data: seq<byte>)

  function Count(b: bool): nat {
    if b then 1 else 0
  }

  /** Length in sequence numbers. */
  function SegLen(seg: Segment): nat {
    |seg.data| + Count(seg.syn) + Count(seg.fin)
  }

  /** Data lies at position at of a stream. */
  predicate Lies(stream: seq<byte>, at: int, data: seq<byte>) {
    data == [] || (0 <= at && at + |data| <= |stream| && forall j :: 0 <= j < |data| ==> data[j] == stream[at + j])
  }

  /** The sending half of a session. */
  datatype Out = Out(una: u32, nxt: u32, sentFin: bool, busy: bool, sndq: seq<Buf>)

  /** What it stands for: the number of the first byte, everything given to Send, and the positions of una and nxt. */
  datatype Stream = Stream(iss: u32, sent: seq<byte>, unaAt: nat, nxtAt: nat)

  /** The queue is the stream from the first unacknowledged byte on; the FIN has the number after the last byte, and is
      outstanding at most once. */
  predicate SndOk(o: Out, s: Stream, shut: bool) {
    && o.una == Wrap(s.iss + s.unaAt) && o.nxt == Wrap(s.iss + s.nxtAt)
    && s.unaAt <= s.nxtAt <= s.unaAt + MAX_MSS + 1
    && s.nxtAt <= |s.sent| + Count(shut)
    && Contents(o.sndq) == s.sent[Min(s.unaAt, |s.sent|)..] && NonEmpty(o.sndq)
    && (o.sentFin ==> s.nxtAt == |s.sent| + 1)
    && (s.nxtAt == |s.sent| + 1 && s.unaAt < s.nxtAt ==> o.sentFin)
    && (!o.busy ==> s.unaAt == s.nxtAt)
  }

  /** Something is numbered: data from the front of the queue, or the FIN, or both. */
  function Advance(o: Out, n: nat, fin: bool): Out {
    o.(nxt := Wrap(o.nxt + n + Count(fin)), sentFin := o.sentFin || fin, busy := true)
  }

  lemma {:induction false} AdvanceOk(o: Out, s: Stream, shut: bool, n: nat, fin: bool)
    requires SndOk(o, s, shut) && s.unaAt == s.nxtAt && n <= |Contents(o.sndq)| && n <= MAX_MSS
    requires fin ==> shut && !o.sentFin && n == |Contents(o.sndq)| && s.unaAt <= |s.sent|
    ensures n > 0 || fin ==> SndOk(Advance(o, n, fin), s.(nxtAt := s.nxtAt + n + Count(fin)), shut)
    ensures fin ==> s.nxtAt + n == |s.sent|
    ensures Lies(s.sent, s.nxtAt, Contents(o.sndq)[..n])
  {
    WrapAdd(s.iss + s.nxtAt, n + Count(fin));
    assert s.unaAt <= |s.sent| ==> |Contents(o.sndq)| == |s.sent| - s.unaAt;
  }

  /** Everything up to position ackAt is acknowledged and leaves the queue. */
  lemma {:induction false} AckedOk(o: Out, s: Stream, shut: bool, ackAt: nat)
    requires SndOk(o, s, shut) && s.unaAt < ackAt <= s.nxtAt
    ensures var o' := o.(una := Wrap(s.iss + ackAt), sndq := Dropped(o.sndq, Min(ackAt - s.unaAt, DataBytes(o.sndq))));
            && SndOk(o', s.(unaAt := ackAt), shut)
            && (ackAt == s.nxtAt ==> SndOk(o'.(busy := false), s.(unaAt := ackAt), shut))
    ensures ackAt == |s.sent| + 1 ==> o.sentFin && ackAt == s.nxtAt
  {
    var q, n := Contents(o.sndq), Min(ackAt - s.unaAt, DataBytes(o.sndq));
    DataBytesCount(o.sndq);
    DroppedShrinks(o.sndq, n);
    DroppedNonEmpty(o.sndq, n);
    assert q[n..] == s.sent[Min(ackAt, |s.sent|)..];
  }

  /** Transmission starts again from the first unacknowledged byte. */
  lemma {:induction false} RewoundOk(o: Out, s: Stream, shut: bool)
    requires SndOk(o, s, shut)
    ensures SndOk(o.(nxt := o.una, sentFin := false), s.(nxtAt := s.unaAt), shut)
  {
  }

  lemma {:induction false} GivenOk(o: Out, s: Stream, b: Buf)
    requires SndOk(o, s, false)
    ensures SndOk(o.(sndq := Compressed(o.sndq, b)), s.(sent := s.sent + b.data), false)
  {
    CompressedGrows(o.sndq, b, 0);
    CompressedNonEmpty(o.sndq, b);
    assert Contents(o.sndq) + b.data == (s.sent + b.data)[s.unaAt..];
  }

  /** Where a segment lies in the stream of its sender and in that of the one it acknowledges. */
  datatype Place = Place(at: int, ackAt: int)

  /** What transmitted segments are measured against: the numbers of the first bytes, the stream, whether it is closed, and how far
      the other stream has been received. */
  datatype Ground = Ground(iss: u32, irs: u32, sent: seq<byte>, shut: bool, heard: nat)

  /** A transmitted segment carries the bytes of the stream at its own position, and a FIN only at the end of the stream. */
  predicate FlightOk(seg: Segment, p: Place, g: Ground) {
    && seg.seqNo == Wrap(g.iss + p.at) && seg.ackNo == Wrap(g.irs + p.ackAt)
    && !seg.syn && |seg.data| <= MAX_MSS
    && (seg.rst ==> seg.data == [] && !seg.fin)
    && (!seg.rst ==> 0 <= p.at <= |g.sent| + 1 && 0 <= p.ackAt <= g.heard)
    && Lies(g.sent, p.at, seg.data)
    && (seg.fin ==> g.shut && p.at + |seg.data| == |g.sent|)
  }

  predicate FlightAt(out: seq<Segment>, places: seq<Place>, i: nat, g: Ground)
    requires i < |out| && i < |places|
  {
    FlightOk(out[i], places[i], g)
  }

  ghost predicate FlightsOk(out: seq<Segment>, places: seq<Place>, g: Ground) {
    && |places| == |out|
    && forall i :: 0 <= i < |out| ==> FlightAt(out, places, i, g)
  }

  lemma FlightsMore(out: seq<Segment>, places: seq<Place>, g: Ground, seg: Segment, p: Place)
    requires FlightsOk(out, places, g) && FlightOk(seg, p, g)
    ensures FlightsOk(out + [seg], places + [p], g)
  {
    var out', places' := out + [seg], places + [p];
    forall i | 0 <= i < |out'| ensures FlightAt(out', places', i, g) {
      assert i < |out| ==> FlightAt(out, places, i, g);
    }
  }

  /** What was sent stays true when the stream grows or is closed, and when more is received. */
  lemma FlightsLater(out: seq<Segment>, places: seq<Place>, g: Ground, g': Ground)
    requires FlightsOk(out, places, g) && g'.iss == g.iss && g'.irs == g.irs && g.heard <= g'.heard
    requires g.sent <= g'.sent && (g.shut ==> g'.shut && g'.sent == g.sent)
    ensures FlightsOk(out, places, g')
  {
    forall i | 0 <= i < |out| ensures FlightAt(out, places, i, g') {
      assert FlightAt(out, places, i, g);
    }
  }
}
