/** A TCP session from ESTABLISHED on. */
module TcpSession {
  import opened Bytes
  import opened Sockbuf
  import opened TcpNumbers
  import opened TcpSender
  import opened TcpReceiver

  const MAX_RETRIES := 6
  const TIME_WAIT_TO_CLOSE := 1600
  const FIN_WAIT_2_TIMEOUT := 500

  datatype Config = Config(mss: nat, header: nat, dataLimit: nat, overheadLimit: nat)
  {
    predicate Ok() {
      64 <= mss <= MAX_MSS && dataLimit <= 0xffff
    }
  }

  /** Timer, retransmission count and round-trip estimate. */
  datatype Timing = Timing(timer: u16, retry: nat, persist: bool, srtt8: int, srttvar4: int, rto: u16)

  /** No acknowledgement is measured as having taken longer than this many ticks, which is ten minutes. */
  const PROMPT := 4095

  predicate Prompt(tim: Timing) {
    Sample(tim.rto, tim.timer) <= PROMPT
  }

  /** The estimates are what such acknowledgements leave behind, and the timeout is not zero and does not become so by doubling. */
  predicate Calm(tim: Timing) {
    && MINIMUM_RTO <= tim.rto <= 5 * PROMPT
    && (tim.srtt8 == NO_SAMPLE || Bounded(Rtt(tim.srtt8, tim.srttvar4, tim.rto), PROMPT))
  }

  predicate SameEstimate(tim: Timing, tim': Timing) {
    tim'.rto == tim.rto && tim'.srtt8 == tim.srtt8 && tim'.srttvar4 == tim.srttvar4
  }

  /** The window the peer advertised, and the segment it came from. */
  datatype Window = Window(wnd: u16, wl1: u32, wl2: u32)

  /** The session and its two socket queues; closed and cantRecv are socket flags, and out is every segment handed to IP. */
  datatype Tcb = Tcb(cfg: Config, live: bool, state: State, snd: Out, rcv: In, win: Window, tim: Timing, closed: bool, cantRecv: bool,
                     out: seq<Segment>)

  /** What has happened: both streams, and where each transmitted segment lies in them. */
  datatype History = History(snd: Stream, rcv: Heard, places: seq<Place>)

  function GroundOf(t: Tcb, h: History): Ground {
    Ground(h.snd.iss, h.rcv.irs, h.snd.sent, Shut(t.state), h.rcv.nextAt)
  }

  ghost predicate FlightsValid(t: Tcb, h: History) {
    FlightsOk(t.out, h.places, GroundOf(t, h))
  }

  /** The invariant while n sequence numbers have been taken but not yet counted in next. */
  ghost predicate Owing(t: Tcb, h: History, n: nat) {
    SndOk(t.snd, h.snd, Shut(t.state)) && RcvOk(t.rcv, h.rcv, Receiving(t.state), n) && FlightsValid(t, h) && t.cfg.Ok()
  }

  /** An acknowledged FIN has moved the state on. */
  predicate Settled(t: Tcb, h: History) {
    t.live && h.snd.unaAt == |h.snd.sent| + 1 ==> t.state.FinWait2? || t.state.TimeWait?
  }

  ghost predicate Valid(t: Tcb, h: History) {
    Owing(t, h, 0) && Settled(t, h)
  }

  function SpaceLeft(cfg: Config, r: In): int {
    Space(r.rcvq, cfg.header, cfg.dataLimit, cfg.overheadLimit)
  }

  /** How far the advertised edge moves when a segment is built. */
  function Offered(cfg: Config, r: In): u16 {
    WindowIncr(SpaceLeft(cfg, r), r.adv, r.next, cfg.dataLimit, cfg.mss)
  }

  method ComputeWindow(cfg: Config, r: In, ghost h: Heard, ghost receiving: bool) returns (incr: u16, r': In, ghost h': Heard)
    requires RcvOk(r, h, receiving, 0)
    ensures RcvOk(r', h', receiving, 0) && incr == Offered(cfg, r)
    ensures r' == r.(adv := r'.adv) && h' == h.(advAt := h.advAt + incr)
    ensures WindowOk(h) ==> WindowOk(h')
  {
    var space := SpaceLeft(cfg, r);
    MovedOk(r, h, receiving, space, cfg.dataLimit, cfg.mss);
    incr := WindowIncr(space, r.adv, r.next, cfg.dataLimit, cfg.mss);
    r' := r.(adv := Wrap(r.adv + incr));
    h' := h.(advAt := h.advAt + incr);
  }

  /** tcp_uack_segment: what was numbered now has to be acknowledged. */
  method Uack(o: Out, tim: Timing, n: nat, fin: bool, ghost s: Stream, ghost shut: bool) returns (o': Out, tim': Timing, ghost s': Stream)
    requires SndOk(o, s, shut) && n <= MAX_MSS && (n > 0 || fin ==> s.unaAt == s.nxtAt && n <= |Contents(o.sndq)|)
    requires fin ==> shut && !o.sentFin && n == |Contents(o.sndq)| && s.unaAt <= |s.sent|
    ensures SndOk(o', s', shut) && s' == s.(nxtAt := s.nxtAt + n + Count(fin))
    ensures o' == if n > 0 || fin then Advance(o, n, fin) else o
    ensures tim' == tim.(timer := if (n > 0 || fin) && tim.timer == 0 then tim.rto else tim.timer)
  {
    o', tim', s' := o, tim, s;
    if n == 0 && !fin {
      return;
    }
    AdvanceOk(o, s, shut, n, fin);
    o' := Advance(o, n, fin);
    s' := s.(nxtAt := s.nxtAt + n + Count(fin));
    if tim.timer == 0 {
      tim' := tim.(timer := tim.rto);
    }
  }

  /** protocol_push. */
  method Emit(t: Tcb, ghost h: History, seg: Segment, ghost at: int, ghost ackAt: int) returns (t': Tcb, ghost h': History)
    requires FlightsValid(t, h) && FlightOk(seg, Place(at, ackAt), GroundOf(t, h))
    ensures FlightsValid(t', h') && t' == t.(out := t.out + [seg]) && h' == h.(places := h.places + [Place(at, ackAt)])
  {
    FlightsMore(t.out, h.places, GroundOf(t, h), seg, Place(at, ackAt));
    t' := t.(out := t.out + [seg]);
    h' := h.(places := h.places + [Place(at, ackAt)]);
  }

  /** A segment that may be built from the front of the queue: stop-and-wait, so nothing is outstanding. */
  predicate Sendable(state: State, o: Out, s: Stream, data: seq<byte>) {
    && |data| <= MAX_MSS && s.unaAt == s.nxtAt && data <= Contents(o.sndq)
    && (SendsFin(state) ==> s.unaAt <= |s.sent|) && (data == [] ==> SendsFin(state) && Contents(o.sndq) == [])
  }

  /** FIN goes out with the last of the data. */
  predicate BuiltFin(t: Tcb, data: seq<byte>, ackOnly: bool) {
    !ackOnly && SendsFin(t.state) && DataBytes(t.snd.sndq) <= |data|
  }

  /** The segment tcp_build makes. */
  function Built(t: Tcb, data: seq<byte>, ackOnly: bool, adv: u32): Segment {
    var psh := !ackOnly && data != [] && DataBytes(t.snd.sndq) <= |data|;
    Segment(t.snd.nxt, t.rcv.next, false, true, BuiltFin(t, data, ackOnly), false, psh, Wrap(adv - t.rcv.next) % 0x1_0000, data)
  }

  lemma {:induction false} BuiltOk(t: Tcb, h: History, data: seq<byte>, ackOnly: bool, adv: u32)
    requires Owing(t, h, 0) && (ackOnly ==> data == [])
    requires !ackOnly ==> !t.snd.sentFin && Sendable(t.state, t.snd, h.snd, data)
    ensures FlightOk(Built(t, data, ackOnly, adv), Place(h.snd.nxtAt, h.rcv.nextAt), GroundOf(t, h))
    ensures BuiltFin(t, data, ackOnly) ==> |data| == |Contents(t.snd.sndq)|
    ensures !ackOnly ==> |data| > 0 || BuiltFin(t, data, ackOnly)
  {
    DataBytesCount(t.snd.sndq);
    if !ackOnly {
      AdvanceOk(t.snd, h.snd, Shut(t.state), |data|, BuiltFin(t, data, ackOnly));
      assert data == Contents(t.snd.sndq)[..|data|];
    }
  }

  /** Transmission numbers something and may open the receive window; the queues and the streams stay as they are. */
  predicate Transmits(t: Tcb, h: History, t': Tcb, h': History) {
    && t' == t.(snd := t'.snd, rcv := t.rcv.(adv := t'.rcv.adv), tim := t'.tim, out := t'.out)
    && t'.snd.sndq == t.snd.sndq && t'.snd.una == t.snd.una && t.out <= t'.out
    && h' == History(h.snd.(nxtAt := h'.snd.nxtAt), h.rcv.(advAt := h'.rcv.advAt), h'.places)
    && h.rcv.advAt <= h'.rcv.advAt && (WindowOk(h.rcv) ==> WindowOk(h'.rcv))
  }

  /** What a segment that goes out does to the receive window: the edge moves as far as it can, and the window field says how far off it
      is. */
  predicate Announces(t: Tcb, h: History, t': Tcb, h': History) {
    if |t'.out| > |t.out| then
      h'.rcv.advAt == h.rcv.advAt + Offered(t.cfg, t.rcv) && t'.out[|t.out|].window == Wrap(t'.rcv.adv - t'.rcv.next) % 0x1_0000
    else h'.rcv.advAt == h.rcv.advAt
  }

  /** tcp_build: a segment from the front of the queue, or a bare acknowledgement. */
  method Build(t: Tcb, ghost h: History, data: seq<byte>, ackOnly: bool) returns (t': Tcb, ghost h': History)
    requires Owing(t, h, 0) && (ackOnly ==> data == [])
    requires !ackOnly && !t.snd.sentFin ==> Sendable(t.state, t.snd, h.snd, data)
    requires !ackOnly && data == [] ==> !t.snd.sentFin
    ensures Owing(t', h', 0) && Transmits(t, h, t', h') && t'.tim == t.tim.(timer := t'.tim.timer)
    ensures ackOnly || t.snd.sentFin ==> t'.snd == t.snd && h'.snd == h.snd
    ensures ackOnly ==> t'.tim == t.tim && h'.rcv.advAt == h.rcv.advAt + Offered(t.cfg, t.rcv)
    ensures !ackOnly && !t.snd.sentFin ==> t'.snd == Advance(t.snd, |data|, BuiltFin(t, data, ackOnly)) && Announces(t, h, t', h')
    ensures !ackOnly && !t.snd.sentFin ==> h'.snd.nxtAt == h.snd.nxtAt + |data| + Count(BuiltFin(t, data, ackOnly))
    ensures t'.out == if data != [] && t.snd.sentFin then t.out else t.out + [Built(t, data, ackOnly, t'.rcv.adv)]
  {
    if data != [] && t.snd.sentFin {
      t', h' := t, h;
    } else {
      t', h' := Push(t, h, data, ackOnly);
    }
  }

  /** The segment is made and handed to IP. */
  method Push(t: Tcb, ghost h: History, data: seq<byte>, ackOnly: bool) returns (t': Tcb, ghost h': History)
    requires Owing(t, h, 0) && (ackOnly ==> data == [])
    requires !ackOnly ==> !t.snd.sentFin && Sendable(t.state, t.snd, h.snd, data)
    ensures Owing(t', h', 0) && Transmits(t, h, t', h') && t'.tim == t.tim.(timer := t'.tim.timer)
    ensures ackOnly ==> t'.snd == t.snd && h'.snd == h.snd && t'.tim == t.tim && h'.rcv.advAt == h.rcv.advAt + Offered(t.cfg, t.rcv)
    ensures !ackOnly ==> t'.snd == Advance(t.snd, |data|, BuiltFin(t, data, ackOnly)) && Announces(t, h, t', h')
    ensures !ackOnly ==> h'.snd.nxtAt == h.snd.nxtAt + |data| + Count(BuiltFin(t, data, ackOnly))
    ensures t'.out == t.out + [Built(t, data, ackOnly, t'.rcv.adv)]
  {
    var _, rcv, hr := ComputeWindow(t.cfg, t.rcv, h.rcv, Receiving(t.state));
    BuiltOk(t, h, data, ackOnly, rcv.adv);
    var snd, tim, hs := Uack(t.snd, t.tim, |data|, BuiltFin(t, data, ackOnly), h.snd, Shut(t.state));
    t', h' := Emit(t, h, Built(t, data, ackOnly, rcv.adv), h.snd.nxtAt, h.rcv.nextAt);
    t' := t'.(snd := snd, rcv := rcv, tim := tim);
    h' := h'.(snd := hs, rcv := hr);
  }

  /** What tcp_segment_start takes from the front of the first buffer. */
  function FrontData(t: Tcb, n: nat): seq<byte>
    requires t.snd.sndq != [] && n <= |t.snd.sndq[0].data|
  {
    t.snd.sndq[0].data[..n]
  }

  lemma {:induction false} FrontIsQueue(t: Tcb, h: History, n: nat)
    requires t.snd.sndq != [] && 0 < n <= |t.snd.sndq[0].data| && n <= t.cfg.mss <= MAX_MSS && h.snd.unaAt == h.snd.nxtAt
    requires SndOk(t.snd, h.snd, Shut(t.state))
    ensures Sendable(t.state, t.snd, h.snd, FrontData(t, n)) && h.snd.unaAt < |h.snd.sent| && !t.snd.sentFin
    ensures FrontData(t, n) == Contents(t.snd.sndq)[..n]
  {
    assert FrontData(t, n) == Contents(t.snd.sndq)[..n];
  }

  /** The segment has the first unacknowledged number, carries the first n queued bytes, and the FIN with the last of them. */
  predicate CarriesFront(t: Tcb, seg: Segment, n: nat) {
    && seg.seqNo == t.snd.una && seg.ackNo == t.rcv.next && seg.ack && !seg.syn && !seg.rst
    && n <= |Contents(t.snd.sndq)| && seg.data == Contents(t.snd.sndq)[..n]
    && seg.fin == (SendsFin(t.state) && n == |Contents(t.snd.sndq)|)
    && seg.psh == (n > 0 && n == |Contents(t.snd.sndq)|)
  }

  /** How much goes out: as much as the buffer, the segment size and the peer's window allow, but one byte as a probe. */
  function Portion(t: Tcb, timeout: bool): nat {
    if t.snd.sndq == [] then 0
    else
      var n := Min(Min(|t.snd.sndq[0].data|, t.cfg.mss), t.win.wnd);
      if n == 0 && timeout then 1 else n
  }

  /** Exactly one segment goes out, if there is data that may be sent or a FIN that was not. */
  predicate Starts(t: Tcb, timeout: bool, out: seq<Segment>, out': seq<Segment>) {
    var n := Portion(t, timeout);
    if n > 0 || (t.snd.sndq == [] && SendsFin(t.state) && (timeout || !t.snd.sentFin))
    then |out'| == |out| + 1 && out <= out' && CarriesFront(t, out'[|out|], n)
    else out' == out
  }

  /** What goes out is outstanding from now on, all of it and nothing else; a FIN is remembered. */
  predicate Accounts(t: Tcb, h: History, t': Tcb, h': History) {
    && Announces(t, h, t', h') && (t.snd.busy ==> t'.snd.busy)
    && (|t'.out| > |t.out| ==>
          h'.snd.nxtAt == h.snd.unaAt + SegLen(t'.out[|t.out|]) && t'.snd.sentFin == t'.out[|t.out|].fin && t'.snd.busy)
  }

  /** What SendFront hands to Build, and that the segment built from it carries the front of the queue. */
  lemma {:induction false} FrontCarried(t: Tcb, h: History, n: nat, data: seq<byte>)
    requires Owing(t, h, 0) && h.snd.unaAt == h.snd.nxtAt && n <= t.cfg.mss
    requires if t.snd.sndq == [] then n == 0 && SendsFin(t.state) && !t.snd.sentFin && h.snd.unaAt <= |h.snd.sent|
             else 0 < n <= |t.snd.sndq[0].data|
    requires data == if t.snd.sndq == [] then [] else FrontData(t, n)
    ensures Sendable(t.state, t.snd, h.snd, data) && !t.snd.sentFin && |data| == n
    ensures forall adv: u32 :: CarriesFront(t, Built(t, data, false, adv), n)
  {
    DataBytesCount(t.snd.sndq);
    if t.snd.sndq != [] {
      FrontIsQueue(t, h, n);
    }
  }

  /** Transmits n bytes from the front of the queue, or the FIN if it is empty, and starts the timer. */
  method SendFront(t: Tcb, ghost h: History, n: nat) returns (t': Tcb, ghost h': History)
    requires Owing(t, h, 0) && h.snd.unaAt == h.snd.nxtAt && n <= t.cfg.mss
    requires if t.snd.sndq == [] then n == 0 && SendsFin(t.state) && !t.snd.sentFin && h.snd.unaAt <= |h.snd.sent|
             else 0 < n <= |t.snd.sndq[0].data|
    ensures Owing(t', h', 0) && Transmits(t, h, t', h')
    ensures |t'.out| == |t.out| + 1 && CarriesFront(t, t'.out[|t.out|], n) && t'.tim == t.tim.(timer := t.tim.rto)
    ensures h'.snd.unaAt < h'.snd.nxtAt && Accounts(t, h, t', h')
  {
    var data := if t.snd.sndq == [] then [] else FrontData(t, n);
    FrontCarried(t, h, n, data);
    t', h' := Build(t, h, data, false);
    t' := t'.(tim := t'.tim.(timer := t'.tim.rto));
  }

  /** Whenever something is outstanding, the retransmission timer runs. */
  predicate Running(t: Tcb, h: History) {
    t.live && h.snd.unaAt < h.snd.nxtAt ==> t.tim.timer > 0
  }

  /** The timers once transmission has started: running, and persisting while the peer's window is closed. */
  function Armed(t: Tcb, timeout: bool): Timing {
    if t.snd.sndq == [] then
      if SendsFin(t.state) && (timeout || !t.snd.sentFin) then t.tim.(persist := false, timer := t.tim.rto) else t.tim
    else if t.win.wnd > 0 then t.tim.(persist := false, timer := t.tim.rto)
    else if timeout then t.tim.(timer := t.tim.rto)
    else t.tim.(persist := true, timer := t.tim.rto, retry := 0)
  }

  /** What goes out: nothing only if there is nothing to send or the window is closed and no time-out asks for a probe; and then as much
      as one buffer, the segment size and the window allow, never more, but one byte as a probe. */
  lemma {:induction false} StartsSends(t: Tcb, timeout: bool, out: seq<Segment>, out': seq<Segment>)
    requires Starts(t, timeout, out, out') && NonEmpty(t.snd.sndq) && t.cfg.Ok()
    ensures out' == out <==> if t.snd.sndq != [] then t.win.wnd == 0 && !timeout else !(SendsFin(t.state) && (timeout || !t.snd.sentFin))
    ensures out' != out ==>
              && |out'| == |out| + 1 && out <= out'
              && var seg, n := out'[|out|], |out'[|out|].data|;
                 && seg.seqNo == t.snd.una && n <= t.cfg.mss && (n <= t.win.wnd || (t.win.wnd == 0 && timeout && n == 1))
                 && n <= |Contents(t.snd.sndq)| && seg.data == Contents(t.snd.sndq)[..n] && (n == 0 ==> seg.fin && t.snd.sndq == [])
                 && (n > 0 && t.win.wnd > 0 ==> n == |t.snd.sndq[0].data| || n == t.cfg.mss || n == t.win.wnd)
  {
  }

  /** A closed window makes the session persist, with its probes counted from the start; a segment that goes out into an open one ends
      that; and whatever goes out starts the timer. */
  lemma {:induction false} ArmedMeans(t: Tcb, timeout: bool, out: seq<Segment>, out': seq<Segment>)
    requires Starts(t, timeout, out, out') && NonEmpty(t.snd.sndq) && t.cfg.Ok()
    ensures var tim := Armed(t, timeout);
            && SameEstimate(t.tim, tim)
            && (out' != out || t.snd.sndq != [] ==> tim.timer == t.tim.rto)
            && (out' != out && t.snd.sndq != [] ==> tim.retry == t.tim.retry && tim.persist == (t.tim.persist && t.win.wnd == 0))
            && (out' != out && t.snd.sndq == [] ==> tim.retry == t.tim.retry && !tim.persist)
            && (out' == out && t.snd.sndq != [] ==> tim.retry == 0 && tim.persist)
            && (out' == out && t.snd.sndq == [] ==> tim == t.tim)
  {
    StartsSends(t, timeout, out, out');
  }

  /** tcp_segment_start, once nothing is outstanding. */
  method Transmit(t: Tcb, ghost h: History, timeout: bool) returns (t': Tcb, ghost h': History)
    requires Owing(t, h, 0) && h.snd.unaAt == h.snd.nxtAt
    requires SendsFin(t.state) && !t.snd.sentFin ==> h.snd.unaAt <= |h.snd.sent|
    ensures Owing(t', h', 0) && Transmits(t, h, t', h') && (t.tim.rto > 0 ==> Running(t', h'))
    ensures (timeout ==> !t.snd.sentFin) ==> Starts(t, timeout, t.out, t'.out) && t'.tim == Armed(t, timeout)
    ensures (|t'.out| > |t.out| ==> h'.snd.unaAt < h'.snd.nxtAt) && Accounts(t, h, t', h') && (|t'.out| == |t.out| ==> h'.snd == h.snd)
  {
    t', h' := t, h;
    if t.snd.sndq == [] {
      if SendsFin(t.state) && !t.snd.sentFin {
        t', h' := SendFront(t.(tim := t.tim.(persist := false)), h, 0);
      }
      return;
    }
    var n := Min(Min(|t.snd.sndq[0].data|, t.cfg.mss), t.win.wnd);
    if n == 0 && !timeout {
      t' := t.(tim := t.tim.(persist := true, timer := t.tim.rto, retry := 0));
    } else if n == 0 {
      t', h' := SendFront(t, h, 1);
    } else {
      t', h' := SendFront(t.(tim := t.tim.(persist := false)), h, n);
    }
  }

  /** tcp_segment_start: transmits from the front of the queue; after a timeout, again from the first unacknowledged byte. */
  method SegmentStart(t: Tcb, ghost h: History, timeout: bool) returns (t': Tcb, ghost h': History)
    requires Owing(t, h, 0) && (timeout || h.snd.unaAt == h.snd.nxtAt)
    requires SendsFin(t.state) && (timeout || !t.snd.sentFin) ==> h.snd.unaAt <= |h.snd.sent|
    ensures Owing(t', h', 0) && Transmits(t, h, t', h') && Starts(t, timeout, t.out, t'.out) && t'.tim == Armed(t, timeout)
    ensures (t.tim.rto > 0 ==> Running(t', h')) && (|t'.out| > |t.out| ==> h'.snd.unaAt < h'.snd.nxtAt)
    ensures Accounts(t, h, t', h') && (|t'.out| == |t.out| ==> h'.snd.nxtAt == h.snd.unaAt)
  {
    t', h' := t, h;
    if timeout {
      RewoundOk(t.snd, h.snd, Shut(t.state));
      t' := t.(snd := t.snd.(nxt := t.snd.una, sentFin := false));
      h' := h.(snd := h.snd.(nxtAt := h.snd.unaAt));
    }
    t', h' := Transmit(t', h', timeout);
  }

  /** tcp_resend_segment. */
  method Resend(t: Tcb, ghost h: History) returns (t': Tcb, ghost h': History)
    requires Owing(t, h, 0) && (SendsFin(t.state) ==> h.snd.unaAt <= |h.snd.sent|)
    ensures t'.live == (t.live && t.tim.retry < MAX_RETRIES) && t.out <= t'.out
    ensures t.tim.retry >= MAX_RETRIES ==> t' == t.(live := false) && h' == h
    ensures t.tim.retry < MAX_RETRIES ==>
              && Owing(t', h', 0) && Transmits(t, h, t', h') && Starts(t, true, t.out, t'.out)
              && t'.tim == Armed(t, true).(retry := t.tim.retry + 1) && (t.tim.rto > 0 ==> Running(t', h')) && Accounts(t, h, t', h')
  {
    t', h' := t, h;
    if t.tim.retry >= MAX_RETRIES {
      t' := t.(live := false);
    } else {
      t', h' := SegmentStart(t.(tim := t.tim.(retry := t.tim.retry + 1)), h, true);
    }
  }

  /** tcp_session_send. */
  method Send(t: Tcb, ghost h: History, b: Buf) returns (t': Tcb, ghost h': History, ok: bool)
    requires Valid(t, h)
    ensures Valid(t', h') && ok == !Shut(t.state)
    ensures ok ==> h'.snd.sent == h.snd.sent + b.data && Contents(t'.snd.sndq) == Contents(t.snd.sndq) + b.data
    ensures ok ==> Transmits(t.(snd := t.snd.(sndq := t'.snd.sndq)), h.(snd := h.snd.(sent := h'.snd.sent)), t', h')
    ensures !ok ==> t' == t && h' == h
    ensures ok && !t.snd.busy ==>
              && Starts(t.(snd := t.snd.(sndq := t'.snd.sndq)), false, t.out, t'.out)
              && t'.tim == Armed(t.(snd := t.snd.(sndq := t'.snd.sndq), tim := t.tim.(timer := 0, retry := 0)), false)
    ensures ok && !t.snd.busy && t.win.wnd > 0 && b.data != [] ==> h'.snd.unaAt < h'.snd.nxtAt && !t'.tim.persist
    ensures ok && t.snd.busy ==> t' == t.(snd := t.snd.(sndq := t'.snd.sndq)) && h'.snd.nxtAt == h.snd.nxtAt
    ensures SameEstimate(t.tim, t'.tim)
    ensures Running(t, h) && t.tim.rto > 0 ==> Running(t', h')
  {
    t', h', ok := t, h, false;
    if Shut(t.state) {
      return;
    }
    GivenOk(t.snd, h.snd, b);
    CompressedGrows(t.snd.sndq, b, 0);
    FlightsLater(t.out, h.places, GroundOf(t, h), GroundOf(t, h).(sent := h.snd.sent + b.data));
    t', ok := t.(snd := t.snd.(sndq := Compressed(t.snd.sndq, b))), true;
    h' := h.(snd := h.snd.(sent := h.snd.sent + b.data));
    if !t.snd.busy {
      t' := t'.(tim := t'.tim.(timer := 0, retry := 0), snd := t'.snd.(busy := true));
      t', h' := SegmentStart(t', h', false);
    }
  }

  /** tcp_session_close: the state changes at once, the FIN follows the data. */
  method Close(t: Tcb, ghost h: History) returns (t': Tcb, ghost h': History)
    requires Valid(t, h)
    ensures Valid(t', h') && Shut(t'.state)
    ensures Transmits(t.(state := t'.state), h, t', h')
    ensures t'.state == if t.state.CloseWait? then LastAck else if t.state.Established? then FinWait1 else t.state
    ensures !Shut(t.state) && !t.snd.busy ==>
              Starts(t.(state := t'.state), false, t.out, t'.out) && t'.tim == Armed(t.(state := t'.state), false)
    ensures Shut(t.state) || t.snd.busy ==> t' == t.(state := t'.state) && h' == h
    ensures SameEstimate(t.tim, t'.tim) && (!Shut(t.state) ==> t'.snd.busy)
    ensures Running(t, h) && t.tim.rto > 0 ==> Running(t', h')
  {
    t', h' := t, h;
    if Shut(t.state) {
      return;
    }
    FlightsLater(t.out, h.places, GroundOf(t, h), GroundOf(t, h).(shut := true));
    t' := t.(state := if t.state.CloseWait? then LastAck else FinWait1);
    if !t.snd.busy {
      t' := t'.(snd := t'.snd.(busy := true));
      t', h' := SegmentStart(t', h', false);
    }
  }

  /** The backed-off timeout. */
  function Doubled(rto: u16): u16 {
    Min(rto * 2 % 0x1_0000, MAXIMUM_RTO)
  }

  /** Backing off never leads to a timeout of zero. */
  lemma DoubledCalm(tim: Timing)
    ensures Calm(tim) ==> Calm(tim.(rto := Doubled(tim.rto)))
  {
  }

  /** The timers after backing off: one more try, with a timeout twice as long, but not too long. */
  function BackedOff(t: Tcb): Timing {
    Armed(t.(tim := t.tim.(timer := 0, rto := Doubled(t.tim.rto))), true).(retry := t.tim.retry + 1)
  }

  /** The timer of a busy session has run out: back off and retransmit, or give up. */
  method BackOff(t: Tcb, ghost h: History) returns (t': Tcb, ghost h': History)
    requires Valid(t, h) && t.live
    ensures Valid(t', h') && Transmits(t.(live := t'.live), h, t', h')
    ensures t'.live <==> t.tim.retry < MAX_RETRIES
    ensures t'.live ==> Starts(t, true, t.out, t'.out)
    ensures Calm(t.tim) ==> Calm(t'.tim) && Running(t', h')
    ensures t'.live ==> t'.tim == BackedOff(t)
    ensures t'.live && t.tim.rto < 0x8000 ==> t'.tim.rto == if t.tim.rto * 2 > MAXIMUM_RTO then MAXIMUM_RTO else t.tim.rto * 2
  {
    var t1 := t.(tim := t.tim.(timer := 0, rto := Doubled(t.tim.rto)));
    DoubledCalm(t.tim);
    if t.tim.retry >= MAX_RETRIES {
      t', h' := Resend(t1, h);
    } else {
      t', h' := BackOffOnce(t, t1, h);
    }
  }

  method BackOffOnce(t: Tcb, t1: Tcb, ghost h: History) returns (t': Tcb, ghost h': History)
    requires Owing(t, h, 0) && Settled(t, h) && t.live && t.tim.retry < MAX_RETRIES
    requires t1 == t.(tim := t.tim.(timer := 0, rto := Doubled(t.tim.rto)))
    ensures Valid(t', h') && Transmits(t, h, t', h') && t'.live
    ensures Starts(t, true, t.out, t'.out) && SameEstimate(t1.tim, t'.tim) && (t1.tim.rto > 0 ==> Running(t', h'))
    ensures t'.tim == BackedOff(t)
  {
    t', h' := Resend(t1, h);
    StartsAnyTime(t, t1.tim, t.out, t'.out);
  }

  lemma StartsAnyTime(t: Tcb, tim: Timing, out: seq<Segment>, out': seq<Segment>)
    ensures Starts(t.(tim := tim), true, out, out') ==> Starts(t, true, out, out')
  {
  }

  /** What the passing of time does: before the timer runs out nothing, and then whatever the state asks for. */
  predicate Ticked(t: Tcb, ticks: nat, t': Tcb) {
    && (!(0 < t.tim.timer <= ticks) ==> t' == t.(tim := t.tim.(timer := Max(t.tim.timer - ticks, 0))))
    && (0 < t.tim.timer <= ticks && t.state.TimeWait? ==> !t'.live)
    && (0 < t.tim.timer <= ticks && t.snd.busy && !t.state.TimeWait? ==>
          if t.tim.retry >= MAX_RETRIES then !t'.live
          else
            && t'.live && t'.state == t.state && Starts(t, true, t.out, t'.out)
            && t'.tim == BackedOff(t) && t'.tim.retry == t.tim.retry + 1
            && (t.tim.rto < 0x8000 ==> t'.tim.rto == if t.tim.rto * 2 > MAXIMUM_RTO then MAXIMUM_RTO else t.tim.rto * 2))
    && (0 < t.tim.timer <= ticks && !t.snd.busy && !t.state.TimeWait? ==>
          if t.state.FinWait2? && t.closed then t' == t.(state := TimeWait, tim := t.tim.(timer := TIME_WAIT_TO_CLOSE))
          else t' == t.(tim := t.tim.(timer := 0)))
  }

  /** Time passes for a session that has nothing to send again. */
  method Elapse(t: Tcb, ghost h: History, ticks: nat) returns (t': Tcb, ghost h': History)
    requires Valid(t, h) && t.live && !(0 < t.tim.timer <= ticks && t.snd.busy && !t.state.TimeWait?)
    ensures Valid(t', h') && Shut(t'.state) == Shut(t.state) && Transmits(t.(state := t'.state, live := t'.live), h, t', h')
    ensures Ticked(t, ticks, t') && h' == h
    ensures Calm(t.tim) ==> Calm(t'.tim) && (Running(t, h) ==> Running(t', h'))
  {
    t', h' := t, h;
    if t.tim.timer > ticks {
      t' := t.(tim := t.tim.(timer := t.tim.timer - ticks));
    } else if t.tim.timer > 0 && t.state.TimeWait? {
      t' := t.(tim := t.tim.(timer := 0), live := false);
    } else if t.tim.timer > 0 && t.state.FinWait2? && t.closed {
      t' := t.(state := TimeWait, tim := t.tim.(timer := TIME_WAIT_TO_CLOSE));
    } else if t.tim.timer > 0 {
      t' := t.(tim := t.tim.(timer := 0));
    }
  }

  /** tcp_handle_time_event for one session. */
  method Tick(t: Tcb, ghost h: History, ticks: nat) returns (t': Tcb, ghost h': History)
    requires Valid(t, h) && t.live
    ensures Valid(t', h') && Shut(t'.state) == Shut(t.state) && Transmits(t.(state := t'.state, live := t'.live), h, t', h')
    ensures Ticked(t, ticks, t') && (!(0 < t.tim.timer <= ticks) ==> h' == h)
    ensures Calm(t.tim) ==> Calm(t'.tim) && (Running(t, h) ==> Running(t', h'))
  {
    if 0 < t.tim.timer <= ticks && t.snd.busy && !t.state.TimeWait? {
      t', h' := BackOff(t, h);
    } else {
      t', h' := Elapse(t, h, ticks);
    }
  }

  /** A bare acknowledgement: no data, no flags but ACK, numbered as the next byte would be, and the whole window in its field. */
  function Bare(t: Tcb): Segment {
    Segment(t.snd.nxt, t.rcv.next, false, true, false, false, false, Wrap(t.rcv.adv - t.rcv.next) % 0x1_0000, [])
  }

  /** An acknowledgement of n more sequence numbers. */
  method AckNow(t: Tcb, ghost h: History, n: nat) returns (t': Tcb, ghost h': History)
    requires Owing(t, h, n)
    ensures Owing(t', h', 0) && t'.snd == t.snd && h'.snd == h.snd
    ensures Transmits(t.(rcv := t.rcv.(next := t'.rcv.next)), h.(rcv := h.rcv.(nextAt := h.rcv.nextAt + n)), t', h')
    ensures h.rcv.advAt <= h'.rcv.advAt && (WindowOk(h.rcv) && h.rcv.nextAt + n <= h.rcv.advAt ==> WindowOk(h'.rcv))
    ensures t' == t.(rcv := t.rcv.(next := Wrap(t.rcv.next + n), adv := t'.rcv.adv), out := t.out + [Bare(t')])
    ensures h'.rcv.advAt == h.rcv.advAt + Offered(t.cfg, t.rcv.(next := t'.rcv.next))
  {
    ArrivedOk(t.rcv, h.rcv, Receiving(t.state), n);
    t', h' := CountIn(t, h, n);
    t', h' := Build(t', h', [], true);
  }

  /** What was taken is counted. */
  method CountIn(t: Tcb, ghost h: History, n: nat) returns (t': Tcb, ghost h': History)
    requires Owing(t, h, n)
    ensures Owing(t', h', 0)
    ensures t' == t.(rcv := t.rcv.(next := Wrap(t.rcv.next + n))) && h' == h.(rcv := h.rcv.(nextAt := h.rcv.nextAt + n))
  {
    ArrivedOk(t.rcv, h.rcv, Receiving(t.state), n);
    FlightsLater(t.out, h.places, GroundOf(t, h), GroundOf(t, h).(heard := h.rcv.nextAt + n));
    t' := t.(rcv := t.rcv.(next := Wrap(t.rcv.next + n)));
    h' := h.(rcv := h.rcv.(nextAt := h.rcv.nextAt + n));
  }

  /** Nothing but bare acknowledgements. */
  predicate Quiet(out: seq<Segment>, out': seq<Segment>) {
    out' == out || (|out'| == |out| + 1 && out <= out' && SegLen(out'[|out|]) == 0)
  }

  /** A bare acknowledgement goes out. */
  method AckOnly(t: Tcb, ghost h: History) returns (t': Tcb, ghost h': History)
    requires Owing(t, h, 0)
    ensures Owing(t', h', 0) && Transmits(t, h, t', h') && t'.snd == t.snd && h'.snd == h.snd && t'.tim == t.tim
    ensures t'.out == t.out + [Bare(t')] && h'.rcv.advAt == h.rcv.advAt + Offered(t.cfg, t.rcv)
  {
    t', h' := Build(t, h, [], true);
  }

  /** tcp_session_data_received: if the window has opened, the peer is told. */
  method Offer(t: Tcb, ghost h: History) returns (t': Tcb, ghost h': History)
    requires Owing(t, h, 0)
    ensures Owing(t', h', 0) && t'.snd == t.snd && h'.snd == h.snd && Transmits(t, h, t', h')
    ensures t'.tim == t.tim && Quiet(t.out, t'.out)
    ensures if Offered(t.cfg, t.rcv) > 0 then t'.out == t.out + [Bare(t')] else t' == t && h' == h
    ensures Offered(t.cfg, t.rcv) > 0 ==> h.rcv.advAt + Offered(t.cfg, t.rcv) <= h'.rcv.advAt
    ensures WindowOk(h.rcv.(advAt := h.rcv.advAt + Offered(t.cfg, t.rcv))) ==> WindowOk(h'.rcv)
  {
    var incr, rcv, hr := ComputeWindow(t.cfg, t.rcv, h.rcv, Receiving(t.state));
    t', h' := t.(rcv := rcv), h.(rcv := hr);
    if incr > 0 {
      t', h' := AckOnly(t', h');
    }
  }

  /** The application takes n bytes off the receive queue, which outlives the session. */
  method Read(t: Tcb, ghost h: History, n: nat) returns (t': Tcb, ghost h': History, data: seq<byte>)
    requires Valid(t, h)
    ensures Valid(t', h') && data == Contents(t.rcv.rcvq)[..Min(n, |Contents(t.rcv.rcvq)|)]
    ensures data + Contents(t'.rcv.rcvq) == Contents(t.rcv.rcvq) && t'.rcv.rcvq == Dropped(t.rcv.rcvq, n)
    ensures t'.snd == t.snd && h'.snd == h.snd && t'.tim == t.tim && (if t.live then Quiet(t.out, t'.out) else t'.out == t.out)
    ensures Transmits(t.(rcv := t.rcv.(rcvq := t'.rcv.rcvq)), h.(rcv := h.rcv.(readAt := h.rcv.readAt + |data|)), t', h')
    ensures t.live ==> var incr := Offered(t.cfg, t.rcv.(rcvq := t'.rcv.rcvq));
                       && (incr == 0 ==> t'.out == t.out && h'.rcv.advAt == h.rcv.advAt)
                       && (incr > 0 ==> t'.out == t.out + [Bare(t')] && h.rcv.advAt + incr <= h'.rcv.advAt)
                       && (WindowOk(h.rcv.(advAt := h.rcv.advAt + incr)) ==> WindowOk(h'.rcv))
  {
    data := Contents(t.rcv.rcvq)[..Min(n, |Contents(t.rcv.rcvq)|)];
    ReadOk(t.rcv, h.rcv, Receiving(t.state), n);
    t' := t.(rcv := t.rcv.(rcvq := Dropped(t.rcv.rcvq, n)));
    h' := h.(rcv := h.rcv.(readAt := h.rcv.readAt + |data|));
    if t.live {
      t', h' := Offer(t', h');
    }
  }

  /** First transmissions, retransmissions and probes never disagree: a number always stands for the same byte, and every FIN for
      the position after the last byte. */
  lemma {:induction false} SameNumberSameByte(t: Tcb, h: History, i: nat, j: nat, k: int)
    requires Valid(t, h) && i < |t.out| && j < |t.out|
    requires h.places[i].at <= k < h.places[i].at + |t.out[i].data|
    requires h.places[j].at <= k < h.places[j].at + |t.out[j].data|
    ensures 0 <= k < |h.snd.sent| && t.out[i].data[k - h.places[i].at] == t.out[j].data[k - h.places[j].at] == h.snd.sent[k]
    ensures t.out[i].seqNo == Wrap(h.snd.iss + h.places[i].at)
    ensures t.out[i].fin ==> h.places[i].at + |t.out[i].data| == |h.snd.sent|
  {
    assert FlightAt(t.out, h.places, i, GroundOf(t, h));
    assert FlightAt(t.out, h.places, j, GroundOf(t, h));
  }
}
