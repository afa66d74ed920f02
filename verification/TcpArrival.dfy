/** What a TCP session does with an arriving segment. */
module TcpArrival {
  import opened Bytes
  import opened Sockbuf
  import opened TcpNumbers
  import opened TcpSender
  import opened TcpReceiver
  import opened TcpSession

  /** The sender half after everything up to ackAt has been acknowledged. */
  lemma {:induction false} AckedBytes(o: Out, s: Stream, shut: bool, ack: u32, ackAt: nat)
    requires SndOk(o, s, shut) && s.unaAt < ackAt <= s.nxtAt && ack == Wrap(s.iss + ackAt)
    ensures Wrap(ack - o.una) == ackAt - s.unaAt
    ensures ack == o.nxt <==> ackAt == s.nxtAt
  {
    WrapDiff(s.iss, ackAt, s.unaAt);
    WrapSmall(ackAt - s.unaAt);
    SeqGtAt(s.iss, ackAt, s.nxtAt);
  }

  /** Updates the round-trip estimate if the acknowledged segment was sent once. */
  function Measured(tim: Timing): Timing {
    var e := if tim.retry == 0 && !tim.persist then Estimate(Rtt(tim.srtt8, tim.srttvar4, tim.rto), Sample(tim.rto, tim.timer))
             else Rtt(tim.srtt8, tim.srttvar4, tim.rto);
    tim.(srtt8 := e.srtt8, srttvar4 := e.srttvar4, rto := e.rto, retry := 0, timer := 0)
  }

  /** Only an acknowledgement of something that was sent once is measured (Karn's rule), and then, within bounds, as section 2 of RFC
      6298 has it. */
  lemma MeasuredIs(tim: Timing)
    ensures Measured(tim).timer == 0 && Measured(tim).retry == 0
    ensures tim.retry > 0 || tim.persist ==> SameEstimate(tim, Measured(tim))
    ensures tim.retry == 0 && !tim.persist && Calm(tim) && Prompt(tim) ==>
              SameRtt(Measured(tim), Smoothed(Rtt(tim.srtt8, tim.srttvar4, tim.rto), Sample(tim.rto, tim.timer)))
  {
    if tim.retry == 0 && !tim.persist && Calm(tim) && Prompt(tim) {
      EstimateBounded(Rtt(tim.srtt8, tim.srttvar4, tim.rto), Sample(tim.rto, tim.timer), PROMPT);
    }
  }

  predicate SameRtt(tim: Timing, e: Rtt) {
    tim.srtt8 == e.srtt8 && tim.srttvar4 == e.srttvar4 && tim.rto == e.rto
  }

  /** The estimate stays bounded if the acknowledgement was prompt. */
  lemma MeasuredCalm(tim: Timing)
    ensures tim.rto > 0 ==> Measured(tim).rto > 0
    ensures Calm(tim) && Prompt(tim) ==> Calm(Measured(tim))
  {
    if Calm(tim) && Prompt(tim) {
      EstimateBounded(Rtt(tim.srtt8, tim.srttvar4, tim.rto), Sample(tim.rto, tim.timer), PROMPT);
    }
  }

  /** After everything is acknowledged: with data left, exactly while the window is closed; a FIN that goes out ends it. */
  predicate Persists(t: Tcb, snd: Out) {
    if snd.sndq != [] then t.win.wnd == 0 else t.tim.persist && !snd.busy
  }

  /** tcp_ack_segment: what is acknowledged leaves the queue, and once nothing is outstanding the next segment follows. */
  method AckSegment(t: Tcb, ghost h: History, ack: u32, ghost ackAt: nat) returns (t': Tcb, ghost h': History)
    requires Owing(t, h, 0) && h.snd.unaAt < ackAt <= h.snd.nxtAt && ack == Wrap(h.snd.iss + ackAt)
    ensures Owing(t', h', 0) && Transmits(t.(snd := t.snd.(una := ack, sndq := t'.snd.sndq)), h.(snd := h.snd.(unaAt := ackAt)), t', h')
    ensures ackAt < h.snd.nxtAt ==> t'.out == t.out && t'.tim == t.tim
    ensures ackAt < h.snd.nxtAt ==> h'.snd.nxtAt == h.snd.nxtAt && t'.snd.sentFin == t.snd.sentFin
    ensures ackAt == h.snd.nxtAt ==>
              && Starts(t.(snd := t.snd.(una := ack, sndq := t'.snd.sndq)), false, t.out, t'.out)
              && (t'.snd.busy <==> t'.snd.sndq != [] || (SendsFin(t.state) && !t.snd.sentFin))
              && SameEstimate(Measured(t.tim), t'.tim) && t'.tim.retry == 0
              && t'.tim.persist == Persists(t, t'.snd) && (!t'.snd.busy ==> t'.tim.timer == 0)
    ensures ackAt == |h.snd.sent| + 1 ==> t'.snd.sentFin && h'.snd.nxtAt == ackAt
    ensures Running(t, h) && t.tim.rto > 0 ==> Running(t', h')
    ensures Calm(t.tim) && Prompt(t.tim) ==> Calm(t'.tim)
  {
    AckedBytes(t.snd, h.snd, Shut(t.state), ack, ackAt);
    AckedOk(t.snd, h.snd, Shut(t.state), ackAt);
    var acked := Min(Wrap(ack - t.snd.una), DataBytes(t.snd.sndq));
    t' := t.(snd := t.snd.(una := ack, sndq := Dropped(t.snd.sndq, acked)));
    h' := h.(snd := h.snd.(unaAt := ackAt));
    if ack == t.snd.nxt {
      t', h' := Next(t', h');
    }
  }

  /** Everything that was sent has been acknowledged. */
  method Next(t: Tcb, ghost h: History) returns (t': Tcb, ghost h': History)
    requires Owing(t, h, 0) && h.snd.unaAt == h.snd.nxtAt && SndOk(t.snd.(busy := false), h.snd, Shut(t.state))
    requires (h.snd.unaAt == |h.snd.sent| + 1 ==> t.snd.sentFin) && t.snd.busy
    ensures Owing(t', h', 0) && Transmits(t, h, t', h')
    ensures h.snd.unaAt == |h.snd.sent| + 1 ==> t'.snd.sentFin && h'.snd.nxtAt == h.snd.unaAt
    ensures SameEstimate(Measured(t.tim), t'.tim) && t'.tim.retry == 0 && t'.tim.persist == Persists(t, t'.snd)
    ensures !t'.snd.busy ==> t'.tim.timer == 0
    ensures Starts(t, false, t.out, t'.out)
    ensures t'.snd.busy <==> t.snd.sndq != [] || (SendsFin(t.state) && !t.snd.sentFin)
    ensures t.tim.rto > 0 ==> Running(t', h')
    ensures Calm(t.tim) && Prompt(t.tim) ==> Calm(t'.tim)
  {
    DataBytesCount(t.snd.sndq);
    NonEmptyBytes(t.snd.sndq);
    MeasuredCalm(t.tim);
    t', h' := t.(tim := Measured(t.tim)), h;
    if DataBytes(t.snd.sndq) > 0 || (SendsFin(t.state) && !t.snd.sentFin) {
      t', h' := SegmentStart(t', h', false);
    } else {
      t' := t'.(snd := t'.snd.(busy := false));
    }
  }

  lemma {:induction false} NonEmptyBytes(bufs: seq<Buf>)
    requires NonEmpty(bufs)
    ensures DataBytes(bufs) > 0 <==> bufs != []
  {
  }

  /** Only the sending side moves, apart from the window a transmission may open and the steps an acknowledged FIN causes. */
  predicate SendingOnly(t: Tcb, h: History, t': Tcb, h': History) {
    && t'.cfg == t.cfg && t'.closed == t.closed && t'.cantRecv == t.cantRecv && t.out <= t'.out
    && t'.rcv == t.rcv.(adv := t'.rcv.adv) && h'.rcv == h.rcv.(advAt := h'.rcv.advAt)
    && h'.snd.sent == h.snd.sent && h'.snd.iss == h.snd.iss
    && Receiving(t'.state) == Receiving(t.state) && Shut(t'.state) == Shut(t.state)
    && h.rcv.advAt <= h'.rcv.advAt && (WindowOk(h.rcv) ==> WindowOk(h'.rcv))
  }

  /** Not older than the segment that the known window came from. */
  predicate Newer(w: Window, seqNo: u32, ackNo: u32) {
    SeqGt(seqNo, w.wl1) || (seqNo == w.wl1 && SeqGe(ackNo, w.wl2))
  }

  /** On positions: it lies further on, or equally far on and acknowledges no less. */
  lemma {:induction false} NewerAt(w: Window, irs: u32, at: int, knownAt: int, iss: u32, ackAt: int, knownAck: int)
    requires w.wl1 == Wrap(irs + knownAt) && w.wl2 == Wrap(iss + knownAck) && Near(at, knownAt) && Near(ackAt, knownAck)
    ensures Newer(w, Wrap(irs + at), Wrap(iss + ackAt)) <==> at > knownAt || (at == knownAt && ackAt >= knownAck)
  {
    SeqGtAt(irs, at, knownAt);
    SeqGtAt(iss, ackAt, knownAck);
  }

  /** Takes the advertised window, unless it is older than the one known. */
  function Updated(t: Tcb, seg: Segment): Tcb {
    if Newer(t.win, seg.seqNo, seg.ackNo)
    then t.(win := Window(seg.window, seg.seqNo, seg.ackNo),
            tim := if seg.window == 0 && seg.ackNo != t.snd.nxt then t.tim.(persist := true) else t.tim)
    else t
  }

  lemma {:induction false} UpdatedOk(t: Tcb, h: History, seg: Segment)
    requires Valid(t, h) && t.live
    ensures Valid(Updated(t, seg), h) && SendingOnly(t, h, Updated(t, seg), h)
    ensures Updated(t, seg).live && Updated(t, seg).state == t.state && Updated(t, seg).snd == t.snd
  {
  }

  lemma UpdatedIs(t: Tcb, h: History, seg: Segment, ackAt: int)
    requires seg.ackNo == t.snd.nxt <==> ackAt == h.snd.nxtAt
    ensures var win := if Newer(t.win, seg.seqNo, seg.ackNo) then Window(seg.window, seg.seqNo, seg.ackNo) else t.win;
            Updated(t, seg) == t.(win := win, tim := t.tim.(persist := t.tim.persist || Shrinks(t, h, seg, ackAt)))
  {
  }

  lemma SendingTwice(t: Tcb, h: History, t1: Tcb, h1: History, t2: Tcb, h2: History)
    requires SendingOnly(t, h, t1, h1) && SendingOnly(t1, h1, t2, h2)
    ensures SendingOnly(t, h, t2, h2)
  {
  }

  /** A segment that acknowledges nothing new, from a peer whose window is open. */
  predicate NothingNew(t: Tcb, h: History, seg: Segment, ackAt: int) {
    !t.tim.persist && seg.window > 0 && ackAt <= h.snd.unaAt
  }

  /** Nothing new is acknowledged; a probe may have been answered with an open window. */
  method ProbeAnswered(t: Tcb, ghost h: History, open: bool) returns (t': Tcb, ghost h': History)
    requires Owing(t, h, 0) && Settled(t, h) && t.live
    ensures Owing(t', h', 0) && t'.live && t'.state == t.state && SendingOnly(t, h, t', h') && h'.snd.unaAt == h.snd.unaAt && t'.win == t.win
    ensures SameEstimate(t.tim, t'.tim)
    ensures if t.tim.persist && open then
              Starts(t, true, t.out, t'.out) && t'.tim.retry == 1 && !t'.tim.persist
            else t' == t.(tim := t.tim.(retry := if t.tim.persist then 0 else t.tim.retry)) && h' == h
    ensures Running(t, h) && t.tim.rto > 0 ==> Running(t', h')
    ensures Calm(t.tim) && Prompt(t.tim) ==> Calm(t'.tim)
  {
    t', h' := t, h;
    if t.tim.persist && open {
      t', h' := Resend(t.(tim := t.tim.(retry := 0, persist := false)), h);
      StartsAnyTime(t, t.tim.(retry := 0, persist := false), t.out, t'.out);
    } else if t.tim.persist {
      t' := t.(tim := t.tim.(retry := 0));
    }
  }

  /** The window has closed under something that is outstanding. */
  predicate Shrinks(t: Tcb, h: History, seg: Segment, ackAt: int) {
    Newer(t.win, seg.seqNo, seg.ackNo) && seg.window == 0 && ackAt != h.snd.nxtAt
  }

  /** What an acknowledgement between una and nxt makes of a session that has taken its window. Part of what is outstanding: nothing goes
      out, and the timer runs on. All of it: the round trip is measured, and the next segment starts from the new front. None of it: only
      a session that persists, and whose window has opened, sends again. */
  predicate AckEffect(t: Tcb, h: History, seg: Segment, ackAt: int, t': Tcb, h': History) {
    if h.snd.unaAt < ackAt < h.snd.nxtAt then
      && t'.out == t.out && h'.snd.nxtAt == h.snd.nxtAt && t'.snd.sentFin == t.snd.sentFin
      && SameEstimate(t.tim, t'.tim) && t'.tim.retry == t.tim.retry && t'.tim.persist == t.tim.persist
    else if h.snd.unaAt < ackAt then
      && Starts(t.(snd := t.snd.(una := seg.ackNo, sndq := t'.snd.sndq)), false, t.out, t'.out)
      && (t'.snd.busy <==> t'.snd.sndq != [] || (SendsFin(t.state) && !t.snd.sentFin))
      && SameEstimate(Measured(t.tim), t'.tim) && t'.tim.retry == 0 && t'.tim.persist == Persists(t, t'.snd)
    else if t.tim.persist && seg.window != 0 then
      Starts(t, true, t.out, t'.out) && SameEstimate(t.tim, t'.tim) && t'.tim.retry == 1 && !t'.tim.persist
    else
      && t'.out == t.out && h'.snd == h.snd && t'.snd == t.snd && SameEstimate(t.tim, t'.tim)
      && t'.tim.persist == t.tim.persist && t'.tim.retry == if t.tim.persist then 0 else t.tim.retry
  }

  /** The state once everything up to unaAt has been acknowledged. */
  function StateAfter(state: State, finAcked: bool): State {
    if state.FinWait1? && finAcked then FinWait2 else if state.Closing? && finAcked then TimeWait else state
  }

  /** The peer's acknowledgement is at ackAt, between the first unacknowledged position and the next to be sent. */
  method AcceptAck(t: Tcb, ghost h: History, seg: Segment, ghost ackAt: nat) returns (t': Tcb, ghost h': History)
    requires Owing(t, h, 0) && Settled(t, h) && t.live && h.snd.unaAt <= ackAt <= h.snd.nxtAt && seg.ackNo == Wrap(h.snd.iss + ackAt)
    requires seg.ackNo == t.snd.una <==> ackAt == h.snd.unaAt
    ensures Owing(t', h', 0) && t'.live && t'.state == t.state && SendingOnly(t, h, t', h') && h'.snd.unaAt == ackAt && t'.win == t.win
    ensures ackAt == |h.snd.sent| + 1 ==> t.state.FinWait2? || t.state.TimeWait? || (t'.snd.sentFin && h'.snd.nxtAt == ackAt)
    ensures AckEffect(t, h, seg, ackAt, t', h')
    ensures NothingNew(t, h, seg, ackAt) ==> h'.snd == h.snd && t'.tim.rto == t.tim.rto
    ensures Running(t, h) && t.tim.rto > 0 ==> Running(t', h')
    ensures Calm(t.tim) && Prompt(t.tim) ==> Calm(t'.tim)
  {
    if seg.ackNo != t.snd.una {
      t', h' := AckSegment(t, h, seg.ackNo, ackAt);
    } else {
      t', h' := ProbeAnswered(t, h, seg.window != 0);
    }
  }

  /** The steps that follow from our FIN having been acknowledged. */
  method FinAcknowledged(t: Tcb, ghost h: History) returns (t': Tcb, stop: bool)
    requires Owing(t, h, 0) && t.live
    requires h.snd.unaAt == |h.snd.sent| + 1 ==> t.state.FinWait2? || t.state.TimeWait? || (t.snd.sentFin && h.snd.nxtAt == h.snd.unaAt)
    ensures Owing(t', h, 0) && Settled(t', h) && SendingOnly(t, h, t', h) && t' == t.(state := t'.state, tim := t'.tim, live := t'.live)
    ensures stop <==> !t'.live
    ensures var acked := t.snd.sentFin && h.snd.unaAt == |h.snd.sent| + 1;
            && (stop <==> t.state.LastAck? && acked)
            && t'.state == (if t.state.FinWait1? && acked then FinWait2 else if t.state.Closing? && acked then TimeWait else t.state)
            && t'.tim == t.tim.(timer := if t'.state.TimeWait? then TIME_WAIT_TO_CLOSE
                                         else if t'.state == t.state then t.tim.timer else if t.closed then FIN_WAIT_2_TIMEOUT else 0)
    ensures Running(t, h) ==> Running(t', h)
  {
    t', stop := t, false;
    SeqGtAt(h.snd.iss, h.snd.unaAt, h.snd.nxtAt);
    var acked := t.snd.sentFin && t.snd.una == t.snd.nxt;
    if t.state.FinWait1? && acked {
      t' := t.(state := FinWait2, tim := t.tim.(timer := if t.closed then FIN_WAIT_2_TIMEOUT else 0));
    } else if t.state.Closing? && acked {
      t' := t.(state := TimeWait, tim := t.tim.(timer := TIME_WAIT_TO_CLOSE));
    } else if t.state.LastAck? && acked {
      t', stop := t.(live := false), true;
    } else if t.state.TimeWait? {
      t' := t.(tim := t.tim.(timer := TIME_WAIT_TO_CLOSE));
    }
  }

  /** The acknowledgement field, whatever it says. */
  method ProcessAck(t: Tcb, ghost h: History, seg: Segment, ghost ackAt: int) returns (t': Tcb, ghost h': History, stop: bool)
    requires Valid(t, h) && t.live && seg.ackNo == Wrap(h.snd.iss + ackAt) && Near(ackAt, h.snd.unaAt) && Near(ackAt, h.snd.nxtAt)
    ensures Valid(t', h') && SendingOnly(t, h, t', h')
    ensures h'.snd.unaAt == if h.snd.unaAt < ackAt <= h.snd.nxtAt then ackAt else h.snd.unaAt
    ensures t'.win == if h.snd.unaAt <= ackAt <= h.snd.nxtAt && Newer(t.win, seg.seqNo, seg.ackNo)
                      then Window(seg.window, seg.seqNo, seg.ackNo) else t.win
    ensures ackAt < h.snd.unaAt ==> t' == t && h' == h && !stop
    ensures ackAt > h.snd.nxtAt ==> stop && t' == t.(rcv := t.rcv.(adv := t'.rcv.adv), out := t.out + [Bare(t')])
    ensures h.snd.unaAt <= ackAt <= h.snd.nxtAt ==>
              && (stop <==> !t'.live) && (stop ==> !Receiving(t.state))
              && t'.state == StateAfter(t.state, ackAt == |h.snd.sent| + 1) && (stop <==> t.state.LastAck? && ackAt == |h.snd.sent| + 1)
              && AckEffect(t.(win := t'.win, tim := t.tim.(persist := t.tim.persist || Shrinks(t, h, seg, ackAt))), h, seg, ackAt, t', h')
    ensures NothingNew(t, h, seg, ackAt) ==> h'.snd == h.snd && t'.tim.rto == t.tim.rto
    ensures Running(t, h) && t.tim.rto > 0 ==> Running(t', h')
    ensures Calm(t.tim) && Prompt(t.tim) ==> Calm(t'.tim)
  {
    AckCompared(t.snd, h.snd, Shut(t.state), seg.ackNo, ackAt);
    if SeqGt(t.snd.una, seg.ackNo) {
      t', h', stop := t, h, false;
    } else if SeqGt(seg.ackNo, t.snd.nxt) {
      t', h' := AckNow(t, h, 0);
      stop := true;
    } else {
      t', h', stop := InRangeAck(t, h, seg, ackAt);
    }
  }

  method InRangeAck(t: Tcb, ghost h: History, seg: Segment, ghost ackAt: nat) returns (t': Tcb, ghost h': History, stop: bool)
    requires Valid(t, h) && t.live && h.snd.unaAt <= ackAt <= h.snd.nxtAt && seg.ackNo == Wrap(h.snd.iss + ackAt)
    requires seg.ackNo == t.snd.una <==> ackAt == h.snd.unaAt
    ensures Valid(t', h') && SendingOnly(t, h, t', h') && h'.snd.unaAt == ackAt
    ensures (stop <==> !t'.live) && (stop ==> !Receiving(t.state))
    ensures t'.state == StateAfter(t.state, ackAt == |h.snd.sent| + 1) && (stop <==> t.state.LastAck? && ackAt == |h.snd.sent| + 1)
    ensures t'.win == if Newer(t.win, seg.seqNo, seg.ackNo) then Window(seg.window, seg.seqNo, seg.ackNo) else t.win
    ensures AckEffect(t.(win := t'.win, tim := t.tim.(persist := t.tim.persist || Shrinks(t, h, seg, ackAt))), h, seg, ackAt, t', h')
    ensures NothingNew(t, h, seg, ackAt) ==> h'.snd == h.snd && t'.tim.rto == t.tim.rto
    ensures Running(t, h) && t.tim.rto > 0 ==> Running(t', h')
    ensures Calm(t.tim) && Prompt(t.tim) ==> Calm(t'.tim)
  {
    UpdatedOk(t, h, seg);
    NextCompared(t.snd, h.snd, Shut(t.state), seg.ackNo, ackAt);
    UpdatedIs(t, h, seg, ackAt);
    t', h', stop := UsefulAck(Updated(t, seg), h, seg, ackAt);
    SendingTwice(t, h, Updated(t, seg), h, t', h');
  }

  method UsefulAck(t: Tcb, ghost h: History, seg: Segment, ghost ackAt: nat) returns (t': Tcb, ghost h': History, stop: bool)
    requires Owing(t, h, 0) && Settled(t, h) && t.live && h.snd.unaAt <= ackAt <= h.snd.nxtAt && seg.ackNo == Wrap(h.snd.iss + ackAt)
    requires seg.ackNo == t.snd.una <==> ackAt == h.snd.unaAt
    ensures Valid(t', h') && SendingOnly(t, h, t', h') && h'.snd.unaAt == ackAt && t'.win == t.win
    ensures (stop <==> !t'.live) && (stop ==> !Receiving(t.state))
    ensures t'.state == StateAfter(t.state, ackAt == |h.snd.sent| + 1) && (stop <==> t.state.LastAck? && ackAt == |h.snd.sent| + 1)
    ensures AckEffect(t, h, seg, ackAt, t', h')
    ensures NothingNew(t, h, seg, ackAt) ==> h'.snd == h.snd && t'.tim.rto == t.tim.rto
    ensures Running(t, h) && t.tim.rto > 0 ==> Running(t', h')
    ensures Calm(t.tim) && Prompt(t.tim) ==> Calm(t'.tim)
  {
    var t1;
    t1, h' := AcceptAck(t, h, seg, ackAt);
    t', stop := FinAcknowledged(t1, h');
    SendingTwice(t, h, t1, h', t', h');
  }

  lemma NextCompared(o: Out, s: Stream, shut: bool, ack: u32, ackAt: nat)
    requires SndOk(o, s, shut) && ack == Wrap(s.iss + ackAt) && s.unaAt <= ackAt <= s.nxtAt
    ensures ack == o.nxt <==> ackAt == s.nxtAt
  {
    SeqGtAt(s.iss, ackAt, s.nxtAt);
  }

  lemma {:induction false} AckCompared(o: Out, s: Stream, shut: bool, ack: u32, ackAt: int)
    requires SndOk(o, s, shut) && ack == Wrap(s.iss + ackAt) && Near(ackAt, s.unaAt) && Near(ackAt, s.nxtAt)
    ensures SeqGt(o.una, ack) <==> s.unaAt > ackAt
    ensures SeqGt(ack, o.nxt) <==> ackAt > s.nxtAt
    ensures ack == o.una <==> ackAt == s.unaAt
  {
    SeqGtAt(s.iss, s.unaAt, ackAt);
    SeqGtAt(s.iss, ackAt, s.nxtAt);
  }

  /** tcp_reset_response: a RST goes out and the session is gone. */
  method Reset(t: Tcb, ghost h: History, seqNo: u32, ackNo: u32, ack: bool) returns (t': Tcb, ghost h': History)
    requires Owing(t, h, 0)
    ensures Valid(t', h') && !t'.live && t'.out == t.out + [Segment(seqNo, ackNo, false, ack, false, true, false, 0, [])]
    ensures t' == t.(live := false, out := t'.out) && h' == h.(places := h'.places)
  {
    ghost var p := Place(seqNo - h.snd.iss, ackNo - h.rcv.irs);
    t', h' := Emit(t, h, Segment(seqNo, ackNo, false, ack, false, true, false, 0, []), p.at, p.ackAt);
    t' := t'.(live := false);
  }

  /** The peer's FIN, taken in ESTABLISHED, stops the timer while something is still outstanding. */
  predicate TimerStopped(t: Tcb, h: History, h': History) {
    t.state.Established? && !h.rcv.eof && h'.rcv.eof && h'.snd.unaAt < h'.snd.nxtAt
  }

  /** The peer's FIN is in order. */
  method FinArrives(t: Tcb, ghost h: History, ghost owed: nat) returns (t': Tcb, ghost h': History)
    requires Owing(t, h, owed) && Settled(t, h)
    ensures Owing(t', h', owed + 1) && Settled(t', h') && !Receiving(t'.state) && Shut(t'.state) == Shut(t.state)
    ensures t' == t.(state := t'.state, tim := t'.tim, cantRecv := t'.cantRecv)
    ensures h' == h.(rcv := h.rcv.(eof := h.rcv.eof || Receiving(t.state)))
    ensures t'.state == match t.state
                        case Established => CloseWait
                        case FinWait1 => if h.snd.unaAt == h.snd.nxtAt then TimeWait else Closing
                        case FinWait2 => TimeWait
                        case _ => t.state
    ensures t'.cantRecv == (t.cantRecv || Receiving(t.state))
    ensures t'.tim == t.tim.(timer := if t.state.Established? then 0 else if t'.state.TimeWait? then TIME_WAIT_TO_CLOSE else t.tim.timer)
    ensures t.live ==> (Running(t, h) ==> (Running(t', h') <==> !TimerStopped(t, h, h')))
  {
    SeqGtAt(h.snd.iss, h.snd.unaAt, h.snd.nxtAt);
    t', h' := t, h.(rcv := h.rcv.(eof := h.rcv.eof || Receiving(t.state)));
    match t.state
    case Established =>
      t' := t.(state := CloseWait, cantRecv := true, tim := t.tim.(timer := 0));
    case FinWait1 =>
      if t.snd.una == t.snd.nxt {
        t' := t.(state := TimeWait, cantRecv := true, tim := t.tim.(timer := TIME_WAIT_TO_CLOSE));
      } else {
        t' := t.(state := Closing, cantRecv := true);
      }
    case FinWait2 =>
      t' := t.(state := TimeWait, cantRecv := true, tim := t.tim.(timer := TIME_WAIT_TO_CLOSE));
    case TimeWait =>
      t' := t.(tim := t.tim.(timer := TIME_WAIT_TO_CLOSE));
    case _ =>
  }

  /** Where a FIN takes the state, with or without something of ours outstanding. */
  function FinState(state: State, idle: bool): State {
    match state
    case Established => CloseWait
    case FinWait1 => if idle then TimeWait else Closing
    case FinWait2 => TimeWait
    case _ => state
  }

  /** Text changes the state by its FIN only. */
  predicate FinEffect(t: Tcb, h: History, fin: bool, t': Tcb) {
    && t'.state == (if fin then FinState(t.state, h.snd.unaAt == h.snd.nxtAt) else t.state)
    && t'.cantRecv == (t.cantRecv || (fin && Receiving(t.state)))
    && t'.tim == if !fin then t.tim else t.tim.(timer := if t.state.Established? then 0
                                                         else if t'.state.TimeWait? then TIME_WAIT_TO_CLOSE else t.tim.timer)
  }

  /** In-order data is queued, and the FIN behind it noted; nothing of it has been acknowledged yet. */
  method QueueText(t: Tcb, ghost h: History, seg: Segment, size: nat) returns (t': Tcb, ghost h': History)
    requires Valid(t, h) && t.live && !seg.syn
    ensures Owing(t', h', |seg.data| + Count(seg.fin)) && Settled(t', h') && Shut(t'.state) == Shut(t.state)
    ensures t' == t.(state := t'.state, tim := t'.tim, cantRecv := t'.cantRecv, rcv := t.rcv.(rcvq := t'.rcv.rcvq))
    ensures h' == h.(rcv := h.rcv.(recvd := h.rcv.recvd + if Receiving(t.state) then seg.data else [],
                                   eof := h.rcv.eof || (seg.fin && Receiving(t.state))))
    ensures Receiving(t.state) ==> Contents(t'.rcv.rcvq) == Contents(t.rcv.rcvq) + seg.data
    ensures t'.rcv.rcvq == if Receiving(t.state) then Compressed(t.rcv.rcvq, Buf(size, seg.data)) else t.rcv.rcvq
    ensures FinEffect(t, h, seg.fin, t')
    ensures Running(t, h) ==> (Running(t', h') <==> !(seg.fin && t.state.Established? && h.snd.unaAt < h.snd.nxtAt))
  {
    t', h' := t, h;
    if Receiving(t.state) {
      var b := Buf(size, seg.data);
      TakenOk(t.rcv, h.rcv, b);
      CompressedGrows(t.rcv.rcvq, b, 0);
      t' := t.(rcv := t.rcv.(rcvq := Compressed(t.rcv.rcvq, b)));
      h' := h.(rcv := h.rcv.(recvd := h.rcv.recvd + seg.data));
    }
    if seg.fin {
      t', h' := FinArrives(t', h', |seg.data|);
    }
  }

  /** In-order data and FIN. */
  method TakeText(t: Tcb, ghost h: History, seg: Segment, size: nat) returns (t': Tcb, ghost h': History)
    requires Valid(t, h) && t.live && !seg.syn && (seg.data != [] ==> !Receiving(t.state) || !t.cantRecv)
    ensures Valid(t', h') && Shut(t'.state) == Shut(t.state) && t.out <= t'.out && t'.cfg == t.cfg && h'.snd == h.snd
    ensures h'.rcv == h.rcv.(advAt := h'.rcv.advAt, nextAt := h.rcv.nextAt + SegLen(seg),
                             recvd := h.rcv.recvd + if Receiving(t.state) then seg.data else [],
                             eof := h.rcv.eof || (seg.fin && Receiving(t.state)))
    ensures h.rcv.advAt <= h'.rcv.advAt && (WindowOk(h.rcv) && h'.rcv.nextAt <= h.rcv.advAt ==> WindowOk(h'.rcv))
    ensures Receiving(t.state) ==> Contents(t'.rcv.rcvq) == Contents(t.rcv.rcvq) + seg.data
    ensures t'.rcv.rcvq == if Receiving(t.state) then Compressed(t.rcv.rcvq, Buf(size, seg.data)) else t.rcv.rcvq
    ensures t'.out == t.out + if SegLen(seg) > 0 then [Bare(t')] else []
    ensures SegLen(seg) > 0 ==> h'.rcv.advAt == h.rcv.advAt + Offered(t.cfg, t'.rcv.(adv := t.rcv.adv))
    ensures t'.live && FinEffect(t, h, seg.fin, t') && t'.snd == t.snd && t'.win == t.win && t'.closed == t.closed
    ensures Running(t, h) ==> (Running(t', h') <==> !(seg.fin && t.state.Established? && h.snd.unaAt < h.snd.nxtAt))
  {
    t', h' := QueueText(t, h, seg, size);
    if SegLen(seg) > 0 {
      t', h' := AckNow(t', h', SegLen(seg));
    }
  }

  /** The text of a trimmed segment at position from is taken: it is in order, and the socket still receives. */
  predicate Takes(t: Tcb, h: History, seg: Segment, from: int) {
    (SegLen(seg) == 0 || from == h.rcv.nextAt) && (seg.data == [] || !Receiving(t.state) || !t.cantRecv)
  }

  /** The receiving half after this text. */
  predicate HeardAfter(t: Tcb, h: Heard, takes: bool, data: seq<byte>, fin: bool, h': Heard) {
    && h' == h.(advAt := h'.advAt, nextAt := h.nextAt + if takes then |data| + Count(fin) else 0,
                recvd := h.recvd + if takes && Receiving(t.state) then data else [],
                eof := h.eof || (takes && fin && Receiving(t.state)))
    && h.advAt <= h'.advAt && (WindowOk(h) && h'.nextAt <= h.advAt ==> WindowOk(h'))
  }

  method ProcessText(t: Tcb, ghost h: History, seg: Segment, size: nat, ghost from: int) returns (t': Tcb, ghost h': History)
    requires Valid(t, h) && t.live && !seg.syn && seg.seqNo == Wrap(h.rcv.irs + from) && Near(from, h.rcv.nextAt)
    ensures Valid(t', h') && Shut(t'.state) == Shut(t.state) && t.out <= t'.out && t'.cfg == t.cfg && h'.snd == h.snd
    ensures HeardAfter(t, h.rcv, Takes(t, h, seg, from), seg.data, seg.fin, h'.rcv)
    ensures t'.snd == t.snd && t'.win == t.win
    ensures if SegLen(seg) > 0 && from != h.rcv.nextAt then t' == t.(rcv := t.rcv.(adv := t'.rcv.adv), out := t.out + [Bare(t')])
            else if Takes(t, h, seg, from) then
              t'.live && FinEffect(t, h, seg.fin, t') && t'.out == t.out + if SegLen(seg) > 0 then [Bare(t')] else []
            else t' == t.(live := false, out := t.out + [Segment(seg.ackNo, 0, false, false, false, true, false, 0, [])])
    ensures Running(t, h) ==> (Running(t', h') <==> !TimerStopped(t, h, h'))
  {
    SeqGtAt(h.rcv.irs, from, h.rcv.nextAt);
    if SegLen(seg) > 0 && seg.seqNo != t.rcv.next {
      t', h' := AckNow(t, h, 0);
    } else if seg.data != [] && Receiving(t.state) && t.cantRecv {
      t', h' := Reset(t, h, seg.ackNo, 0, false);
    } else {
      t', h' := TakeText(t, h, seg, size);
    }
  }

  /** The window against which an arrival is checked. */
  function OpenWindow(t: Tcb): nat {
    ReceiveWindow(SpaceLeft(t.cfg, t.rcv), t.rcv.adv, t.rcv.next)
  }

  /** An arrival whose acknowledgement and text are looked at, in a window of w from position next on. */
  predicate ConsideredIn(next: int, w: nat, seg: Segment, at: int) {
    Acceptable(at, SegLen(seg), next, w) && !seg.rst && !(seg.syn && next <= at) && seg.ack
  }

  predicate Considered(t: Tcb, h: History, seg: Segment, at: int) {
    ConsideredIn(h.rcv.nextAt, OpenWindow(t), seg, at)
  }

  /** The part of the data that lies in the window, from the expected position on. */
  function PartIn(next: int, w: nat, seg: Segment, at: int): seq<byte> {
    if at <= next then Overlap(seg.data, DataAt(seg, at), next, next + w) else []
  }

  /** The FIN lies in the window, and everything before it has arrived or arrives with it. */
  predicate FinIn(next: int, w: nat, seg: Segment, at: int) {
    seg.fin && at <= next && DataAt(seg, at) + |seg.data| <= next + w
  }

  /** What an arriving segment adds: exactly the in-order part of it that lies in the window. */
  predicate ReceivedIn(t: Tcb, h: History, w: nat, seg: Segment, at: int, ackAt: int, h': Heard) {
    var data := PartIn(h.rcv.nextAt, w, seg, at);
    var takes := ConsideredIn(h.rcv.nextAt, w, seg, at) && ackAt <= h.snd.nxtAt && at <= h.rcv.nextAt
                 && (data == [] || !Receiving(t.state) || !t.cantRecv);
    HeardAfter(t, h.rcv, takes, data, FinIn(h.rcv.nextAt, w, seg, at), h')
  }

  predicate Received(t: Tcb, h: History, seg: Segment, at: int, ackAt: int, h': Heard) {
    ReceivedIn(t, h, OpenWindow(t), seg, at, ackAt, h')
  }

  /** A segment that the session can place: its numbers are near those expected. */
  predicate Placed(t: Tcb, h: History, seg: Segment, at: int, ackAt: int) {
    && seg.seqNo == Wrap(h.rcv.irs + at) && Comparable(seg, at, h.rcv.nextAt)
    && (seg.ack && !seg.rst ==> seg.ackNo == Wrap(h.snd.iss + ackAt) && Near(ackAt, h.snd.unaAt) && Near(ackAt, h.snd.nxtAt))
  }

  lemma {:induction false} OpenWindowSmall(t: Tcb)
    requires t.cfg.Ok()
    ensures OpenWindow(t) < HALF
  {
  }

  /** What the rest of an acceptable segment makes of the session and of what goes out. The window is the segment's, unless that is older
      or acknowledges what is not outstanding. An acknowledgement of what was never sent is answered and ends the processing. Everything
      that has a length is answered, out of order or not, and the state follows our FIN's acknowledgement and the peer's FIN. */
  predicate Outcome(t: Tcb, h: History, seg: Segment, from: int, ackAt: int, t': Tcb, h': History) {
    && (t'.win == if h.snd.unaAt <= ackAt <= h.snd.nxtAt && Newer(t.win, seg.seqNo, seg.ackNo)
                  then Window(seg.window, seg.seqNo, seg.ackNo) else t.win)
    && (ackAt > h.snd.nxtAt ==> t' == t.(rcv := t.rcv.(adv := t'.rcv.adv), out := t.out + [Bare(t')]))
    && (t'.live && SegLen(seg) > 0 ==> t.out < t'.out && t'.out[|t'.out| - 1] == Bare(t'))
    && (ackAt <= h.snd.nxtAt ==>
          var state := if h.snd.unaAt <= ackAt then StateAfter(t.state, ackAt == |h.snd.sent| + 1) else t.state;
          var takes := from == h.rcv.nextAt && (seg.data == [] || !Receiving(t.state) || !t.cantRecv);
          && (t'.live ==> t'.state == if seg.fin && takes then FinState(state, h'.snd.unaAt == h'.snd.nxtAt) else state)
          && (t'.live <==> !(h.snd.unaAt <= ackAt && t.state.LastAck? && ackAt == |h.snd.sent| + 1)
                           && (from != h.rcv.nextAt || takes)))
  }

  /** The session goes on with the text after this acknowledgement. */
  predicate GoesOn(t: Tcb, h: History, seg: Segment, ackAt: int, t1: Tcb, h1: History) {
    && SendingOnly(t, h, t1, h1) && ackAt <= h.snd.nxtAt && t1.live && (t.state.LastAck? ==> h.snd.unaAt != |h.snd.sent| + 1)
    && (t1.win == if h.snd.unaAt <= ackAt <= h.snd.nxtAt && Newer(t.win, seg.seqNo, seg.ackNo)
                  then Window(seg.window, seg.seqNo, seg.ackNo) else t.win)
    && (if h.snd.unaAt <= ackAt
        then t1.state == StateAfter(t.state, ackAt == |h.snd.sent| + 1) && !(t.state.LastAck? && ackAt == |h.snd.sent| + 1)
        else t1 == t && h1 == h)
  }

  /** The two halves of the processing put together. */
  lemma {:induction false} OutcomeOf(t: Tcb, h: History, seg: Segment, from: int, ackAt: int, t1: Tcb, h1: History, t': Tcb, h': History)
    requires GoesOn(t, h, seg, ackAt, t1, h1)
    requires t'.win == t1.win && h'.snd == h1.snd
    requires if SegLen(seg) > 0 && from != h1.rcv.nextAt then t' == t1.(rcv := t1.rcv.(adv := t'.rcv.adv), out := t1.out + [Bare(t')])
             else if Takes(t1, h1, seg, from) then
               t'.live && FinEffect(t1, h1, seg.fin, t') && t'.out == t1.out + if SegLen(seg) > 0 then [Bare(t')] else []
             else t' == t1.(live := false, out := t1.out + [Segment(seg.ackNo, 0, false, false, false, true, false, 0, [])])
    ensures Outcome(t, h, seg, from, ackAt, t', h')
  {
  }

  /** What the text adds is what it would have added before the acknowledgement was processed. */
  lemma {:induction false} HeardThrough(t: Tcb, h: History, seg: Segment, from: int, t1: Tcb, h1: History, h': Heard)
    requires SendingOnly(t, h, t1, h1) && HeardAfter(t1, h1.rcv, Takes(t1, h1, seg, from), seg.data, seg.fin, h')
    ensures HeardAfter(t, h.rcv, Takes(t, h, seg, from), seg.data, seg.fin, h')
  {
  }

  /** The text behind an acknowledgement. */
  method AcceptText(ghost t: Tcb, ghost h: History, seg: Segment, size: nat, ghost from: int, ghost ackAt: int, t1: Tcb, ghost h1: History)
      returns (t': Tcb, ghost h': History)
    requires Valid(t1, h1) && !seg.syn && seg.seqNo == Wrap(h.rcv.irs + from) && Near(from, h.rcv.nextAt)
    requires GoesOn(t, h, seg, ackAt, t1, h1)
    ensures Valid(t', h') && Shut(t'.state) == Shut(t.state) && t.out <= t'.out && t'.cfg == t.cfg && h'.snd == h1.snd
    ensures HeardAfter(t, h.rcv, Takes(t, h, seg, from), seg.data, seg.fin, h'.rcv) && Outcome(t, h, seg, from, ackAt, t', h')
    ensures SameEstimate(t1.tim, t'.tim) && (Running(t1, h1) ==> (Running(t', h') <==> !TimerStopped(t1, h1, h')))
  {
    t', h' := ProcessText(t1, h1, seg, size, from);
    HeardThrough(t, h, seg, from, t1, h1, h'.rcv);
    OutcomeOf(t, h, seg, from, ackAt, t1, h1, t', h');
  }

  /** An acceptable segment, already trimmed to the window. */
  method Accept(t: Tcb, ghost h: History, seg: Segment, size: nat, ghost from: int, ghost ackAt: int) returns (t': Tcb, ghost h': History)
    requires Valid(t, h) && t.live && !seg.syn && seg.ack && !seg.rst
    requires seg.seqNo == Wrap(h.rcv.irs + from) && Near(from, h.rcv.nextAt)
    requires seg.ackNo == Wrap(h.snd.iss + ackAt) && Near(ackAt, h.snd.unaAt) && Near(ackAt, h.snd.nxtAt)
    ensures Valid(t', h') && Shut(t'.state) == Shut(t.state) && t.out <= t'.out && t'.cfg == t.cfg
    ensures h'.snd.sent == h.snd.sent && h'.snd.iss == h.snd.iss
    ensures h'.snd.unaAt == if h.snd.unaAt < ackAt <= h.snd.nxtAt then ackAt else h.snd.unaAt
    ensures HeardAfter(t, h.rcv, (ackAt <= h.snd.nxtAt && Takes(t, h, seg, from)), seg.data, seg.fin, h'.rcv)
            || (!t'.live && !Receiving(t.state) && HeardAfter(t, h.rcv, false, [], false, h'.rcv))
    ensures Outcome(t, h, seg, from, ackAt, t', h')
    ensures NothingNew(t, h, seg, ackAt) ==> h'.snd == h.snd && t'.tim.rto == t.tim.rto
    ensures Running(t, h) && t.tim.rto > 0 ==> (Running(t', h') <==> !TimerStopped(t, h, h'))
    ensures Calm(t.tim) && Prompt(t.tim) ==> Calm(t'.tim)
  {
    var t1, stop;
    t1, h', stop := ProcessAck(t, h, seg, ackAt);
    if stop {
      t' := t1;
    } else {
      t', h' := AcceptText(t, h, seg, size, from, ackAt, t1, h');
    }
  }

  lemma {:induction false} CutReceived(t: Tcb, h: History, w: nat, seg: Segment, at: int, ackAt: int, cut: Segment, h': Heard)
    requires Cut(seg, at, h.rcv.nextAt, w, h.rcv.irs, cut) && ConsideredIn(h.rcv.nextAt, w, seg, at)
    requires HeardAfter(t, h.rcv, (ackAt <= h.snd.nxtAt && Takes(t, h, cut, Max(at, h.rcv.nextAt))), cut.data, cut.fin, h')
    ensures ReceivedIn(t, h, w, seg, at, ackAt, h')
  {
    CutParts(h.rcv.nextAt, h.rcv.irs, w, seg, at, cut);
  }

  lemma {:induction false} CutParts(next: nat, irs: u32, w: nat, seg: Segment, at: int, cut: Segment)
    requires Cut(seg, at, next, w, irs, cut) && ConsideredIn(next, w, seg, at)
    ensures at <= next ==> cut.data == PartIn(next, w, seg, at) && cut.fin == FinIn(next, w, seg, at) && !cut.syn
    ensures at > next ==> PartIn(next, w, seg, at) == [] && !FinIn(next, w, seg, at) && !cut.syn
  {
  }

  lemma {:induction false} NothingReceived(t: Tcb, h: History, seg: Segment, at: int, ackAt: int, h': Heard)
    requires !Considered(t, h, seg, at) && HeardAfter(t, h.rcv, false, [], false, h')
    ensures Received(t, h, seg, at, ackAt, h')
  {
  }

  /** What an arriving segment does to the session: only an acknowledgement of something outstanding moves the sending half, and
      only the in-order part of the text in the window moves the receiving half. */
  predicate Stepped(t: Tcb, h: History, seg: Segment, at: int, ackAt: int, t': Tcb, h': History) {
    && Shut(t'.state) == Shut(t.state) && t.out <= t'.out && t'.cfg == t.cfg
    && h'.snd.sent == h.snd.sent && h'.snd.iss == h.snd.iss
    && (h'.snd.unaAt == if Considered(t, h, seg, at) && h.snd.unaAt < ackAt <= h.snd.nxtAt then ackAt else h.snd.unaAt)
    && (Received(t, h, seg, at, ackAt, h'.rcv)
        || (!t'.live && !Receiving(t.state) && HeardAfter(t, h.rcv, false, [], false, h'.rcv)))
  }

  /** What an arriving segment makes of the session and of what goes out, by itself and not by what is left of it. Out of the window it is
      only answered. A RST ends the session, except in TIME-WAIT, where it does nothing; a SYN ends it with a RST; without an ACK nothing
      happens. Otherwise as for the part in the window. */
  predicate Answered(t: Tcb, h: History, seg: Segment, at: int, ackAt: int, t': Tcb, h': History) {
    var ok, from, takes := Acceptable(at, SegLen(seg), h.rcv.nextAt, OpenWindow(t)), Max(at, h.rcv.nextAt),
                           at <= h.rcv.nextAt && (PartIn(h.rcv.nextAt, OpenWindow(t), seg, at) == [] || !Receiving(t.state) || !t.cantRecv);
    if !ok then t' == t.(rcv := t.rcv.(adv := t'.rcv.adv), out := t.out + [Bare(t')])
    else if seg.rst then t' == t.(live := t.state.TimeWait?)
    else if seg.syn && h.rcv.nextAt <= at then
      t' == t.(live := false, out := t'.out) && |t'.out| == |t.out| + 1
      && var r := t'.out[|t.out|]; r.rst && r.data == [] && r.ack == !seg.ack && (seg.ack ==> r.seqNo == seg.ackNo)
    else if !seg.ack then t' == t
    else
      && (t'.win == if h.snd.unaAt <= ackAt <= h.snd.nxtAt && Newer(t.win, Wrap(h.rcv.irs + from), seg.ackNo)
                    then Window(seg.window, Wrap(h.rcv.irs + from), seg.ackNo) else t.win)
      && (ackAt > h.snd.nxtAt ==> t' == t.(rcv := t.rcv.(adv := t'.rcv.adv), out := t.out + [Bare(t')]))
      && (t'.live && SegLen(seg) > 0 ==> t.out < t'.out && t'.out[|t'.out| - 1] == Bare(t'))
      && (ackAt <= h.snd.nxtAt ==>
            var state := if h.snd.unaAt <= ackAt then StateAfter(t.state, ackAt == |h.snd.sent| + 1) else t.state;
            && (t'.live ==> t'.state == if takes && FinIn(h.rcv.nextAt, OpenWindow(t), seg, at)
                                        then FinState(state, h'.snd.unaAt == h'.snd.nxtAt) else state)
            && (t'.live <==> !(h.snd.unaAt <= ackAt && t.state.LastAck? && ackAt == |h.snd.sent| + 1) && (at > h.rcv.nextAt || takes)))
  }

  lemma {:induction false} AnsweredFrom(t: Tcb, h: History, seg: Segment, at: int, ackAt: int, cut: Segment, t': Tcb, h': History)
    requires Cut(seg, at, h.rcv.nextAt, OpenWindow(t), h.rcv.irs, cut) && Considered(t, h, seg, at)
    requires Outcome(t, h, cut, Max(at, h.rcv.nextAt), ackAt, t', h')
    ensures Answered(t, h, seg, at, ackAt, t', h')
  {
    CutParts(h.rcv.nextAt, h.rcv.irs, OpenWindow(t), seg, at, cut);
    CutLength(h.rcv.nextAt, h.rcv.irs, OpenWindow(t), seg, at, cut);
  }

  /** What has a length has one after trimming. */
  lemma {:induction false} CutLength(next: nat, irs: u32, w: nat, seg: Segment, at: int, cut: Segment)
    requires Cut(seg, at, next, w, irs, cut) && ConsideredIn(next, w, seg, at)
    ensures SegLen(seg) > 0 ==> SegLen(cut) > 0
  {
  }

  /** RST, SYN and a missing ACK end the processing of an acceptable segment. */
  method Refuse(t: Tcb, ghost h: History, seg: Segment) returns (t': Tcb, ghost h': History)
    requires Valid(t, h) && t.live && (seg.rst || seg.syn || !seg.ack)
    ensures Valid(t', h') && t' == t.(live := t'.live, out := t'.out) && t.out <= t'.out && h' == h.(places := h'.places)
    ensures t'.live <==> if seg.rst then t.state.TimeWait? else !seg.syn
    ensures t'.out == t.out + if seg.rst || !seg.syn then []
                              else if seg.ack then [Segment(seg.ackNo, 0, false, false, false, true, false, 0, [])]
                              else [Segment(0, Wrap(seg.seqNo + SegLen(seg)), false, true, false, true, false, 0, [])]
  {
    t', h' := t, h;
    if seg.rst {
      t' := t.(live := t.state.TimeWait?);
    } else if seg.syn && !seg.ack {
      t', h' := Reset(t, h, 0, Wrap(seg.seqNo + SegLen(seg)), true);
    } else if seg.syn {
      t', h' := Reset(t, h, seg.ackNo, 0, false);
    }
  }

  /** A segment that is not looked at: out of the window, or refused. */
  method Ignore(t: Tcb, ghost h: History, seg: Segment, ok: bool, cut: Segment, ghost at: int, ghost ackAt: int)
      returns (t': Tcb, ghost h': History)
    requires Valid(t, h) && t.live && !Considered(t, h, seg, at) && (ok ==> cut.rst || cut.syn || !cut.ack)
    requires ok <==> Acceptable(at, SegLen(seg), h.rcv.nextAt, OpenWindow(t))
    requires ok ==> Cut(seg, at, h.rcv.nextAt, OpenWindow(t), h.rcv.irs, cut)
    ensures Valid(t', h') && Stepped(t, h, seg, at, ackAt, t', h') && Answered(t, h, seg, at, ackAt, t', h')
    ensures h'.snd == h.snd && t'.tim == t.tim && (Running(t, h) ==> Running(t', h') && !TimerStopped(t, h, h'))
  {
    if ok {
      t', h' := Refuse(t, h, cut);
    } else {
      t', h' := AckNow(t, h, 0);
    }
    NothingReceived(t, h, seg, at, ackAt, h'.rcv);
  }

  /** A segment that is looked at. */
  method Consider(t: Tcb, ghost h: History, seg: Segment, cut: Segment, size: nat, ghost at: int, ghost ackAt: int)
      returns (t': Tcb, ghost h': History)
    requires Valid(t, h) && t.live && Placed(t, h, seg, at, ackAt) && Considered(t, h, seg, at) && OpenWindow(t) < HALF
    requires Cut(seg, at, h.rcv.nextAt, OpenWindow(t), h.rcv.irs, cut)
    ensures Valid(t', h') && Stepped(t, h, seg, at, ackAt, t', h') && Answered(t, h, seg, at, ackAt, t', h')
    ensures NothingNew(t, h, seg, ackAt) ==> h'.snd == h.snd && t'.tim.rto == t.tim.rto
    ensures Running(t, h) && t.tim.rto > 0 ==> (Running(t', h') <==> !TimerStopped(t, h, h'))
    ensures Calm(t.tim) && Prompt(t.tim) ==> Calm(t'.tim)
  {
    ghost var from := Max(at, h.rcv.nextAt);
    CutPlaced(t, h, seg, at, ackAt, cut);
    t', h' := Accept(t, h, cut, size, from, ackAt);
    AcceptedStep(t, h, seg, at, ackAt, cut, t', h');
    AnsweredFrom(t, h, seg, at, ackAt, cut, t', h');
  }

  lemma {:induction false} CutPlaced(t: Tcb, h: History, seg: Segment, at: int, ackAt: int, cut: Segment)
    requires Placed(t, h, seg, at, ackAt) && Considered(t, h, seg, at) && Cut(seg, at, h.rcv.nextAt, OpenWindow(t), h.rcv.irs, cut)
    ensures !cut.syn && cut.ack && !cut.rst && cut.window == seg.window
    ensures cut.seqNo == Wrap(h.rcv.irs + Max(at, h.rcv.nextAt)) && Near(Max(at, h.rcv.nextAt), h.rcv.nextAt)
    ensures cut.ackNo == Wrap(h.snd.iss + ackAt) && Near(ackAt, h.snd.unaAt) && Near(ackAt, h.snd.nxtAt)
  {
  }

  lemma {:induction false} AcceptedStep(t: Tcb, h: History, seg: Segment, at: int, ackAt: int, cut: Segment, t': Tcb, h': History)
    requires Cut(seg, at, h.rcv.nextAt, OpenWindow(t), h.rcv.irs, cut) && Considered(t, h, seg, at)
    requires Shut(t'.state) == Shut(t.state) && t.out <= t'.out && t'.cfg == t.cfg && h'.snd.sent == h.snd.sent && h'.snd.iss == h.snd.iss
    requires h'.snd.unaAt == if h.snd.unaAt < ackAt <= h.snd.nxtAt then ackAt else h.snd.unaAt
    requires HeardAfter(t, h.rcv, (ackAt <= h.snd.nxtAt && Takes(t, h, cut, Max(at, h.rcv.nextAt))), cut.data, cut.fin, h'.rcv)
             || (!t'.live && !Receiving(t.state) && HeardAfter(t, h.rcv, false, [], false, h'.rcv))
    ensures Stepped(t, h, seg, at, ackAt, t', h')
  {
    if HeardAfter(t, h.rcv, (ackAt <= h.snd.nxtAt && Takes(t, h, cut, Max(at, h.rcv.nextAt))), cut.data, cut.fin, h'.rcv) {
      CutReceived(t, h, OpenWindow(t), seg, at, ackAt, cut, h'.rcv);
    }
  }

  /** A SYN alone, which in TIME-WAIT asks for a new connection (RFC 6191). */
  predicate AsksAnew(t: Tcb, seg: Segment) {
    t.state.TimeWait? && seg.syn && !seg.fin && !seg.ack && !seg.rst
  }

  /** tcp_up for a session from ESTABLISHED on; a new connection goes to the listening sockets, and this session stays as it is. */
  method Up(t: Tcb, ghost h: History, seg: Segment, size: nat, ghost at: int, ghost ackAt: int)
      returns (t': Tcb, ghost h': History, anew: bool)
    requires Valid(t, h) && t.live && Placed(t, h, seg, at, ackAt)
    ensures Valid(t', h') && Stepped(t, h, seg, at, ackAt, t', h')
    ensures h.rcv.recvd <= h'.rcv.recvd && Contents(t'.rcv.rcvq) == Contents(t.rcv.rcvq) + h'.rcv.recvd[|h.rcv.recvd|..]
    ensures anew <==> t.state.TimeWait? && seg.syn && !(seg.fin || seg.ack || seg.rst) && at >= h.rcv.nextAt
    ensures if t.state.TimeWait? && seg.syn && !(seg.fin || seg.ack || seg.rst) then t' == t && h' == h else Answered(t, h, seg, at, ackAt, t', h')
    ensures NothingNew(t, h, seg, ackAt) ==> h'.snd == h.snd && t'.tim.rto == t.tim.rto
    ensures Running(t, h) && t.tim.rto > 0 ==> (Running(t', h') <==> !TimerStopped(t, h, h'))
    ensures Calm(t.tim) && Prompt(t.tim) ==> Calm(t'.tim)
  {
    if AsksAnew(t, seg) {
      SeqGtAt(h.rcv.irs, at, h.rcv.nextAt);
      t', h', anew := t, h, SeqGe(seg.seqNo, t.rcv.next);
      NothingReceived(t, h, seg, at, ackAt, h'.rcv);
    } else {
      anew := false;
      t', h' := Process(t, h, seg, size, at, ackAt);
    }
    StepQueues(t, h, seg, at, ackAt, t', h');
  }

  /** The window checks, and what follows from them. */
  method Process(t: Tcb, ghost h: History, seg: Segment, size: nat, ghost at: int, ghost ackAt: int) returns (t': Tcb, ghost h': History)
    requires Valid(t, h) && t.live && Placed(t, h, seg, at, ackAt)
    ensures Valid(t', h') && Stepped(t, h, seg, at, ackAt, t', h') && Answered(t, h, seg, at, ackAt, t', h')
    ensures NothingNew(t, h, seg, ackAt) ==> h'.snd == h.snd && t'.tim.rto == t.tim.rto
    ensures Running(t, h) && t.tim.rto > 0 ==> (Running(t', h') <==> !TimerStopped(t, h, h'))
    ensures Calm(t.tim) && Prompt(t.tim) ==> Calm(t'.tim)
  {
    OpenWindowSmall(t);
    var ok, cut := Trim(seg, t.rcv.next, OpenWindow(t), h.rcv.irs, at, h.rcv.nextAt);
    if !ok || cut.rst || cut.syn || !cut.ack {
      t', h' := Ignore(t, h, seg, ok, cut, at, ackAt);
    } else {
      t', h' := Consider(t, h, seg, cut, size, at, ackAt);
    }
  }

  lemma {:induction false} StepQueues(t: Tcb, h: History, seg: Segment, at: int, ackAt: int, t': Tcb, h': History)
    requires RcvOk(t.rcv, h.rcv, Receiving(t.state), 0) && RcvOk(t'.rcv, h'.rcv, Receiving(t'.state), 0)
    requires Stepped(t, h, seg, at, ackAt, t', h')
    ensures h.rcv.recvd <= h'.rcv.recvd && Contents(t'.rcv.rcvq) == Contents(t.rcv.rcvq) + h'.rcv.recvd[|h.rcv.recvd|..]
  {
    QueueGrows(Contents(t.rcv.rcvq), h.rcv.recvd, h.rcv.readAt, h'.rcv.recvd);
  }

  /** Whatever is added to the stream is added to the queue. */
  lemma QueueGrows(q: seq<byte>, recvd: seq<byte>, readAt: nat, recvd': seq<byte>)
    requires readAt <= |recvd| && q == recvd[readAt..] && recvd <= recvd'
    ensures recvd'[readAt..] == q + recvd'[|recvd|..]
  {
  }

  lemma PartLies(peer: seq<byte>, p: int, data: seq<byte>, from: int, end: int)
    requires Lies(peer, p, data) && p <= from <= end <= p + |data|
    ensures Lies(peer, from, data[from - p..end - p])
  {
    var part := data[from - p..end - p];
    forall j | 0 <= j < |part| ensures part[j] == peer[from + j] {
      assert part[j] == data[from - p + j];
    }
  }

  lemma TextContinues(recvd: seq<byte>, text: seq<byte>, peer: seq<byte>)
    requires recvd <= peer && Lies(peer, |recvd|, text)
    ensures recvd + text <= peer
  {
    var all := recvd + text;
    forall j | 0 <= j < |all| ensures all[j] == peer[j] {
      assert all[j] == if j < |recvd| then recvd[j] else text[j - |recvd|];
    }
  }

  lemma Whole(recvd: seq<byte>, peer: seq<byte>)
    requires recvd <= peer && |recvd| == |peer|
    ensures recvd == peer
  {
  }

  /** The text in the window continues what was received, and a FIN in the window completes it. */
  lemma {:induction false} TextIsPeers(recvd: seq<byte>, w: nat, seg: Segment, at: int, peer: seq<byte>)
    requires recvd <= peer && ConsideredIn(|recvd|, w, seg, at)
    requires Lies(peer, DataAt(seg, at), seg.data) && (seg.fin ==> DataAt(seg, at) + |seg.data| == |peer|)
    ensures recvd + PartIn(|recvd|, w, seg, at) <= peer
    ensures FinIn(|recvd|, w, seg, at) ==> recvd + PartIn(|recvd|, w, seg, at) == peer
  {
    OverlapContinues(recvd, DataAt(seg, at), seg.data, w, peer);
    if FinIn(|recvd|, w, seg, at) {
      assert DataAt(seg, at) <= |recvd| <= DataAt(seg, at) + |seg.data|;
      Whole(recvd + PartIn(|recvd|, w, seg, at), peer);
    }
  }

  lemma OverlapContinues(recvd: seq<byte>, p: int, data: seq<byte>, window: nat, peer: seq<byte>)
    requires recvd <= peer && Lies(peer, p, data)
    ensures recvd + Overlap(data, p, |recvd|, |recvd| + window) <= peer
    ensures recvd + [] == recvd
  {
    var end := Min(p + |data|, |recvd| + window);
    if p <= |recvd| <= end {
      PartLies(peer, p, data, |recvd|, end);
    }
    TextContinues(recvd, Overlap(data, p, |recvd|, |recvd| + window), peer);
  }

  /** Received bytes are the peer's, in its order; a FIN taken means that they are all of them. */
  lemma {:induction false} ReceivedIsPrefix(t: Tcb, h: History, w: nat, seg: Segment, at: int, ackAt: int, h': Heard, peer: seq<byte>)
    requires RcvOk(t.rcv, h.rcv, Receiving(t.state), 0) && h.rcv.recvd <= peer && ReceivedIn(t, h, w, seg, at, ackAt, h')
    requires Lies(peer, DataAt(seg, at), seg.data) && (seg.fin ==> DataAt(seg, at) + |seg.data| == |peer|)
    ensures h.rcv.recvd <= h'.recvd <= peer
    ensures h'.eof && !h.rcv.eof ==> h'.recvd == peer && seg.fin
  {
    if Receiving(t.state) && ConsideredIn(h.rcv.nextAt, w, seg, at) {
      TextIsPeers(h.rcv.recvd, w, seg, at, peer);
    }
  }

  /** A text segment. */
  predicate Text(seg: Segment) {
    !seg.syn && !seg.fin && 0 < |seg.data| <= MAX_MSS
  }

  function Lengths(segs: seq<Segment>): nat {
    if segs == [] then 0 else |segs[0].data| + Lengths(segs[1..])
  }

  /** The application does not read. The announced edge is one byte short of the limit of the queue, and one byte more is not worth
      announcing. */
  ghost predicate Filling(t: Tcb, h: History, limit: nat) {
    && 4 <= limit <= 0xffff && Valid(t, h) && t.live && t.state.Established? && !t.cantRecv
    && t.cfg == Config(536, 0, limit, 0x2_0000) && h.rcv.irs == 0 && h.rcv.advAt == limit - 1 && h.rcv.readAt == 0
    && h.rcv.nextAt == |Contents(t.rcv.rcvq)| <= limit && OverheadBytes(t.rcv.rcvq, 0) <= DataBytes(t.rcv.rcvq)
    && t.rcv.adv == limit - 1 && t.rcv.next == h.rcv.nextAt
  }

  method Nearly(limit: nat) returns (t: Tcb, ghost h: History)
    requires 4 <= limit <= 0xffff
    ensures Filling(t, h, limit) && WindowOk(h.rcv) && h.rcv.nextAt == 0
  {
    t := Tcb(Config(536, 0, limit, 0x2_0000), true, Established, Out(0, 0, false, false, []), In(0, limit - 1, []), Window(1000, 0, 0),
             Timing(0, 0, false, NO_SAMPLE, NO_SAMPLE, 100), false, false, []);
    h := History(Stream(0, [], 0, 0), Heard(0, [], 0, false, 0, limit - 1), []);
  }

  lemma {:induction false} SpaceFor(cfg: Config, r: In, limit: nat, n: nat)
    requires cfg == Config(536, 0, limit, 0x2_0000) && n == |Contents(r.rcvq)| <= limit <= 0xffff
    requires OverheadBytes(r.rcvq, 0) <= DataBytes(r.rcvq)
    ensures SpaceLeft(cfg, r) == limit - n
  {
    DataBytesCount(r.rcvq);
  }

  lemma {:induction false} NumbersAre(r: In, h: Heard)
    requires RcvOk(r, h, true, 0) && h.irs == 0 && h.nextAt <= 0xffff
    ensures r.next == h.nextAt && (0 <= h.advAt <= 0xffff ==> r.adv == h.advAt)
  {
    WrapSmall(h.nextAt);
    WrapSmall(h.advAt);
  }

  /** The step of one byte is suppressed. */
  lemma {:induction false} OneByte(cfg: Config, r: In, limit: nat, next: nat)
    requires 4 <= limit <= 0xffff && r.adv == limit - 1 && r.next == next <= limit && cfg == Config(536, 0, limit, 0x2_0000)
    requires SpaceLeft(cfg, r) == limit - next
    ensures Offered(cfg, r) == 0
  {
    WrapSmall(limit - 1 - next);
  }

  /** The queue after one more segment, and that nothing is offered then. */
  lemma {:induction false} QueueOn(cfg: Config, r: In, b: Buf, r': In, limit: nat, next: nat)
    requires 4 <= limit <= 0xffff && cfg == Config(536, 0, limit, 0x2_0000) && b.size == |b.data|
    requires r.adv == r'.adv == limit - 1 && r'.next == next == |Contents(r.rcvq)| + |b.data| <= limit
    requires r'.rcvq == Compressed(r.rcvq, b) && OverheadBytes(r.rcvq, 0) <= DataBytes(r.rcvq)
    ensures OverheadBytes(r'.rcvq, 0) <= DataBytes(r'.rcvq) && |Contents(r'.rcvq)| == next && Offered(cfg, r') == 0
  {
    CompressedGrows(r.rcvq, b, 0);
    SpaceFor(cfg, r', limit, next);
    OneByte(cfg, r', limit, next);
  }

  /** One more segment, for which there is space. */
  method FillOn(t: Tcb, ghost h: History, ghost limit: nat, seg: Segment) returns (t': Tcb, ghost h': History)
    requires Filling(t, h, limit) && Text(seg) && h.rcv.nextAt + |seg.data| <= limit
    ensures Filling(t', h', limit) && h'.rcv.nextAt == h.rcv.nextAt + |seg.data|
    ensures t'.out != [] && t'.out[|t'.out| - 1].window == Wrap(t'.rcv.adv - t'.rcv.next) % 0x1_0000
  {
    t', h' := TakeText(t, h, seg, |seg.data|);
    NumbersAre(t'.rcv, h'.rcv);
    QueueOn(t.cfg, t.rcv, Buf(|seg.data|, seg.data), t'.rcv.(adv := t.rcv.adv), limit, h'.rcv.nextAt);
  }

  /** Segments fill the queue up to its last byte. The probe of one byte that follows is taken, because there is space for it, and the
      answer offers 65535 bytes where there is room for none. */
  method ProbeOverruns(limit: nat, filling: seq<Segment>, probe: Segment) returns (t: Tcb, ghost h: History)
    requires 4 <= limit <= 0xffff && (forall i :: 0 <= i < |filling| ==> Text(filling[i])) && Lengths(filling) == limit - 1
    requires Text(probe) && |probe.data| == 1
    ensures Filling(t, h, limit) && h.rcv.nextAt == limit && !WindowOk(h.rcv) && SpaceLeft(t.cfg, t.rcv) == 0
    ensures t.out != [] && t.out[|t.out| - 1].window == 0xffff
  {
    t, h := Nearly(limit);
    var i := 0;
    while i < |filling|
      invariant i <= |filling| && Filling(t, h, limit) && h.rcv.nextAt + Lengths(filling[i..]) == limit - 1
    {
      assert filling[i..][0] == filling[i] && filling[i..][1..] == filling[i + 1..];
      t, h := FillOn(t, h, limit, filling[i]);
      i := i + 1;
    }
    SpaceFor(t.cfg, t.rcv, limit, limit - 1);
    assert Acceptable(h.rcv.nextAt, SegLen(probe), h.rcv.nextAt, OpenWindow(t));
    t, h := FillOn(t, h, limit, probe);
    SpaceFor(t.cfg, t.rcv, limit, limit);
    OverrunField(t.rcv, h.rcv, Receiving(t.state));
  }

  lemma {:induction false} AllRead(cfg: Config, r: In, limit: nat)
    requires 4 <= limit <= 0xffff && cfg == Config(536, 0, limit, 0x2_0000) && r.adv == limit - 1 && r.next == limit
    requires Contents(r.rcvq) == [] && OverheadBytes(r.rcvq, 0) <= 0xffff
    ensures Offered(cfg, r) == if limit < 0xffff then limit + 1 else 0
  {
    DataBytesCount(r.rcvq);
    WrapSmall(-1);
  }

  /** When the application then reads all of it, the window is sound again, unless the queue takes 65535 bytes: then the step is 65536,
      which 16 bits read as none, and the peer is told nothing. */
  method ReadAfterOverrun(limit: nat, filling: seq<Segment>, probe: Segment) returns (t: Tcb, ghost h: History, data: seq<byte>)
    requires 4 <= limit <= 0xffff && (forall i :: 0 <= i < |filling| ==> Text(filling[i])) && Lengths(filling) == limit - 1
    requires Text(probe) && |probe.data| == 1
    ensures Valid(t, h) && |data| == limit && Contents(t.rcv.rcvq) == [] && (WindowOk(h.rcv) <==> limit < 0xffff)
    ensures limit == 0xffff ==> t.out != [] && t.out[|t.out| - 1].window == 0xffff
  {
    t, h := ProbeOverruns(limit, filling, probe);
    ghost var r := t.rcv;
    DataBytesCount(r.rcvq);
    DroppedOverhead(r.rcvq, limit, 0);
    t, h, data := Read(t, h, limit);
    AllRead(t.cfg, r.(rcvq := t.rcv.rcvq), limit);
  }
}
