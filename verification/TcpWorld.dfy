/** Two TCP sessions joined by a network that may lose, repeat and reorder segments. */
module TcpWorld {
  import opened Bytes
  import opened Sockbuf
  import opened TcpNumbers
  import opened TcpSender
  import opened TcpReceiver
  import opened TcpSession
  import opened TcpArrival

  /** A step that only the session's own user or clock causes: nothing is received, and nothing sent or promised is taken back. */
  predicate LocalStep(t: Tcb, h: History, t': Tcb, h': History) {
    && t'.cfg == t.cfg && h'.snd.iss == h.snd.iss && h'.rcv.irs == h.rcv.irs
    && h.snd.sent <= h'.snd.sent && h'.snd.unaAt == h.snd.unaAt && (Shut(t.state) ==> Shut(t'.state) && h'.snd.sent == h.snd.sent)
    && h'.rcv.recvd == h.rcv.recvd && h'.rcv.eof == h.rcv.eof && h'.rcv.nextAt == h.rcv.nextAt && t.out <= t'.out
    && h.rcv.advAt <= h'.rcv.advAt && (WindowOk(h.rcv) ==> WindowOk(h'.rcv))
  }

  /** Something is outstanding and nothing will ever send it again by itself. */
  predicate Stalled(t: Tcb, h: History) {
    t.live && t.tim.timer == 0 && h.snd.unaAt < h.snd.nxtAt
  }

  /** A session object. */
  class Session {
    var tcb: Tcb
    ghost var hist: History

    ghost predicate Ok()
      reads this
    {
      Valid(tcb, hist)
    }

    /** A connection that has just been established: nothing sent or received since, and offered bytes of window announced. */
    constructor (cfg: Config, iss: u32, irs: u32, window: u16, rto: u16, offered: u16)
      requires cfg.Ok()
      ensures Ok() && tcb.live && tcb.state.Established? && tcb.cfg == cfg && Fresh(tcb, hist)
      ensures hist.snd.iss == iss && hist.rcv.irs == irs && hist.rcv.advAt == offered && hist.snd.unaAt == 0
      ensures tcb.win.wnd == window && tcb.tim == Timing(0, 0, false, NO_SAMPLE, NO_SAMPLE, rto) && !tcb.snd.busy && Running(tcb, hist)
    {
      tcb := Tcb(cfg, true, Established, Out(iss, iss, false, false, []), In(irs, Wrap(irs + offered), []), Window(window, irs, iss),
                 Timing(0, 0, false, NO_SAMPLE, NO_SAMPLE, rto), false, false, []);
      hist := History(Stream(iss, [], 0, 0), Heard(irs, [], 0, false, 0, offered), []);
    }

    method Write(b: Buf) returns (ok: bool)
      requires Ok()
      modifies this
      ensures Ok() && LocalStep(old(tcb), old(hist), tcb, hist) && hist.rcv.readAt == old(hist).rcv.readAt
      ensures ok == (old(tcb).live && !Shut(old(tcb).state))
      ensures hist.snd.sent == old(hist).snd.sent + if ok then b.data else []
      ensures old(Stalled(tcb, hist)) ==> Stalled(tcb, hist) && tcb.out == old(tcb).out
      ensures ok && !old(tcb).snd.busy ==> Starts(old(tcb).(snd := old(tcb).snd.(sndq := tcb.snd.sndq)), false, old(tcb).out, tcb.out)
      ensures !ok || old(tcb).snd.busy ==> tcb.out == old(tcb).out
      ensures ok && !old(tcb).snd.busy && tcb.win.wnd > 0 && b.data != [] ==> hist.snd.unaAt < hist.snd.nxtAt && !tcb.tim.persist
      ensures tcb.live == old(tcb).live && tcb.state == old(tcb).state && tcb.win == old(tcb).win && hist.rcv.nextAt == old(hist).rcv.nextAt
      ensures hist.snd.unaAt == old(hist).snd.unaAt && tcb.tim.rto == old(tcb).tim.rto
      ensures old(Calm(tcb.tim)) ==> Calm(tcb.tim) && (old(Running(tcb, hist)) ==> Running(tcb, hist))
    {
      ok := false;
      if tcb.live {
        var t;
        ghost var h;
        t, h, ok := Send(tcb, hist, b);
        tcb, hist := t, h;
      }
    }

    method Finish()
      requires Ok()
      modifies this
      ensures Ok() && LocalStep(old(tcb), old(hist), tcb, hist) && (tcb.live ==> Shut(tcb.state))
      ensures hist.snd.sent == old(hist).snd.sent && hist.rcv.readAt == old(hist).rcv.readAt
      ensures old(Stalled(tcb, hist)) ==> Stalled(tcb, hist) && tcb.out == old(tcb).out
      ensures old(Calm(tcb.tim)) ==> Calm(tcb.tim) && (old(Running(tcb, hist)) ==> Running(tcb, hist))
      ensures old(tcb).live && !Shut(old(tcb).state) && !old(tcb).snd.busy ==>
                Starts(old(tcb).(state := tcb.state), false, old(tcb).out, tcb.out)
    {
      if tcb.live {
        var t, h := Close(tcb, hist);
        tcb, hist := t, h;
      }
    }

    method Elapse(ticks: nat)
      requires Ok()
      modifies this
      ensures Ok() && LocalStep(old(tcb), old(hist), tcb, hist)
      ensures hist.snd.sent == old(hist).snd.sent && hist.rcv.readAt == old(hist).rcv.readAt
      ensures old(Stalled(tcb, hist)) ==> Stalled(tcb, hist) && tcb.out == old(tcb).out
      ensures old(Calm(tcb.tim)) ==> Calm(tcb.tim) && (old(Running(tcb, hist)) ==> Running(tcb, hist))
      ensures if old(tcb).live then Ticked(old(tcb), ticks, tcb) else tcb == old(tcb)
    {
      if tcb.live {
        var t, h := Tick(tcb, hist, ticks);
        tcb, hist := t, h;
      }
    }

    method Take(n: nat) returns (data: seq<byte>)
      requires Ok()
      modifies this
      ensures Ok() && LocalStep(old(tcb), old(hist), tcb, hist) && hist.snd.sent == old(hist).snd.sent
      ensures hist.rcv.readAt == old(hist).rcv.readAt + |data| <= |hist.rcv.recvd|
      ensures data == hist.rcv.recvd[old(hist).rcv.readAt..hist.rcv.readAt]
      ensures old(Stalled(tcb, hist)) ==> Stalled(tcb, hist) && Quiet(old(tcb).out, tcb.out)
      ensures old(Calm(tcb.tim)) ==> Calm(tcb.tim) && (old(Running(tcb, hist)) ==> Running(tcb, hist))
    {
      var t;
      ghost var h;
      t, h, data := Read(tcb, hist, n);
      tcb, hist := t, h;
    }

    /** The application releases the socket or shuts down reading. */
    method SetFlags(closed: bool, cantRecv: bool)
      requires Ok()
      modifies this
      ensures Ok() && LocalStep(old(tcb), old(hist), tcb, hist) && hist == old(hist)
      ensures tcb == old(tcb).(closed := closed, cantRecv := cantRecv)
      ensures old(Stalled(tcb, hist)) ==> Stalled(tcb, hist) && tcb.out == old(tcb).out
      ensures old(Calm(tcb.tim)) ==> Calm(tcb.tim) && (old(Running(tcb, hist)) ==> Running(tcb, hist))
    {
      tcb := tcb.(closed := closed, cantRecv := cantRecv);
    }

    /** Whatever the user and the clock do: a stalled session stays so, and sends bare acknowledgements at most; a running timer is not
        lost. gave is what the application added to the stream, got what it took from the other one. */
    method Do(e: Event) returns (gave: seq<byte>, got: seq<byte>)
      requires Ok()
      modifies this
      ensures Ok() && LocalStep(old(tcb), old(hist), tcb, hist)
      ensures gave == if e.Give? && old(tcb).live && !Shut(old(tcb).state) then e.data else []
      ensures hist.snd.sent == old(hist).snd.sent + gave
      ensures hist.rcv.readAt == old(hist).rcv.readAt + |got| <= |hist.rcv.recvd|
      ensures got == hist.rcv.recvd[old(hist).rcv.readAt..hist.rcv.readAt]
      ensures e.End? && tcb.live ==> Shut(tcb.state)
      ensures e.Wait? && old(tcb).live ==> Ticked(old(tcb), e.ticks, tcb)
      ensures old(Stalled(tcb, hist)) ==> Stalled(tcb, hist) && Quiet(old(tcb).out, tcb.out)
      ensures old(Calm(tcb.tim)) ==> Calm(tcb.tim) && (old(Running(tcb, hist)) ==> Running(tcb, hist))
    {
      gave, got := [], [];
      match e
      case Give(size, bytes) =>
        var ok := Write(Buf(size, bytes));
        gave := if ok then bytes else [];
      case End => Finish();
      case Wait(ticks) => Elapse(ticks);
      case Get(n) => got := Take(n);
      case Flags(closed, cantRecv) => SetFlags(closed, cantRecv);
      case Carry(_, _) =>
    }

    method Arrive(seg: Segment, size: nat, ghost at: int, ghost ackAt: int) returns (anew: bool)
      requires Ok() && tcb.live && Placed(tcb, hist, seg, at, ackAt)
      modifies this
      ensures Ok() && Stepped(old(tcb), old(hist), seg, at, ackAt, tcb, hist)
      ensures anew <==> AsksAnew(old(tcb), seg) && at >= old(hist).rcv.nextAt
      ensures if AsksAnew(old(tcb), seg) then tcb == old(tcb) else Answered(old(tcb), old(hist), seg, at, ackAt, tcb, hist)
      ensures old(NothingNew(tcb, hist, seg, ackAt)) ==> hist.snd == old(hist).snd && tcb.tim.rto == old(tcb).tim.rto
      ensures old(Running(tcb, hist)) && old(tcb).tim.rto > 0 ==> (Running(tcb, hist) <==> !TimerStopped(old(tcb), old(hist), hist))
      ensures old(Calm(tcb.tim)) && Prompt(old(tcb).tim) ==> Calm(tcb.tim)
    {
      var t;
      ghost var h;
      t, h, anew := Up(tcb, hist, seg, size, at, ackAt);
      tcb, hist := t, h;
    }
  }

  /** Nothing sent or received yet, in either direction. */
  predicate Fresh(t: Tcb, h: History) {
    h.snd.sent == [] && h.rcv.recvd == [] && t.out == [] && !h.rcv.eof && h.rcv.nextAt == 0 && h.snd.unaAt == 0 && WindowOk(h.rcv)
  }

  /** What can happen at one side; Carry brings it segment i of all that the other side ever sent. */
  datatype Event = Give(size: nat, data: seq<byte>) | End | Wait(ticks: nat) | Get(n: nat) | Flags(closed: bool, cantRecv: bool)
                 | Carry(i: nat, size: nat)

  function Weight(e: Event): nat {
    if e.Give? then |e.data| else 0
  }

  /** What y has received is a prefix of what x was given to send, and all of it once y has seen the end; x takes nothing for
      acknowledged that y has not acknowledged. */
  predicate Link(x: Tcb, hx: History, y: Tcb, hy: History) {
    && hy.rcv.irs == hx.snd.iss && hy.rcv.recvd <= hx.snd.sent && hx.snd.unaAt <= hy.rcv.nextAt <= |hx.snd.sent| + 1
    && (hy.rcv.eof ==> Shut(x.state) && hy.rcv.recvd == hx.snd.sent)
  }

  /** Where segment i that x sent lies in y's streams; a RST may have any number, and only the nearest position of it matters. */
  function Where(x: Tcb, hx: History, hy: History, i: nat): Place
    requires i < |x.out| && i < |hx.places|
  {
    if x.out[i].rst then Place(Nearest(hy.rcv.irs, hy.rcv.nextAt, x.out[i].seqNo), 0) else hx.places[i]
  }

  /** Segment i that x ever sent, arriving at y, now and perhaps again: its numbers are near those y expects. */
  predicate Arriving(x: Tcb, hx: History, y: Tcb, hy: History, i: nat) {
    && i < |x.out| && i < |hx.places| && y.live
    && Placed(y, hy, x.out[i], Where(x, hx, hy, i).at, Where(x, hx, hy, i).ackAt)
  }

  predicate ArrivalStep(x: Tcb, hx: History, y: Tcb, hy: History, i: nat, y': Tcb, hy': History) {
    Arriving(x, hx, y, hy, i) && Stepped(y, hy, x.out[i], Where(x, hx, hy, i).at, Where(x, hx, hy, i).ackAt, y', hy')
  }

  lemma {:induction false} LinkLocal(x: Tcb, hx: History, y: Tcb, hy: History, x': Tcb, hx': History)
    requires LocalStep(x, hx, x', hx')
    ensures Link(x, hx, y, hy) ==> Link(x', hx', y, hy)
    ensures Link(y, hy, x, hx) ==> Link(y, hy, x', hx')
  {
  }

  /** Numbers past the FIN are never taken. */
  lemma {:induction false} HeardBound(t: Tcb, h: History, w: nat, seg: Segment, at: int, ackAt: int, h': Heard, end: nat)
    requires ReceivedIn(t, h, w, seg, at, ackAt, h') && h.rcv.nextAt <= end + 1
    requires (seg.data == [] || DataAt(seg, at) + |seg.data| <= end) && (seg.fin ==> DataAt(seg, at) + |seg.data| == end)
    ensures h'.nextAt <= end + 1
  {
  }

  /** An acknowledgement covers no more than its sender had received. */
  lemma {:induction false} AckKnown(x: Tcb, hx: History, y: Tcb, hy: History, i: nat, y': Tcb, hy': History)
    requires Valid(x, hx) && ArrivalStep(x, hx, y, hy, i, y', hy') && hy.snd.unaAt <= hx.rcv.nextAt
    ensures hy'.snd.unaAt <= hx.rcv.nextAt && hy.rcv.nextAt <= hy'.rcv.nextAt
  {
    assert FlightAt(x.out, hx.places, i, GroundOf(x, hx));
  }

  lemma {:induction false} LinkArrival(x: Tcb, hx: History, y: Tcb, hy: History, i: nat, y': Tcb, hy': History)
    requires Valid(x, hx) && Valid(y, hy) && Link(x, hx, y, hy) && Link(y, hy, x, hx) && ArrivalStep(x, hx, y, hy, i, y', hy')
    ensures Link(x, hx, y', hy') && Link(y', hy', x, hx)
  {
    AckKnown(x, hx, y, hy, i, y', hy');
    var seg, p := x.out[i], Where(x, hx, hy, i);
    assert FlightAt(x.out, hx.places, i, GroundOf(x, hx));
    if Received(y, hy, seg, p.at, p.ackAt, hy'.rcv) && !seg.rst {
      ReceivedIsPrefix(y, hy, OpenWindow(y), seg, p.at, p.ackAt, hy'.rcv, hx.snd.sent);
      HeardBound(y, hy, OpenWindow(y), seg, p.at, p.ackAt, hy'.rcv, |hx.snd.sent|);
    }
  }

  /** As long as neither stream has more than this many bytes, no number is ambiguous. */
  const LIMIT := HALF - 2

  /** All positions of the two streams lie within one turn of the numbers. */
  predicate Within(g: Ground, h: History) {
    && g.iss == h.rcv.irs && g.irs == h.snd.iss && |g.sent| <= LIMIT && |h.snd.sent| <= LIMIT
    && h.rcv.nextAt <= |g.sent| + 1 && g.heard <= |h.snd.sent| + 1 && h.snd.unaAt <= h.snd.nxtAt <= |h.snd.sent| + 1
  }

  lemma {:induction false} FlightPlaced(seg: Segment, p: Place, g: Ground, y: Tcb, hy: History)
    requires FlightOk(seg, p, g) && Within(g, hy) && !seg.rst
    ensures Placed(y, hy, seg, p.at, p.ackAt)
  {
  }

  lemma {:induction false} ResetPlaced(seg: Segment, y: Tcb, hy: History)
    requires seg.rst && !seg.syn && !seg.fin && seg.data == []
    ensures Placed(y, hy, seg, Nearest(hy.rcv.irs, hy.rcv.nextAt, seg.seqNo), 0)
  {
    NearestHas(hy.rcv.irs, hy.rcv.nextAt, seg.seqNo);
  }

  /** Whatever was sent, however long ago, can be told apart from everything else. */
  lemma {:induction false} Placeable(x: Tcb, hx: History, y: Tcb, hy: History, i: nat)
    requires Valid(x, hx) && Valid(y, hy) && Link(x, hx, y, hy) && Link(y, hy, x, hx) && y.live && i < |x.out|
    requires |hx.snd.sent| <= LIMIT && |hy.snd.sent| <= LIMIT
    ensures Arriving(x, hx, y, hy, i)
  {
    var seg := x.out[i];
    assert FlightAt(x.out, hx.places, i, GroundOf(x, hx));
    if seg.rst {
      ResetPlaced(seg, y, hy);
    } else {
      FlightPlaced(seg, hx.places[i], GroundOf(x, hx), y, hy);
    }
  }

  /** One event at y, whose peer is x. */
  ghost predicate Moves(x: Tcb, hx: History, y: Tcb, hy: History, y': Tcb, hy': History) {
    LocalStep(y, hy, y', hy') || exists i: nat :: ArrivalStep(x, hx, y, hy, i, y', hy')
  }

  lemma {:induction false} MovesOk(x: Tcb, hx: History, y: Tcb, hy: History, y': Tcb, hy': History)
    requires Valid(x, hx) && Valid(y, hy) && Link(x, hx, y, hy) && Link(y, hy, x, hx) && Moves(x, hx, y, hy, y', hy')
    ensures Link(x, hx, y', hy') && Link(y', hy', x, hx)
  {
    if LocalStep(y, hy, y', hy') {
      LinkLocal(y, hy, x, hx, y', hy');
    } else {
      var i: nat :| ArrivalStep(x, hx, y, hy, i, y', hy');
      LinkArrival(x, hx, y, hy, i, y', hy');
    }
  }

  /** What the application wrote is at the end of the stream sent, and what it read is the next part of the stream received. */
  predicate Adds(h: History, h': History, gave: seq<byte>, got: seq<byte>) {
    && h'.snd.sent == h.snd.sent + gave && h.rcv.recvd <= h'.rcv.recvd
    && h'.rcv.readAt == h.rcv.readAt + |got| <= |h'.rcv.recvd| && got == h'.rcv.recvd[h.rcv.readAt..h'.rcv.readAt]
  }

  /** All that the application ever wrote, and all that it ever read. */
  predicate Counted(h: History, gave: seq<byte>, got: seq<byte>) {
    gave == h.snd.sent && h.rcv.readAt <= |h.rcv.recvd| && got == h.rcv.recvd[..h.rcv.readAt]
  }

  lemma {:induction false} CountedOn(h: History, gave: seq<byte>, got: seq<byte>, h': History, gave': seq<byte>, got': seq<byte>)
    requires Counted(h, gave, got) && Adds(h, h', gave', got')
    ensures Counted(h', gave + gave', got + got')
  {
    var m, n := h.rcv.readAt, h'.rcv.readAt;
    assert h'.rcv.recvd[..n] == h'.rcv.recvd[..m] + h'.rcv.recvd[m..n];
    assert h'.rcv.recvd[..m] == h.rcv.recvd[..m];
  }

  /** An event that can be told from all others: a segment carried has numbers near those that y expects. */
  predicate Clear(x: Tcb, hx: History, y: Tcb, hy: History, e: Event) {
    e.Carry? && e.i < |x.out| && y.live ==> Arriving(x, hx, y, hy, e.i)
  }

  /** An event at y: of its own, or the arrival of a segment that x ever sent. A segment that x has not sent, or that finds no session,
      is nothing. */
  method Happen(x: Session, y: Session, e: Event) returns (gave: seq<byte>, got: seq<byte>)
    requires x != y && x.Ok() && y.Ok() && Link(x.tcb, x.hist, y.tcb, y.hist) && Link(y.tcb, y.hist, x.tcb, x.hist)
    requires Clear(x.tcb, x.hist, y.tcb, y.hist, e)
    modifies y
    ensures x.Ok() && y.Ok() && Moves(x.tcb, x.hist, old(y.tcb), old(y.hist), y.tcb, y.hist)
    ensures Link(x.tcb, x.hist, y.tcb, y.hist) && Link(y.tcb, y.hist, x.tcb, x.hist)
    ensures gave == if e.Give? && old(y.tcb).live && !Shut(old(y.tcb).state) then e.data else []
    ensures Adds(old(y.hist), y.hist, gave, got)
    ensures e.Carry? && e.i < |x.tcb.out| && old(y.tcb).live ==> ArrivalStep(x.tcb, x.hist, old(y.tcb), old(y.hist), e.i, y.tcb, y.hist)
  {
    ghost var t, h := y.tcb, y.hist;
    if e.Carry? && e.i < |x.tcb.out| && y.tcb.live {
      gave, got := [], [];
      ghost var p := Where(x.tcb, x.hist, y.hist, e.i);
      var _ := y.Arrive(x.tcb.out[e.i], e.size, p.at, p.ackAt);
      assert ArrivalStep(x.tcb, x.hist, t, h, e.i, y.tcb, y.hist);
    } else {
      gave, got := y.Do(e);
    }
    MovesOk(x.tcb, x.hist, t, h, y.tcb, y.hist);
  }

  datatype World = World(a: Tcb, ha: History, b: Tcb, hb: History)
  {
    ghost predicate Ok() {
      Valid(a, ha) && Valid(b, hb) && Link(a, ha, b, hb) && Link(b, hb, a, ha)
    }

    predicate Start() {
      Fresh(a, ha) && Fresh(b, hb) && hb.rcv.irs == ha.snd.iss && ha.rcv.irs == hb.snd.iss
    }
  }

  /** One event at one of the sides. */
  ghost predicate Next(w: World, w': World) {
    || (w'.a == w.a && w'.ha == w.ha && Moves(w.a, w.ha, w.b, w.hb, w'.b, w'.hb))
    || (w'.b == w.b && w'.hb == w.hb && Moves(w.b, w.hb, w.a, w.ha, w'.a, w'.ha))
  }

  ghost predicate StepAt(ws: seq<World>, i: nat)
    requires i + 1 < |ws|
  {
    Next(ws[i], ws[i + 1])
  }

  ghost predicate OkAt(ws: seq<World>, i: nat)
    requires i < |ws|
  {
    ws[i].Ok()
  }

  ghost predicate Run(ws: seq<World>) {
    ws != [] && ws[0].Start() && forall i :: 0 <= i < |ws| - 1 ==> StepAt(ws, i)
  }

  ghost predicate AllOk(ws: seq<World>) {
    forall i :: 0 <= i < |ws| ==> OkAt(ws, i)
  }

  lemma {:induction false} RunOn(ws: seq<World>, w: World)
    requires Run(ws) && AllOk(ws) && Next(ws[|ws| - 1], w) && w.Ok()
    ensures Run(ws + [w]) && AllOk(ws + [w])
  {
    var more := ws + [w];
    forall i | 0 <= i < |more| - 1 ensures StepAt(more, i) {
      assert i < |ws| - 1 ==> StepAt(ws, i);
    }
    forall i | 0 <= i < |more| ensures OkAt(more, i) {
      assert i < |ws| ==> OkAt(ws, i);
    }
  }

  datatype Happening = Happening(atB: bool, event: Event)

  predicate Possible(w: World, h: Happening) {
    if h.atB then Clear(w.a, w.ha, w.b, w.hb, h.event) else Clear(w.b, w.hb, w.a, w.ha, h.event)
  }

  /** While the streams are short, everything is. */
  lemma {:induction false} ShortIsClear(w: World, h: Happening)
    requires w.Ok() && |w.ha.snd.sent| <= LIMIT && |w.hb.snd.sent| <= LIMIT
    ensures Possible(w, h)
  {
    if h.event.Carry? {
      if h.atB && w.b.live && h.event.i < |w.a.out| {
        Placeable(w.a, w.ha, w.b, w.hb, h.event.i);
      }
      if !h.atB && w.a.live && h.event.i < |w.b.out| {
        Placeable(w.b, w.hb, w.a, w.ha, h.event.i);
      }
    }
  }

  /** How much the applications of one side try to send. */
  function Written(hs: seq<Happening>, atB: bool): nat {
    if hs == [] then 0 else (if hs[0].atB == atB then Weight(hs[0].event) else 0) + Written(hs[1..], atB)
  }

  /** Two sessions and the network between them: gave and got are what the applications wrote and read, trace is every state so far. */
  class Network {
    const a: Session
    const b: Session
    var gaveA: seq<byte>
    var gotA: seq<byte>
    var gaveB: seq<byte>
    var gotB: seq<byte>
    ghost var trace: seq<World>

    ghost function Now(): World
      reads this, a, b
    {
      World(a.tcb, a.hist, b.tcb, b.hist)
    }

    /** Established by the constructor and kept by every step: the trace is a run, and every state of it was sound. */
    ghost predicate Ok()
      reads this, a, b
    {
      && a != b && Run(trace) && AllOk(trace) && trace[|trace| - 1] == Now()
      && Counted(a.hist, gaveA, gotA) && Counted(b.hist, gaveB, gotB)
    }

    constructor (cfgA: Config, cfgB: Config, issA: u32, issB: u32, windowA: u16, windowB: u16, rtoA: u16, rtoB: u16)
      requires cfgA.Ok() && cfgB.Ok()
      ensures Ok() && gaveA == gotA == gaveB == gotB == [] && fresh(a) && fresh(b)
    {
      var x := new Session(cfgA, issA, issB, windowB, rtoA, windowA);
      var y := new Session(cfgB, issB, issA, windowA, rtoB, windowB);
      a, b := x, y;
      gaveA, gotA, gaveB, gotB := [], [], [], [];
      trace := [World(x.tcb, x.hist, y.tcb, y.hist)];
      new;
      assert OkAt(trace, 0);
    }

    /** Any event at either side; a segment may be carried, as long as its numbers are near those expected, again and again, or never. */
    method Step(h: Happening)
      requires Ok() && Possible(Now(), h)
      modifies this, a, b
      ensures Ok() && trace == old(trace) + [Now()]
      ensures |gaveA| <= old(|gaveA|) + (if h.atB then 0 else Weight(h.event))
      ensures |gaveB| <= old(|gaveB|) + (if h.atB then Weight(h.event) else 0)
    {
      if h.atB {
        AtB(h.event);
      } else {
        AtA(h.event);
      }
    }

    method AtB(e: Event)
      requires Ok() && Clear(a.tcb, a.hist, b.tcb, b.hist, e)
      modifies this, b
      ensures Ok() && trace == old(trace) + [Now()] && gaveA == old(gaveA) && gotA == old(gotA)
      ensures gaveB == old(gaveB) + if e.Give? && old(b.tcb).live && !Shut(old(b.tcb).state) then e.data else []
    {
      ghost var h := b.hist;
      assert OkAt(trace, |trace| - 1);
      var gave, got := Happen(a, b, e);
      CountedOn(h, gaveB, gotB, b.hist, gave, got);
      RunOn(trace, Now());
      trace, gaveB, gotB := trace + [Now()], gaveB + gave, gotB + got;
    }

    method AtA(e: Event)
      requires Ok() && Clear(b.tcb, b.hist, a.tcb, a.hist, e)
      modifies this, a
      ensures Ok() && trace == old(trace) + [Now()] && gaveB == old(gaveB) && gotB == old(gotB)
      ensures gaveA == old(gaveA) + if e.Give? && old(a.tcb).live && !Shut(old(a.tcb).state) then e.data else []
    {
      ghost var h := a.hist;
      assert OkAt(trace, |trace| - 1);
      var gave, got := Happen(b, a, e);
      CountedOn(h, gaveA, gotA, a.hist, gave, got);
      RunOn(trace, Now());
      trace, gaveA, gotA := trace + [Now()], gaveA + gave, gotA + got;
    }

    /** Each application has read a prefix of what the other one wrote, in order, without gaps or repetitions. */
    ghost predicate Delivered()
      reads this, a, b
    {
      && gotB <= gaveA && gotA <= gaveB
      && (b.hist.rcv.eof && |gotB| == |b.hist.rcv.recvd| ==> gotB == gaveA)
      && (a.hist.rcv.eof && |gotA| == |a.hist.rcv.recvd| ==> gotA == gaveB)
    }

    lemma OkDelivers()
      requires Ok()
      ensures Delivered()
    {
      assert OkAt(trace, |trace| - 1);
    }

    /** What happens next is up to the users, the clocks and the network. This stands for anything that meets the ensures clause, which
        is all that Wander knows of it. */
    method Choose() returns (h: Happening)
      requires Ok()
      ensures Possible(Now(), h)
    {
      h := Happening(false, Wait(0));
    }

    /** Every run in which no segment outlives the numbers it carries, for streams of any length. */
    method Wander(n: nat)
      requires Ok()
      modifies this, a, b
      ensures Ok() && |trace| == |old(trace)| + n && old(trace) <= trace && Delivered()
    {
      for i := 0 to n
        invariant Ok() && |trace| == |old(trace)| + i && old(trace) <= trace
      {
        var h := Choose();
        Step(h);
      }
      OkDelivers();
    }

    /** Every run with short streams, whatever the users, the clocks and the network do, and however late segments arrive. */
    method Drive(hs: seq<Happening>)
      requires Ok() && |gaveA| + Written(hs, false) <= LIMIT && |gaveB| + Written(hs, true) <= LIMIT
      modifies this, a, b
      ensures Ok() && |trace| == |old(trace)| + |hs| && old(trace) <= trace && Delivered()
    {
      var i := 0;
      while i < |hs|
        invariant 0 <= i <= |hs| && Ok() && |trace| == |old(trace)| + i && old(trace) <= trace
        invariant |gaveA| + Written(hs[i..], false) <= LIMIT && |gaveB| + Written(hs[i..], true) <= LIMIT
      {
        assert hs[i..][0] == hs[i] && hs[i..][1..] == hs[i + 1..];
        assert OkAt(trace, |trace| - 1);
        ShortIsClear(Now(), hs[i]);
        Step(hs[i]);
        i := i + 1;
      }
      OkDelivers();
    }
  }

  /** The end-to-end guarantee in every state that a network has gone through, not only in the last one; and nothing is taken for
      acknowledged, and leaves the send queue, that the other side has not got, unless its socket was closed and released. */
  lemma {:induction false} EndToEnd(n: Network, k: nat)
    requires n.Ok() && k < |n.trace|
    ensures var w := n.trace[k];
            && w.hb.rcv.recvd <= w.ha.snd.sent && w.ha.rcv.recvd <= w.hb.snd.sent
            && (w.hb.rcv.eof ==> w.hb.rcv.recvd == w.ha.snd.sent && Shut(w.a.state))
            && (w.ha.rcv.eof ==> w.ha.rcv.recvd == w.hb.snd.sent && Shut(w.b.state))
            && (Receiving(w.b.state) || w.hb.rcv.eof ==> Min(w.ha.snd.unaAt, |w.ha.snd.sent|) <= |w.hb.rcv.recvd|)
            && (Receiving(w.a.state) || w.ha.rcv.eof ==> Min(w.hb.snd.unaAt, |w.hb.snd.sent|) <= |w.ha.rcv.recvd|)
  {
    assert OkAt(n.trace, k);
  }

  /** The peer of b stays inside the window: nothing arrives beyond what b had advertised. */
  predicate InsideAt(ws: seq<World>, i: nat)
    requires i + 1 < |ws|
  {
    ws[i + 1].hb.rcv.nextAt <= ws[i].hb.rcv.advAt
  }

  /** The advertised edge never moves left, and its distance always fits the 16-bit window field. */
  lemma {:induction false} WindowNeverRetreats(ws: seq<World>, j: nat, k: nat)
    requires Run(ws) && j <= k < |ws| && forall i :: 0 <= i < |ws| - 1 ==> InsideAt(ws, i)
    ensures WindowOk(ws[k].hb.rcv) && ws[j].hb.rcv.advAt <= ws[k].hb.rcv.advAt
  {
    if k > 0 {
      WindowNeverRetreats(ws, if j == k then k - 1 else j, k - 1);
      GrowsAt(ws, k - 1);
    }
  }

  lemma {:induction false} GrowsAt(ws: seq<World>, i: nat)
    requires Run(ws) && i + 1 < |ws| && (forall j :: 0 <= j < |ws| - 1 ==> InsideAt(ws, j)) && WindowOk(ws[i].hb.rcv)
    ensures ws[i].hb.rcv.advAt <= ws[i + 1].hb.rcv.advAt && WindowOk(ws[i + 1].hb.rcv)
  {
    assert StepAt(ws, i) && InsideAt(ws, i);
    HeardGrows(ws[i], ws[i + 1]);
  }

  lemma {:induction false} HeardGrows(w: World, w': World)
    requires Next(w, w') && WindowOk(w.hb.rcv) && w'.hb.rcv.nextAt <= w.hb.rcv.advAt
    ensures w.hb.rcv.advAt <= w'.hb.rcv.advAt && WindowOk(w'.hb.rcv)
  {
  }

  /** What was announced is accepted. */
  lemma {:induction false} WindowOpen(t: Tcb, h: History)
    requires RcvOk(t.rcv, h.rcv, Receiving(t.state), 0) && WindowOk(h.rcv)
    ensures OpenWindow(t) >= h.rcv.advAt - h.rcv.nextAt
  {
    WrapDiff(h.rcv.irs, h.rcv.advAt, h.rcv.nextAt);
    WrapSmall(h.rcv.advAt - h.rcv.nextAt);
  }

  /** An in-order FIN without text. */
  predicate BareFin(seg: Segment, h: History, ackAt: int) {
    && seg.seqNo == Wrap(h.rcv.irs + h.rcv.nextAt) && seg.ackNo == Wrap(h.snd.iss + ackAt) && seg.ack && seg.fin && !seg.syn && !seg.rst
    && seg.data == [] && seg.window > 0
  }

  /** A session that has sent something, and whose peer may still send. */
  ghost predicate Waiting(t: Tcb, h: History) {
    && Valid(t, h) && t.live && t.state.Established? && !t.tim.persist && Running(t, h) && t.tim.rto > 0
    && h.snd.unaAt < h.snd.nxtAt && h.rcv.nextAt < h.rcv.advAt <= h.rcv.nextAt + 0xffff
  }

  lemma {:induction false} FinPlaced(t: Tcb, h: History, seg: Segment)
    requires Waiting(t, h) && BareFin(seg, h, h.snd.unaAt)
    ensures Placed(t, h, seg, h.rcv.nextAt, h.snd.unaAt) && NothingNew(t, h, seg, h.snd.unaAt)
  {
  }

  lemma {:induction false} FinTaken(t: Tcb, h: History, seg: Segment, t': Tcb, h': History)
    requires Waiting(t, h) && Stepped(t, h, seg, h.rcv.nextAt, h.snd.unaAt, t', h') && BareFin(seg, h, h.snd.unaAt)
    ensures !h.rcv.eof && h'.rcv.eof && Receiving(t.state)
  {
    WindowOpen(t, h);
  }

  /** The peer's FIN arrives while something is outstanding and acknowledges none of it: nothing that the user or the clock does from
      now on will send it again. */
  method FinWhileOutstanding(s: Session, fin: Segment)
    requires Waiting(s.tcb, s.hist) && BareFin(fin, s.hist, s.hist.snd.unaAt)
    modifies s
    ensures s.Ok() && Stalled(s.tcb, s.hist) && s.hist.snd == old(s.hist).snd
  {
    ghost var t, h := s.tcb, s.hist;
    FinPlaced(t, h, fin);
    var anew := s.Arrive(fin, 0, h.rcv.nextAt, h.snd.unaAt);
    FinTaken(t, h, fin, s.tcb, s.hist);
  }

  /** It happens to the very first byte of a connection. */
  method FinStopsTimer(bit: byte) returns (s: Session)
    ensures fresh(s) && s.Ok() && Stalled(s.tcb, s.hist) && s.hist.snd.sent == [bit]
  {
    s := new Session(Config(536, 0, 1024, 4096), 0, 0, 1000, 100, 1024);
    var ok := s.Write(Buf(1, [bit]));
    FinWhileOutstanding(s, Segment(0, 0, false, true, true, false, false, 1000, []));
  }
}
