/** The transmit side of the 6LoWPAN adaptation layer as a state machine over sends, confirms and purges. */
module LowpanAdaptation {
  import opened Bytes
  import opened LowpanQueue
  import LowpanFragmenter

  /** How long the high-priority state lasts, in ticks. */
  const STATE_LENGTH := 50

  /** Indirect requests beside the direct ones that leave a handle free. */
  const INDIRECT_MAX := 244

  /** Handles in use, with multiplicity. */
  function Handles(rs: seq<Request>): multiset<byte> {
    if rs == [] then multiset{} else multiset{rs[0].handle} + Handles(rs[1..])
  }

  predicate Uses(rs: seq<Request>, h: byte) {
    exists i :: 0 <= i < |rs| && rs[i].handle == h
  }

  lemma {:induction false} UsesIs(rs: seq<Request>, h: byte)
    ensures Uses(rs, h) <==> h in Handles(rs)
  {
    if rs != [] {
      UsesIs(rs[1..], h);
      if Uses(rs, h) && rs[0].handle != h {
        var i :| 0 <= i < |rs| && rs[i].handle == h;
        assert rs[1..][i - 1].handle == h;
      }
      if Uses(rs[1..], h) {
        var i :| 0 <= i < |rs[1..]| && rs[1..][i].handle == h;
        assert rs[i + 1].handle == h;
      }
    }
  }

  lemma {:induction false} HandlesCount(rs: seq<Request>)
    ensures |Handles(rs)| == |rs|
  {
    if rs != [] {
      HandlesCount(rs[1..]);
    }
  }

  predicate DifferAt(rs: seq<Request>, i: nat, j: nat)
    requires i < |rs| && j < |rs|
  {
    rs[i].handle != rs[j].handle
  }

  /** No two requests have the same handle. */
  ghost predicate Distinct(rs: seq<Request>) {
    forall i, j :: 0 <= i < j < |rs| ==> DifferAt(rs, i, j)
  }

  lemma DistinctInsert(a: seq<Request>, r: Request, b: seq<Request>)
    requires Distinct(a + b) && !Uses(a + b, r.handle)
    ensures Distinct(a + [r] + b)
  {
    var s, t := a + b, a + [r] + b;
    forall i, j | 0 <= i < j < |t| ensures DifferAt(t, i, j) {
      var i', j' := if i < |a| then i else i - 1, if j < |a| then j else j - 1;
      assert i != |a| ==> t[i] == s[i'];
      assert j != |a| ==> t[j] == s[j'];
      if i != |a| && j != |a| {
        assert DifferAt(s, i', j');
      }
    }
  }

  lemma DistinctRemove(rs: seq<Request>, k: nat)
    requires Distinct(rs) && k < |rs|
    ensures Distinct(rs[..k] + rs[k + 1..])
  {
    var t := rs[..k] + rs[k + 1..];
    forall i, j | 0 <= i < j < |t| ensures DifferAt(t, i, j) {
      assert DifferAt(rs, if i < k then i else i + 1, if j < k then j else j + 1);
    }
  }

  /** A handle belongs to at most one request. */
  lemma DistinctFinds(rs: seq<Request>, i: nat, j: nat)
    requires Distinct(rs) && i < |rs| && j < |rs| && rs[i].handle == rs[j].handle
    ensures i == j
  {
    assert i < j ==> DifferAt(rs, i, j);
    assert j < i ==> DifferAt(rs, j, i);
  }

  /** Fewer than n values leave one of the first n free. */
  lemma {:induction false} Pigeonhole(m: multiset<byte>, n: nat) returns (free: byte)
    requires |m| < n <= 256
    ensures free < n && free !in m
  {
    var h: byte := n - 1;
    if h !in m {
      free := h;
    } else {
      var k := m[h];
      var rest := m[h := 0];
      assert m == rest + multiset{}[h := k];
      assert |rest| + k == |m|;
      free := Pigeonhole(rest, n - 1);
    }
  }

  /** How far it is from one handle to another, going up and round. */
  function Distance(a: byte, b: byte): nat {
    (b - a) % 256
  }

  lemma DistanceStep(a: byte, b: byte)
    requires a != b
    ensures Distance((a + 1) % 256, b) == Distance(a, b) - 1
  {
  }

  datatype Slot = Empty | Busy(request: Request)

  function SlotList(s: Slot): seq<Request> {
    if s.Empty? then [] else [s.request]
  }

  /** Of each priority, first the packets put ahead and then those that were queued. */
  predicate AheadAt(d: seq<Packet>, ahead: seq<Packet>, q: seq<Packet>, p: nat) {
    Bucket(d, p) == Bucket(ahead, p) + Bucket(q, p)
  }

  ghost predicate Ahead(d: seq<Packet>, ahead: seq<Packet>, q: seq<Packet>) {
    forall p :: AheadAt(d, ahead, q, p)
  }

  lemma {:induction false} AheadMore(d: seq<Packet>, ahead: seq<Packet>, q: seq<Packet>, b: Packet, d': seq<Packet>)
    requires Ahead(d, ahead, q) && forall p :: Bucket(d', p) == One(b, p) + Bucket(d, p)
    ensures Ahead(d', [b] + ahead, q)
  {
    forall p ensures AheadAt(d', [b] + ahead, q, p) {
      assert AheadAt(d, ahead, q, p);
      BucketAppend([b], ahead, p);
      AheadOne(Bucket([b], p), Bucket(ahead, p), Bucket(q, p));
      assert Bucket([b], p) == One(b, p);
    }
  }

  lemma AheadNone(q: seq<Packet>)
    ensures Ahead(q, [], q)
  {
    forall p ensures AheadAt(q, [], q, p) {
    }
  }

  lemma AheadOne(a: seq<Packet>, b: seq<Packet>, c: seq<Packet>)
    ensures a + (b + c) == a + b + c
  {
  }

  lemma {:induction false} SomeFree(rs: seq<Request>) returns (free: byte)
    requires |rs| < 256
    ensures !Uses(rs, free)
  {
    HandlesCount(rs);
    free := Pigeonhole(Handles(rs), 256);
    UsesIs(rs, free);
  }

  /** A handle is free exactly when none of the three searches finds it. */
  lemma FreeIs(a: seq<Request>, b: seq<Request>, c: seq<Request>, h: byte)
    ensures !Uses(a, h) && !Uses(b, h) && !Uses(c, h) <==> !Uses(a + b + c, h)
  {
    var s := a + b + c;
    if Uses(a, h) {
      var i :| 0 <= i < |a| && a[i].handle == h;
      assert s[i].handle == h;
    } else if Uses(b, h) {
      var i :| 0 <= i < |b| && b[i].handle == h;
      assert s[|a| + i].handle == h;
    } else if Uses(c, h) {
      var i :| 0 <= i < |c| && c[i].handle == h;
      assert s[|a| + |b| + i].handle == h;
    } else {
      forall i | 0 <= i < |s| ensures s[i].handle != h {
        assert s[i] == if i < |a| then a[i] else if i < |a| + |b| then b[i - |a|] else c[i - |a| - |b|];
      }
    }
  }

  /** One request more, from the end. */
  lemma {:induction false} PurgeStep(rs: seq<Request>, answers: seq<bool>, k: nat)
    requires |answers| == |rs| && k < |rs|
    ensures var p, r := Purged(rs[k + 1..], answers[k + 1..]), Kept(rs[k + 1..], answers[k + 1..]);
            && Purged(rs[k..], answers[k..]) == (if answers[k] then [rs[k].packet] else []) + p
            && rs[..k] + Kept(rs[k..], answers[k..]) ==
               if answers[k] then (rs[..k + 1] + r)[..k] + (rs[..k + 1] + r)[k + 1..] else rs[..k + 1] + r
  {
    assert rs[k..][1..] == rs[k + 1..] && answers[k..][1..] == answers[k + 1..];
    var r := Kept(rs[k + 1..], answers[k + 1..]);
    assert rs[..k + 1] == rs[..k] + [rs[k]];
  }

  /** What a confirm says: sent, to be tried again, or failed. */
  datatype Outcome = Success | Retry | Failed

  datatype Result = Refused | Queued | Started(handle: byte)

  predicate AllStarted(results: seq<Result>) {
    forall i :: 0 <= i < |results| ==> results[i].Started?
  }

  lemma {:induction false} PacketsAppend(a: seq<Request>, b: seq<Request>)
    ensures Packets(a + b) == Packets(a) + Packets(b)
  {
    if a == [] {
      assert a + b == b;
    } else {
      assert (a + b)[1..] == a[1..] + b;
      PacketsAppend(a[1..], b);
    }
  }

  lemma {:induction false} PacketsInsert(a: seq<Request>, r: Request, b: seq<Request>)
    ensures Packets(a + [r] + b) == Packets(a + b) + multiset{r.packet}
  {
    assert a + [r] + b == a + ([r] + b);
    PacketsAppend(a, [r] + b);
    PacketsAppend(a, b);
    assert ([r] + b)[1..] == b;
  }

  /** Packets move from the MAC back to the queue; none is lost or repeated. */
  lemma {:induction false} TotalPurge(d: seq<Packet>, d': seq<Packet>, rs: seq<Request>, answers: seq<bool>, rest: seq<Request>)
    requires |answers| == |rs| && multiset(d') == multiset(d) + multiset(Purged(rs, answers))
    ensures multiset(d') + Packets(Kept(rs, answers) + rest) == multiset(d) + Packets(rs + rest)
  {
    PurgeConserves(rs, answers);
    PacketsAppend(rs, rest);
    PacketsAppend(Kept(rs, answers), rest);
  }

  /** The list without its request at position i. */
  predicate Gone(rs: seq<Request>, i: nat, rs': seq<Request>) {
    i < |rs| && rs' == rs[..i] + rs[i + 1..]
  }

  /** The list without its request at position i, if it has one there. */
  function Without(rs: seq<Request>, i: nat): seq<Request> {
    if i < |rs| then rs[..i] + rs[i + 1..] else rs
  }

  lemma OthersUrgent(rs: seq<Request>, k: nat)
    ensures (forall i :: 0 <= i < |rs| && i != k ==> rs[i].packet.priority != EXPEDITE_FORWARD) ==>
              forall i :: 0 <= i < |Without(rs, k)| ==> Without(rs, k)[i].packet.priority != EXPEDITE_FORWARD
  {
    var t := Without(rs, k);
    forall i | 0 <= i < |t| ensures t[i] == rs[if i < k then i else i + 1] {
    }
  }

  /** Removing from three lists in a row is removing from the one that holds the position. */
  lemma RemoveFromOne(a: seq<Request>, b: seq<Request>, c: seq<Request>, at: nat)
    requires at < |a| + |b| + |c|
    ensures var s := a + b + c;
            var r := s[..at] + s[at + 1..];
            && (at < |a| ==> r == (a[..at] + a[at + 1..]) + b + c)
            && (|a| <= at < |a| + |b| ==> r == a + (b[..at - |a|] + b[at - |a| + 1..]) + c)
            && (|a| + |b| <= at ==> r == a + b + (c[..at - |a| - |b|] + c[at - |a| - |b| + 1..]))
  {
  }

  method Search(rs: seq<Request>, h: byte) returns (i: nat)
    ensures i <= |rs| && (i < |rs| ==> rs[i].handle == h) && (i < |rs| <==> Uses(rs, h))
  {
    i := 0;
    while i < |rs| && rs[i].handle != h
      invariant i <= |rs| && forall j :: 0 <= j < i ==> rs[j].handle != h
    {
      i := i + 1;
    }
  }

  lemma {:induction false} KeptShorter(rs: seq<Request>, answers: seq<bool>)
    requires |answers| == |rs|
    ensures |Kept(rs, answers)| <= |rs|
  {
    if rs != [] {
      KeptShorter(rs[1..], answers[1..]);
    }
  }

  /** What can happen, at a time of the tick counter; purgeable are the handles whose requests the MAC would let go. */
  datatype Event =
    | Send(b: Packet, now: u32, purgeable: set<byte>, congested: bool)
    | Confirm(handle: byte, outcome: Outcome, now: u32, purgeable: set<byte>)
    | Expedite(now: u32, purgeable: set<byte>)
    | SlowTimer(now: u32, purgeable: set<byte>)
    | Discard(index: nat)

  /** Requests of which fragments are on their way. */
  function PartsIn(rs: seq<Request>): nat {
    if rs == [] then 0 else Count(rs[0].sending.Parts?) + PartsIn(rs[1..])
  }

  function Count(b: bool): nat {
    if b then 1 else 0
  }

  lemma {:induction false} PartsAppend(a: seq<Request>, b: seq<Request>)
    ensures PartsIn(a + b) == PartsIn(a) + PartsIn(b)
  {
    if a == [] {
      assert a + b == b;
    } else {
      assert (a + b)[1..] == a[1..] + b;
      PartsAppend(a[1..], b);
    }
  }

  lemma {:induction false} PartsLess(rs: seq<Request>, k: nat)
    requires k < |rs|
    ensures PartsIn(rs) == PartsIn(rs[..k] + rs[k + 1..]) + Count(rs[k].sending.Parts?)
  {
    assert rs == rs[..k] + ([rs[k]] + rs[k + 1..]);
    PartsAppend(rs[..k], [rs[k]] + rs[k + 1..]);
    PartsAppend(rs[..k], rs[k + 1..]);
  }

  lemma {:induction false} NoParts(rs: seq<Request>)
    ensures PartsIn(rs) == 0 <==> forall r :: r in rs ==> r.sending.Whole?
  {
    if rs != [] {
      NoParts(rs[1..]);
      assert rs == [rs[0]] + rs[1..];
    }
  }

  lemma {:induction false} DirectParts(a: seq<Request>, b: seq<Request>, c: seq<Request>, k: nat)
    requires k < |a| + |b| && (a + b + c)[k].sending.Parts?
    ensures PartsIn(a) + PartsIn(b) > 0
  {
    if k < |a| {
      PartsLess(a, k);
    } else {
      PartsLess(b, k - |a|);
    }
  }

  lemma {:induction false} PartsMore(rs: seq<Request>, r: Request)
    ensures PartsIn(rs + [r]) == PartsIn(rs) + Count(r.sending.Parts?)
  {
    PartsAppend(rs, [r]);
  }

  /** A request goes on to its next fragment. */
  lemma {:induction false} Proceeds(rs: seq<Request>, k: nat, r: Request)
    requires k < |rs| && r.packet == rs[k].packet && r.handle == rs[k].handle && r.sending.Parts? == rs[k].sending.Parts?
    ensures Packets(rs[k := r]) == Packets(rs) && PartsIn(rs[k := r]) == PartsIn(rs)
    ensures Distinct(rs) ==> Distinct(rs[k := r])
  {
    var rs' := rs[k := r];
    assert rs == rs[..k] + [rs[k]] + rs[k + 1..] && rs' == rs[..k] + [r] + rs[k + 1..];
    PacketsInsert(rs[..k], rs[k], rs[k + 1..]);
    PacketsInsert(rs[..k], r, rs[k + 1..]);
    PartsLess(rs, k);
    PartsLess(rs', k);
    assert rs'[..k] == rs[..k] && rs'[k + 1..] == rs[k + 1..];
    if Distinct(rs) {
      forall i, j | 0 <= i < j < |rs'| ensures DifferAt(rs', i, j) {
        assert DifferAt(rs, i, j);
      }
    }
  }

  /** No request for this destination is under way. */
  predicate Free(rs: seq<Request>, dest: nat) {
    forall i :: 0 <= i < |rs| ==> rs[i].packet.dest != dest
  }

  lemma {:induction false} KeptFree(rs: seq<Request>, answers: seq<bool>, dest: nat)
    requires |answers| == |rs| && Free(rs, dest)
    ensures Free(Kept(rs, answers), dest)
  {
    if rs != [] {
      assert forall i :: 0 <= i < |rs| - 1 ==> rs[1..][i] == rs[i + 1];
      KeptFree(rs[1..], answers[1..], dest);
    }
  }

  predicate ApartAt(rs: seq<Request>, i: nat, j: nat)
    requires i < |rs| && j < |rs|
  {
    rs[i].packet.dest != rs[j].packet.dest
  }

  /** No two requests are for the same destination. */
  ghost predicate Apart(rs: seq<Request>) {
    forall i, j :: 0 <= i < j < |rs| ==> ApartAt(rs, i, j)
  }

  lemma ApartLess(rs: seq<Request>, k: nat)
    requires Apart(rs) && k < |rs|
    ensures Apart(rs[..k] + rs[k + 1..])
  {
    var t := rs[..k] + rs[k + 1..];
    forall i, j | 0 <= i < j < |t| ensures ApartAt(t, i, j) {
      assert ApartAt(rs, if i < k then i else i + 1, if j < k then j else j + 1);
    }
  }

  lemma ApartUpdate(rs: seq<Request>, k: nat, r: Request)
    requires Apart(rs) && k < |rs| && r.packet == rs[k].packet
    ensures Apart(rs[k := r])
  {
    var t := rs[k := r];
    forall i, j | 0 <= i < j < |t| ensures ApartAt(t, i, j) {
      assert ApartAt(rs, i, j);
    }
  }

  lemma ApartMore(rs: seq<Request>, r: Request)
    requires Apart(rs) && Free(rs, r.packet.dest)
    ensures Apart(rs + [r])
  {
    var t := rs + [r];
    forall i, j | 0 <= i < j < |t| ensures ApartAt(t, i, j) {
      assert j < |rs| ==> ApartAt(rs, i, j);
    }
  }

  predicate RequestedAt(rs: seq<Request>, i: nat)
    requires i < |rs|
  {
    !rs[i].packet.indirect
  }

  ghost predicate Requested(rs: seq<Request>) {
    forall i :: 0 <= i < |rs| ==> RequestedAt(rs, i)
  }

  lemma RequestedLess(rs: seq<Request>, k: nat)
    requires Requested(rs) && k < |rs|
    ensures Requested(rs[..k] + rs[k + 1..]) && !rs[k].packet.indirect
  {
    var t := rs[..k] + rs[k + 1..];
    assert RequestedAt(rs, k);
    forall i | 0 <= i < |t| ensures RequestedAt(t, i) {
      assert RequestedAt(rs, if i < k then i else i + 1);
    }
  }

  lemma RequestedUpdate(rs: seq<Request>, k: nat, r: Request)
    requires Requested(rs) && k < |rs| && r.packet == rs[k].packet
    ensures Requested(rs[k := r])
  {
    var t := rs[k := r];
    forall i | 0 <= i < |t| ensures RequestedAt(t, i) {
      assert RequestedAt(rs, i);
    }
  }

  lemma RequestedMore(rs: seq<Request>, r: Request)
    requires Requested(rs) && !r.packet.indirect
    ensures Requested(rs + [r])
  {
    var t := rs + [r];
    forall i | 0 <= i < |t| ensures RequestedAt(t, i) {
      assert i < |rs| ==> RequestedAt(rs, i);
    }
  }

  lemma QueueAside(queued: multiset<Packet>, live: multiset<Packet>, done: multiset<Packet>, was: multiset<Packet>)
    requires live + done == was
    ensures (queued + live) + done == queued + was
  {
    assert (queued + live) + done == queued + (live + done);
  }

  lemma Balance(was: multiset<Packet>, total: multiset<Packet>, finished: multiset<Packet>, f: multiset<Packet>, start: multiset<Packet>,
                taken: multiset<Packet>, t: multiset<Packet>)
    requires was + finished == start + taken && total + f == was + t
    ensures total + (finished + f) == start + (taken + t)
  {
    assert total + (finished + f) == (total + f) + finished;
    assert (was + t) + finished == (was + finished) + t;
    assert (start + taken) + t == start + (taken + t);
  }

  /** lowpan_adaptation_time_stamp_diff. */
  function Elapsed(now: u32, stamp: u32): nat {
    if now < stamp then stamp - now else now - stamp
  }

  datatype Found = InBroadcast | InActive(index: nat) | InIndirect(index: nat) | Unknown

  class Adaptation {
    const queue: Queue
    /** Built for the TI MAC: fewer requests at a time, but no limit for each destination. */
    const timac: bool
    var active: seq<Request>
    var activeSize: nat
    var broadcast: Slot
    var indirectQ: seq<Request>
    var msduHandle: byte
    /** When a packet of high priority was last seen; 0 outside the high-priority state. */
    var lastHighPriority: u32
    var fragmenterActive: bool

    /** All live requests. */
    ghost function Live(): seq<Request>
      reads this
    {
      active + SlotList(broadcast) + indirectQ
    }

    ghost predicate Valid()
      reads this, queue
    {
      && queue.Valid() && activeSize == |active| <= UnicastMax() && Distinct(Live()) && Requested(active)
      && PartsIn(active) + PartsIn(SlotList(broadcast)) == Count(fragmenterActive)
      && (!timac ==> Apart(active))
    }

    predicate HighPriority()
      reads this
    {
      lastHighPriority != 0
    }

    /** Every packet the layer is responsible for. */
    ghost function Total(): multiset<Packet>
      reads this, queue
    {
      multiset(queue.direct) + Packets(Live())
    }

    constructor (timac: bool)
      ensures Valid() && fresh(queue) && queue.direct == [] && Live() == [] && this.timac == timac
    {
      queue := new Queue();
      this.timac, active, activeSize, broadcast, indirectQ := timac, [], 0, Empty, [];
      msduHandle, lastHighPriority, fragmenterActive := 0, 0, false;
    }

    /** lowpan_data_request_unique_handle_get. */
    method UniqueHandle() returns (h: byte)
      requires |Live()| < 256
      modifies this`msduHandle
      ensures !Uses(Live(), h)
    {
      ghost var free := SomeFree(Live());
      var valid := false;
      h := msduHandle;
      while !valid
        invariant valid ==> !Uses(Live(), h)
        decreases !valid, Distance(msduHandle, free)
      {
        h := msduHandle;
        msduHandle := (msduHandle + 1) % 256;
        FreeIs(active, SlotList(broadcast), indirectQ, h);
        valid := !Uses(active, h) && !Uses(SlotList(broadcast), h) && !Uses(indirectQ, h);
        if !valid {
          DistanceStep(h, free);
        }
      }
    }

    function UnicastMax(): nat {
      if timac then 4 else 10
    }

    /** lowpan_buffer_tx_allowed. */
    predicate TxAllowed(b: Packet)
      reads this
    {
      || b.indirect
      || (&& !fragmenterActive
          && (b.unicast || broadcast.Empty?)
          && (b.unicast ==> activeSize < UnicastMax())
          && (!timac && b.unicast ==>
                && Free(active, b.dest) && !(HighPriority() && b.priority < EXPEDITE_FORWARD)))
    }

    /** In terms of what is under way: nothing is in fragments; a broadcast goes alone; a unicast finds a place, and without the TI MAC
        nothing for its destination, and in the high-priority state only if it has that priority. */
    lemma AllowedMeans(b: Packet)
      requires Valid() && !b.indirect
      ensures TxAllowed(b) <==>
                && (forall r :: r in active + SlotList(broadcast) ==> r.sending.Whole?)
                && (if b.unicast
                    then |active| < (if timac then 4 else 10)
                         && (timac || ((forall r :: r in active ==> r.packet.dest != b.dest)
                                       && (lastHighPriority != 0 ==> b.priority >= EXPEDITE_FORWARD)))
                    else |SlotList(broadcast)| == 0)
    {
      PartsAppend(active, SlotList(broadcast));
      NoParts(active + SlotList(broadcast));
      assert Free(active, b.dest) <==> forall r :: r in active ==> r.packet.dest != b.dest;
    }

    predicate Blocks(b: Packet)
      reads this
    {
      b.unicast && HighPriority() && b.priority < EXPEDITE_FORWARD
    }

    /** lowpan_adaptation_tx_queue_read: the first packet that may go, unless one before it has to wait for the high-priority state. */
    method Read() returns (found: bool, b: Packet, ghost at: nat)
      requires Valid()
      modifies queue
      ensures Valid()
      ensures found ==> Next(old(queue.direct), at) && b == old(queue.direct)[at] && TxAllowed(b) && !b.indirect
                        && queue.direct == old(queue.direct)[..at] + old(queue.direct)[at + 1..]
                        && multiset(queue.direct) + multiset{b} == multiset(old(queue.direct))
      ensures !found ==> queue.direct == old(queue.direct) && forall i :: 0 <= i < |queue.direct| ==> !Next(queue.direct, i)
      ensures Ordinary(old(queue.direct)) ==> Ordinary(queue.direct) && (found ==> b.priority != EXPEDITE_FORWARD)
    {
      found, b, at := false, Packet(0, 0, false, false, 0, Whole), 0;
      for i := 0 to |queue.direct|
        invariant queue.direct == old(queue.direct) && Valid()
        invariant forall j :: 0 <= j < i ==> Waits(queue.direct, j)
      {
        if Blocks(queue.direct[i]) {
          forall k | 0 <= k < |queue.direct| ensures !Next(queue.direct, k) {
            assert k < i ==> Waits(queue.direct, k);
            assert !Waits(queue.direct, i);
          }
          return;
        }
        if TxAllowed(queue.direct[i]) {
          b := queue.Remove(i);
          found, at := true, i;
          return;
        }
      }
      forall k | 0 <= k < |queue.direct| ensures !Next(queue.direct, k) {
        assert Waits(queue.direct, k);
      }
    }

    predicate Waits(q: seq<Packet>, j: nat)
      reads this
      requires j < |q|
    {
      !TxAllowed(q[j]) && !Blocks(q[j])
    }

    /** lowpan_adaptation_high_priority_state_enable: answers are the MAC's, for each active request. Whatever it lets be purged goes
        ahead of the queued packets of its priority, in its old order. */
    method EnableHighPriority(answers: seq<bool>, now: u32)
      requires Valid() && |answers| == |active|
      modifies this`active, this`activeSize, this`lastHighPriority, queue
      ensures Valid() && lastHighPriority == (if now != 0 then now else 1)
      ensures old(HighPriority()) || fragmenterActive ==> active == old(active) && queue.direct == old(queue.direct)
      ensures !old(HighPriority()) && !fragmenterActive ==>
                && active == Kept(old(active), answers) && Ahead(queue.direct, Purged(old(active), answers), old(queue.direct))
                && multiset(queue.direct) == multiset(old(queue.direct)) + multiset(Purged(old(active), answers))
      ensures Total() == old(Total())
    {
      if !HighPriority() && !fragmenterActive {
        PurgeBack(answers);
      }
      lastHighPriority := if now != 0 then now else 1;
    }

    /** Purged requests go back to the queue; none is lost. */
    method PurgeBack(answers: seq<bool>)
      requires Valid() && |answers| == |active| && !fragmenterActive
      modifies this`active, this`activeSize, queue
      ensures Valid() && active == Kept(old(active), answers) && Ahead(queue.direct, Purged(old(active), answers), old(queue.direct))
      ensures multiset(queue.direct) == multiset(old(queue.direct)) + multiset(Purged(old(active), answers))
      ensures Total() == old(Total())
    {
      ghost var rest := SlotList(broadcast) + indirectQ;
      ghost var d, rs := queue.direct, active;
      assert Live() == rs + rest;
      PurgeAll(answers);
      assert Live() == active + rest;
      TotalPurge(d, queue.direct, rs, answers, rest);
    }

    /** The purging loop, from the last active request to the first. */
    method PurgeAll(answers: seq<bool>)
      requires Valid() && |answers| == |active| && !fragmenterActive
      modifies this`active, this`activeSize, queue
      ensures Valid() && active == Kept(old(active), answers)
      ensures multiset(queue.direct) == multiset(old(queue.direct)) + multiset(Purged(old(active), answers))
      ensures Ahead(queue.direct, Purged(old(active), answers), old(queue.direct))
    {
      ghost var rs, q := active, queue.direct;
      var k: nat := |active|;
      AheadNone(q);
      while k > 0
        invariant k <= |rs| && active == rs[..k] + Kept(rs[k..], answers[k..]) && Valid()
        invariant multiset(queue.direct) == multiset(q) + multiset(Purged(rs[k..], answers[k..]))
        invariant Ahead(queue.direct, Purged(rs[k..], answers[k..]), q)
      {
        k := k - 1;
        PurgeStep(rs, answers, k);
        if answers[k] {
          PurgeOne(k, Purged(rs[k + 1..], answers[k + 1..]), q);
        } else {
          assert Purged(rs[k..], answers[k..]) == Purged(rs[k + 1..], answers[k + 1..]);
        }
      }
      assert rs[0..] == rs && answers[0..] == answers && rs[..0] == [];
    }

    /** One request goes back to the queue. */
    method PurgeOne(k: nat, ghost ahead: seq<Packet>, ghost q: seq<Packet>)
      requires Valid() && k < |active| && Ahead(queue.direct, ahead, q) && !fragmenterActive
      modifies this`active, this`activeSize, queue
      ensures Valid() && active == old(active)[..k] + old(active)[k + 1..]
      ensures Ahead(queue.direct, [old(active)[k].packet] + ahead, q)
      ensures multiset(queue.direct) == multiset(old(queue.direct)) + multiset{old(active)[k].packet}
    {
      ghost var d := queue.direct;
      ghost var rest := SlotList(broadcast) + indirectQ;
      DistinctRemove(Live(), k);
      assert Live()[..k] + Live()[k + 1..] == (active[..k] + active[k + 1..]) + SlotList(broadcast) + indirectQ;
      RequestedLess(active, k);
      PartsLess(active, k);
      if !timac {
        ApartLess(active, k);
      }
      var b := active[k].packet;
      active, activeSize := active[..k] + active[k + 1..], activeSize - 1;
      var _ := queue.WriteToFront(b);
      AheadMore(d, ahead, q, b, queue.direct);
    }

    /** The state may be left: it has lasted long enough. */
    predicate Expired(now: u32)
      reads this
    {
      HighPriority() && Elapsed(now, lastHighPriority) >= STATE_LENGTH
    }

    /** It has lasted long enough 50 ticks after it was entered or renewed, as long as the clock has not wrapped since. */
    lemma ExpiredMeans(now: u32)
      ensures lastHighPriority != 0 && lastHighPriority <= now ==> (Expired(now) <==> lastHighPriority + 50 <= now)
      ensures lastHighPriority != 0 && now < lastHighPriority ==> (Expired(now) <==> now + 50 <= lastHighPriority)
    {
    }

    /** Nothing of high priority is first in the queue or on its way, except perhaps the request at position but. */
    predicate NoneUrgent(but: int)
      reads this, queue
    {
      && (queue.direct != [] ==> queue.direct[0].priority != EXPEDITE_FORWARD)
      && forall i :: 0 <= i < |active| && i != but ==> active[i].packet.priority != EXPEDITE_FORWARD
    }

    /** lowpan_adaptation_high_priority_state_exit: after a while, unless something of that priority is first in the queue or on its
        way. */
    method ExitHighPriority(now: u32) returns (left: bool)
      requires Valid()
      modifies this`lastHighPriority
      ensures Valid() && lastHighPriority == if left then 0 else old(lastHighPriority)
      ensures left <==> old(Expired(now)) && NoneUrgent(-1)
    {
      left := false;
      if !Expired(now) {
        return;
      }
      if queue.direct != [] && queue.direct[0].priority == EXPEDITE_FORWARD {
        return;
      }
      for i := 0 to |active|
        invariant forall j :: 0 <= j < i ==> active[j].packet.priority != EXPEDITE_FORWARD
      {
        if active[i].packet.priority == EXPEDITE_FORWARD {
          return;
        }
      }
      lastHighPriority, left := 0, true;
    }

    /** The request for b joins the live ones under a handle of its own. */
    method Start(b: Packet) returns (h: byte)
      requires Valid() && TxAllowed(b) && |Live()| < 256
      modifies this`msduHandle, this`active, this`activeSize, this`broadcast, this`indirectQ, this`fragmenterActive
      ensures Valid() && !Uses(old(Live()), h)
      ensures var r := Request(b, h, b.sending);
              && active == (if !b.indirect && b.unicast then old(active) + [r] else old(active))
              && broadcast == (if !b.indirect && !b.unicast then Busy(r) else old(broadcast))
              && indirectQ == (if b.indirect then old(indirectQ) + [r] else old(indirectQ))
      ensures fragmenterActive == (old(fragmenterActive) || (b.sending.Parts? && !b.indirect))
      ensures Packets(Live()) == old(Packets(Live())) + multiset{b} && Uses(Live(), h)
    {
      h := UniqueHandle();
      var r := Request(b, h, b.sending);
      if b.indirect {
        JoinIndirect(r);
      } else if b.unicast {
        JoinActive(r);
      } else {
        JoinBroadcast(r);
      }
    }

    method JoinIndirect(r: Request)
      requires Valid() && !Uses(Live(), r.handle)
      modifies this`indirectQ
      ensures Valid() && indirectQ == old(indirectQ) + [r]
      ensures Packets(Live()) == old(Packets(Live())) + multiset{r.packet} && r in Live()
    {
      assert Live() == Live() + [];
      DistinctInsert(Live(), r, []);
      PacketsInsert(Live(), r, []);
      assert Live() + [r] + [] == active + SlotList(broadcast) + (indirectQ + [r]);
      indirectQ := indirectQ + [r];
    }

    method JoinActive(r: Request)
      requires Valid() && !Uses(Live(), r.handle) && activeSize < UnicastMax() && !fragmenterActive && !r.packet.indirect
      requires !timac ==> Free(active, r.packet.dest)
      modifies this`active, this`activeSize, this`fragmenterActive
      ensures Valid() && active == old(active) + [r] && fragmenterActive == r.sending.Parts?
      ensures Packets(Live()) == old(Packets(Live())) + multiset{r.packet} && r in Live()
    {
      ghost var rest := SlotList(broadcast) + indirectQ;
      assert Live() == active + rest;
      DistinctInsert(active, r, rest);
      PacketsInsert(active, r, rest);
      assert active + [r] + rest == (active + [r]) + SlotList(broadcast) + indirectQ;
      RequestedMore(active, r);
      PartsMore(active, r);
      if !timac {
        ApartMore(active, r);
      }
      active, activeSize, fragmenterActive := active + [r], activeSize + 1, r.sending.Parts?;
    }

    method JoinBroadcast(r: Request)
      requires Valid() && !Uses(Live(), r.handle) && broadcast.Empty? && !fragmenterActive
      modifies this`broadcast, this`fragmenterActive
      ensures Valid() && broadcast == Busy(r) && fragmenterActive == r.sending.Parts?
      ensures Packets(Live()) == old(Packets(Live())) + multiset{r.packet} && r in Live()
    {
      assert Live() == active + indirectQ;
      DistinctInsert(active, r, indirectQ);
      PacketsInsert(active, r, indirectQ);
      broadcast, fragmenterActive := Busy(r), r.sending.Parts?;
      assert Live() == active + [r] + indirectQ;
    }

    function Answers(purgeable: set<byte>): (answers: seq<bool>)
      reads this
      ensures |answers| == |active|
    {
      seq(|active|, i requires 0 <= i < |active| reads this => active[i].handle in purgeable)
    }

    /** How many times the high-priority state can still change at this moment. */
    function Changes(now: u32): nat
      reads this
    {
      if Expired(now) then 2 else if HighPriority() then 0 else 1
    }

    /** lowpan_adaptation_priority_status_update: whatever was allowed to go before still is. */
    method UpdatePriority(b: Packet, purgeable: set<byte>, now: u32)
      requires Valid()
      modifies this`active, this`activeSize, this`lastHighPriority, queue
      ensures Valid() && Total() == old(Total())
      ensures old(TxAllowed(b)) ==> TxAllowed(b)
      ensures b.priority == EXPEDITE_FORWARD ==> lastHighPriority == if now != 0 then now else 1
      ensures b.priority != EXPEDITE_FORWARD ==>
                && active == old(active) && queue.direct == old(queue.direct)
                && lastHighPriority == if old(Expired(now) && NoneUrgent(-1)) then 0 else old(lastHighPriority)
      ensures Changes(now) <= old(Changes(now)) && (Changes(now) == old(Changes(now)) ==> queue.direct == old(queue.direct))
      ensures fragmenterActive ==> active == old(active) && queue.direct == old(queue.direct)
    {
      if b.priority == EXPEDITE_FORWARD {
        Raise(b, purgeable, now);
      } else {
        var _ := ExitHighPriority(now);
      }
    }

    method Raise(b: Packet, purgeable: set<byte>, now: u32)
      requires Valid() && b.priority == EXPEDITE_FORWARD
      modifies this`active, this`activeSize, this`lastHighPriority, queue
      ensures Valid() && Total() == old(Total()) && lastHighPriority == if now != 0 then now else 1
      ensures old(TxAllowed(b)) ==> TxAllowed(b)
      ensures old(HighPriority()) || fragmenterActive ==> active == old(active) && queue.direct == old(queue.direct)
    {
      ghost var rs, answers := active, Answers(purgeable);
      KeptShorter(rs, answers);
      if Free(rs, b.dest) {
        KeptFree(rs, answers, b.dest);
      }
      EnableHighPriority(Answers(purgeable), now);
    }

    /** A packet goes to the MAC if it may, and to the queue otherwise; a normal one may be refused when there is congestion. While
        fragments are on their way, no direct request starts. */
    method Admit(b: Packet, congested: bool) returns (r: Result)
      requires Valid() && |Live()| < 256
      modifies this`msduHandle, this`active, this`activeSize, this`broadcast, this`indirectQ, this`fragmenterActive, queue
      ensures Valid() && Total() == old(Total()) + if r.Refused? then multiset{} else multiset{b}
      ensures r.Started? <==> old(TxAllowed(b))
      ensures r.Started? ==> Uses(Live(), r.handle) && !Uses(old(Live()), r.handle) && queue.direct == old(queue.direct)
      ensures old(fragmenterActive) ==> active == old(active) && broadcast == old(broadcast) && fragmenterActive
      ensures r.Refused? <==> !old(TxAllowed(b)) && congested && b.priority == NORMAL
      ensures !r.Started? ==> Live() == old(Live())
      ensures !b.indirect ==> indirectQ == old(indirectQ)
      ensures r.Queued? ==> forall p :: Bucket(queue.direct, p) == old(Bucket(queue.direct, p)) + One(b, p)
    {
      if TxAllowed(b) {
        var h := Start(b);
        return Started(h);
      }
      if b.priority == NORMAL && congested {
        return Refused;
      }
      var _ := queue.Write(b);
      return Queued;
    }

    /** lowpan_adaptation_interface_tx, with fragmentation that can be set up and room for indirect packets. */
    method Tx(b: Packet, purgeable: set<byte>, now: u32, congested: bool) returns (r: Result)
      requires Valid() && |indirectQ| <= INDIRECT_MAX
      modifies this`msduHandle, this`active, this`activeSize, this`broadcast, this`indirectQ, this`fragmenterActive
      modifies this`lastHighPriority, queue
      ensures Valid() && Total() == old(Total()) + if r.Refused? then multiset{} else multiset{b}
      ensures r.Started? ==> Uses(Live(), r.handle)
      ensures r.Refused? ==> congested && b.priority == NORMAL
      ensures old(fragmenterActive) ==> active == old(active) && broadcast == old(broadcast) && fragmenterActive
      ensures !b.indirect ==> indirectQ == old(indirectQ)
      ensures b.priority == EXPEDITE_FORWARD ==> lastHighPriority == if now != 0 then now else 1
      ensures b.priority != EXPEDITE_FORWARD ==> lastHighPriority == if old(Expired(now) && NoneUrgent(-1)) then 0 else old(lastHighPriority)
      ensures old(TxAllowed(b)) && b.priority != EXPEDITE_FORWARD ==> queue.direct == old(queue.direct)
      ensures old(TxAllowed(b)) ==>
                && r.Started? && Changes(now) <= old(Changes(now))
                && (Changes(now) == old(Changes(now)) ==> queue.direct == old(queue.direct))
    {
      UpdatePriority(b, purgeable, now);
      r := Admit(b, congested);
    }

    /** Everything that may go is taken from the queue and sent: each of these packets is started, none is refused or queued again, and in
        the end none is left that may go. */
    method SendQueued(purgeable: set<byte>, now: u32) returns (ghost sent: seq<Packet>, ghost results: seq<Result>, ghost at: nat)
      requires Valid() && |indirectQ| <= INDIRECT_MAX
      modifies this`msduHandle, this`active, this`activeSize, this`broadcast, this`indirectQ, this`fragmenterActive
      modifies this`lastHighPriority, queue
      ensures Valid() && Total() == old(Total()) && indirectQ == old(indirectQ)
      ensures forall i :: 0 <= i < |queue.direct| ==> !Next(queue.direct, i)
      ensures |results| == |sent| && AllStarted(results)
      ensures if sent == [] then Live() == old(Live()) && queue.direct == old(queue.direct)
              else old(Next(queue.direct, at)) && sent[0] == old(queue.direct)[at]
      ensures old(fragmenterActive) ==> sent == [] && fragmenterActive
      ensures old(HighPriority() && !Expired(now)) ==> HighPriority()
      ensures old(!HighPriority() && Ordinary(queue.direct)) ==> !HighPriority()
    {
      sent, results := [], [];
      var found, b;
      found, b, at := Read();
      if found {
        sent, results := SendLoop(b, purgeable, now);
      }
    }

    method SendOn(purgeable: set<byte>, now: u32)
      requires Valid() && |indirectQ| <= INDIRECT_MAX
      modifies this`msduHandle, this`active, this`activeSize, this`broadcast, this`indirectQ, this`fragmenterActive
      modifies this`lastHighPriority, queue
      ensures Valid() && Total() == old(Total()) && indirectQ == old(indirectQ)
      ensures old(fragmenterActive) ==> Live() == old(Live()) && queue.direct == old(queue.direct) && fragmenterActive
      ensures forall i :: 0 <= i < |queue.direct| ==> !Next(queue.direct, i)
      ensures old(HighPriority() && !Expired(now)) ==> HighPriority()
      ensures old(!HighPriority() && Ordinary(queue.direct)) ==> !HighPriority()
    {
      ghost var _, _, _ := SendQueued(purgeable, now);
    }

    /** Nothing queued has high priority. */
    static predicate Ordinary(q: seq<Packet>) {
      forall i :: 0 <= i < |q| ==> q[i].priority != EXPEDITE_FORWARD
    }

    /** The send loop, from a packet taken off the queue on. */
    method SendLoop(first: Packet, purgeable: set<byte>, now: u32) returns (ghost sent: seq<Packet>, ghost results: seq<Result>)
      requires Valid() && |indirectQ| <= INDIRECT_MAX && TxAllowed(first) && !first.indirect
      modifies this`msduHandle, this`active, this`activeSize, this`broadcast, this`indirectQ, this`fragmenterActive
      modifies this`lastHighPriority, queue
      ensures Valid() && Total() == old(Total()) + multiset{first} && indirectQ == old(indirectQ)
      ensures forall i :: 0 <= i < |queue.direct| ==> !Next(queue.direct, i)
      ensures |results| == |sent| > 0 && AllStarted(results) && sent[0] == first
      ensures old(HighPriority() && !Expired(now)) ==> HighPriority()
      ensures old(!HighPriority() && Ordinary(queue.direct)) && first.priority != EXPEDITE_FORWARD ==> !HighPriority()
    {
      sent, results := [], [];
      var found, b := true, first;
      while found
        invariant Valid() && indirectQ == old(indirectQ) && (found ==> TxAllowed(b) && !b.indirect)
        invariant Total() + (if found then multiset{b} else multiset{}) == old(Total()) + multiset{first}
        invariant !found ==> forall i :: 0 <= i < |queue.direct| ==> !Next(queue.direct, i)
        invariant old(HighPriority() && !Expired(now)) ==> HighPriority() && !Expired(now)
        invariant old(!HighPriority() && Ordinary(queue.direct)) && first.priority != EXPEDITE_FORWARD ==>
                    !HighPriority() && Ordinary(queue.direct) && (found ==> b.priority != EXPEDITE_FORWARD)
        invariant |results| == |sent| && AllStarted(results) && if sent == [] then found && b == first else sent[0] == first
        decreases Changes(now), |queue.direct| + Count(found)
      {
        var r;
        sent := sent + [b];
        r, found, b := SendOne(b, purgeable, now);
        results := results + [r];
      }
    }

    /** One packet that may go is sent, and the next one is taken off the queue. */
    method SendOne(b: Packet, purgeable: set<byte>, now: u32) returns (r: Result, found: bool, b': Packet)
      requires Valid() && |indirectQ| <= INDIRECT_MAX && TxAllowed(b) && !b.indirect
      modifies this`msduHandle, this`active, this`activeSize, this`broadcast, this`indirectQ, this`fragmenterActive
      modifies this`lastHighPriority, queue
      ensures Valid() && indirectQ == old(indirectQ) && (found ==> TxAllowed(b') && !b'.indirect)
      ensures Total() + (if found then multiset{b'} else multiset{}) == old(Total()) + multiset{b}
      ensures !found ==> forall i :: 0 <= i < |queue.direct| ==> !Next(queue.direct, i)
      ensures old(HighPriority() && !Expired(now)) ==> HighPriority() && !Expired(now)
      ensures old(!HighPriority() && Ordinary(queue.direct)) && b.priority != EXPEDITE_FORWARD ==>
                !HighPriority() && Ordinary(queue.direct) && (found ==> b'.priority != EXPEDITE_FORWARD)
      ensures r.Started? && Changes(now) <= old(Changes(now))
      ensures Changes(now) == old(Changes(now)) ==> |queue.direct| + Count(found) <= |old(queue.direct)|
    {
      r := Tx(b, purgeable, now, false);
      ghost var at;
      found, b', at := Read();
    }

    /** The searches of lowpan_adaptation_interface_tx_confirm. */
    method Find(h: byte) returns (f: Found)
      requires Valid()
      ensures f.Unknown? <==> !Uses(Live(), h)
      ensures f.InBroadcast? ==> broadcast.Busy? && broadcast.request.handle == h
      ensures f.InActive? ==> f.index < |active| && active[f.index].handle == h
      ensures f.InIndirect? ==> f.index < |indirectQ| && indirectQ[f.index].handle == h
    {
      FreeIs(active, SlotList(broadcast), indirectQ, h);
      if broadcast.Busy? && broadcast.request.handle == h {
        assert SlotList(broadcast)[0].handle == h;
        return InBroadcast;
      }
      var i := Search(active, h);
      if i < |active| {
        return InActive(i);
      }
      i := Search(indirectQ, h);
      return if i < |indirectQ| then InIndirect(i) else Unknown;
    }

    /** The bookkeeping of lowpan_adaptation_interface_tx_confirm: the one request with this handle goes on to its next fragment, is
        tried again, or is done. */
    method Settle(h: byte, o: Outcome) returns (f: Found, ghost at: nat, ghost done: multiset<Packet>)
      requires Valid()
      modifies this`active, this`activeSize, this`broadcast, this`indirectQ, this`fragmenterActive
      ensures Valid() && (f.Unknown? <==> !Uses(old(Live()), h)) && (fragmenterActive ==> old(fragmenterActive))
      ensures !f.Unknown? ==> at < |old(Live())| && old(Live())[at].handle == h
      ensures !f.Unknown? ==> (f.InIndirect? <==> at >= |old(active)| + |SlotList(old(broadcast))|)
      ensures f.Unknown? || o.Retry? ==> Live() == old(Live()) && done == multiset{} && fragmenterActive == old(fragmenterActive)
      ensures !f.Unknown? && !o.Retry? ==>
                var r := old(Live())[at];
                if o.Success? && More(r) then
                  Live() == old(Live())[at := OnItsWay(r)] && done == multiset{} && fragmenterActive == old(fragmenterActive)
                else Gone(old(Live()), at, Live()) && done == multiset{r.packet}
                     && fragmenterActive == (old(fragmenterActive) && (f.InIndirect? || r.sending.Whole?))
      ensures Total() + done == old(Total()) && |indirectQ| <= |old(indirectQ)|
      ensures !f.Unknown? && !f.InIndirect? && o.Success? && More(old(Live())[at]) ==> fragmenterActive
      ensures old(NoneUrgent(if done == multiset{} then -1 else at)) ==> NoneUrgent(-1)
    {
      var k, r;
      f, k, r := Locate(h);
      at, done := k, multiset{};
      if f.Unknown? || o.Retry? {
        return;
      }
      if o.Success? && More(r) {
        Proceed(k, OnItsWay(r));
      } else {
        done := multiset{r.packet};
        Finish(k);
      }
    }

    /** The one live request with this handle, and where it stands among all live ones. */
    method Locate(h: byte) returns (f: Found, at: nat, r: Request)
      requires Valid()
      ensures f.Unknown? <==> !Uses(Live(), h)
      ensures !f.Unknown? ==> at < |Live()| && r == Live()[at] && r.handle == h
      ensures !f.Unknown? ==> (f.InIndirect? <==> at >= |active| + |SlotList(broadcast)|)
    {
      f := Find(h);
      at, r := 0, Request(Packet(0, 0, false, false, 0, Whole), h, Whole);
      match f
      case InBroadcast => at, r := |active|, broadcast.request;
      case InActive(i) => at, r := i, active[i];
      case InIndirect(i) => at, r := |active| + |SlotList(broadcast)| + i, indirectQ[i];
      case Unknown =>
    }

    /** Whether fragments remain once the one on its way is confirmed. */
    predicate More(r: Request) {
      r.sending.Parts? && LowpanFragmenter.Confirmed(r.sending.progress).left > 0
    }

    function OnItsWay(r: Request): Request
      requires r.sending.Parts?
    {
      r.(sending := Parts(LowpanFragmenter.Confirmed(r.sending.progress)))
    }

    /** The live request at this position goes on to its next fragment. */
    method Proceed(at: nat, r: Request)
      requires Valid() && at < |Live()| && r.packet == Live()[at].packet && r.handle == Live()[at].handle
      requires r.sending.Parts? && Live()[at].sending.Parts?
      modifies this`active, this`broadcast, this`indirectQ
      ensures Valid() && Live() == old(Live())[at := r] && Packets(Live()) == old(Packets(Live()))
      ensures |indirectQ| == |old(indirectQ)|
      ensures |active| == |old(active)| && forall i :: 0 <= i < |active| ==> active[i].packet == old(active)[i].packet
      ensures at < |active| + |SlotList(old(broadcast))| ==> fragmenterActive
    {
      ghost var live := Live();
      if at < |active| + |SlotList(broadcast)| {
        DirectParts(active, SlotList(broadcast), indirectQ, at);
      }
      var n, m := |active|, |SlotList(broadcast)|;
      Proceeds(live, at, r);
      if at < n {
        assert live[at := r] == active[at := r] + SlotList(broadcast) + indirectQ;
        ProceedActive(at, r);
      } else if at < n + m {
        broadcast := Busy(r);
      } else {
        indirectQ := indirectQ[at - n - m := r];
      }
      assert Live() == live[at := r];
    }

    method ProceedActive(at: nat, r: Request)
      requires Valid() && at < |active| && r.packet == active[at].packet && r.handle == active[at].handle
      requires r.sending.Parts? && active[at].sending.Parts? && Distinct(active[at := r] + SlotList(broadcast) + indirectQ)
      modifies this`active
      ensures Valid() && active == old(active)[at := r]
    {
      Proceeds(active, at, r);
      RequestedUpdate(active, at, r);
      if !timac {
        ApartUpdate(active, at, r);
      }
      active := active[at := r];
    }

    /** The live request at this position is taken off its list; the fragmenter is free again if it was in use for it. */
    method Forget(at: nat)
      requires Valid() && at < |Live()|
      modifies this`active, this`activeSize, this`broadcast, this`indirectQ, this`fragmenterActive
      ensures Valid() && Gone(old(Live()), at, Live()) && Packets(Live()) + multiset{old(Live())[at].packet} == old(Packets(Live()))
      ensures fragmenterActive ==
              (old(fragmenterActive) && (at >= |old(active)| + |SlotList(old(broadcast))| || old(Live())[at].sending.Whole?))
      ensures |indirectQ| <= |old(indirectQ)| && active == Without(old(active), at)
    {
      DistinctRemove(Live(), at);
      PacketsInsert(Live()[..at], Live()[at], Live()[at + 1..]);
      assert Live() == Live()[..at] + [Live()[at]] + Live()[at + 1..];
      ghost var live := Live();
      var n, m := |active|, |SlotList(broadcast)|;
      RemoveFromOne(active, SlotList(broadcast), indirectQ, at);
      if at < n {
        ForgetActive(at);
      } else if at < n + m {
        fragmenterActive := fragmenterActive && broadcast.request.sending.Whole?;
        broadcast := Empty;
      } else {
        var i := at - n - m;
        indirectQ := indirectQ[..i] + indirectQ[i + 1..];
      }
      assert Live() == live[..at] + live[at + 1..];
    }

    /** A request is finished: its packet is accounted for, and nothing of high priority is left that was not there beside it. */
    method Finish(at: nat)
      requires Valid() && at < |Live()|
      modifies this`active, this`activeSize, this`broadcast, this`indirectQ, this`fragmenterActive
      ensures Valid() && Gone(old(Live()), at, Live()) && Total() + multiset{old(Live())[at].packet} == old(Total())
      ensures fragmenterActive ==
              (old(fragmenterActive) && (at >= |old(active)| + |SlotList(old(broadcast))| || old(Live())[at].sending.Whole?))
      ensures |indirectQ| <= |old(indirectQ)| && (old(NoneUrgent(at)) ==> NoneUrgent(-1))
    {
      ghost var live, rs := Live(), active;
      Forget(at);
      OthersUrgent(rs, at);
      QueueAside(multiset(queue.direct), Packets(Live()), multiset{live[at].packet}, Packets(live));
    }

    /** An active request is taken off its list. */
    method ForgetActive(at: nat)
      requires Valid() && at < |active| && Distinct(Without(active, at) + SlotList(broadcast) + indirectQ)
      modifies this`active, this`activeSize, this`fragmenterActive
      ensures Valid() && active == Without(old(active), at)
      ensures fragmenterActive == (old(fragmenterActive) && old(active)[at].sending.Whole?)
    {
      RequestedLess(active, at);
      PartsLess(active, at);
      if !timac {
        ApartLess(active, at);
      }
      fragmenterActive := fragmenterActive && active[at].sending.Whole?;
      active, activeSize := active[..at] + active[at + 1..], activeSize - 1;
    }

    /** What may now go is sent, once the high-priority state has been left if it can be. */
    method PushAllowed(purgeable: set<byte>, now: u32)
      requires Valid() && |indirectQ| <= INDIRECT_MAX
      modifies this`msduHandle, this`active, this`activeSize, this`broadcast, this`indirectQ, this`fragmenterActive
      modifies this`lastHighPriority, queue
      ensures Valid() && Total() == old(Total()) && indirectQ == old(indirectQ)
      ensures old(fragmenterActive) ==> Live() == old(Live()) && queue.direct == old(queue.direct) && fragmenterActive
      ensures forall i :: 0 <= i < |queue.direct| ==> !Next(queue.direct, i)
      ensures old(HighPriority() && !Expired(now)) ==> HighPriority()
      ensures old(Ordinary(queue.direct) && Expired(now) && NoneUrgent(-1)) ==> !HighPriority()
    {
      var _ := ExitHighPriority(now);
      SendOn(purgeable, now);
    }

    /** lowpan_adaptation_interface_tx_confirm: after a direct transmission, whatever may now go is sent; nothing may, as long as
        fragments are left. */
    method TxConfirm(h: byte, o: Outcome, purgeable: set<byte>, now: u32) returns (ghost at: nat, ghost done: multiset<Packet>)
      requires Valid() && |indirectQ| <= INDIRECT_MAX
      modifies this`msduHandle, this`active, this`activeSize, this`broadcast, this`indirectQ, this`fragmenterActive
      modifies this`lastHighPriority, queue
      ensures Valid() && Total() + done == old(Total())
      ensures !Uses(old(Live()), h) ==> Live() == old(Live()) && queue.direct == old(queue.direct) && done == multiset{}
      ensures Uses(old(Live()), h) ==> at < |old(Live())| && old(Live())[at].handle == h
      ensures o.Retry? ==> done == multiset{}
      ensures Uses(old(Live()), h) && o.Success? && More(old(Live())[at]) ==> done == multiset{}
      ensures Uses(old(Live()), h) && o.Success? && More(old(Live())[at]) && at < |old(active)| + |SlotList(old(broadcast))| ==>
                Live() == old(Live())[at := OnItsWay(old(Live())[at])] && queue.direct == old(queue.direct) && fragmenterActive
      ensures Uses(old(Live()), h) && at < old(|active| + |SlotList(broadcast)|) ==> forall i :: 0 <= i < |queue.direct| ==> !Next(queue.direct, i)
      ensures Uses(old(Live()), h) && at < old(|active| + |SlotList(broadcast)|) ==>
                (old(Ordinary(queue.direct) && Expired(now) && NoneUrgent(if done == multiset{} then -1 else at)) ==> !HighPriority())
      ensures old(HighPriority() && !Expired(now)) ==> HighPriority()
      ensures Uses(old(Live()), h) && (o.Failed? || (o.Success? && !More(old(Live())[at]))) ==> done == multiset{old(Live())[at].packet}
    {
      var f;
      f, at, done := Settle(h, o);
      if f.InBroadcast? || f.InActive? {
        PushAllowed(purgeable, now);
      }
    }

    /** A confirm, told apart by the list its request is found in. */
    method Confirmed(h: byte, o: Outcome, purgeable: set<byte>, now: u32) returns (ghost done: multiset<Packet>)
      requires Valid() && |indirectQ| <= INDIRECT_MAX
      modifies this`msduHandle, this`active, this`activeSize, this`broadcast, this`indirectQ, this`fragmenterActive
      modifies this`lastHighPriority, queue
      ensures Valid() && Total() + done == old(Total())
      ensures old(exists r :: r in active + SlotList(broadcast) && r.handle == h) ==>
                forall i :: 0 <= i < |queue.direct| ==> !Next(queue.direct, i)
    {
      ghost var live, direct := Live(), active + SlotList(broadcast);
      ghost var at;
      at, done := TxConfirm(h, o, purgeable, now);
      if r :| r in direct && r.handle == h {
        var i :| 0 <= i < |direct| && direct[i] == r;
        assert live[i].handle == h;
        DistinctFinds(live, i, at);
      }
    }

    /** Any event. What it lets in and what it finishes account for every packet. */
    method Step(e: Event) returns (ghost taken: multiset<Packet>, ghost done: multiset<Packet>)
      requires Valid() && |indirectQ| <= INDIRECT_MAX
      modifies this`msduHandle, this`active, this`activeSize, this`broadcast, this`indirectQ, this`fragmenterActive
      modifies this`lastHighPriority, queue
      ensures Valid() && Total() + done == old(Total()) + taken
      ensures taken == if e.Send? && taken != multiset{} then multiset{e.b} else multiset{}
      ensures e.Send? && taken == multiset{} ==> e.congested && e.b.priority == NORMAL
      ensures e.Send? || e.Expedite? || e.SlowTimer? ==> done == multiset{}
      ensures e.Confirm? && old(exists r :: r in active + SlotList(broadcast) && r.handle == e.handle) ==>
                forall i :: 0 <= i < |queue.direct| ==> !Next(queue.direct, i)
      ensures e.SlowTimer? ==>
                if old(Expired(e.now) && NoneUrgent(-1)) then forall i :: 0 <= i < |queue.direct| ==> !Next(queue.direct, i)
                else Live() == old(Live()) && queue.direct == old(queue.direct) && lastHighPriority == old(lastHighPriority)
    {
      taken, done := multiset{}, multiset{};
      match e
      case Send(b, now, purgeable, congested) =>
        var r := Tx(b, purgeable, now, congested);
        taken := if r.Refused? then multiset{} else multiset{b};
      case Confirm(h, o, now, purgeable) =>
        done := Confirmed(h, o, purgeable, now);
      case Expedite(now, purgeable) =>
        EnableHighPriority(Answers(purgeable), now);
      case SlowTimer(now, purgeable) =>
        var left := ExitHighPriority(now);
        if left {
          SendOn(purgeable, now);
        }
      case Discard(i) => done := DiscardIndirect(i);
    }

    /** An indirect packet is given up. */
    method DiscardIndirect(i: nat) returns (ghost done: multiset<Packet>)
      requires Valid()
      modifies this`active, this`activeSize, this`broadcast, this`indirectQ, this`fragmenterActive
      ensures Valid() && Total() + done == old(Total())
      ensures done == if i < |old(indirectQ)| then multiset{old(indirectQ)[i].packet} else multiset{}
    {
      done := multiset{};
      if i < |indirectQ| {
        ghost var live := Live();
        done := multiset{indirectQ[i].packet};
        Forget(|active| + |SlotList(broadcast)| + i);
        QueueAside(multiset(queue.direct), Packets(Live()), done, Packets(live));
      }
    }

    /** In every run, as long as handles cannot run out: the queue stays sorted, with the packets of each priority in the order in
        which they came; at most one direct request is in fragments, exactly while the fragmenter is in use; no two live requests have
        the same handle; and every packet that was let in is queued, live or finished, and only once. */
    method Run(events: seq<Event>) returns (done: nat, ghost taken: multiset<Packet>, ghost finished: multiset<Packet>)
      requires Valid()
      modifies this`msduHandle, this`active, this`activeSize, this`broadcast, this`indirectQ, this`fragmenterActive
      modifies this`lastHighPriority, queue
      ensures Valid() && Sorted(queue.direct) && InOrder(queue.direct, queue.stamps) && Distinct(Live())
      ensures PartsIn(active) + PartsIn(SlotList(broadcast)) == Count(fragmenterActive)
      ensures queue.directSize == |queue.direct| && activeSize == |active|
      ensures multiset(queue.direct) + Packets(Live()) + finished == old(Total()) + taken
      ensures done <= |events| && (done < |events| ==> |indirectQ| > INDIRECT_MAX)
    {
      done, taken, finished := 0, multiset{}, multiset{};
      while done < |events| && |indirectQ| <= INDIRECT_MAX
        invariant done <= |events| && Valid() && Total() + finished == old(Total()) + taken
      {
        ghost var was := Total();
        ghost var t, f := Step(events[done]);
        Balance(was, Total(), finished, f, old(Total()), taken, t);
        done, taken, finished := done + 1, taken + t, finished + f;
      }
    }

    /** Position i is the first that may go, and none up to it has to wait. */
    predicate Next(q: seq<Packet>, i: nat)
      reads this
    {
      i < |q| && TxAllowed(q[i]) && !Blocks(q[i]) && forall j :: 0 <= j < i ==> Waits(q, j)
    }
  }
}
