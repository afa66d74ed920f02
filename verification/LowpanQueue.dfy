/** The transmit queue of the 6LoWPAN adaptation layer: priorities, preemption and MAC handles. */
module LowpanQueue {
  import opened Bytes
  import LowpanFragmenter

  const NORMAL := 0
  const EXPEDITE_FORWARD := 3

  /** In one frame, or in fragments, of which some have been confirmed. */
  datatype Sending = Whole | Parts(progress: LowpanFragmenter.Progress)

  datatype Packet = Packet(id: nat, priority: nat, unicast: bool, indirect: bool, dest: nat, sending: Sending)

  /** A request that the MAC has and has not confirmed. */
  datatype Request = Request(packet: Packet, handle: byte, sending: Sending)

  ghost predicate Sorted(q: seq<Packet>) {
    forall i, j :: 0 <= i < j < |q| ==> q[j].priority <= q[i].priority
  }

  /** The packets of one priority, in order. */
  function Bucket(q: seq<Packet>, p: nat): seq<Packet> {
    if q == [] then [] else One(q[0], p) + Bucket(q[1..], p)
  }

  function One(b: Packet, p: nat): seq<Packet> {
    if b.priority == p then [b] else []
  }

  lemma {:induction false} BucketAppend(a: seq<Packet>, b: seq<Packet>, p: nat)
    ensures Bucket(a + b, p) == Bucket(a, p) + Bucket(b, p)
  {
    if a == [] {
      assert a + b == b;
    } else {
      assert (a + b)[1..] == a[1..] + b;
      BucketAppend(a[1..], b, p);
      assert One(a[0], p) + (Bucket(a[1..], p) + Bucket(b, p)) == One(a[0], p) + Bucket(a[1..], p) + Bucket(b, p);
    }
  }

  lemma {:induction false} BucketEmpty(q: seq<Packet>, p: nat)
    requires forall i :: 0 <= i < |q| ==> q[i].priority != p
    ensures Bucket(q, p) == []
  {
    if q != [] {
      BucketEmpty(q[1..], p);
    }
  }

  lemma {:induction false} BucketMiddle(a: seq<Packet>, b: Packet, c: seq<Packet>, p: nat)
    ensures Bucket(a + [b] + c, p) == Bucket(a, p) + One(b, p) + Bucket(c, p)
  {
    assert a + [b] + c == a + ([b] + c);
    BucketAppend(a, [b] + c, p);
    assert ([b] + c)[1..] == c;
  }

  /** Two sorted queues with the same packets of each priority, in the same order, are the same queue. */
  lemma {:induction false} BucketsDecide(q: seq<Packet>, r: seq<Packet>)
    requires Sorted(q) && Sorted(r) && forall p :: Bucket(q, p) == Bucket(r, p)
    ensures q == r
  {
    if q == [] {
      assert r != [] ==> Bucket(r, r[0].priority) != Bucket(q, r[0].priority);
    } else {
      assert Bucket(q, q[0].priority) == Bucket(r, q[0].priority);
      assert r != [];
      HeadOfBucket(r, q[0].priority);
      assert Bucket(q, r[0].priority) == Bucket(r, r[0].priority);
      HeadOfBucket(q, r[0].priority);
      assert Bucket(q, q[0].priority)[0] == q[0] && Bucket(r, q[0].priority)[0] == r[0];
      forall p ensures Bucket(q[1..], p) == Bucket(r[1..], p) {
        assert Bucket(q, p) == Bucket(r, p);
        assert Bucket(q, p)[if q[0].priority == p then 1 else 0..] == Bucket(q[1..], p);
        assert Bucket(r, p)[if r[0].priority == p then 1 else 0..] == Bucket(r[1..], p);
      }
      BucketsDecide(q[1..], r[1..]);
      assert q == [q[0]] + q[1..] && r == [r[0]] + r[1..];
    }
  }

  lemma {:induction false} HeadOfBucket(q: seq<Packet>, p: nat)
    requires Sorted(q) && q != [] && Bucket(q, p) != []
    ensures p <= q[0].priority
  {
    if q[0].priority != p {
      HeadOfBucket(q[1..], p);
      assert q[1].priority <= q[0].priority;
    }
  }

  /** The queue with b put in behind all packets of its own or a higher priority: i is the first of lower priority. */
  lemma {:induction false} WrittenOrder(q: seq<Packet>, b: Packet, i: nat)
    requires Sorted(q) && i <= |q| && (forall j :: 0 <= j < i ==> q[j].priority >= b.priority) && (i < |q| ==> q[i].priority < b.priority)
    ensures var r := q[..i] + [b] + q[i..];
            Sorted(r) && forall p :: Bucket(r, p) == Bucket(q, p) + One(b, p)
  {
    forall p ensures Bucket(q[..i] + [b] + q[i..], p) == Bucket(q, p) + One(b, p) {
      BucketAround(q, b, i, p);
      if p == b.priority {
        BucketEmpty(q[i..], p);
      }
    }
  }

  lemma {:induction false} BucketAround(q: seq<Packet>, b: Packet, i: nat, p: nat)
    requires i <= |q|
    ensures Bucket(q[..i] + [b] + q[i..], p) == Bucket(q[..i], p) + One(b, p) + Bucket(q[i..], p)
    ensures Bucket(q, p) == Bucket(q[..i], p) + Bucket(q[i..], p)
  {
    assert q == q[..i] + q[i..];
    BucketMiddle(q[..i], b, q[i..], p);
    BucketAppend(q[..i], q[i..], p);
  }

  /** The queue with b put in ahead of all packets of its own or a lower priority. */
  lemma {:induction false} FrontOrder(q: seq<Packet>, b: Packet, i: nat)
    requires Sorted(q) && i <= |q| && (forall j :: 0 <= j < i ==> q[j].priority > b.priority) && (i < |q| ==> q[i].priority <= b.priority)
    ensures var r := q[..i] + [b] + q[i..];
            Sorted(r) && forall p :: Bucket(r, p) == One(b, p) + Bucket(q, p)
  {
    forall p ensures Bucket(q[..i] + [b] + q[i..], p) == One(b, p) + Bucket(q, p) {
      BucketAround(q, b, i, p);
      if p == b.priority {
        BucketEmpty(q[..i], p);
      }
    }
  }

  /** What the MAC lets be purged, and what it keeps. */
  function Purged(rs: seq<Request>, answers: seq<bool>): seq<Packet>
    requires |answers| == |rs|
  {
    if rs == [] then [] else (if answers[0] then [rs[0].packet] else []) + Purged(rs[1..], answers[1..])
  }

  function Kept(rs: seq<Request>, answers: seq<bool>): seq<Request>
    requires |answers| == |rs|
  {
    if rs == [] then [] else (if answers[0] then [] else [rs[0]]) + Kept(rs[1..], answers[1..])
  }

  function Packets(rs: seq<Request>): multiset<Packet> {
    if rs == [] then multiset{} else multiset{rs[0].packet} + Packets(rs[1..])
  }

  /** Nothing is lost: what is kept and what is purged is what there was. */
  lemma {:induction false} PurgeConserves(rs: seq<Request>, answers: seq<bool>)
    requires |answers| == |rs|
    ensures Packets(rs) == Packets(Kept(rs, answers)) + multiset(Purged(rs, answers))
  {
    if rs != [] {
      PurgeConserves(rs[1..], answers[1..]);
      var k, p := Kept(rs[1..], answers[1..]), Purged(rs[1..], answers[1..]);
      if answers[0] {
        assert Kept(rs, answers) == k && Purged(rs, answers) == [rs[0].packet] + p;
        OneMore(rs[0].packet, Packets(k), p);
      } else {
        assert Kept(rs, answers) == [rs[0]] + k && ([rs[0]] + k)[1..] == k;
        assert Purged(rs, answers) == p;
        OneMoreKept(rs[0].packet, Packets(k), multiset(p));
      }
    }
  }

  lemma OneMore(b: Packet, k: multiset<Packet>, p: seq<Packet>)
    ensures multiset{b} + (k + multiset(p)) == k + multiset([b] + p)
  {
    assert multiset([b] + p) == multiset{b} + multiset(p);
  }

  lemma OneMoreKept(b: Packet, k: multiset<Packet>, p: multiset<Packet>)
    ensures multiset{b} + (k + p) == (multiset{b} + k) + p
  {
  }

  /** When each queued packet came: the counts go up for packets queued at the back and down for packets put in front. */
  datatype Stamps = Stamps(at: seq<int>, low: int, high: int)

  predicate StampAt(t: Stamps, i: nat)
    requires i < |t.at|
  {
    t.low < t.at[i] < t.high
  }

  predicate OrderAt(q: seq<Packet>, t: Stamps, i: nat, j: nat)
    requires i < |q| == |t.at| && j < |q|
  {
    q[i].priority == q[j].priority ==> t.at[i] < t.at[j]
  }

  /** Packets of one priority are queued in the order of their stamps. */
  ghost predicate InOrder(q: seq<Packet>, t: Stamps) {
    && |t.at| == |q| && t.low < t.high
    && (forall i :: 0 <= i < |q| ==> StampAt(t, i))
    && (forall i, j :: 0 <= i < j < |q| ==> OrderAt(q, t, i, j))
  }

  /** A stamp is put in at position i. */
  function Stamped(t: Stamps, i: nat, back: bool): Stamps
    requires i <= |t.at|
  {
    if back then Stamps(t.at[..i] + [t.high] + t.at[i..], t.low, t.high + 1) else Stamps(t.at[..i] + [t.low] + t.at[i..], t.low - 1, t.high)
  }

  function Unstamped(t: Stamps, i: nat): Stamps
    requires i < |t.at|
  {
    t.(at := t.at[..i] + t.at[i + 1..])
  }

  lemma {:induction false} InOrderMore(q: seq<Packet>, t: Stamps, b: Packet, i: nat, back: bool)
    requires InOrder(q, t) && i <= |q|
    requires if back then forall j :: i <= j < |q| ==> q[j].priority != b.priority
             else forall j :: 0 <= j < i ==> q[j].priority != b.priority
    ensures InOrder(q[..i] + [b] + q[i..], Stamped(t, i, back))
  {
    var q', t' := q[..i] + [b] + q[i..], Stamped(t, i, back);
    assert q'[i] == b && t'.at[i] == if back then t.high else t.low;
    forall k | 0 <= k < |q'| ensures StampAt(t', k) {
      assert k != i ==> StampAt(t, if k < i then k else k - 1);
    }
    forall k, l | 0 <= k < l < |q'| ensures OrderAt(q', t', k, l) {
      if k == i {
        assert q'[l] == q[l - 1] && t'.at[l] == t.at[l - 1] && StampAt(t, l - 1);
      } else if l == i {
        assert q'[k] == q[k] && t'.at[k] == t.at[k] && StampAt(t, k);
      } else {
        var k', l' := if k < i then k else k - 1, if l < i then l else l - 1;
        assert q'[k] == q[k'] && t'.at[k] == t.at[k'] && q'[l] == q[l'] && t'.at[l] == t.at[l'];
        assert OrderAt(q, t, k', l');
      }
    }
  }

  lemma {:induction false} InOrderLess(q: seq<Packet>, t: Stamps, i: nat)
    requires InOrder(q, t) && i < |q|
    ensures InOrder(q[..i] + q[i + 1..], Unstamped(t, i))
  {
    var q', t' := q[..i] + q[i + 1..], Unstamped(t, i);
    forall k | 0 <= k < |q'| ensures StampAt(t', k) {
      assert StampAt(t, if k < i then k else k + 1);
    }
    forall k, l | 0 <= k < l < |q'| ensures OrderAt(q', t', k, l) {
      assert OrderAt(q, t, if k < i then k else k + 1, if l < i then l else l + 1);
    }
  }

  predicate DirectAt(q: seq<Packet>, i: nat)
    requires i < |q|
  {
    !q[i].indirect
  }

  /** Packets that wait for a MAC data request from a sleeping child are never queued here. */
  ghost predicate AllDirect(q: seq<Packet>) {
    forall i :: 0 <= i < |q| ==> DirectAt(q, i)
  }

  lemma DirectMore(q: seq<Packet>, b: Packet, i: nat)
    requires AllDirect(q) && i <= |q| && !b.indirect
    ensures AllDirect(q[..i] + [b] + q[i..])
  {
    var q' := q[..i] + [b] + q[i..];
    forall k | 0 <= k < |q'| ensures DirectAt(q', k) {
      assert k != i ==> DirectAt(q, if k < i then k else k - 1);
    }
  }

  lemma DirectLess(q: seq<Packet>, i: nat)
    requires AllDirect(q) && i < |q|
    ensures AllDirect(q[..i] + q[i + 1..])
  {
    var q' := q[..i] + q[i + 1..];
    forall k | 0 <= k < |q'| ensures DirectAt(q', k) {
      assert DirectAt(q, if k < i then k else k + 1);
    }
  }

  /** The direct queue with its counter. */
  class Queue {
    var direct: seq<Packet>
    var directSize: nat
    ghost var stamps: Stamps

    ghost predicate Valid()
      reads this
    {
      Sorted(direct) && directSize == |direct| && InOrder(direct, stamps) && AllDirect(direct)
    }

    constructor ()
      ensures Valid() && direct == []
    {
      direct, directSize, stamps := [], 0, Stamps([], 0, 1);
    }

    /** lowpan_adaptation_tx_queue_write. */
    method Write(b: Packet) returns (ghost at: nat)
      requires Valid() && !b.indirect
      modifies this
      ensures Valid() && forall p :: Bucket(direct, p) == old(Bucket(direct, p)) + One(b, p)
      ensures multiset(direct) == multiset(old(direct)) + multiset{b}
      ensures at <= |old(direct)| && direct == old(direct)[..at] + [b] + old(direct)[at..] && stamps == Stamped(old(stamps), at, true)
    {
      var i := 0;
      while i < |direct| && direct[i].priority >= b.priority
        invariant direct == old(direct) && i <= |direct|
        invariant forall j :: 0 <= j < i ==> direct[j].priority >= b.priority
      {
        i := i + 1;
      }
      WrittenOrder(direct, b, i);
      InOrderMore(direct, stamps, b, i, true);
      DirectMore(direct, b, i);
      assert direct == direct[..i] + direct[i..];
      direct, directSize := direct[..i] + [b] + direct[i..], directSize + 1;
      at, stamps := i, Stamped(stamps, i, true);
    }

    /** lowpan_adaptation_tx_queue_write_to_front. */
    method WriteToFront(b: Packet) returns (ghost at: nat)
      requires Valid() && !b.indirect
      modifies this
      ensures Valid() && forall p :: Bucket(direct, p) == One(b, p) + old(Bucket(direct, p))
      ensures multiset(direct) == multiset(old(direct)) + multiset{b}
      ensures at <= |old(direct)| && direct == old(direct)[..at] + [b] + old(direct)[at..] && stamps == Stamped(old(stamps), at, false)
    {
      var i := 0;
      while i < |direct| && direct[i].priority > b.priority
        invariant direct == old(direct) && i <= |direct|
        invariant forall j :: 0 <= j < i ==> direct[j].priority > b.priority
      {
        i := i + 1;
      }
      FrontOrder(direct, b, i);
      InOrderMore(direct, stamps, b, i, false);
      DirectMore(direct, b, i);
      assert direct == direct[..i] + direct[i..];
      direct, directSize := direct[..i] + [b] + direct[i..], directSize + 1;
      at, stamps := i, Stamped(stamps, i, false);
    }

    /** Takes the packet at position i off the queue. */
    method Remove(i: nat) returns (b: Packet)
      requires Valid() && i < |direct|
      modifies this
      ensures Valid() && b == old(direct)[i] && direct == old(direct)[..i] + old(direct)[i + 1..] && stamps == Unstamped(old(stamps), i)
      ensures multiset(direct) + multiset{b} == multiset(old(direct)) && !b.indirect
    {
      b := direct[i];
      assert DirectAt(direct, i);
      InOrderLess(direct, stamps, i);
      DirectLess(direct, i);
      assert direct == direct[..i] + [b] + direct[i + 1..];
      direct, directSize := direct[..i] + direct[i + 1..], directSize - 1;
      stamps := Unstamped(stamps, i);
    }
  }
}
