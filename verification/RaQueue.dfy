/** The queue of router advertisements: each entry counts from the one before it. */
module RaQueue {
  import opened Bytes

  datatype Dest = AllNodes | Host(addr: nat)

  /** The border router an advertisement is for, if any (RFC 6775 ABRO). */
  datatype Abro = Unspecified | Router(addr: nat)

  datatype Key = Key(iface: nat, dest: Dest, abro: Abro)

  datatype Ra = Ra(key: Key, rsTriggered: bool, ticks: nat)

  /** An advertisement and the number of ticks from now at which it is sent. */
  datatype Due = Due(key: Key, rsTriggered: bool, at: nat)

  /** What the relative queue means: absolute deadlines, counted from base. */
  function Schedule(q: seq<Ra>, base: nat): (s: seq<Due>)
    ensures |s| == |q|
  {
    if q == [] then []
    else
      var at := base + q[0].ticks;
      [Due(q[0].key, q[0].rsTriggered, at)] + Schedule(q[1..], at)
  }

  /** Deadline of the entry before position i, or base. */
  function Reached(q: seq<Ra>, base: nat, i: nat): nat
    requires i <= |q|
  {
    if i == 0 then base else Reached(q[1..], base + q[0].ticks, i - 1)
  }

  /** In front of the first entry that is later: entries with the same deadline stay in order of arrival. */
  function InsertDue(s: seq<Due>, d: Due): seq<Due> {
    if s == [] then [d]
    else if s[0].at > d.at then [d] + s
    else [s[0]] + InsertDue(s[1..], d)
  }

  ghost predicate Sorted(s: seq<Due>) {
    forall i, j :: 0 <= i < j < |s| ==> s[i].at <= s[j].at
  }

  /** Relative ticks can only mean a sorted schedule. */
  lemma {:induction false} ScheduleSorted(q: seq<Ra>, base: nat)
    ensures Sorted(Schedule(q, base))
    ensures forall d :: d in Schedule(q, base) ==> base <= d.at
  {
    if q != [] {
      ScheduleSorted(q[1..], base + q[0].ticks);
      var s, r := Schedule(q, base), Schedule(q[1..], base + q[0].ticks);
      forall i, j | 0 <= i < j < |s| ensures s[i].at <= s[j].at {
        assert s[j] == r[j - 1] && r[j - 1] in r;
        if i > 0 {
          assert s[i] == r[i - 1];
        }
      }
    }
  }

  lemma {:induction false} ScheduleAppend(a: seq<Ra>, b: seq<Ra>, base: nat)
    ensures Schedule(a + b, base) == Schedule(a, base) + Schedule(b, Reached(a, base, |a|))
  {
    if a == [] {
      assert a + b == b;
    } else {
      assert (a + b)[1..] == a[1..] + b;
      ScheduleAppend(a[1..], b, base + a[0].ticks);
    }
  }

  lemma {:induction false} ReachedPrefix(q: seq<Ra>, base: nat, i: nat)
    requires i < |q|
    ensures Reached(q[..i], base, i) == Reached(q, base, i)
    ensures Reached(q, base, i + 1) == Reached(q, base, i) + q[i].ticks
  {
    if i > 0 {
      assert q[..i][1..] == q[1..][..i - 1];
      ReachedPrefix(q[1..], base + q[0].ticks, i - 1);
    }
  }

  lemma {:induction false} InsertSkips(a: seq<Due>, b: seq<Due>, d: Due)
    requires forall x :: x in a ==> x.at <= d.at
    ensures InsertDue(a + b, d) == a + InsertDue(b, d)
  {
    if a == [] {
      assert a + b == b;
    } else {
      assert (a + b)[0] == a[0] && (a + b)[1..] == a[1..] + b;
      assert a[0] in a;
      InsertSkips(a[1..], b, d);
    }
  }

  /** Insertion adds the one entry, after everything due no later, and moves nothing else. */
  lemma {:induction false} InsertPlace(s: seq<Due>, d: Due) returns (i: nat)
    ensures i <= |s| && InsertDue(s, d) == s[..i] + [d] + s[i..]
    ensures forall j :: 0 <= j < i ==> s[j].at <= d.at
    ensures i < |s| ==> d.at < s[i].at
  {
    if s == [] || s[0].at > d.at {
      i := 0;
    } else {
      var k := InsertPlace(s[1..], d);
      i := k + 1;
      assert [s[0]] + s[1..][..k] == s[..i] && s[1..][k..] == s[i..];
    }
  }

  /** The last entry afterwards is the new one or the one that was last. */
  lemma LastInserted(s: seq<Due>, d: Due)
    ensures var t := InsertDue(s, d);
            t != [] && (t[|t| - 1] == d || (s != [] && t[|t| - 1] == s[|s| - 1]))
  {
    var i := InsertPlace(s, d);
  }

  /** The queue without the entry at position i, whose ticks the next entry takes over. */
  function Removed(q: seq<Ra>, i: nat): seq<Ra>
    requires i < |q|
  {
    q[..i] + if i + 1 < |q| then [q[i + 1].(ticks := q[i + 1].ticks + q[i].ticks)] + q[i + 2..] else []
  }

  /** Removing an entry from the schedule is adding its ticks to the next entry of the queue. */
  lemma {:induction false} ScheduleRemove(q: seq<Ra>, i: nat)
    requires i < |q|
    ensures Schedule(Removed(q, i), 0) == Schedule(q, 0)[..i] + Schedule(q, 0)[i + 1..]
  {
    var a, b, at := q[..i], q[i + 1..], Reached(q, 0, i);
    ReachedPrefix(q, 0, i);
    assert q == a + ([q[i]] + b);
    ScheduleAppend(a, [q[i]] + b, 0);
    ScheduleCons(q[i], b, at);
    MergedTail(q, i, at);
    ScheduleAppend(a, if i + 1 < |q| then [q[i + 1].(ticks := q[i + 1].ticks + q[i].ticks)] + q[i + 2..] else [], 0);
  }

  lemma MergedTail(q: seq<Ra>, i: nat, at: nat)
    requires i < |q|
    ensures var tail := if i + 1 < |q| then [q[i + 1].(ticks := q[i + 1].ticks + q[i].ticks)] + q[i + 2..] else [];
            Schedule(tail, at) == Schedule(q[i + 1..], at + q[i].ticks)
  {
    if i + 1 < |q| {
      ScheduleCons(q[i + 1].(ticks := q[i + 1].ticks + q[i].ticks), q[i + 2..], at);
      ScheduleCons(q[i + 1], q[i + 2..], at + q[i].ticks);
      assert q[i + 1..] == [q[i + 1]] + q[i + 2..];
    }
  }

  /** The queue with ra put in front of position i, left ticks after the entry before it, and the next entry shortened. */
  function Inserted(q: seq<Ra>, i: nat, ra: Ra, left: nat): seq<Ra>
    requires i <= |q| && (i < |q| ==> left <= q[i].ticks)
  {
    q[..i] + ([ra.(ticks := left)] + Rest(q, i, left))
  }

  /** Inserting in the middle of the queue is inserting into the schedule. */
  lemma {:induction false} ScheduleInsert(q: seq<Ra>, i: nat, ra: Ra, left: nat)
    requires i <= |q| && ra.ticks == Reached(q, 0, i) + left && (i < |q| ==> left < q[i].ticks)
    ensures Schedule(Inserted(q, i, ra, left), 0) == InsertDue(Schedule(q, 0), Due(ra.key, ra.rsTriggered, ra.ticks))
  {
    NewSchedule(q, i, ra, left);
    NewDue(q, i, ra, left);
  }

  lemma {:induction false} ReachedUpTo(q: seq<Ra>, i: nat)
    requires i <= |q|
    ensures Reached(q[..i], 0, i) == Reached(q, 0, i)
  {
    if i < |q| { ReachedPrefix(q, 0, i); } else { assert q[..i] == q; }
  }

  lemma {:induction false} NewSchedule(q: seq<Ra>, i: nat, ra: Ra, left: nat)
    requires i <= |q| && ra.ticks == Reached(q, 0, i) + left && (i < |q| ==> left < q[i].ticks)
    ensures Schedule(Inserted(q, i, ra, left), 0)
            == Schedule(q[..i], 0) + ([Due(ra.key, ra.rsTriggered, ra.ticks)] + Schedule(q[i..], Reached(q, 0, i)))
  {
    var n, rest := ra.(ticks := left), Rest(q, i, left);
    ReachedUpTo(q, i);
    ScheduleAppend(q[..i], [n] + rest, 0);
    ScheduleCons(n, rest, Reached(q, 0, i));
    ShortenedTail(q, i, left, Reached(q, 0, i));
  }

  lemma {:induction false} NewDue(q: seq<Ra>, i: nat, ra: Ra, left: nat)
    requires i <= |q| && ra.ticks == Reached(q, 0, i) + left && (i < |q| ==> left < q[i].ticks)
    ensures var d := Due(ra.key, ra.rsTriggered, ra.ticks);
            InsertDue(Schedule(q, 0), d) == Schedule(q[..i], 0) + ([d] + Schedule(q[i..], Reached(q, 0, i)))
  {
    var a, b, at, d := q[..i], q[i..], Reached(q, 0, i), Due(ra.key, ra.rsTriggered, ra.ticks);
    assert q == a + b;
    ReachedUpTo(q, i);
    ScheduleAppend(a, b, 0);
    ScheduleUpTo(a, 0);
    InsertSkips(Schedule(a, 0), Schedule(b, at), d);
    ShortenedTail(q, i, left, at);
  }

  /** Shortening the first entry by what is counted in front of it changes no deadline. */
  lemma ShortenedTail(q: seq<Ra>, i: nat, left: nat, at: nat)
    requires i <= |q| && (i < |q| ==> left < q[i].ticks)
    ensures Schedule(Rest(q, i, left), at + left) == Schedule(q[i..], at)
    ensures i < |q| ==> Schedule(q[i..], at)[0].at > at + left
  {
    if i < |q| {
      ScheduleCons(q[i].(ticks := q[i].ticks - left), q[i + 1..], at + left);
      ScheduleCons(q[i], q[i + 1..], at);
      assert q[i..] == [q[i]] + q[i + 1..];
    }
  }

  lemma ScheduleCons(x: Ra, q: seq<Ra>, base: nat)
    ensures Schedule([x] + q, base) == [Due(x.key, x.rsTriggered, base + x.ticks)] + Schedule(q, base + x.ticks)
  {
    assert ([x] + q)[1..] == q;
  }

  lemma {:induction false} ScheduleUpTo(q: seq<Ra>, base: nat)
    ensures base <= Reached(q, base, |q|)
    ensures forall d :: d in Schedule(q, base) ==> d.at <= Reached(q, base, |q|)
  {
    if q != [] {
      ScheduleUpTo(q[1..], base + q[0].ticks);
    }
  }

  /** Entry i is one of the first k exactly when it is due within t. */
  predicate DueAt(s: seq<Due>, i: nat, k: nat, t: nat)
    requires i < |s|
  {
    i < k <==> s[i].at <= t
  }

  /** Entry i of r is entry i + k of s, t ticks later. */
  predicate LaterAt(s: seq<Due>, r: seq<Due>, i: nat, k: nat, t: nat)
    requires i < |r| && i + k < |s|
  {
    r[i].key == s[i + k].key && r[i].rsTriggered == s[i + k].rsTriggered && r[i].at + t == s[i + k].at
  }

  /** After t ticks exactly the first k entries of s are due, and r is the rest with every deadline lowered by t. */
  ghost predicate Expired(s: seq<Due>, k: nat, t: nat, r: seq<Due>) {
    && |r| + k == |s|
    && (forall i :: 0 <= i < |s| ==> DueAt(s, i, k, t))
    && (forall i :: 0 <= i < |r| ==> LaterAt(s, r, i, k, t))
  }

  /** The global queue. */
  class Queue {
    var entries: seq<Ra>

    /** Every deadline fits the 16-bit counters. */
    ghost predicate Valid()
      reads this
    {
      Reached(entries, 0, |entries|) < 0x1_0000
    }

    constructor ()
      ensures entries == [] && Valid()
    {
      entries := [];
    }

    /** icmpv6_queue_ra: on entry ra.ticks counts from now. */
    method Enqueue(ra: Ra)
      requires Valid() && ra.ticks < 0x1_0000
      modifies this
      ensures Valid()
      ensures Schedule(entries, 0) == InsertDue(old(Schedule(entries, 0)), Due(ra.key, ra.rsTriggered, ra.ticks))
    {
      var i, left: nat := 0, ra.ticks;
      while i < |entries| && entries[i].ticks <= left
        invariant entries == old(entries)
        invariant i <= |entries| && left + Reached(entries, 0, i) == ra.ticks
      {
        ReachedPrefix(entries, 0, i);
        left := left - entries[i].ticks;
        i := i + 1;
      }
      ghost var q := entries;
      ScheduleInsert(q, i, ra, left);
      InsertedFits(q, i, ra, left);
      if i < |entries| {
        entries := entries[..i] + ([ra.(ticks := left)] + ([entries[i].(ticks := entries[i].ticks - left)] + entries[i + 1..]));
      } else {
        entries := entries[..i] + ([ra.(ticks := left)] + []);
      }
      assert entries == Inserted(q, i, ra, left);
    }

    /** icmpv6_unqueue_ra: the entry after it takes over its ticks. */
    method Unqueue(i: nat)
      requires Valid() && i < |entries|
      modifies this
      ensures Valid()
      ensures Schedule(entries, 0) == old(Schedule(entries, 0)[..i] + Schedule(entries, 0)[i + 1..])
    {
      ghost var q := entries;
      ScheduleRemove(q, i);
      RemovedFits(q, i);
      if i + 1 < |entries| {
        var before := entries[i + 1];
        entries := entries[..i] + ([before.(ticks := before.ticks + entries[i].ticks)] + entries[i + 2..]);
      } else {
        entries := entries[..i] + [];
      }
      assert entries == Removed(q, i);
    }

    /** icmpv6_queued_ra_lookup: the first entry with this key, and its deadline. */
    method Lookup(key: Key) returns (found: bool, i: nat, abstime: nat)
      requires Valid()
      ensures found ==> i < |entries| && entries[i].key == key && Schedule(entries, 0)[i].at == abstime < 0x1_0000
      ensures found ==> forall j :: 0 <= j < i ==> entries[j].key != key
      ensures !found ==> forall j :: 0 <= j < |entries| ==> entries[j].key != key
    {
      i, abstime := 0, 0;
      while i < |entries|
        invariant i <= |entries| && abstime == Reached(entries, 0, i)
        invariant forall j :: 0 <= j < i ==> entries[j].key != key
      {
        ReachedPrefix(entries, 0, i);
        abstime := abstime + entries[i].ticks;
        if entries[i].key == key {
          ScheduleAt(entries, 0, i);
          ReachedMonotone(entries, 0, i + 1);
          return true, i, abstime;
        }
        i := i + 1;
      }
      found := false;
    }

    /** The consuming loop of icmpv6_radv_timer: takes every entry due within t ticks off the queue. */
    method Expire(t: nat) returns (fired: seq<Ra>)
      requires Valid()
      modifies this
      ensures Valid()
      ensures |fired| <= |old(entries)| && fired == old(entries)[..|fired|]
      ensures Expired(old(Schedule(entries, 0)), |fired|, t, Schedule(entries, 0))
    {
      ghost var q := entries;
      var ticks: nat := t;
      fired := [];
      while entries != [] && entries[0].ticks <= ticks
        invariant |fired| <= |q| && entries == q[|fired|..] && fired == q[..|fired|]
        invariant ticks + Reached(q, 0, |fired|) == t
        decreases |entries|
      {
        ReachedPrefix(q, 0, |fired|);
        ticks := ticks - entries[0].ticks;
        fired := fired + [entries[0]];
        entries := entries[1..];
      }
      ghost var k := |fired|;
      ExpireSplit(q, k, ticks, t);
      if entries != [] {
        entries := [entries[0].(ticks := entries[0].ticks - ticks)] + entries[1..];
      }
      LastDeadline(q);
      LastDeadline(entries);
      if entries != [] {
        assert LaterAt(Schedule(q, 0), Schedule(entries, 0), |entries| - 1, k, t);
      }
    }
  }

  lemma {:induction false} ScheduleAt(q: seq<Ra>, base: nat, i: nat)
    requires i < |q|
    ensures Schedule(q, base)[i] == Due(q[i].key, q[i].rsTriggered, Reached(q, base, i + 1))
  {
    if i > 0 {
      ScheduleAt(q[1..], base + q[0].ticks, i - 1);
    }
  }

  lemma {:induction false} ReachedMonotone(q: seq<Ra>, base: nat, i: nat)
    requires i <= |q|
    ensures base <= Reached(q, base, i) <= Reached(q, base, |q|)
  {
    if i > 0 {
      ReachedMonotone(q[1..], base + q[0].ticks, i - 1);
    } else if q != [] {
      ReachedMonotone(q[1..], base + q[0].ticks, 0);
    }
  }

  lemma {:induction false} TicksFit(q: seq<Ra>, i: nat)
    requires i < |q|
    ensures q[i].ticks <= Reached(q, 0, |q|)
  {
    ReachedPrefix(q, 0, i);
    ReachedMonotone(q, 0, i + 1);
  }

  /** The last deadline is the sum of all ticks. */
  lemma {:induction false} LastDeadline(q: seq<Ra>)
    ensures q != [] ==> Schedule(q, 0)[|q| - 1].at == Reached(q, 0, |q|)
    ensures q == [] ==> Reached(q, 0, |q|) == 0
  {
    if q != [] {
      ScheduleAt(q, 0, |q| - 1);
    }
  }

  lemma {:induction false} ReachedBase(q: seq<Ra>, base: nat, c: nat, i: nat)
    requires i <= |q|
    ensures Reached(q, base + c, i) == Reached(q, base, i) + c
  {
    if i > 0 {
      ReachedBase(q[1..], base + q[0].ticks, c, i - 1);
    }
  }

  lemma {:induction false} ReachedSplit(q: seq<Ra>, base: nat, k: nat, i: nat)
    requires k <= |q| && i <= |q| - k
    ensures Reached(q, base, k + i) == Reached(q[k..], Reached(q, base, k), i)
  {
    if k > 0 {
      assert q[1..][k - 1..] == q[k..];
      ReachedSplit(q[1..], base + q[0].ticks, k - 1, i);
    } else {
      assert q[0..] == q;
    }
  }

  /** The last deadline afterwards is that of the new entry, or the one that was last. */
  lemma {:induction false} InsertedFits(q: seq<Ra>, i: nat, ra: Ra, left: nat)
    requires i <= |q| && ra.ticks == Reached(q, 0, i) + left && (i < |q| ==> left < q[i].ticks)
    ensures var r := Inserted(q, i, ra, left);
            Reached(r, 0, |r|) == ra.ticks || Reached(r, 0, |r|) == Reached(q, 0, |q|)
  {
    ScheduleInsert(q, i, ra, left);
    LastInserted(Schedule(q, 0), Due(ra.key, ra.rsTriggered, ra.ticks));
    LastDeadline(q);
    LastDeadline(Inserted(q, i, ra, left));
  }

  /** Removal moves no deadline back. */
  lemma {:induction false} RemovedFits(q: seq<Ra>, i: nat)
    requires i < |q|
    ensures Reached(Removed(q, i), 0, |q| - 1) <= Reached(q, 0, |q|)
  {
    var r := Removed(q, i);
    ScheduleRemove(q, i);
    ScheduleUpTo(q, 0);
    LastDeadline(r);
    if r != [] {
      var s := Schedule(q, 0);
      var j := if i == |q| - 1 then |q| - 2 else |q| - 1;
      assert Schedule(r, 0)[|r| - 1] == s[j] && s[j] in s;
    }
  }

  /** The queue once the first k entries are gone and the next has been shortened by what is left of t. */
  function Rest(q: seq<Ra>, k: nat, left: nat): seq<Ra>
    requires k <= |q| && (k < |q| ==> left <= q[k].ticks)
  {
    if k < |q| then [q[k].(ticks := q[k].ticks - left)] + q[k + 1..] else []
  }

  /** Consuming t ticks from the front fires exactly what is due within t and lowers every other deadline by t. */
  lemma {:induction false} ExpireSplit(q: seq<Ra>, k: nat, left: nat, t: nat)
    requires k <= |q| && left + Reached(q, 0, k) == t && (k < |q| ==> left < q[k].ticks)
    ensures Expired(Schedule(q, 0), k, t, Schedule(Rest(q, k, left), 0))
  {
    ScheduleSorted(q, 0);
    var s, r := Schedule(q, 0), Schedule(Rest(q, k, left), 0);
    if k > 0 {
      ScheduleAt(q, 0, k - 1);
    }
    if k < |q| {
      ReachedPrefix(q, 0, k);
      ScheduleAt(q, 0, k);
    }
    forall i | 0 <= i < |s| ensures DueAt(s, i, k, t) {
      if i < k {
        assert i == k - 1 || s[i].at <= s[k - 1].at;
      } else {
        assert i == k || s[k].at <= s[i].at;
      }
    }
    forall i | 0 <= i < |r| ensures LaterAt(s, r, i, k, t) {
      RestAt(q, k, left, t, i);
    }
  }

  lemma {:induction false} RestAt(q: seq<Ra>, k: nat, left: nat, t: nat, i: nat)
    requires k < |q| && left + Reached(q, 0, k) == t && left < q[k].ticks && i < |q| - k
    ensures LaterAt(Schedule(q, 0), Schedule(Rest(q, k, left), 0), i, k, t)
  {
    var r := Rest(q, k, left);
    ScheduleAt(r, 0, i);
    ScheduleAt(q, 0, i + k);
    RestReached(q, k, left, t, i);
    assert i > 0 ==> r[i] == q[k + i];
  }

  lemma {:induction false} RestReached(q: seq<Ra>, k: nat, left: nat, t: nat, i: nat)
    requires k < |q| && left + Reached(q, 0, k) == t && left < q[k].ticks && i < |q| - k
    ensures Reached(Rest(q, k, left), 0, i + 1) + t == Reached(q, 0, k + i + 1)
  {
    var r, tail := Rest(q, k, left), q[k + 1..];
    ReachedPrefix(q, 0, k);
    ReachedSplit(q, 0, k + 1, i);
    ReachedBase(tail, q[k].ticks - left, t, i);
    assert r[1..] == tail;
  }
}
