/** When router advertisements are sent: triggers, restarts, stops and the timer (section 6.2.6 of RFC 4861). */
module RaScheduler {
  import opened Bytes
  import opened RaQueue

  /** The timing settings of an interface, in ticks. */
  datatype Config = Config(maxRaDelay: nat, minDelay: nat, minInterval: nat, maxInterval: nat, maxInitialInterval: nat,
                           maxInitialAdverts: nat)
  {
    /** Configured intervals are at least the minimum delay, and the sums the code forms fit 16 bits. */
    predicate Ok() {
      && 1 <= maxRaDelay && minDelay <= minInterval <= maxInterval && minDelay <= maxInitialInterval
      && maxRaDelay + minDelay <= 0xffff && maxInterval + minDelay <= 0xffff && maxInitialInterval + minDelay <= 0xffff
    }
  }

  /** Timing is kept per interface without a border router, per border router otherwise. */
  datatype Slot = OfInterface(iface: nat) | OfRouter(addr: nat)

  datatype Timing = Timing(last: int, initialCount: nat)

  datatype Event =
    | Solicit(iface: nat, dest: Dest, abro: Abro)
    | Restart(iface: nat, abro: Abro)
    | Stop(iface: nat, abros: set<Abro>, any: bool)
    | Ticks(t: nat)
    | Sending(iface: nat, on: bool)

  datatype Sent = Sent(time: nat, key: Key)

  function SlotOf(key: Key): Slot {
    match key.abro
    case Unspecified => OfInterface(key.iface)
    case Router(addr) => OfRouter(addr)
  }

  /** The settings, and the keys for which a restart has lost the minimum delay. */
  datatype Rules = Rules(cfg: map<nat, Config>, spoiled: set<Key>)

  /** The distance that multicast advertisements for a key keep. */
  function Gap(rules: Rules, key: Key): nat {
    if key.iface in rules.cfg && key !in rules.spoiled then rules.cfg[key.iface].minDelay else 0
  }

  /** Two multicast advertisements for the same interface and border router keep their distance. */
  predicate Spaced(rules: Rules, log: seq<Sent>, i: nat, j: nat)
    requires i < |log| && j < |log|
  {
    log[i].key == log[j].key && log[i].key.dest.AllNodes? ==> log[i].time + Gap(rules, log[i].key) <= log[j].time
  }

  ghost predicate AllSpaced(rules: Rules, log: seq<Sent>) {
    forall i, j :: 0 <= i < j < |log| ==> Spaced(rules, log, i, j)
  }

  /** The last send of a multicast key is recorded, and is no earlier than any send in the log. */
  predicate LoggedAt(log: seq<Sent>, lastSent: map<Key, nat>, i: nat)
    requires i < |log|
  {
    log[i].key.dest.AllNodes? ==> log[i].key in lastSent && log[i].time <= lastSent[log[i].key]
  }

  ghost predicate AllLogged(log: seq<Sent>, lastSent: map<Key, nat>) {
    forall i :: 0 <= i < |log| ==> LoggedAt(log, lastSent, i)
  }

  /** The time of last transmission that the code keeps is no earlier than any multicast it covers. */
  predicate LastAt(lastSent: map<Key, nat>, timing: map<Slot, Timing>, key: Key) {
    key in lastSent && SlotOf(key) in timing ==> lastSent[key] <= timing[SlotOf(key)].last
  }

  predicate PastAt(timing: map<Slot, Timing>, now: nat, slot: Slot) {
    slot in timing ==> timing[slot].last <= now
  }

  /** Keys of a schedule, with multiplicity. */
  ghost function Keys(s: seq<Due>): multiset<Key> {
    if s == [] then multiset{} else multiset{s[0].key} + Keys(s[1..])
  }

  lemma {:induction false} KeysAppend(a: seq<Due>, b: seq<Due>)
    ensures Keys(a + b) == Keys(a) + Keys(b)
  {
    if a == [] {
      assert a + b == b;
    } else {
      assert (a + b)[1..] == a[1..] + b;
      KeysAppend(a[1..], b);
    }
  }

  lemma {:induction false} KeysHas(s: seq<Due>, i: nat)
    requires i < |s|
    ensures Keys(s)[s[i].key] > 0
  {
    if i > 0 {
      KeysHas(s[1..], i - 1);
    }
  }

  lemma {:induction false} KeysWitness(s: seq<Due>, key: Key)
    requires Keys(s)[key] > 0
    ensures exists i :: 0 <= i < |s| && s[i].key == key
  {
    if s[0].key != key {
      KeysWitness(s[1..], key);
      var i :| 0 <= i < |s[1..]| && s[1..][i].key == key;
      assert s[i + 1].key == key;
    }
  }

  lemma {:induction false} KeysSame(s: seq<Due>, t: seq<Due>)
    requires |s| == |t| && forall i :: 0 <= i < |s| ==> s[i].key == t[i].key
    ensures Keys(s) == Keys(t)
  {
    if s != [] {
      KeysSame(s[1..], t[1..]);
    }
  }

  lemma {:induction false} KeysInsert(s: seq<Due>, d: Due)
    ensures Keys(InsertDue(s, d)) == Keys(s) + multiset{d.key}
  {
    var i := InsertPlace(s, d);
    assert s[..i] + s[i..] == s;
    KeysMiddle(s[..i], d, s[i..]);
  }

  lemma {:induction false} KeysMiddle(a: seq<Due>, d: Due, b: seq<Due>)
    ensures Keys(a + [d] + b) == Keys(a + b) + multiset{d.key}
  {
    assert a + [d] + b == a + ([d] + b);
    KeysAppend(a, [d] + b);
    KeysAppend(a, b);
    assert ([d] + b)[1..] == b;
  }

  lemma {:induction false} KeysRemove(s: seq<Due>, i: nat)
    requires i < |s|
    ensures Keys(s) == Keys(s[..i] + s[i + 1..]) + multiset{s[i].key}
  {
    assert s == s[..i] + [s[i]] + s[i + 1..];
    KeysMiddle(s[..i], s[i], s[i + 1..]);
  }

  lemma UniqueLess(all: multiset<Key>, m: multiset<Key>, n: multiset<Key>)
    requires Unique(all) && all == m + n
    ensures Unique(m)
  {
    forall key ensures AtMostOnce(m, key) {
      assert AtMostOnce(all, key);
    }
  }

  lemma UniqueMore(m: multiset<Key>, key: Key)
    requires Unique(m) && m[key] == 0
    ensures Unique(m + multiset{key})
  {
    forall k ensures AtMostOnce(m + multiset{key}, k) {
      assert AtMostOnce(m, k);
    }
  }

  predicate AtMostOnce(m: multiset<Key>, key: Key) {
    m[key] <= 1
  }

  ghost predicate Unique(m: multiset<Key>) {
    forall key :: AtMostOnce(m, key)
  }

  /** The minimum delay has passed since the last multicast for this key when the entry is sent. */
  ghost predicate EntryOk(rules: Rules, lastSent: map<Key, nat>, now: nat, d: Due) {
    && d.key.iface in rules.cfg
    && (d.key.dest.AllNodes? && d.key in lastSent ==> lastSent[d.key] + Gap(rules, d.key) <= now + d.at)
  }

  ghost predicate EntryAt(rules: Rules, lastSent: map<Key, nat>, now: nat, s: seq<Due>, i: nat)
    requires i < |s|
  {
    EntryOk(rules, lastSent, now, s[i])
  }

  ghost predicate EntriesOk(rules: Rules, lastSent: map<Key, nat>, now: nat, s: seq<Due>) {
    forall i :: 0 <= i < |s| ==> EntryAt(rules, lastSent, now, s, i)
  }

  lemma EntriesTail(rules: Rules, lastSent: map<Key, nat>, now: nat, s: seq<Due>)
    requires EntriesOk(rules, lastSent, now, s) && s != []
    ensures EntryOk(rules, lastSent, now, s[0]) && EntriesOk(rules, lastSent, now, s[1..])
  {
    assert EntryAt(rules, lastSent, now, s, 0);
    var r := s[1..];
    forall i | 0 <= i < |r| ensures EntryAt(rules, lastSent, now, r, i) {
      assert EntryAt(rules, lastSent, now, s, i + 1);
    }
  }

  lemma EntriesMore(rules: Rules, lastSent: map<Key, nat>, now: nat, s: seq<Due>, d: Due)
    requires EntriesOk(rules, lastSent, now, s) && EntryOk(rules, lastSent, now, d)
    ensures EntriesOk(rules, lastSent, now, s + [d])
  {
    var r := s + [d];
    forall i | 0 <= i < |r| ensures EntryAt(rules, lastSent, now, r, i) {
      if i < |s| {
        assert EntryAt(rules, lastSent, now, s, i);
      }
    }
  }

  lemma {:induction false} EntriesInsert(rules: Rules, lastSent: map<Key, nat>, now: nat, s: seq<Due>, d: Due)
    requires EntriesOk(rules, lastSent, now, s) && EntryOk(rules, lastSent, now, d)
    ensures EntriesOk(rules, lastSent, now, InsertDue(s, d))
  {
    var i := InsertPlace(s, d);
    var t := InsertDue(s, d);
    forall j | 0 <= j < |t| ensures EntryAt(rules, lastSent, now, t, j) {
      assert t[j] == if j < i then s[j] else if j == i then d else s[j - 1];
      assert j < i ==> EntryAt(rules, lastSent, now, s, j);
      assert j > i ==> EntryAt(rules, lastSent, now, s, j - 1);
    }
  }

  lemma {:induction false} EntriesRemove(rules: Rules, lastSent: map<Key, nat>, now: nat, s: seq<Due>, i: nat)
    requires EntriesOk(rules, lastSent, now, s) && i < |s|
    ensures EntriesOk(rules, lastSent, now, s[..i] + s[i + 1..])
  {
    var t := s[..i] + s[i + 1..];
    forall j | 0 <= j < |t| ensures EntryAt(rules, lastSent, now, t, j) {
      assert EntryAt(rules, lastSent, now, s, if j < i then j else j + 1);
    }
  }

  /** A send concerns only the entries with its own key. */
  lemma {:induction false} EntriesSent(rules: Rules, lastSent: map<Key, nat>, now: nat, s: seq<Due>, key: Key)
    requires EntriesOk(rules, lastSent, now, s) && Keys(s)[key] == 0
    ensures EntriesOk(rules, lastSent[key := now], now, s)
  {
    var lastSent' := lastSent[key := now];
    forall i | 0 <= i < |s| ensures EntryAt(rules, lastSent', now, s, i) {
      assert EntryAt(rules, lastSent, now, s, i);
      KeysHas(s, i);
    }
  }

  /** The schedule without the entries for one key. */
  ghost function Others(s: seq<Due>, key: Key): seq<Due> {
    if s == [] then [] else (if s[0].key == key then [] else [s[0]]) + Others(s[1..], key)
  }

  lemma {:induction false} OthersAppend(a: seq<Due>, b: seq<Due>, key: Key)
    ensures Others(a + b, key) == Others(a, key) + Others(b, key)
  {
    if a == [] {
      assert a + b == b;
    } else {
      assert (a + b)[1..] == a[1..] + b;
      OthersAppend(a[1..], b, key);
    }
  }

  lemma {:induction false} OthersMiddle(a: seq<Due>, d: Due, b: seq<Due>)
    ensures Others(a + [d] + b, d.key) == Others(a + b, d.key)
  {
    assert a + [d] + b == a + ([d] + b);
    OthersAppend(a, [d] + b, d.key);
    OthersAppend(a, b, d.key);
    assert ([d] + b)[1..] == b;
  }

  lemma {:induction false} OthersRemove(s: seq<Due>, i: nat)
    requires i < |s|
    ensures Others(s[..i] + s[i + 1..], s[i].key) == Others(s, s[i].key)
  {
    assert s == s[..i] + [s[i]] + s[i + 1..];
    OthersMiddle(s[..i], s[i], s[i + 1..]);
  }

  /** Removing the one entry for a key leaves the others. */
  lemma {:induction false} OthersOnce(s: seq<Due>, i: nat)
    requires i < |s| && Keys(s)[s[i].key] <= 1
    ensures Others(s, s[i].key) == s[..i] + s[i + 1..]
  {
    var key, r := s[i].key, s[..i] + s[i + 1..];
    KeysRemove(s, i);
    OthersRemove(s, i);
    OthersNone(r, key);
  }

  lemma {:induction false} OthersNone(s: seq<Due>, key: Key)
    requires Keys(s)[key] == 0
    ensures Others(s, key) == s
  {
    if s != [] {
      OthersNone(s[1..], key);
    }
  }

  /** Where a key occurs at most once, it occurs at one position. */
  lemma {:induction false} OnlyEntry(s: seq<Due>, i: nat, j: nat)
    requires i < |s| && j < |s| && s[i].key == s[j].key && Keys(s)[s[i].key] <= 1
    ensures i == j
  {
    if i != j {
      var r := s[..i] + s[i + 1..];
      KeysRemove(s, i);
      assert r[if j < i then j else j - 1] == s[j];
      KeysHas(r, if j < i then j else j - 1);
    }
  }

  /** An answer to a solicitation after this delay would come before what is scheduled for the key, and that is no answer to another one. */
  predicate Sooner(s: seq<Due>, key: Key, delay: nat) {
    forall i :: 0 <= i < |s| && s[i].key == key ==> !s[i].rsTriggered && delay < s[i].at
  }

  /** What is scheduled for the key answers a solicitation. */
  ghost predicate Solicited(s: seq<Due>, key: Key) {
    exists i :: 0 <= i < |s| && s[i].key == key && s[i].rsTriggered
  }

  /** A periodic advertisement far enough off is always replaced. */
  lemma {:induction false} FarOff(s: seq<Due>, key: Key, delay: nat, maxRaDelay: nat)
    requires delay < maxRaDelay && forall i :: 0 <= i < |s| && s[i].key == key ==> !s[i].rsTriggered && maxRaDelay <= s[i].at
    ensures Sooner(s, key, delay)
  {
  }

  /** The relative ticks of the first entry for a key, or -1. */
  function TicksOf(q: seq<Ra>, key: Key): int {
    if q == [] then -1 else if q[0].key == key then q[0].ticks else TicksOf(q[1..], key)
  }

  lemma {:induction false} TicksOfFirst(q: seq<Ra>, key: Key, i: nat)
    requires i < |q| && q[i].key == key && forall j :: 0 <= j < i ==> q[j].key != key
    ensures TicksOf(q, key) == q[i].ticks
  {
    if i > 0 {
      assert forall j :: 0 <= j < i - 1 ==> q[1..][j] == q[j + 1];
      TicksOfFirst(q[1..], key, i - 1);
    }
  }

  lemma {:induction false} TicksOfNone(q: seq<Ra>, key: Key)
    requires forall j :: 0 <= j < |q| ==> q[j].key != key
    ensures TicksOf(q, key) == -1
  {
    if q != [] {
      assert forall j :: 0 <= j < |q| - 1 ==> q[1..][j] == q[j + 1];
      TicksOfNone(q[1..], key);
    }
  }

  function Spoiled(rules: Rules, key: Key, wraps: bool): Rules {
    if wraps then rules.(spoiled := rules.spoiled + {key}) else rules
  }

  /** With fewer promises everything that was kept is still kept. */
  lemma RulesLoosen(rules: Rules, key: Key, lastSent: map<Key, nat>, now: nat, s: seq<Due>, log: seq<Sent>)
    requires EntriesOk(rules, lastSent, now, s) && AllSpaced(rules, log)
    ensures var rules' := Spoiled(rules, key, true); EntriesOk(rules', lastSent, now, s) && AllSpaced(rules', log)
  {
    var rules' := Spoiled(rules, key, true);
    forall i | 0 <= i < |s| ensures EntryAt(rules', lastSent, now, s, i) {
      assert EntryAt(rules, lastSent, now, s, i);
    }
    forall i, j | 0 <= i < j < |log| ensures Spaced(rules', log, i, j) {
      assert Spaced(rules, log, i, j);
    }
  }

  /** Delay the rate limiter adds, from the time since the last send as the code sees it, modulo its counter's width. */
  function Hold(now: int, last: int, minDelay: nat, width: nat): (h: nat)
    requires width > 0
    ensures h <= minDelay
  {
    var since := (now - last) % width;
    if since < minDelay then minDelay - since else 0
  }

  /** It is what is missing to the minimum delay; wrap-around of the counter only ever makes it longer. */
  lemma HoldIsEnough(now: int, last: int, minDelay: nat, width: nat)
    requires width > 0 && last <= now
    ensures last + minDelay <= now + Hold(now, last, minDelay, width)
    ensures now < last + width ==> Hold(now, last, minDelay, width) == Max(last + minDelay - now, 0)
  {
    assert (now - last) % width <= now - last;
  }

  /** The ticks of a restarted entry, in 16-bit arithmetic. */
  function Requeued(now: int, last: int, minDelay: nat, ticks: nat): (r: nat)
    ensures r <= 0xffff
  {
    (ticks + Hold(now, last, minDelay, 0x1_0000)) % 0x1_0000
  }

  /** The 16-bit ticks of a restarted entry wrap, and what is left of them is shorter than the rate limit. */
  predicate Wraps(now: int, last: int, minDelay: nat, ticks: nat) {
    now < last + 0x1_0000 && ticks + Hold(now, last, minDelay, 0x1_0000) > 0xffff
  }

  /** A restarted entry loses the minimum delay exactly then: wrapped ticks do no harm once 65536 ticks have passed. */
  lemma RequeuedExactly(now: int, last: int, minDelay: nat, ticks: nat)
    requires last <= now && ticks <= 0xffff && minDelay <= 0xffff
    ensures last + minDelay <= now + Requeued(now, last, minDelay, ticks) <==> !Wraps(now, last, minDelay, ticks)
  {
    var hold := Hold(now, last, minDelay, 0x1_0000);
    if now < last + 0x1_0000 {
      assert (now - last) % 0x1_0000 == now - last;
      if ticks + hold > 0xffff {
        assert (ticks + hold) % 0x1_0000 == ticks + hold - 0x1_0000;
      }
    }
  }

  /** The time to the next periodic advertisement. */
  predicate Interval(c: Config, ticks: nat) {
    c.minInterval <= ticks <= c.maxInterval || (ticks == c.maxInitialInterval && ticks <= c.maxInterval)
  }

  method Random(lo: nat, hi: nat) returns (r: nat)
    requires lo <= hi
    ensures lo <= r <= hi
  {
    r :| lo <= r <= hi;
  }

  class Scheduler {
    const cfg: map<nat, Config>
    const queue: Queue
    var now: nat
    var timing: map<Slot, Timing>
    var sending: set<nat>

    /** Everything sent so far, and when each key was last multicast. */
    ghost var log: seq<Sent>
    ghost var lastSent: map<Key, nat>

    ghost var rules: Rules

    ghost function Plan(): seq<Due>
      reads this, queue
    {
      Schedule(queue.entries, 0)
    }

    ghost predicate LogOk()
      reads this
    {
      && AllSpaced(rules, log) && AllLogged(log, lastSent)
      && (forall key :: LastAt(lastSent, timing, key)) && (forall slot :: PastAt(timing, now, slot))
    }

    ghost predicate Valid()
      reads this, queue
    {
      && (forall iface :: iface in cfg ==> cfg[iface].Ok())
      && queue.Valid() && LogOk() && rules.cfg == cfg
      && EntriesOk(rules, lastSent, now, Plan())
      && Unique(Keys(Plan()))
    }

    constructor (cfg: map<nat, Config>, routers: set<nat>, now: nat)
      requires forall iface :: iface in cfg ==> cfg[iface].Ok()
      ensures Valid() && fresh(queue) && log == [] && queue.entries == [] && this.cfg == cfg && this.now == now
      ensures rules == Rules(cfg, {}) && sending == {}
      ensures timing.Keys == (set iface | iface in cfg :: OfInterface(iface)) + (set r | r in routers :: OfRouter(r))
      ensures forall slot :: slot in timing ==> timing[slot] == Timing(now - 0x1_0000, 0)
    {
      this.cfg, this.now := cfg, now;
      queue := new Queue();
      timing := (map iface | iface in cfg :: OfInterface(iface) := Timing(now - 0x1_0000, 0))
                + (map r | r in routers :: OfRouter(r) := Timing(now - 0x1_0000, 0));
      sending := {};
      log, lastSent, rules := [], map[], Rules(cfg, {});
    }

    method SetSending(iface: nat, on: bool)
      requires Valid()
      modifies this`sending
      ensures Valid() && sending == if on then old(sending) + {iface} else old(sending) - {iface}
    {
      sending := if on then sending + {iface} else sending - {iface};
    }

    /** Takes the entry at position i off the queue. */
    method Drop(i: nat)
      requires Valid() && i < |queue.entries|
      modifies queue
      ensures Valid()
      ensures Plan() == old(Plan()[..i] + Plan()[i + 1..])
      ensures Keys(old(Plan())) == Keys(Plan()) + multiset{old(Plan())[i].key}
    {
      EntriesRemove(rules, lastSent, now, Plan(), i);
      KeysRemove(Plan(), i);
      UniqueLess(Keys(Plan()), Keys(Plan()[..i] + Plan()[i + 1..]), multiset{Plan()[i].key});
      queue.Unqueue(i);
    }

    /** Queues an advertisement for a key that is not queued. */
    method Put(key: Key, rsTriggered: bool, ticks: nat)
      requires Valid() && ticks <= 0xffff && Keys(Plan())[key] == 0
      requires EntryOk(rules, lastSent, now, Due(key, rsTriggered, ticks))
      modifies queue
      ensures Valid()
      ensures Plan() == InsertDue(old(Plan()), Due(key, rsTriggered, ticks))
    {
      EntriesInsert(rules, lastSent, now, Plan(), Due(key, rsTriggered, ticks));
      KeysInsert(Plan(), Due(key, rsTriggered, ticks));
      UniqueMore(Keys(Plan()), key);
      queue.Enqueue(Ra(key, rsTriggered, ticks));
    }

    /** A key that a lookup did not find is not in the schedule. */
    lemma NotQueued(key: Key)
      requires forall j :: 0 <= j < |queue.entries| ==> queue.entries[j].key != key
      ensures Keys(Plan())[key] == 0 && Others(Plan(), key) == Plan() && forall j :: 0 <= j < |Plan()| ==> Plan()[j].key != key
    {
      if Keys(Plan())[key] > 0 {
        KeysWitness(Plan(), key);
        var i :| 0 <= i < |Plan()| && Plan()[i].key == key;
        ScheduleAt(queue.entries, 0, i);
      }
      OthersNone(Plan(), key);
      forall j | 0 <= j < |Plan()| ensures Plan()[j].key != key {
        ScheduleAt(queue.entries, 0, j);
      }
    }

    /** Takes the entry for a key off the queue, if there is one. */
    method DropKey(key: Key, i: nat)
      requires Valid() && i < |queue.entries| && queue.entries[i].key == key
      modifies queue
      ensures Valid() && Keys(Plan())[key] == 0 && Plan() == Others(old(Plan()), key)
    {
      ghost var s := Plan();
      ScheduleAt(queue.entries, 0, i);
      assert AtMostOnce(Keys(s), key);
      OthersOnce(s, i);
      Drop(i);
    }

    /** icmpv6_trigger_ra_from_rs: a random delay is drawn. What is queued for the key already stays if it answers another solicitation, or
        if it comes no later than that; otherwise an answer takes its place, no sooner than the rate limit allows. */
    method TriggerFromRs(iface: nat, dest: Dest, abro: Abro) returns (delay: nat, put: bool, ghost at: nat)
      requires Valid() && iface in cfg && (dest.AllNodes? ==> SlotOf(Key(iface, dest, abro)) in timing)
      modifies queue
      ensures Valid() && Keys(Plan())[Key(iface, dest, abro)] == 1 && delay < cfg[iface].maxRaDelay
      ensures put <==> Sooner(old(Plan()), Key(iface, dest, abro), delay)
      ensures put ==> Plan() == InsertDue(Others(old(Plan()), Key(iface, dest, abro)), Due(Key(iface, dest, abro), true, at))
      ensures put ==> at == if dest.AllNodes? then delay + Hold(now, timing[SlotOf(Key(iface, dest, abro))].last, cfg[iface].minDelay, 0x1_0000_0000)
                            else 1
      ensures !put ==> Plan() == old(Plan())
    {
      at := 0;
      delay := Random(0, cfg[iface].maxRaDelay - 1);
      put := Displace(Key(iface, dest, abro), delay);
      if put {
        at := Answer(Key(iface, dest, abro), delay);
      }
    }

    /** Makes room for an answer after this delay, unless what is queued for the key is good enough. */
    method Displace(key: Key, delay: nat) returns (room: bool)
      requires Valid()
      modifies queue
      ensures Valid() && (room <==> Sooner(old(Plan()), key, delay))
      ensures if room then Keys(Plan())[key] == 0 && Plan() == Others(old(Plan()), key) else Keys(Plan())[key] == 1 && Plan() == old(Plan())
    {
      var found, i, scheduled := queue.Lookup(key);
      if !found {
        NotQueued(key);
        return true;
      }
      AsScheduled(key, i);
      if queue.entries[i].rsTriggered || delay >= scheduled {
        KeysHas(Plan(), i);
        assert AtMostOnce(Keys(Plan()), key);
        return false;
      }
      DropKey(key, i);
      room := true;
    }

    /** The answer to a solicitation is queued, a multicast no sooner than the rate limit allows. */
    method Answer(key: Key, delay: nat) returns (ghost at: nat)
      requires Valid() && key.iface in cfg && (key.dest.AllNodes? ==> SlotOf(key) in timing)
      requires delay < cfg[key.iface].maxRaDelay && Keys(Plan())[key] == 0
      modifies queue
      ensures Valid() && Keys(Plan())[key] == 1 && Plan() == InsertDue(old(Plan()), Due(key, true, at))
      ensures at == if key.dest.AllNodes? then delay + Hold(now, timing[SlotOf(key)].last, cfg[key.iface].minDelay, 0x1_0000_0000) else 1
    {
      var ticks := 1;
      if key.dest.AllNodes? {
        var last, minDelay := timing[SlotOf(key)].last, cfg[key.iface].minDelay;
        assert PastAt(timing, now, SlotOf(key)) && LastAt(lastSent, timing, key);
        HoldIsEnough(now, last, minDelay, 0x1_0000_0000);
        ticks := delay + Hold(now, last, minDelay, 0x1_0000_0000);
      }
      at := ticks;
      KeysInsert(Plan(), Due(key, true, ticks));
      Put(key, true, ticks);
    }

    /** The entry that Lookup finds is the one scheduled for the key. */
    lemma AsScheduled(key: Key, i: nat)
      requires Valid() && i < |queue.entries| && queue.entries[i].key == key
      ensures Plan()[i].key == key && Plan()[i].rsTriggered == queue.entries[i].rsTriggered
      ensures forall j :: 0 <= j < |Plan()| && Plan()[j].key == key ==> j == i
    {
      ScheduleAt(queue.entries, 0, i);
      assert AtMostOnce(Keys(Plan()), key);
      forall j | 0 <= j < |Plan()| && Plan()[j].key == key ensures j == i {
        OnlyEntry(Plan(), i, j);
      }
    }

    /** Takes the multicast entry for a key off the queue and says what ticks it had, or else starts with new ones. */
    method Withdraw(key: Key, c: Config) returns (ticks: nat, rsTriggered: bool)
      requires Valid() && c.Ok()
      modifies queue
      ensures Valid() && Keys(Plan())[key] == 0 && Plan() == Others(old(Plan()), key)
      ensures ticks <= 0xffff && (rsTriggered <==> Solicited(old(Plan()), key))
      ensures if TicksOf(old(queue.entries), key) >= 0 then ticks == TicksOf(old(queue.entries), key)
              else ticks <= if c.maxInitialAdverts == 0 then c.maxInterval - c.minInterval else 0
    {
      var found, i, _ := queue.Lookup(key);
      ticks, rsTriggered := 0, false;
      if found {
        ticks, rsTriggered := queue.entries[i].ticks, queue.entries[i].rsTriggered;
        TicksFit(queue.entries, i);
        TicksOfFirst(queue.entries, key, i);
        AsScheduled(key, i);
        DropKey(key, i);
      } else {
        NotQueued(key);
        TicksOfNone(queue.entries, key);
        if c.maxInitialAdverts == 0 {
          ticks := Random(0, c.maxInterval - c.minInterval);
        }
      }
    }

    /** Advertisements for the key are being sent. */
    predicate Active(key: Key)
      reads this
    {
      key.iface in sending && SlotOf(key) in timing
    }

    /** Restarting would wrap the 16-bit ticks of the entry that is queued, within 65536 ticks of the last transmission. */
    ghost predicate RestartWraps(key: Key)
      reads this, queue
      requires key.iface in cfg
    {
      && Active(key) && cfg[key.iface].maxInitialAdverts == 0 && TicksOf(queue.entries, key) >= 0
      && Wraps(now, timing[SlotOf(key)].last, cfg[key.iface].minDelay, TicksOf(queue.entries, key))
    }

    /** icmpv6_restart_router_advertisements. With no initial advertisements configured, an entry that was queued keeps the
        ticks it had relative to the entry before it, and the rate limit is added to those. */
    method Restart(iface: nat, abro: Abro) returns (ghost ticks: nat, ghost rs: bool)
      requires Valid() && iface in cfg
      modifies this`timing, this`rules, queue
      ensures Valid() && timing.Keys == old(timing.Keys)
      ensures !old(Active(Key(iface, AllNodes, abro))) ==> Plan() == old(Plan()) && timing == old(timing)
      ensures var key, c := Key(iface, AllNodes, abro), cfg[iface];
              old(Active(key)) ==>
                && timing == old(timing)[SlotOf(key) := Timing(old(timing)[SlotOf(key)].last, c.maxInitialAdverts)]
                && Plan() == InsertDue(Others(old(Plan()), key), Due(key, rs, Requeued(now, old(timing)[SlotOf(key)].last, c.minDelay, ticks)))
      ensures var key, c := Key(iface, AllNodes, abro), cfg[iface];
              old(Active(key)) ==>
                if c.maxInitialAdverts != 0 then ticks <= c.maxInitialInterval
                else if TicksOf(old(queue.entries), key) >= 0 then ticks == TicksOf(old(queue.entries), key)
                else ticks <= c.maxInterval - c.minInterval
      ensures old(Active(Key(iface, AllNodes, abro))) ==> (rs <==> Solicited(old(Plan()), Key(iface, AllNodes, abro)))
      ensures var key := Key(iface, AllNodes, abro);
              rules == Spoiled(old(rules), key, old(RestartWraps(key)))
    {
      ticks, rs := 0, false;
      var key, c := Key(iface, AllNodes, abro), cfg[iface];
      if !Active(key) {
        return;
      }
      ghost var wraps := RestartWraps(key);
      var wait, rsTriggered := Withdraw(key, c);
      if c.maxInitialAdverts != 0 {
        wait := Random(0, c.maxInitialInterval);
      }
      SetCount(SlotOf(key), c.maxInitialAdverts);
      ticks, rs := wait, rsTriggered;
      assert wraps == Wraps(now, timing[SlotOf(key)].last, c.minDelay, wait);
      Requeue(key, rsTriggered, wait);
    }

    /** Enforces the rate limit on a restarted entry, in 16-bit arithmetic, and queues it. */
    method Requeue(key: Key, rsTriggered: bool, ticks: nat)
      requires Valid() && key.iface in cfg && SlotOf(key) in timing && Keys(Plan())[key] == 0 && ticks <= 0xffff
      modifies this`rules, queue
      ensures Valid()
      ensures Plan() == InsertDue(old(Plan()), Due(key, rsTriggered, Requeued(now, timing[SlotOf(key)].last, cfg[key.iface].minDelay, ticks)))
      ensures rules == Spoiled(old(rules), key, Wraps(now, timing[SlotOf(key)].last, cfg[key.iface].minDelay, ticks))
    {
      var last, minDelay := timing[SlotOf(key)].last, cfg[key.iface].minDelay;
      assert PastAt(timing, now, SlotOf(key)) && LastAt(lastSent, timing, key);
      RequeuedExactly(now, last, minDelay, ticks);
      if Wraps(now, last, minDelay, ticks) {
        RulesLoosen(rules, key, lastSent, now, Plan(), log);
      }
      rules := Spoiled(rules, key, Wraps(now, last, minDelay, ticks));
      Put(key, rsTriggered, Requeued(now, last, minDelay, ticks));
    }

    method SetCount(slot: Slot, count: nat)
      requires Valid() && slot in timing
      modifies this`timing
      ensures Valid() && timing == old(timing)[slot := Timing(old(timing)[slot].last, count)]
    {
      ghost var was := timing;
      timing := timing[slot := Timing(timing[slot].last, count)];
      forall key ensures LastAt(lastSent, timing, key) {
        assert LastAt(lastSent, was, key);
      }
      forall slot ensures PastAt(timing, now, slot) {
        assert PastAt(was, now, slot);
      }
    }

    /** icmpv6_stop_router_advertisements: for one border router, or for all of them. */
    method Stop(iface: nat, abro: set<Abro>, any: bool)
      requires Valid()
      modifies queue
      ensures Valid()
      ensures Plan() == Kept(old(Plan()), iface, abro, any)
      ensures forall d :: d in Plan() <==> d in old(Plan()) && !(d.key.iface == iface && (any || d.key.abro in abro))
    {
      forall d ensures d in Kept(Plan(), iface, abro, any) <==> d in Plan() && !(d.key.iface == iface && (any || d.key.abro in abro)) {
        KeptHas(Plan(), iface, abro, any, d);
      }
      var i := 0;
      ghost var s, kept := Plan(), Kept(Plan(), iface, abro, any);
      while i < |queue.entries|
        invariant Valid() && s == Plan() && i <= |queue.entries| == |s|
        invariant KeptBefore(s, i, iface, abro, any)
        invariant Kept(s, iface, abro, any) == kept
        decreases |queue.entries| - i
      {
        ScheduleAt(queue.entries, 0, i);
        if Stopped(queue.entries[i].key, iface, abro, any) {
          KeptRemove(s, i, iface, abro, any);
          Drop(i);
          s := s[..i] + s[i + 1..];
          assert KeptBefore(s, i, iface, abro, any);
        } else {
          assert KeptBefore(s, i + 1, iface, abro, any);
          i := i + 1;
        }
      }
      KeptAll(s, iface, abro, any);
    }

    /** The multicast advertisement goes out now: the log stays spaced because its minimum delay has passed. */
    method Send(key: Key)
      requires Valid() && SlotOf(key) in timing && Keys(Plan())[key] == 0
      requires EntryOk(rules, lastSent, now, Due(key, false, 0))
      modifies this`timing, this`log, this`lastSent
      ensures Valid() && log == old(log) + [Sent(now, key)]
      ensures timing == old(timing)[SlotOf(key) := Timing(now, old(timing)[SlotOf(key)].initialCount)]
      ensures lastSent == if key.dest.AllNodes? then old(lastSent)[key := now] else old(lastSent)
    {
      EntriesSent(rules, lastSent, now, Plan(), key);
      SpacedAfter(rules, log, lastSent, now, key);
      LoggedAfter(log, lastSent, timing, now, key, timing[SlotOf(key)].initialCount);
      timing := timing[SlotOf(key) := Timing(now, timing[SlotOf(key)].initialCount)];
      log := log + [Sent(now, key)];
      if key.dest.AllNodes? {
        lastSent := lastSent[key := now];
      }
    }

    /** One expired entry: sent if the interface still advertises, and rescheduled if it is a multicast one. */
    method Fire(key: Key) returns (again: bool, ticks: nat)
      requires Valid() && Keys(Plan())[key] == 0
      requires EntryOk(rules, lastSent, now, Due(key, false, 0))
      modifies this`timing, this`log, this`lastSent
      ensures Valid()
      ensures log == old(log) + SentFor(key, sending, timing.Keys, now)
      ensures again <==> key.iface in sending && SlotOf(key) in timing && key.dest.AllNodes?
      ensures timing.Keys == old(timing.Keys)
      ensures lastSent == if again then old(lastSent)[key := now] else old(lastSent)
      ensures again ==> ticks <= 0xffff && EntryOk(rules, lastSent, now, Due(key, false, ticks)) && Interval(cfg[key.iface], ticks)
      ensures again ==>
                var left := Max(old(timing)[SlotOf(key)].initialCount - 1, 0);
                && timing[SlotOf(key)] == Timing(now, left)
                && if left > 0 then ticks <= cfg[key.iface].maxInitialInterval
                   else cfg[key.iface].minInterval <= ticks <= cfg[key.iface].maxInterval
    {
      again, ticks := false, 0;
      var slot := SlotOf(key);
      if slot in timing {
        if key.iface in sending {
          Send(key);
        }
        if key.dest.AllNodes? && key.iface in sending {
          var c := cfg[key.iface];
          again := true;
          ticks := Random(c.minInterval, c.maxInterval);
          if timing[slot].initialCount != 0 {
            SetCount(slot, timing[slot].initialCount - 1);
            if timing[slot].initialCount != 0 && ticks > c.maxInitialInterval {
              ticks := c.maxInitialInterval;
            }
          }
        }
      }
    }

    /** Time passes, and the entries that have become due leave the queue. */
    method Advance(t: nat) returns (fired: seq<Ra>)
      requires Valid()
      modifies this`now, queue
      ensures Valid() && now == old(now) + t
      ensures |fired| <= |old(queue.entries)| && fired == old(queue.entries)[..|fired|]
      ensures Expired(old(Plan()), |fired|, t, Plan())
      ensures EntriesOk(rules, lastSent, now, Immediate(fired))
      ensures Unique(Keys(Plan()) + Keys(Immediate(fired)))
    {
      ghost var s := Plan();
      ghost var q := queue.entries;
      fired := queue.Expire(t);
      ghost var r := Plan();
      ExpireSplits(rules, lastSent, now, t, q, fired, r);
      ghost var was := now;
      now := now + t;
      forall slot ensures PastAt(timing, now, slot) {
        assert PastAt(timing, was, slot);
      }
    }

    /** Handles the first expired entry while others wait to be handled or to be queued again. */
    method FireNext(fired: seq<Ra>, requeue: seq<Due>) returns (requeue': seq<Due>)
      requires Valid() && fired != []
      requires Backlog(rules, lastSent, now, Keys(Plan()), Immediate(fired), requeue)
      modifies this`timing, this`log, this`lastSent
      ensures Valid() && timing.Keys == old(timing.Keys)
      ensures log == old(log) + SentFor(fired[0].key, sending, timing.Keys, now)
      ensures Backlog(rules, lastSent, now, Keys(Plan()), Immediate(fired[1..]), requeue')
      ensures Names(requeue') == Names(requeue) + AgainFor(fired[0].key, sending, timing.Keys)
    {
      ghost var m, last, f := Keys(Plan()), lastSent, Immediate(fired);
      BacklogHead(rules, last, now, m, f, requeue);
      var again, ticks := Fire(fired[0].key);
      BacklogNext(rules, last, now, m, f, requeue, again, ticks);
      requeue' := Later(requeue, fired[0].key, again, ticks);
      NamesLater(requeue, fired[0].key, again, ticks);
    }

    /** The sending loop over the expired entries. */
    method FireAll(fired: seq<Ra>) returns (requeue: seq<Due>)
      requires Valid() && Backlog(rules, lastSent, now, Keys(Plan()), Immediate(fired), [])
      modifies this`timing, this`log, this`lastSent
      ensures Valid() && timing.Keys == old(timing.Keys)
      ensures Backlog(rules, lastSent, now, Keys(Plan()), [], requeue)
      ensures log == old(log) + SentBy(fired, sending, timing.Keys, now)
      ensures Names(requeue) == Again(fired, sending, timing.Keys)
    {
      ghost var all := log + SentBy(fired, sending, timing.Keys, now);
      var rest := fired;
      requeue := [];
      while rest != []
        invariant Valid() && timing.Keys == old(timing.Keys)
        invariant StillToSend(log, rest, sending, timing.Keys, now, all)
        invariant StillAgain(requeue, rest, sending, timing.Keys, Again(fired, sending, timing.Keys))
        invariant Backlog(rules, lastSent, now, Keys(Plan()), Immediate(rest), requeue)
        decreases |rest|
      {
        SentFirst(log, rest, sending, timing.Keys, now, all);
        AgainFirst(requeue, rest, sending, timing.Keys, Again(fired, sending, timing.Keys));
        requeue := FireNext(rest, requeue);
        rest := rest[1..];
      }
    }

    /** icmpv6_radv_timer: sends exactly what is due, in order of deadline; what is not due comes closer, and the multicast
        advertisements that were sent are queued again behind it, each with a new interval. */
    method Tick(t: nat) returns (ghost rest: seq<Due>, ghost again: seq<Due>)
      requires Valid()
      modifies this`now, this`timing, this`log, this`lastSent, queue
      ensures Valid() && now == old(now) + t && timing.Keys == old(timing.Keys)
      ensures log == old(log) + SentBy(old(queue.entries)[..DueCount(old(Plan()), t)], sending, timing.Keys, now)
      ensures Expired(old(Plan()), DueCount(old(Plan()), t), t, rest) && Plan() == InsertAll(rest, again)
      ensures Names(again) == Again(old(queue.entries)[..DueCount(old(Plan()), t)], sending, timing.Keys)
      ensures forall i :: 0 <= i < |again| ==> AgainOk(rules, again, i)
    {
      ghost var s := Plan();
      var fired := Advance(t);
      rest := Plan();
      DueCountIs(s, |fired|, t, Plan());
      assert Keys(Plan()) + Keys(Immediate(fired)) + Keys([]) == Keys(Plan()) + Keys(Immediate(fired));
      var requeue := FireAll(fired);
      WaitingDone(Keys(Plan()), requeue);
      PutAll(requeue);
      again := requeue;
    }

    /** What a caller may ask for: a configured interface, with timing information if the answer is multicast. */
    predicate Callable(e: Event)
      reads this
    {
      match e
      case Solicit(iface, dest, abro) => iface in cfg && (dest.AllNodes? ==> SlotOf(Key(iface, dest, abro)) in timing)
      case Restart(iface, _) => iface in cfg
      case _ => true
    }

    /** The promise an event costs: a restart that wraps spoils the spacing of its own key, nothing else ever does. */
    ghost function Spoils(e: Event): set<Key>
      reads this, queue
      requires Callable(e)
    {
      if e.Restart? && RestartWraps(Key(e.iface, AllNodes, e.abro)) then {Key(e.iface, AllNodes, e.abro)} else {}
    }

    method Step(e: Event)
      requires Valid() && Callable(e)
      modifies this, queue
      ensures Valid() && timing.Keys == old(timing.Keys) && old(log) <= log
      ensures !e.Ticks? ==> log == old(log)
      ensures rules == old(rules).(spoiled := old(rules).spoiled + old(Spoils(e)))
    {
      match e
      case Solicit(iface, dest, abro) => var _, _, _ := TriggerFromRs(iface, dest, abro);
      case Restart(iface, abro) => var _, _ := Restart(iface, abro);
      case Stop(iface, abro, any) => Stop(iface, abro, any);
      case Ticks(t) => var _, _ := Tick(t);
      case Sending(iface, on) => SetSending(iface, on);
    }

    /** Every run keeps multicast advertisements apart, and at most one of them queued, for each interface and border router none of
        whose restarts has wrapped; with initial advertisements configured, none can. */
    method Run(events: seq<Event>)
      requires Valid() && forall i :: 0 <= i < |events| ==> Callable(events[i])
      modifies this, queue
      ensures Valid() && AllSpaced(rules, log) && Unique(Keys(Plan())) && old(log) <= log
      ensures old(rules).spoiled <= rules.spoiled
      ensures forall key :: key in rules.spoiled && key !in old(rules).spoiled ==> Gambles(key)
    {
      for k := 0 to |events|
        invariant Valid() && timing.Keys == old(timing.Keys) && old(log) <= log && old(rules).spoiled <= rules.spoiled
        invariant forall i :: 0 <= i < |events| ==> Callable(events[i])
        invariant forall key :: key in rules.spoiled && key !in old(rules).spoiled ==> Gambles(key)
      {
        Step(events[k]);
      }
    }

    /** No initial advertisements are configured, so restarts add up. */
    predicate Gambles(key: Key) {
      key.dest.AllNodes? && key.iface in cfg && cfg[key.iface].maxInitialAdverts == 0
    }

    /** The reinsertion loop. */
    method PutAll(requeue: seq<Due>)
      requires Valid() && EntriesOk(rules, lastSent, now, requeue) && AllAgain(rules, requeue)
      requires Unique(Keys(Plan()) + Keys(requeue))
      modifies queue
      ensures Valid() && Plan() == InsertAll(old(Plan()), requeue)
    {
      ghost var all, s := Keys(Plan()) + Keys(requeue), InsertAll(Plan(), requeue);
      for k := 0 to |requeue|
        invariant Valid() && Keys(Plan()) + Keys(requeue[k..]) == all
        invariant InsertAll(Plan(), requeue[k..]) == s
      {
        var d := requeue[k];
        assert requeue[k..][0] == d && requeue[k..][1..] == requeue[k + 1..];
        assert AtMostOnce(all, d.key);
        assert EntryAt(rules, lastSent, now, requeue, k) && AgainOk(rules, requeue, k);
        KeysInsert(Plan(), d);
        Put(d.key, d.rsTriggered, d.at);
      }
    }
  }

  /** Queues one after another. */
  function InsertAll(s: seq<Due>, r: seq<Due>): seq<Due>
    decreases |r|
  {
    if r == [] then s else InsertAll(InsertDue(s, r[0]), r[1..])
  }

  lemma {:induction false} WaitingDone(m: multiset<Key>, r: seq<Due>)
    requires Waiting(m, [], r)
    ensures Unique(m + Keys(r))
  {
    assert m + Keys([]) + Keys(r) == m + Keys(r);
  }

  /** A periodic advertisement, at an interval that its interface allows. */
  predicate AgainOk(rules: Rules, s: seq<Due>, i: nat)
    requires i < |s|
  {
    s[i].at <= 0xffff && !s[i].rsTriggered && s[i].key.iface in rules.cfg && Interval(rules.cfg[s[i].key.iface], s[i].at)
  }

  predicate AllAgain(rules: Rules, s: seq<Due>) {
    forall i :: 0 <= i < |s| ==> AgainOk(rules, s, i)
  }

  lemma AgainMore(rules: Rules, s: seq<Due>, d: Due)
    requires AllAgain(rules, s) && AgainOk(rules, [d], 0)
    ensures AllAgain(rules, s + [d])
  {
    var r := s + [d];
    forall i | 0 <= i < |r| ensures AgainOk(rules, r, i) {
      assert i < |s| ==> AgainOk(rules, s, i);
    }
  }

  /** How many entries are due within t. */
  function DueCount(s: seq<Due>, t: nat): (n: nat)
    ensures n <= |s|
  {
    if s == [] || s[0].at > t then 0 else 1 + DueCount(s[1..], t)
  }

  lemma {:induction false} DueCountIs(s: seq<Due>, k: nat, t: nat, r: seq<Due>)
    requires Expired(s, k, t, r)
    ensures k == DueCount(s, t)
  {
    DueCountUpTo(s, k, t);
  }

  lemma {:induction false} DueCountUpTo(s: seq<Due>, k: nat, t: nat)
    requires k <= |s| && forall i :: 0 <= i < |s| ==> DueAt(s, i, k, t)
    ensures k == DueCount(s, t)
  {
    if s != [] {
      assert DueAt(s, 0, k, t);
      if k > 0 {
        var r, n := s[1..], k - 1;
        forall i | 0 <= i < |r| ensures DueAt(r, i, n, t) {
          assert DueAt(s, i + 1, k, t);
        }
        DueCountUpTo(r, n, t);
      }
    }
  }

  /** What goes out for an expired entry: something if its interface advertises and it has timing information. */
  function SentFor(key: Key, sending: set<nat>, slots: set<Slot>, now: nat): seq<Sent> {
    if key.iface in sending && SlotOf(key) in slots then [Sent(now, key)] else []
  }

  function SentBy(fired: seq<Ra>, sending: set<nat>, slots: set<Slot>, now: nat): seq<Sent> {
    if fired == [] then [] else SentFor(fired[0].key, sending, slots, now) + SentBy(fired[1..], sending, slots, now)
  }

  /** Multicast advertisements that were sent are queued again. */
  function AgainFor(key: Key, sending: set<nat>, slots: set<Slot>): seq<Key> {
    if key.iface in sending && SlotOf(key) in slots && key.dest.AllNodes? then [key] else []
  }

  function Again(fired: seq<Ra>, sending: set<nat>, slots: set<Slot>): seq<Key> {
    if fired == [] then [] else AgainFor(fired[0].key, sending, slots) + Again(fired[1..], sending, slots)
  }

  function Names(s: seq<Due>): (keys: seq<Key>)
    ensures |keys| == |s|
  {
    seq(|s|, i requires 0 <= i < |s| => s[i].key)
  }

  ghost predicate StillAgain(requeue: seq<Due>, rest: seq<Ra>, sending: set<nat>, slots: set<Slot>, all: seq<Key>) {
    Names(requeue) + Again(rest, sending, slots) == all
  }

  lemma {:induction false} AgainFirst(requeue: seq<Due>, rest: seq<Ra>, sending: set<nat>, slots: set<Slot>, all: seq<Key>)
    requires rest != [] && StillAgain(requeue, rest, sending, slots, all)
    ensures Names(requeue) + AgainFor(rest[0].key, sending, slots) + Again(rest[1..], sending, slots) == all
  {
  }

  lemma {:induction false} NamesLater(r: seq<Due>, key: Key, again: bool, ticks: nat)
    ensures Names(Later(r, key, again, ticks)) == Names(r) + if again then [key] else []
  {
  }

  ghost predicate StillToSend(log: seq<Sent>, rest: seq<Ra>, sending: set<nat>, slots: set<Slot>, now: nat, all: seq<Sent>) {
    log + SentBy(rest, sending, slots, now) == all
  }

  lemma {:induction false} SentFirst(log: seq<Sent>, rest: seq<Ra>, sending: set<nat>, slots: set<Slot>, now: nat, all: seq<Sent>)
    requires rest != [] && StillToSend(log, rest, sending, slots, now, all)
    ensures StillToSend(log + SentFor(rest[0].key, sending, slots, now), rest[1..], sending, slots, now, all)
  {
  }

  /** Everything an expiry keeps, for what left the queue and for what stayed. */
  lemma {:induction false} ExpireSplits(rules: Rules, lastSent: map<Key, nat>, now: nat, t: nat, q: seq<Ra>, fired: seq<Ra>,
                                        r: seq<Due>)
    requires |fired| <= |q| && fired == q[..|fired|] && Expired(Schedule(q, 0), |fired|, t, r)
    requires EntriesOk(rules, lastSent, now, Schedule(q, 0)) && Unique(Keys(Schedule(q, 0)))
    ensures EntriesOk(rules, lastSent, now + t, r) && EntriesOk(rules, lastSent, now + t, Immediate(fired))
    ensures Unique(Keys(r)) && Unique(Keys(r) + Keys(Immediate(fired)))
  {
    var s, f := Schedule(q, 0), Immediate(fired);
    forall i | 0 <= i < |fired| ensures SameKey(s, f, i) {
      ScheduleAt(q, 0, i);
      ImmediateAt(fired, i);
    }
    ExpireKeys(s, t, f, r);
    UniqueLess(Keys(s), Keys(r), Keys(f));
    ExpireEntries(rules, lastSent, now, t, s, f, r);
  }

  predicate SameKey(s: seq<Due>, f: seq<Due>, i: nat)
    requires i < |f| && i < |s|
  {
    f[i].key == s[i].key
  }

  /** No key occurs twice among the queue, the expired entries and those to be queued again. */
  ghost predicate Waiting(m: multiset<Key>, f: seq<Due>, r: seq<Due>) {
    Unique(m + Keys(f) + Keys(r))
  }

  lemma {:induction false} WaitingNext(m: multiset<Key>, f: seq<Due>, r: seq<Due>, d: Due)
    requires f != [] && d.key == f[0].key && Waiting(m, f, r)
    ensures m[d.key] == 0 && Keys(f[1..])[d.key] == 0 && Keys(r)[d.key] == 0
    ensures Waiting(m, f[1..], r) && Waiting(m, f[1..], r + [d])
  {
    KeysAppend(r, [d]);
    assert Keys([d]) == multiset{d.key};
    UniqueShift(m, Keys(f[1..]), Keys(r), d.key);
  }

  lemma UniqueShift(m: multiset<Key>, a: multiset<Key>, b: multiset<Key>, key: Key)
    requires Unique(m + (multiset{key} + a) + b)
    ensures m[key] == 0 && a[key] == 0 && b[key] == 0
    ensures Unique(m + a + b) && Unique(m + a + (b + multiset{key}))
  {
    var all := m + (multiset{key} + a) + b;
    assert AtMostOnce(all, key);
    assert all == m + a + (b + multiset{key});
    UniqueLess(all, m + a + b, multiset{key});
  }

  /** The expired entries f still to be handled and those to be queued again, while the queue holds the keys m. */
  ghost predicate Backlog(rules: Rules, lastSent: map<Key, nat>, now: nat, m: multiset<Key>, f: seq<Due>, r: seq<Due>) {
    EntriesOk(rules, lastSent, now, f) && EntriesOk(rules, lastSent, now, r) && AllAgain(rules, r) && Waiting(m, f, r)
  }

  function Later(r: seq<Due>, key: Key, again: bool, ticks: nat): seq<Due> {
    if again then r + [Due(key, false, ticks)] else r
  }

  lemma {:induction false} BacklogHead(rules: Rules, lastSent: map<Key, nat>, now: nat, m: multiset<Key>, f: seq<Due>, r: seq<Due>)
    requires Backlog(rules, lastSent, now, m, f, r) && f != []
    ensures m[f[0].key] == 0 && EntryOk(rules, lastSent, now, f[0])
  {
    WaitingNext(m, f, r, f[0]);
    EntriesTail(rules, lastSent, now, f);
  }

  lemma {:induction false} BacklogNext(rules: Rules, lastSent: map<Key, nat>, now: nat, m: multiset<Key>, f: seq<Due>, r: seq<Due>,
                                       again: bool, ticks: nat)
    requires f != [] && Backlog(rules, lastSent, now, m, f, r)
    requires again ==> EntryOk(rules, lastSent[f[0].key := now], now, Due(f[0].key, false, ticks))
    requires again ==> AgainOk(rules, [Due(f[0].key, false, ticks)], 0)
    ensures Backlog(rules, if again then lastSent[f[0].key := now] else lastSent, now, m, f[1..], Later(r, f[0].key, again, ticks))
  {
    var key, d := f[0].key, Due(f[0].key, false, ticks);
    WaitingNext(m, f, r, d);
    EntriesTail(rules, lastSent, now, f);
    if again {
      EntriesSent(rules, lastSent, now, f[1..], key);
      EntriesSent(rules, lastSent, now, r, key);
      EntriesMore(rules, lastSent[key := now], now, r, d);
      AgainMore(rules, r, d);
    }
  }

  lemma {:induction false} ExpireKeys(s: seq<Due>, t: nat, f: seq<Due>, r: seq<Due>)
    requires Expired(s, |f|, t, r)
    requires forall i :: 0 <= i < |f| ==> SameKey(s, f, i)
    ensures Keys(s) == Keys(r) + Keys(f)
  {
    var a, b := s[..|f|], s[|f|..];
    assert a + b == s;
    forall i | 0 <= i < |a| ensures a[i].key == f[i].key {
      assert SameKey(s, f, i);
    }
    forall i | 0 <= i < |b| ensures b[i].key == r[i].key {
      assert LaterAt(s, r, i, |f|, t);
    }
    KeysSame(a, f);
    KeysSame(b, r);
    KeysAppend(a, b);
  }

  /** An entry that is due has waited long enough; the others keep their deadlines as time passes. */
  lemma {:induction false} ExpireEntries(rules: Rules, lastSent: map<Key, nat>, now: nat, t: nat, s: seq<Due>, f: seq<Due>,
                                         r: seq<Due>)
    requires Expired(s, |f|, t, r) && EntriesOk(rules, lastSent, now, s)
    requires forall i :: 0 <= i < |f| ==> SameKey(s, f, i)
    ensures EntriesOk(rules, lastSent, now + t, f) && EntriesOk(rules, lastSent, now + t, r)
  {
    var later := now + t;
    forall i | 0 <= i < |f| ensures EntryAt(rules, lastSent, later, f, i) {
      assert EntryAt(rules, lastSent, now, s, i) && SameKey(s, f, i) && DueAt(s, i, |f|, t);
    }
    forall i | 0 <= i < |r| ensures EntryAt(rules, lastSent, later, r, i) {
      assert EntryAt(rules, lastSent, now, s, i + |f|) && LaterAt(s, r, i, |f|, t);
    }
  }

  /** Expired entries, due now. */
  ghost function Immediate(q: seq<Ra>): (s: seq<Due>)
    ensures |s| == |q|
  {
    if q == [] then [] else [Due(q[0].key, q[0].rsTriggered, 0)] + Immediate(q[1..])
  }

  lemma {:induction false} ImmediateAt(q: seq<Ra>, i: nat)
    requires i < |q|
    ensures Immediate(q)[i] == Due(q[i].key, q[i].rsTriggered, 0)
  {
    if i > 0 {
      ImmediateAt(q[1..], i - 1);
    }
  }

  lemma {:induction false} SpacedAfter(rules: Rules, log: seq<Sent>, lastSent: map<Key, nat>, now: nat, key: Key)
    requires AllSpaced(rules, log) && AllLogged(log, lastSent) && EntryOk(rules, lastSent, now, Due(key, false, 0))
    ensures AllSpaced(rules, log + [Sent(now, key)])
  {
    var log' := log + [Sent(now, key)];
    forall i, j | 0 <= i < j < |log'| ensures Spaced(rules, log', i, j) {
      if j < |log| {
        assert Spaced(rules, log, i, j);
      } else {
        assert LoggedAt(log, lastSent, i);
      }
    }
  }

  /** The bookkeeping of the log after a send. */
  lemma {:induction false} LoggedAfter(log: seq<Sent>, lastSent: map<Key, nat>, timing: map<Slot, Timing>, now: nat, key: Key, count: nat)
    requires AllLogged(log, lastSent) && SlotOf(key) in timing
    requires (forall k :: LastAt(lastSent, timing, k)) && (forall slot :: PastAt(timing, now, slot))
    ensures var last' := if key.dest.AllNodes? then lastSent[key := now] else lastSent;
            var timing' := timing[SlotOf(key) := Timing(now, count)];
            && AllLogged(log + [Sent(now, key)], last')
            && (forall k :: LastAt(last', timing', k)) && (forall slot :: PastAt(timing', now, slot))
  {
    var log' := log + [Sent(now, key)];
    var last' := if key.dest.AllNodes? then lastSent[key := now] else lastSent;
    var timing' := timing[SlotOf(key) := Timing(now, count)];
    forall k ensures LastAt(last', timing', k) {
      assert LastAt(lastSent, timing, k) && PastAt(timing, now, SlotOf(k));
    }
    forall slot ensures PastAt(timing', now, slot) {
      assert PastAt(timing, now, slot);
    }
    forall i | 0 <= i < |log'| ensures LoggedAt(log', last', i) {
      if i < |log| {
        assert LoggedAt(log, lastSent, i);
        assert LastAt(lastSent, timing, log[i].key) && PastAt(timing, now, SlotOf(log[i].key));
      }
    }
  }

  /** The schedule without the entries that are stopped. */
  ghost function Kept(s: seq<Due>, iface: nat, abro: set<Abro>, any: bool): seq<Due> {
    if s == [] then [] else (if Stopped(s[0].key, iface, abro, any) then [] else [s[0]]) + Kept(s[1..], iface, abro, any)
  }

  lemma {:induction false} KeptHas(s: seq<Due>, iface: nat, abro: set<Abro>, any: bool, d: Due)
    ensures d in Kept(s, iface, abro, any) <==> d in s && !(d.key.iface == iface && (any || d.key.abro in abro))
  {
    if s != [] {
      KeptHas(s[1..], iface, abro, any, d);
    }
  }

  ghost predicate KeptBefore(s: seq<Due>, i: nat, iface: nat, abro: set<Abro>, any: bool)
    requires i <= |s|
  {
    forall j :: 0 <= j < i ==> !Stopped(s[j].key, iface, abro, any)
  }

  lemma {:induction false} KeptRemove(s: seq<Due>, i: nat, iface: nat, abro: set<Abro>, any: bool)
    requires i < |s| && Stopped(s[i].key, iface, abro, any)
    ensures Kept(s[..i] + s[i + 1..], iface, abro, any) == Kept(s, iface, abro, any)
    ensures KeptBefore(s, i, iface, abro, any) ==> KeptBefore(s[..i] + s[i + 1..], i, iface, abro, any)
  {
    if i > 0 {
      KeptRemove(s[1..], i - 1, iface, abro, any);
      assert (s[..i] + s[i + 1..])[1..] == s[1..][..i - 1] + s[1..][i..];
    } else {
      assert s[..0] + s[1..] == s[1..];
    }
  }

  lemma {:induction false} KeptAll(s: seq<Due>, iface: nat, abro: set<Abro>, any: bool)
    requires KeptBefore(s, |s|, iface, abro, any)
    ensures Kept(s, iface, abro, any) == s
  {
    if s != [] {
      KeptAll(s[1..], iface, abro, any);
    }
  }

  predicate Stopped(key: Key, iface: nat, abro: set<Abro>, any: bool) {
    key.iface == iface && (any || key.abro in abro)
  }

  /** An interface that advertises every 65505 ticks, with no initial advertisements. */
  const SLOW := Config(1, 30, 65505, 65505, 65505, 0)

  const PERIODIC := Key(0, AllNodes, Unspecified)

  lemma {:induction false} OneEntry(q: seq<Ra>, d: Due)
    requires Schedule(q, 0) == [d]
    ensures q == [Ra(d.key, d.rsTriggered, d.at)] && TicksOf(q, d.key) == d.at
    ensures Others([d], d.key) == [] && forall e :: InsertDue([], e) == [e]
  {
    ScheduleAt(q, 0, 0);
  }

  /** The only entry is due: it is sent, and queued again. */
  lemma {:induction false} OneDue(rules: Rules, d: Due, q: seq<Ra>, t: nat, now: nat, rest: seq<Due>, again: seq<Due>)
    requires rules.cfg == map[0 := SLOW]
    requires d.at == t && d.key == PERIODIC && q == [Ra(d.key, d.rsTriggered, d.at)]
    requires Expired([d], DueCount([d], t), t, rest)
    requires Names(again) == Again(q[..DueCount([d], t)], {0}, {OfInterface(0)}) && AllAgain(rules, again)
    ensures SentBy(q[..DueCount([d], t)], {0}, {OfInterface(0)}, now) == [Sent(now, PERIODIC)]
    ensures InsertAll(rest, again) == [Due(PERIODIC, false, 65505)]
  {
    assert q[..1] == q && q[1..] == [] && DueCount([d], t) == 1;
    assert Again(q, {0}, {OfInterface(0)}) == [PERIODIC];
    assert |again| == 1 && again[0].key == Names(again)[0] && AgainOk(rules, again, 0);
    assert again[1..] == [];
  }

  /** A scheduler with that interface alone, whose next advertisement is one of the given number of ticks away. */
  ghost predicate Alone(s: Scheduler, at: nat)
    reads s, s.queue
  {
    && s.Valid() && s.cfg == map[0 := SLOW] && s.sending == {0} && s.timing.Keys == {OfInterface(0)}
    && |s.Plan()| == 1 && s.Plan()[0].key == PERIODIC && s.Plan()[0].at == at
  }

  /** It has just sent one. */
  ghost predicate JustSent(s: Scheduler)
    reads s, s.queue
  {
    s.timing.Keys == {OfInterface(0)} && s.timing[OfInterface(0)].last == s.now && s.log == [Sent(s.now, PERIODIC)]
  }

  method TickOne(s: Scheduler, t: nat)
    requires Alone(s, t)
    modifies s, s.queue
    ensures s.now == old(s.now) + t && s.log == old(s.log) + [Sent(s.now, PERIODIC)] && Alone(s, 65505)
  {
    ghost var d, q := s.Plan()[0], s.queue.entries;
    OneEntry(q, d);
    var rest, again := s.Tick(t);
    OneDue(s.rules, d, q, t, s.now, rest, again);
  }

  /** Restarting adds the rate limit to what is left, in 16 bits. */
  method RestartOne(s: Scheduler, ghost at: nat)
    requires Alone(s, at) && JustSent(s) && at <= 0xffff
    modifies s, s.queue
    ensures JustSent(s) && s.now == old(s.now) && s.log == old(s.log) && Alone(s, (at + 30) % 0x1_0000)
  {
    ghost var d := s.Plan()[0];
    OneEntry(s.queue.entries, d);
    var ticks, rs := s.Restart(0, Unspecified);
    assert s.Plan() == InsertDue([], Due(PERIODIC, rs, (at + 30) % 0x1_0000));
  }

  /** Started up: the first advertisement waits for the minimum delay, as if one had just been sent. */
  method Started() returns (s: Scheduler)
    ensures fresh(s) && fresh(s.queue) && Alone(s, 30) && s.log == []
  {
    s := new Scheduler(map[0 := SLOW], {}, 0x1_0000);
    s.SetSending(0, true);
    assert OfInterface(0) in s.timing && TicksOf(s.queue.entries, PERIODIC) == -1;
    var ticks, rs := s.Restart(0, Unspecified);
    assert s.Plan() == InsertDue([], Due(PERIODIC, rs, 30));
  }

  /** The first advertisement has gone out, and the next one is queued. */
  method FirstSent() returns (s: Scheduler)
    ensures fresh(s) && fresh(s.queue) && Alone(s, 65505) && JustSent(s)
  {
    s := Started();
    TickOne(s, 30);
    assert LoggedAt(s.log, s.lastSent, 0) && LastAt(s.lastSent, s.timing, PERIODIC) && PastAt(s.timing, s.now, OfInterface(0));
  }

  /** Two restarts right after a transmission bring the next one 29 ticks behind it, where 30 are the minimum. */
  method RestartBreaksSpacing() returns (s: Scheduler)
    ensures fresh(s) && s.Valid() && !AllSpaced(Rules(s.cfg, {}), s.log)
  {
    s := FirstSent();
    RestartOne(s, 65505);
    RestartOne(s, 65535);
    TickOne(s, 29);
    assert !Spaced(Rules(s.cfg, {}), s.log, 0, 1);
  }
}
