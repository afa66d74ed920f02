/** Sequence numbers, the receive window and the retransmission timeout of TCP. */
module TcpNumbers {
  import opened Bytes

  const HALF := 0x8000_0000

  function Wrap(x: int): u32 {
    x % 0x1_0000_0000
  }

  function Int32(x: u32): int {
    if x < HALF then x else x - 0x1_0000_0000
  }

  /** common_serial_number_greater_32, with the meaning of RFC 1982. */
  predicate SeqGt(a: u32, b: u32) {
    0 < Wrap(a - b) < HALF
  }

  predicate SeqGe(a: u32, b: u32) {
    a == b || SeqGt(a, b)
  }

  /** tcp_seq_in_range: between low and high, going upwards from low. */
  predicate SeqInRange(low: u32, val: u32, high: u32) {
    if low <= high then low <= val <= high else low <= val || val <= high
  }

  /** Positions a and b of a stream are close enough for their sequence numbers to be compared. */
  predicate Near(a: int, b: int) {
    -HALF < a - b < HALF
  }

  lemma WrapAdd(x: int, y: int)
    ensures Wrap(Wrap(x) + y) == Wrap(x + y)
    ensures Wrap(y - Wrap(x)) == Wrap(y - x)
  {
    var q := x / 0x1_0000_0000;
    assert x == Wrap(x) + 0x1_0000_0000 * q;
  }

  lemma WrapDiff(base: int, x: int, y: int)
    ensures Wrap(Wrap(base + x) - Wrap(base + y)) == Wrap(x - y)
  {
  }

  lemma WrapSmall(x: int)
    ensures 0 <= x < 0x1_0000_0000 ==> Wrap(x) == x
    ensures -0x1_0000_0000 <= x < 0 ==> Wrap(x) == x + 0x1_0000_0000
    ensures -HALF <= x < HALF ==> Int32(Wrap(x)) == x
  {
  }

  /** On nearby positions the comparisons of sequence numbers are comparisons of positions. */
  lemma SeqGtAt(base: int, a: int, b: int)
    requires -HALF <= a - b < HALF
    ensures SeqGt(Wrap(base + a), Wrap(base + b)) <==> a > b
    ensures SeqGe(Wrap(base + a), Wrap(base + b)) <==> a >= b
    ensures Wrap(base + a) == Wrap(base + b) <==> a == b
  {
    WrapDiff(base, a, b);
    WrapSmall(a - b);
  }

  lemma SeqInRangeIs(low: u32, val: u32, high: u32)
    ensures SeqInRange(low, val, high) <==> Wrap(val - low) <= Wrap(high - low)
  {
    WrapSmall(val - low);
    WrapSmall(high - low);
  }

  lemma SeqInRangeAt(base: int, low: int, val: int, high: int)
    requires low <= high < low + HALF && -HALF <= val - low < HALF
    ensures SeqInRange(Wrap(base + low), Wrap(base + val), Wrap(base + high)) <==> low <= val <= high
  {
    SeqInRangeIs(Wrap(base + low), Wrap(base + val), Wrap(base + high));
    WrapDiff(base, val, low);
    WrapDiff(base, high, low);
    WrapSmall(val - low);
    WrapSmall(high - low);
  }

  /** The position nearest to next that has this number. */
  function Nearest(base: u32, next: int, seqNo: u32): int {
    next + Int32(Wrap(seqNo - (base + next)))
  }

  lemma NearestHas(base: u32, next: int, seqNo: u32)
    ensures var at := Nearest(base, next, seqNo);
            -HALF <= at - next < HALF && Wrap(base + at) == seqNo
  {
    var d := seqNo - (base + next);
    var q := WrapLess(d);
    var turns := if Wrap(d) < HALF then q else q + 1;
    assert base + Nearest(base, next, seqNo) == seqNo - 0x1_0000_0000 * turns;
    WrapTurns(seqNo, turns);
  }

  lemma WrapTurns(x: u32, turns: int)
    ensures Wrap(x - 0x1_0000_0000 * turns) == x
  {
  }

  function Clamp16(space: int): nat {
    if space < 0 then 0 else if space > 0xffff then 0xffff else space
  }

  /** tcp_compute_window_incr: how far the advertised right edge moves. */
  function WindowIncr(space: int, adv: u32, next: u32, limit: nat, mss: nat): u16 {
    var window := Clamp16(space);
    if window < Int32(Wrap(adv - next)) then 0
    else
      var incr := (next + window - adv) % 0x1_0000;
      if incr < limit / 2 && incr < mss then 0 else incr
  }

  lemma Same16(x: int, y: int, q: int)
    requires x == y + 0x1_0000 * q
    ensures x % 0x1_0000 == y % 0x1_0000
  {
  }

  lemma WrapLess(x: int) returns (q: int)
    ensures Wrap(x) == x - 0x1_0000_0000 * q
  {
    q := x / 0x1_0000_0000;
  }

  lemma WindowIncrAt(base: int, space: int, adv: int, next: int, limit: nat, mss: nat)
    requires -HALF <= adv - next < HALF
    ensures var incr := WindowIncr(space, Wrap(base + adv), Wrap(base + next), limit, mss);
            var w := (next + Clamp16(space) - adv) % 0x1_0000;
            incr == if Clamp16(space) < adv - next || (w < limit / 2 && w < mss) then 0 else w
  {
    var a: int, n: int := Wrap(base + adv), Wrap(base + next);
    assert Int32(Wrap(a - n)) == adv - next by {
      WrapDiff(base, adv, next);
      WrapSmall(adv - next);
    }
    WindowStep(base, adv, next, Clamp16(space));
  }

  lemma WindowStep(base: int, adv: int, next: int, window: nat)
    ensures (Wrap(base + next) + window - Wrap(base + adv)) % 0x1_0000 == (next + window - adv) % 0x1_0000
  {
    var q := WrapLess(base + adv);
    var r := WrapLess(base + next);
    Same16(Wrap(base + next) + window - Wrap(base + adv), next + window - adv, 0x1_0000 * (q - r));
  }

  /** The right edge never moves left, and the window field holds the whole window, as long as nothing beyond it was taken. */
  lemma WindowKept(base: int, space: int, adv: int, next: int, limit: nat, mss: nat)
    requires next <= adv <= next + 0xffff
    ensures var adv' := adv + WindowIncr(space, Wrap(base + adv), Wrap(base + next), limit, mss);
            adv <= adv' <= next + 0xffff && (adv' == adv || adv' == next + Clamp16(space))
    ensures var adv', step := adv + WindowIncr(space, Wrap(base + adv), Wrap(base + next), limit, mss), next + Clamp16(space) - adv;
            && (adv' == adv <==> step <= 0 || (step < limit / 2 && step < mss))
            && (adv' > adv ==> space > 0 && adv' == next + if space < 0xffff then space else 0xffff)
  {
    WindowIncrAt(base, space, adv, next, limit, mss);
    WrapSmall(next + Clamp16(space) - adv);
  }

  /** Once data was taken beyond the right edge, the window is sound again exactly when the whole step to the new edge fits the
      16-bit variable that holds it and the silly-window rule does not suppress it. */
  lemma WindowOverrun(base: int, space: int, adv: int, next: int, limit: nat, mss: nat)
    requires adv < next <= adv + HALF
    ensures var adv' := adv + WindowIncr(space, Wrap(base + adv), Wrap(base + next), limit, mss);
            var step := Clamp16(space) + (next - adv);
            next <= adv' <= next + 0xffff <==> step <= 0xffff && !(step < limit / 2 && step < mss)
  {
    WindowIncrAt(base, space, adv, next, limit, mss);
    Step16(next - adv, Clamp16(space));
  }

  /** The step as the 16-bit variable sees it. */
  lemma Step16(behind: nat, window: nat)
    requires window <= 0xffff && 0 < behind
    ensures (behind + window) % 0x1_0000 >= behind <==> behind + window <= 0xffff
    ensures behind + window <= 0xffff ==> (behind + window) % 0x1_0000 == behind + window
  {
    if behind + window > 0xffff {
      var w := (behind + window) % 0x1_0000;
      assert w <= 0xffff && w <= behind + window - 0x1_0000;
    }
  }

  function Int16(x: int): int {
    if -0x8000 <= x < 0x8000 then x else (x + 0x8000) % 0x1_0000 - 0x8000
  }

  const NO_SAMPLE := 32767
  const MINIMUM_RTO := 8
  const MAXIMUM_RTO := 400

  datatype Rtt = Rtt(srtt8: int, srttvar4: int, rto: int)

  /** The measured round trip, from the timeout and what is left of it. */
  function Sample(rto: u16, timer: u16): (r: nat)
    ensures r <= NO_SAMPLE
  {
    var r := Int16(Int16(rto) - Int16(timer));
    if r < 0 then 0 else r
  }

  /** Smoothed round trip time and variation (section 2 of RFC 6298), in 16-bit arithmetic. */
  function Estimate(e: Rtt, r: nat): (e': Rtt)
    ensures MINIMUM_RTO <= e'.rto <= 0xffff
  {
    var (srtt8, srttvar4) :=
      if e.srtt8 == NO_SAMPLE then (Int16(r * 8), Int16(r * 2))
      else
        var diff := Int16(r - e.srtt8 / 8);
        var abs := if diff < 0 then Int16(-diff) else diff;
        (Int16(e.srtt8 + diff), Int16(e.srttvar4 + Int16(abs - e.srttvar4 / 4)));
    var rto := (srtt8 / 8 + srttvar4) % 0x1_0000;
    Rtt(srtt8, srttvar4, if rto < MINIMUM_RTO then MINIMUM_RTO else rto)
  }

  /** The same in unbounded arithmetic. */
  function Smoothed(e: Rtt, r: nat): Rtt {
    var (srtt8, srttvar4) :=
      if e.srtt8 == NO_SAMPLE then (r * 8, r * 2)
      else
        var diff := r - e.srtt8 / 8;
        (e.srtt8 + diff, e.srttvar4 + (if diff < 0 then -diff else diff) - e.srttvar4 / 4);
    Rtt(srtt8, srttvar4, Max(srtt8 / 8 + srttvar4, MINIMUM_RTO))
  }

  /** The measured round trip is the time that has passed since the timer was started, never negative. */
  lemma SampleIs(rto: u16, timer: u16)
    ensures timer <= rto < 0x8000 ==> Sample(rto, timer) == rto - timer
    ensures rto < timer < 0x8000 ==> Sample(rto, timer) == 0
  {
  }

  /** Section 2 of RFC 6298, up to less than one unit of the scaled values: the first sample r gives srtt = r and rttvar = r / 2, every
      other one moves srtt by an eighth and rttvar by a quarter of the difference, and rto = srtt + 4 * rttvar. */
  lemma SmoothedIsRfc(e: Rtt, r: nat)
    ensures var s, err := Smoothed(e, r), if r < e.srtt8 / 8 then e.srtt8 / 8 - r else r - e.srtt8 / 8;
            && (e.srtt8 == NO_SAMPLE ==> s.srtt8 == 8 * r && s.srttvar4 == 2 * r)
            && (e.srtt8 != NO_SAMPLE ==> 0 <= 8 * s.srtt8 - (7 * e.srtt8 + 8 * r) < 8 && 0 <= 4 * s.srttvar4 - (3 * e.srttvar4 + 4 * err) < 4)
            && s.rto >= MINIMUM_RTO && (s.rto > MINIMUM_RTO ==> s.rto == s.srtt8 / 8 + s.srttvar4)
            && s.rto >= s.srtt8 / 8 + s.srttvar4
  {
  }

  function EstimateAll(e: Rtt, samples: seq<nat>): Rtt
    decreases |samples|
  {
    if samples == [] then e else EstimateAll(Estimate(e, samples[0]), samples[1..])
  }

  predicate Bounded(e: Rtt, m: nat) {
    && 0 <= e.srtt8 <= 8 * m && 0 <= e.srttvar4 <= 4 * m
    && MINIMUM_RTO <= e.rto <= Max(MINIMUM_RTO, 5 * m)
  }

  lemma Within16(x: int)
    requires -0x8000 <= x < 0x8000
    ensures Int16(x) == x
  {
  }

  /** One sample of at most m ticks: nothing overflows, the marker is not hit, and the bounds are kept. */
  lemma EstimateBounded(e: Rtt, r: nat, m: nat)
    requires r <= m <= 4095 && (e.srtt8 == NO_SAMPLE || Bounded(e, m))
    ensures Estimate(e, r) == Smoothed(e, r) && Bounded(Estimate(e, r), m) && Estimate(e, r).srtt8 != NO_SAMPLE
  {
    SmoothedBounded(e, r, m);
    var s := Smoothed(e, r);
    if e.srtt8 == NO_SAMPLE {
      Within16(r * 8);
      Within16(r * 2);
    } else {
      EstimateNext(e, r, m);
    }
    assert 0 <= s.srtt8 / 8 + s.srttvar4 <= 5 * m;
  }

  lemma Parts(srtt8: int, srttvar4: int, m: nat)
    requires 0 <= srtt8 <= 8 * m && 0 <= srttvar4 <= 4 * m
    ensures 0 <= srtt8 / 8 <= m && 0 <= srttvar4 / 4 <= m
    ensures 0 <= srtt8 - srtt8 / 8 <= 7 * m && 0 <= srttvar4 - srttvar4 / 4 <= 3 * m
  {
  }

  lemma EstimateNext(e: Rtt, r: nat, m: nat)
    requires r <= m <= 4095 && Bounded(e, m) && e.srtt8 != NO_SAMPLE
    ensures Estimate(e, r) == Smoothed(e, r)
  {
    var diff: int := r - e.srtt8 / 8;
    var change: int := (if diff < 0 then -diff else diff) - e.srttvar4 / 4;
    Parts(e.srtt8, e.srttvar4, m);
    Within16(diff);
    Within16(-diff);
    Within16(change);
    Within16(e.srtt8 + diff);
    Within16(e.srttvar4 + change);
    SmoothedBounded(e, r, m);
  }

  lemma SmoothedBounded(e: Rtt, r: nat, m: nat)
    requires r <= m && (e.srtt8 == NO_SAMPLE || Bounded(e, m))
    ensures Bounded(Smoothed(e, r), m)
  {
  }

  lemma {:induction false} EstimateAllBounded(e: Rtt, samples: seq<nat>, m: nat)
    requires m <= 4095 && (e.srtt8 == NO_SAMPLE || Bounded(e, m))
    requires forall i :: 0 <= i < |samples| ==> samples[i] <= m
    decreases |samples|
    ensures samples != [] ==> Bounded(EstimateAll(e, samples), m) && EstimateAll(e, samples).srtt8 != NO_SAMPLE
  {
    if samples != [] {
      EstimateBounded(e, samples[0], m);
      EstimateAllBounded(Estimate(e, samples[0]), samples[1..], m);
    }
  }
}
