/** ECN combination of fragments (section 5.3 of RFC 3168). */
module Ecn {

  const NOT_ECT := 0
  const ECT_1 := 1
  const ECT_0 := 2
  const CE := 3
  const ILLEGAL := -1

  type Mark = m: int | 0 <= m < 4

  type Combined = m: int | -1 <= m < 4

  /** The 4x4 combination table. */
  function Combine(a: Mark, b: Mark): Combined {
    if a == b then a
    else if (a == CE && b == NOT_ECT) || (a == NOT_ECT && b == CE) then ILLEGAL
    else if a == CE || b == CE then CE
    else if a == NOT_ECT || b == NOT_ECT then NOT_ECT
    else ECT_1
  }

  /** Combination over a whole arrival order; an illegal pair is final, because it discards the datagram. */
  function CombineAll(first: Mark, rest: seq<Mark>): Combined
    decreases |rest|
  {
    if rest == [] then first
    else
      var c := Combine(first, rest[0]);
      if c == ILLEGAL then ILLEGAL else CombineAll(c, rest[1..])
  }

  /** What the marks of a datagram amount to, read from the set of marks seen and nothing else. */
  function Verdict(seen: set<Mark>): (v: Combined)
  {
    if CE in seen && NOT_ECT in seen then ILLEGAL
    else if CE in seen then CE
    else if NOT_ECT in seen then NOT_ECT
    else if ECT_1 in seen then ECT_1
    else ECT_0
  }

  ghost function SeenIn(marks: seq<Mark>): set<Mark> {
    set m: Mark | m in marks
  }

  /** Every arrival order gives the verdict of the set of marks: order and repetition do not matter. */
  lemma {:induction false} CombineAllIsVerdict(first: Mark, rest: seq<Mark>)
    ensures CombineAll(first, rest) == Verdict({first} + SeenIn(rest))
    decreases |rest|
  {
    if rest == [] {
      assert SeenIn(rest) == {};
    } else {
      var c := Combine(first, rest[0]);
      assert SeenIn(rest) == {rest[0]} + SeenIn(rest[1..]);
      if c != ILLEGAL {
        CombineAllIsVerdict(c, rest[1..]);
      }
    }
  }

  /** One more mark: the running combination stays the verdict of the marks seen so far. */
  lemma VerdictStep(seen: set<Mark>, m: Mark)
    requires seen != {} && Verdict(seen + {m}) != ILLEGAL
    ensures Verdict(seen) != ILLEGAL && Combine(Verdict(seen), m) == Verdict(seen + {m})
  {
  }
}
