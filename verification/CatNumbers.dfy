/** Numbers as the AT command engine writes and reads them. */
module CatNumbers {
  import opened Bytes

  const COMMA: byte := 44
  const QUOTE: byte := 34
  const BACKSLASH: byte := 92
  const NEWLINE: byte := 10
  const SMALL_N: byte := 110
  const MINUS: byte := 45
  const PLUS: byte := 43
  const ZERO: byte := 48
  const BIG_X: byte := 88
  const SMALL_X: byte := 120
  const WORD := 0x1_0000_0000_0000_0000

  /** What reading an argument gives: its value, whether a comma follows, and where reading goes on. */
  datatype Parsed<T> = Bad | Good(val: T, more: bool, next: nat)

  predicate IsDec(c: byte) {
    48 <= c <= 57
  }

  function Upper(c: byte): (u: byte)
    ensures !(97 <= u <= 122) && (u != c ==> 65 <= u <= 90 && c == u + 32)
  {
    if 97 <= c <= 122 then c - 32 else c
  }

  predicate IsHex(c: byte) {
    IsDec(c) || 65 <= c <= 70
  }

  function HexValue(c: byte): (v: nat)
    requires IsHex(c)
    ensures v < 16
  {
    if IsDec(c) then c - 48 else c - 55
  }

  function DecDigit(c: byte): (v: nat)
    requires IsDec(c)
    ensures v < 10
  {
    c as int - 48
  }

  predicate IsDelim(c: byte) {
    c == 0 || c == COMMA
  }

  /** A text that ends with its terminator. */
  predicate Terminated(s: seq<byte>) {
    s != [] && s[|s| - 1] == 0
  }

  /** The end of the run of decimal digits that starts at i. */
  function DecEnd(s: seq<byte>, i: nat): (e: nat)
    requires i <= |s|
    ensures i <= e <= |s| && (e < |s| ==> !IsDec(s[e])) && (Terminated(s) && i < |s| ==> e < |s|)
    ensures forall j :: i <= j < e ==> IsDec(s[j])
    decreases |s| - i
  {
    if i < |s| && IsDec(s[i]) then DecEnd(s, i + 1) else i
  }

  /** The end of the run of hexadecimal digits, in either case, that starts at i. */
  function HexEnd(s: seq<byte>, i: nat): (e: nat)
    requires i <= |s|
    ensures i <= e <= |s| && (e < |s| ==> !IsHex(Upper(s[e]))) && (Terminated(s) && i < |s| ==> e < |s|)
    ensures forall j :: i <= j < e ==> IsHex(Upper(s[j]))
    decreases |s| - i
  {
    if i < |s| && IsHex(Upper(s[i])) then HexEnd(s, i + 1) else i
  }

  /** Value of the digits from i to e. */
  function DecVal(s: seq<byte>, i: nat, e: nat): nat
    requires i <= e <= |s| && forall j :: i <= j < e ==> IsDec(s[j])
  {
    if i == e then 0 else DecVal(s, i, e - 1) * 10 + DecDigit(s[e - 1])
  }

  function HexVal(s: seq<byte>, i: nat, e: nat): nat
    requires i <= e <= |s| && forall j :: i <= j < e ==> IsHex(Upper(s[j]))
  {
    if i == e then 0 else HexVal(s, i, e - 1) * 16 + HexValue(Upper(s[e - 1]))
  }

  /** An unsigned decimal number at i: digits, then a comma or the end. */
  function UintAt(s: seq<byte>, i: nat): Parsed<nat>
    requires Terminated(s) && i < |s|
  {
    var e := DecEnd(s, i);
    if i < e && IsDelim(s[e]) then Good(DecVal(s, i, e) % WORD, s[e] == COMMA, e + 1) else Bad
  }

  function IsSign(c: byte): bool {
    c == MINUS || c == PLUS
  }

  /** A signed one: perhaps a sign first. */
  function IntAt(s: seq<byte>, i: nat): Parsed<int>
    requires Terminated(s) && i < |s|
  {
    var d := if IsSign(s[i]) then i + 1 else i;
    var e := DecEnd(s, d);
    if d < e < |s| && IsDelim(s[e]) then Good((if s[i] == MINUS then -1 else 1) * DecVal(s, d, e), s[e] == COMMA, e + 1) else Bad
  }

  /** A hexadecimal one: 0x, then digits. */
  function HexAt(s: seq<byte>, i: nat): Parsed<nat>
    requires Terminated(s) && i < |s|
  {
    if i + 2 < |s| && s[i] == ZERO && Upper(s[i + 1]) == BIG_X then
      var e := HexEnd(s, i + 2);
      if i + 2 < e && IsDelim(s[e]) then Good(HexVal(s, i + 2, e) % WORD, s[e] == COMMA, e + 1) else Bad
    else Bad
  }

  lemma ModStep(v: nat, k: nat, d: nat)
    requires k == 10 || k == 16
    ensures (v % WORD * k + d) % WORD == (v * k + d) % WORD
  {
    var q := v / WORD;
    assert v == q * WORD + v % WORD;
    SameWord(v % WORD * k + d, v * k + d, q * k);
  }

  lemma SameWord(x: int, y: int, q: int)
    requires y == x + WORD * q
    ensures x % WORD == y % WORD
  {
  }

  /** parse_uint_decimal, in 64-bit arithmetic. */
  method ParseUint(s: seq<byte>, pos: nat) returns (r: Parsed<nat>)
    requires Terminated(s) && pos < |s|
    ensures r == UintAt(s, pos)
  {
    var i: nat, val: nat, ok := pos, 0, false;
    while true
      invariant pos <= i < |s| && DecEnd(s, pos) == DecEnd(s, i) && (ok <==> i > pos)
      invariant forall j :: pos <= j < i ==> IsDec(s[j])
      invariant val == DecVal(s, pos, i) % WORD
      decreases |s| - i
    {
      var ch := s[i];
      if ok && IsDelim(ch) {
        return Good(val, ch == COMMA, i + 1);
      }
      if !IsDec(ch) {
        return Bad;
      }
      ModStep(DecVal(s, pos, i), 10, DecDigit(ch));
      ok, val, i := true, (val * 10 + DecDigit(ch)) % WORD, i + 1;
    }
  }

  /** parse_int_decimal. */
  method ParseInt(s: seq<byte>, pos: nat) returns (r: Parsed<int>)
    requires Terminated(s) && pos < |s|
    ensures r == IntAt(s, pos)
  {
    var i: nat, val: int, sign: int, ok := pos, 0, 0, false;
    ghost var d := if IsSign(s[pos]) then pos + 1 else pos;
    while true
      invariant pos <= i < |s| && (sign == 0 <==> i == pos) && (ok <==> i > d)
      invariant i > pos ==> i >= d && DecEnd(s, d) == DecEnd(s, i) && sign == (if s[pos] == MINUS then -1 else 1)
      invariant i <= d ==> val == 0
      invariant i >= d ==> (forall j :: d <= j < i ==> IsDec(s[j])) && val == DecVal(s, d, i)
      decreases |s| - i
    {
      var ch := s[i];
      if ok && IsDelim(ch) {
        return Good(sign * val, ch == COMMA, i + 1);
      }
      if sign == 0 {
        if ch == MINUS {
          sign := -1;
        } else if ch == PLUS {
          sign := 1;
        } else if IsDec(ch) {
          sign, val, ok := 1, DecDigit(ch), true;
        } else {
          return Bad;
        }
      } else if IsDec(ch) {
        ok, val := true, val * 10 + DecDigit(ch);
      } else {
        return Bad;
      }
      i := i + 1;
    }
  }

  /** The prefix, as far as it has been read, and then the digits. */
  ghost predicate HexSoFar(s: seq<byte>, pos: nat, i: nat, state: nat, val: nat)
    requires Terminated(s) && pos < |s|
  {
    && pos <= i < |s| && state <= 3 && (if state < 3 then i == pos + state && val == 0 else i > pos + 2)
    && (state > 0 ==> s[pos] == ZERO)
    && (state > 1 ==> Upper(s[pos + 1]) == BIG_X && HexEnd(s, pos + 2) == HexEnd(s, i))
    && (state > 1 ==> (forall j :: pos + 2 <= j < i ==> IsHex(Upper(s[j]))) && val == HexVal(s, pos + 2, i) % WORD)
  }

  lemma HexDigit(s: seq<byte>, pos: nat, i: nat, state: nat, val: nat)
    requires Terminated(s) && pos < |s| && HexSoFar(s, pos, i, state, val) && state > 1 && IsHex(Upper(s[i]))
    ensures HexSoFar(s, pos, i + 1, 3, (val * 16 + HexValue(Upper(s[i]))) % WORD)
  {
    ModStep(HexVal(s, pos + 2, i), 16, HexValue(Upper(s[i])));
  }

  lemma HexOver(s: seq<byte>, pos: nat, i: nat, state: nat, val: nat)
    requires Terminated(s) && pos < |s| && HexSoFar(s, pos, i, state, val)
    ensures state == 3 && IsDelim(Upper(s[i])) ==> HexAt(s, pos) == Good(val, s[i] == COMMA, i + 1)
    ensures state > 1 && !IsHex(Upper(s[i])) && !(state == 3 && IsDelim(Upper(s[i]))) ==> HexAt(s, pos).Bad?
  {
    if state > 1 && !IsHex(Upper(s[i])) {
      assert HexEnd(s, i) == i;
    }
  }

  /** parse_num_hexadecimal, in 64-bit arithmetic. */
  method ParseHex(s: seq<byte>, pos: nat) returns (r: Parsed<nat>)
    requires Terminated(s) && pos < |s|
    ensures r == HexAt(s, pos)
  {
    var i: nat, val: nat, state: nat := pos, 0, 0;
    while true
      invariant HexSoFar(s, pos, i, state, val)
      decreases |s| - i
    {
      HexOver(s, pos, i, state, val);
      var ch := Upper(s[i]);
      if state >= 3 && IsDelim(ch) {
        return Good(val, ch == COMMA, i + 1);
      }
      if state == 0 {
        if ch != ZERO {
          return Bad;
        }
        state := 1;
      } else if state == 1 {
        if ch != BIG_X {
          return Bad;
        }
        state := 2;
      } else if IsHex(ch) {
        HexDigit(s, pos, i, state, val);
        state, val := 3, (val * 16 + HexValue(ch)) % WORD;
      } else {
        return Bad;
      }
      i := i + 1;
    }
  }
}
