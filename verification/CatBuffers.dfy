/** Byte buffers and strings as the AT command engine writes and reads them. */
module CatBuffers {
  import opened Bytes
  import opened CatNumbers

  /** The n bytes that the hexadecimal digits from i on stand for, two digits each. */
  function Octets(s: seq<byte>, i: nat, n: nat): (b: seq<byte>)
    requires i + 2 * n <= |s| && forall j :: i <= j < i + 2 * n ==> IsHex(Upper(s[j]))
    ensures |b| == n
  {
    if n == 0 then [] else Octets(s, i, n - 1) + [Octet(s[i + 2 * n - 2], s[i + 2 * n - 1])]
  }

  function Octet(a: byte, b: byte): byte
    requires IsHex(Upper(a)) && IsHex(Upper(b))
  {
    HexValue(Upper(a)) * 16 + HexValue(Upper(b))
  }

  /** An 8-bit variable takes in four more bits. */
  function Shifted(octet: nat, v: nat): (r: nat)
    requires v < 16
    ensures octet < 16 ==> r == octet * 16 + v
  {
    octet * 16 % 256 + v
  }

  /** A buffer of at most size bytes at i: an even number of digits. */
  function HexBufAt(s: seq<byte>, i: nat, size: nat): Parsed<seq<byte>>
    requires Terminated(s) && i < |s|
  {
    var e := HexEnd(s, i);
    var n := (e - i) / 2;
    if 0 < n <= size && e == i + 2 * n && IsDelim(s[e]) then Good(Octets(s, i, n), s[e] == COMMA, e + 1) else Bad
  }

  /** The digits end at i. */
  lemma HexBufEnds(s: seq<byte>, pos: nat, i: nat, size: nat, state: nat, limit: nat)
    requires Terminated(s) && pos <= i < |s| && HexEnd(s, pos) == HexEnd(s, i) && !IsHex(Upper(s[i]))
    requires state <= 1 && i - pos == 2 * size + state && size <= limit
    ensures forall j :: pos <= j < i ==> IsHex(Upper(s[j]))
    ensures HexBufAt(s, pos, limit) ==
            if state == 0 && 0 < size && IsDelim(s[i]) then Good(Octets(s, pos, size), s[i] == COMMA, i + 1) else Bad
  {
    assert HexEnd(s, i) == i;
    assert (i - pos) / 2 == size;
  }

  lemma HexBufLong(s: seq<byte>, pos: nat, limit: nat)
    requires Terminated(s) && pos < |s| && HexEnd(s, pos) >= pos + 2 * limit + 2
    ensures HexBufAt(s, pos, limit).Bad?
  {
  }

  /** Two digits for each octet, and one more in state 1. */
  ghost predicate OctetsSoFar(s: seq<byte>, pos: nat, i: nat, size: nat, state: nat)
    requires Terminated(s) && pos < |s|
  {
    && pos <= i < |s| && HexEnd(s, pos) == HexEnd(s, i) && state <= 1 && i - pos == 2 * size + state
    && forall j :: pos <= j < i ==> IsHex(Upper(s[j]))
  }

  /** What one more character means. */
  lemma HexBufStep(s: seq<byte>, pos: nat, i: nat, size: nat, state: nat, limit: nat)
    requires Terminated(s) && pos < |s| && OctetsSoFar(s, pos, i, size, state) && size <= limit
    ensures !IsHex(Upper(s[i])) ==>
              HexBufAt(s, pos, limit) ==
                if state == 0 && 0 < size && IsDelim(s[i]) then Good(Octets(s, pos, size), s[i] == COMMA, i + 1) else Bad
    ensures IsHex(Upper(s[i])) ==> OctetsSoFar(s, pos, i + 1, size + state, 1 - state)
    ensures IsHex(Upper(s[i])) && state == 1 && size >= limit ==> HexBufAt(s, pos, limit).Bad?
    ensures IsHex(Upper(s[i])) && state == 1 ==> Octets(s, pos, size + 1) == Octets(s, pos, size) + [Octet(s[i - 1], s[i])]
  {
    if !IsHex(Upper(s[i])) {
      HexBufEnds(s, pos, i, size, state, limit);
    } else if state == 1 && size >= limit {
      HexBufLong(s, pos, limit);
    }
  }

  /** The front of data has been written over. */
  predicate Overwritten(data: seq<byte>, got: seq<byte>, data': seq<byte>) {
    |got| <= |data| && data' == got + data[|got|..]
  }

  lemma OverwriteMore(data: seq<byte>, got: seq<byte>, data': seq<byte>, c: byte)
    requires Overwritten(data, got, data') && |got| < |data|
    ensures Overwritten(data, got + [c], data'[|got| := c])
  {
  }

  /** parse_buffer_hexadecimal, writing over data. */
  method ParseHexBuf(s: seq<byte>, pos: nat, data: seq<byte>) returns (r: Parsed<nat>, data': seq<byte>)
    requires Terminated(s) && pos < |s|
    ensures |data'| == |data|
    ensures match HexBufAt(s, pos, |data|)
            case Bad => r.Bad?
            case Good(b, more, next) => r == Good(|b|, more, next) && data' == b + data[|b|..]
  {
    var i: nat, octet: nat, state: nat, size: nat := pos, 0, 0, 0;
    data' := data;
    ghost var got: seq<byte> := [];
    while true
      invariant OctetsSoFar(s, pos, i, size, state)
      invariant octet == (if state == 0 then 0 else HexValue(Upper(s[i - 1])))
      invariant got == Octets(s, pos, size) && |got| == size && Overwritten(data, got, data')
      decreases |s| - i
    {
      var ch := Upper(s[i]);
      HexBufStep(s, pos, i, size, state, |data|);
      if size > 0 && state == 0 && IsDelim(ch) {
        r := Good(size, ch == COMMA, i + 1);
        return;
      }
      if !IsHex(ch) {
        r := Bad;
        return;
      }
      octet := Shifted(octet, HexValue(ch));
      if state != 0 {
        assert octet == Octet(s[i - 1], s[i]);
        if size >= |data| {
          r := Bad;
          return;
        }
        OverwriteMore(data, got, data', octet);
        got := got + [octet];
        data' := data'[size := octet];
        size, octet := size + 1, 0;
      }
      state, i := 1 - state, i + 1;
    }
  }

  /** What a string literal says, from the character after its opening quote on. */
  datatype Scanned = Broken | Text(content: seq<byte>, end: nat)

  predicate IsEscape(c: byte) {
    c == BACKSLASH || c == QUOTE || c == SMALL_N
  }

  function Unescaped(c: byte): byte {
    if c == SMALL_N then NEWLINE else c
  }

  function Prepend(a: seq<byte>, r: Scanned): Scanned {
    if r.Broken? then Broken else Text(a + r.content, r.end)
  }

  function Scan(s: seq<byte>, i: nat): Scanned
    decreases |s| - i
  {
    if i >= |s| || s[i] == 0 then Broken
    else if s[i] == QUOTE then Text([], i + 1)
    else if s[i] == BACKSLASH then
      if i + 1 < |s| && IsEscape(s[i + 1]) then Prepend([Unescaped(s[i + 1])], Scan(s, i + 2)) else Broken
    else Prepend([s[i]], Scan(s, i + 1))
  }

  /** A string literal at i whose content and terminator fit size bytes. */
  function StringAt(s: seq<byte>, i: nat, size: nat): Parsed<seq<byte>>
    requires Terminated(s) && i < |s|
  {
    var r := if s[i] == QUOTE then Scan(s, i + 1) else Broken;
    if r.Text? && |r.content| < size && r.end < |s| && IsDelim(s[r.end]) then Good(r.content, s[r.end] == COMMA, r.end + 1) else Bad
  }

  lemma PrependTwice(a: seq<byte>, b: seq<byte>, r: Scanned)
    ensures Prepend(a, Prepend(b, r)) == Prepend(a + b, r)
  {
    if r.Text? {
      assert a + (b + r.content) == a + b + r.content;
    }
  }

  lemma PrependLong(a: seq<byte>, r: Scanned, size: nat)
    requires |a| > size
    ensures Prepend(a, r).Text? ==> |Prepend(a, r).content| > size
  {
  }

  /** parse_buffer_string, writing over data. */
  method ParseString(s: seq<byte>, pos: nat, data: seq<byte>) returns (r: Parsed<nat>, data': seq<byte>)
    requires Terminated(s) && pos < |s|
    ensures |data'| == |data|
    ensures match StringAt(s, pos, |data|)
            case Bad => r.Bad?
            case Good(t, more, next) => r == Good(|t|, more, next) && data' == t + [0] + data[|t| + 1..]
  {
    r, data' := Bad, data;
    if s[pos] != QUOTE {
      return;
    }
    var i: nat, state, size: nat := pos + 1, 1, 0;
    ghost var got: seq<byte> := [];
    assert Prepend([], Scan(s, i)) == Scan(s, i);
    while true
      invariant pos < i < |s| && 1 <= state <= 3 && |got| == size && Overwritten(data, got, data')
      invariant state == 1 ==> Scan(s, pos + 1) == Prepend(got, Scan(s, i))
      invariant state == 2 ==> s[i - 1] == BACKSLASH && Scan(s, pos + 1) == Prepend(got, Scan(s, i - 1))
      invariant state == 3 ==> Scan(s, pos + 1) == Text(got, i)
      decreases |s| - i
    {
      var ch := s[i];
      if state == 3 {
        if IsDelim(ch) && size < |data| {
          r := Good(size, ch == COMMA, i + 1);
          OverwriteMore(data, got, data', 0);
          data' := data'[size := 0];
        }
        return;
      }
      if state == 1 && ch == 0 {
        return;
      }
      if state == 1 && ch == BACKSLASH {
        state := 2;
      } else if state == 1 && ch == QUOTE {
        assert got + [] == got;
        state := 3;
      } else {
        if state == 2 && !IsEscape(ch) {
          return;
        }
        ghost var from := if state == 1 then i else i - 1;
        var c := if state == 2 then Unescaped(ch) else ch;
        PrependTwice(got, [c], Scan(s, i + 1));
        if size >= |data| {
          PrependLong(got + [c], Scan(s, i + 1), |data|);
          return;
        }
        OverwriteMore(data, got, data', c);
        data' := data'[size := c];
        got := got + [c];
        size, state := size + 1, 1;
      }
      i := i + 1;
    }
  }
}
