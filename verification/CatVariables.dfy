/** Lists of variables: what a read prints, a write takes back. */
module CatVariables {
  import opened Bytes
  import opened CatNumbers
  import opened CatBuffers

  datatype Kind = IntDec | UintDec | NumHex

  /** What a variable holds: a number of 1, 2 or 4 bytes, a buffer, or a string in a buffer. */
  datatype Var = Number(kind: Kind, size: nat, val: int) | HexBuf(data: seq<byte>) | Str(data: seq<byte>)
  {
    predicate Ok() {
      match this
      case Number(kind, size, val) => InRange(kind, size, val)
      case HexBuf(data) => data != []
      case Str(data) => 0 in data
    }

    /** Another variable of the same type and size. */
    predicate Like(v: Var) {
      match this
      case Number(kind, size, _) => v.Number? && v.kind == kind && v.size == size
      case HexBuf(data) => v.HexBuf? && |v.data| == |data|
      case Str(data) => v.Str? && |v.data| == |data|
    }

    /** The same value: for a string, the same characters up to the terminator. */
    predicate Same(v: Var) {
      match this
      case Number(_, _, val) => v.Number? && v.val == val
      case HexBuf(data) => v.HexBuf? && v.data == data
      case Str(data) => v.Str? && CString(v.data) == CString(data)
    }
  }

  datatype Access = ReadWrite | ReadOnly | WriteOnly

  datatype Variable = Variable(access: Access, content: Var)

  /** What is printed for a write-only variable: 0, zeros or an empty string. */
  function Blank(v: Var): Var {
    match v
    case Number(kind, size, _) => Number(kind, size, 0)
    case HexBuf(data) => HexBuf(seq(|data|, _ => 0))
    case Str(data) => Str(seq(|data|, _ => 0))
  }

  function Shown(x: Variable): Var {
    if x.access.WriteOnly? then Blank(x.content) else x.content
  }

  lemma BlankOk(v: Var)
    requires v.Ok()
    ensures Blank(v).Ok() && Blank(v).Like(v) && v.Like(Blank(v))
  {
    match v
    case Str(data) => assert Blank(v).data[0] == 0;
    case _ =>
  }

  function Bits(size: nat): int {
    if size == 1 then 0x100 else if size == 2 then 0x1_0000 else 0x1_0000_0000
  }

  predicate InRange(kind: Kind, size: nat, val: int) {
    && (size == 1 || size == 2 || size == 4)
    && if kind.IntDec? then -Bits(size) / 2 <= val < Bits(size) / 2 else 0 <= val < Bits(size)
  }

  /** The ranges of the C integer types. */
  lemma RangeIs(kind: Kind, size: nat, val: int)
    ensures InRange(kind, size, val) <==>
              if kind.IntDec? then
                || (size == 1 && -0x80 <= val <= 0x7f) || (size == 2 && -0x8000 <= val <= 0x7fff)
                || (size == 4 && -0x8000_0000 <= val <= 0x7fff_ffff)
              else
                || (size == 1 && 0 <= val <= 0xff) || (size == 2 && 0 <= val <= 0xffff) || (size == 4 && 0 <= val <= 0xffff_ffff)
  {
  }

  /** The characters before the terminator. */
  function CString(data: seq<byte>): (s: seq<byte>)
    ensures 0 !in s && |s| <= |data| && s == data[..|s|] && (0 in data ==> |s| < |data| && data[|s|] == 0)
  {
    if data == [] || data[0] == 0 then [] else [data[0]] + CString(data[1..])
  }

  lemma {:induction false} CStringOf(t: seq<byte>, rest: seq<byte>)
    requires 0 !in t
    ensures CString(t + [0] + rest) == t
  {
    if t != [] {
      assert (t + [0] + rest)[1..] == t[1..] + [0] + rest;
      assert forall x :: x in t[1..] ==> x in t;
      CStringOf(t[1..], rest);
    }
  }

  /** "%u" */
  function Dec(n: nat): (s: seq<byte>)
    ensures s != [] && forall i :: 0 <= i < |s| ==> IsDec(s[i])
  {
    if n < 10 then [48 + n] else Dec(n / 10) + [48 + n % 10]
  }

  function HexChar(d: nat): (c: byte)
    requires d < 16
    ensures IsHex(c) && Upper(c) == c && HexValue(c) == d
  {
    if d < 10 then 48 + d else 55 + d
  }

  /** "%0*X" for a number that fits. */
  function Hex(n: nat, width: nat): (s: seq<byte>)
    ensures |s| == width && forall i :: 0 <= i < |s| ==> IsHex(Upper(s[i]))
  {
    if width == 0 then [] else Hex(n / 16, width - 1) + [HexChar(n % 16)]
  }

  function Escape(c: byte): seq<byte> {
    if c == BACKSLASH then [BACKSLASH, BACKSLASH] else if c == QUOTE then [BACKSLASH, QUOTE]
    else if c == NEWLINE then [BACKSLASH, SMALL_N] else [c]
  }

  function EscapeAll(t: seq<byte>): seq<byte> {
    if t == [] then [] else Escape(t[0]) + EscapeAll(t[1..])
  }

  /** An octet as two hexadecimal digits. */
  function Pair(b: byte): (s: seq<byte>)
    ensures |s| == 2
  {
    [HexChar(b / 16), HexChar(b % 16)]
  }

  function HexAll(data: seq<byte>): (s: seq<byte>)
    ensures |s| == 2 * |data|
  {
    if data == [] then [] else HexAll(data[..|data| - 1]) + Pair(data[|data| - 1])
  }

  /** What a variable is printed as. */
  function Printed(v: Var): seq<byte> {
    match v
    case Number(kind, size, val) => PrintedNumber(kind, size, val)
    case HexBuf(data) => HexAll(data)
    case Str(data) => Quoted(CString(data))
  }

  function PrintedNumber(kind: Kind, size: nat, val: int): seq<byte> {
    match kind
    case IntDec => if val < 0 then [MINUS] + Dec(-val) else Dec(val)
    case UintDec => Dec(Max(val, 0))
    case NumHex => [ZERO, SMALL_X] + Hex(Max(val, 0), 2 * size)
  }

  function Quoted(t: seq<byte>): seq<byte> {
    [QUOTE] + EscapeAll(t) + [QUOTE]
  }

  /** Text w stands at position i of s. */
  predicate StandsAt(s: seq<byte>, i: nat, w: seq<byte>) {
    i + |w| <= |s| && forall j :: 0 <= j < |w| ==> w[j] == s[i + j]
  }

  lemma StandsParts(s: seq<byte>, i: nat, a: seq<byte>, b: seq<byte>)
    ensures StandsAt(s, i, a + b) <==> StandsAt(s, i, a) && StandsAt(s, i + |a|, b)
  {
    var w := a + b;
    if StandsAt(s, i, w) {
      forall j | 0 <= j < |a| ensures a[j] == s[i + j] {
        assert w[j] == a[j];
      }
      forall j | 0 <= j < |b| ensures b[j] == s[i + |a| + j] {
        assert w[|a| + j] == b[j];
      }
    } else if StandsAt(s, i, a) && StandsAt(s, i + |a|, b) {
      forall j | 0 <= j < |w| ensures w[j] == s[i + j] {
        assert w[j] == if j < |a| then a[j] else b[j - |a|];
      }
    }
  }

  lemma StandsIndex(s: seq<byte>, i: nat, w: seq<byte>, j: nat)
    requires StandsAt(s, i, w) && j < |w|
    ensures s[i + j] == w[j]
  {
  }

  lemma {:induction false} DecEndIs(s: seq<byte>, i: nat, e: nat)
    requires i <= e < |s| && !IsDec(s[e]) && forall j :: i <= j < e ==> IsDec(s[j])
    ensures DecEnd(s, i) == e
    decreases e - i
  {
    if i < e {
      DecEndIs(s, i + 1, e);
    }
  }

  lemma {:induction false} HexEndIs(s: seq<byte>, i: nat, e: nat)
    requires i <= e < |s| && !IsHex(Upper(s[e])) && forall j :: i <= j < e ==> IsHex(Upper(s[j]))
    ensures HexEnd(s, i) == e
    decreases e - i
  {
    if i < e {
      HexEndIs(s, i + 1, e);
    }
  }

  /** Decimal digits give back the number they were made from. */
  lemma {:induction false} DecValue(s: seq<byte>, i: nat, n: nat)
    requires StandsAt(s, i, Dec(n))
    ensures forall j :: i <= j < i + |Dec(n)| ==> IsDec(s[j])
    ensures DecVal(s, i, i + |Dec(n)|) == n
  {
    var w := Dec(n);
    forall j | i <= j < i + |w| ensures IsDec(s[j]) {
      StandsIndex(s, i, w, j - i);
    }
    StandsIndex(s, i, w, |w| - 1);
    if n >= 10 {
      StandsParts(s, i, Dec(n / 10), [48 + n % 10]);
      DecValue(s, i, n / 10);
    } else {
      assert DecVal(s, i, i) == 0;
    }
  }

  lemma {:induction false} HexValueBack(s: seq<byte>, i: nat, n: nat, width: nat)
    requires StandsAt(s, i, Hex(n, width)) && n < Power16(width)
    ensures forall j :: i <= j < i + width ==> IsHex(Upper(s[j]))
    ensures HexVal(s, i, i + width) == n
  {
    var w := Hex(n, width);
    forall j | i <= j < i + width ensures IsHex(Upper(s[j])) {
      StandsIndex(s, i, w, j - i);
    }
    if width > 0 {
      StandsIndex(s, i, w, width - 1);
      StandsParts(s, i, Hex(n / 16, width - 1), [HexChar(n % 16)]);
      HexValueBack(s, i, n / 16, width - 1);
    }
  }

  function Power16(width: nat): nat {
    if width == 0 then 1 else 16 * Power16(width - 1)
  }

  lemma {:induction false} OctetsBack(s: seq<byte>, i: nat, data: seq<byte>)
    requires StandsAt(s, i, HexAll(data))
    ensures forall j :: i <= j < i + 2 * |data| ==> IsHex(Upper(s[j]))
    ensures Octets(s, i, |data|) == data
  {
    if data != [] {
      var n := |data| - 1;
      StandsParts(s, i, HexAll(data[..n]), Pair(data[n]));
      OctetsBack(s, i, data[..n]);
      var w := Pair(data[n]);
      StandsIndex(s, i + 2 * n, w, 0);
      StandsIndex(s, i + 2 * n, w, 1);
      assert data == data[..n] + [data[n]];
    }
  }

  lemma TwoDigits(b: byte)
    ensures Hex(b, 2) == Pair(b)
  {
    assert Hex(b / 16 / 16, 0) == [];
    assert Hex(b / 16, 1) == [HexChar(b / 16 % 16)];
  }

  /** A string literal gives back the string it was made from, quotes, backslashes and newlines included. */
  lemma {:induction false} ScanBack(s: seq<byte>, i: nat, t: seq<byte>)
    requires 0 !in t && StandsAt(s, i, EscapeAll(t) + [QUOTE])
    ensures Scan(s, i) == Text(t, i + |EscapeAll(t)| + 1)
    decreases |t|
  {
    if t == [] {
      ScanEnd(s, i);
    } else {
      EscapedParts(s, i, t);
      assert 0 !in t[1..] by {
        assert forall x :: x in t[1..] ==> x in t;
      }
      ScanBack(s, i + |Escape(t[0])|, t[1..]);
      ScanFirst(s, i, t, i + |EscapeAll(t)| + 1);
    }
  }

  lemma EscapedParts(s: seq<byte>, i: nat, t: seq<byte>)
    requires t != [] && StandsAt(s, i, EscapeAll(t) + [QUOTE])
    ensures StandsAt(s, i, Escape(t[0])) && StandsAt(s, i + |Escape(t[0])|, EscapeAll(t[1..]) + [QUOTE])
    ensures |EscapeAll(t)| == |Escape(t[0])| + |EscapeAll(t[1..])|
  {
    EscapeFirst(t);
    StandsParts(s, i, Escape(t[0]), EscapeAll(t[1..]) + [QUOTE]);
  }

  lemma ScanFirst(s: seq<byte>, i: nat, t: seq<byte>, end: nat)
    requires t != [] && t[0] != 0 && StandsAt(s, i, Escape(t[0])) && Scan(s, i + |Escape(t[0])|) == Text(t[1..], end)
    ensures Scan(s, i) == Text(t, end)
  {
    ScanStep(s, i, t[0]);
    assert [t[0]] + t[1..] == t;
  }

  lemma ScanEnd(s: seq<byte>, i: nat)
    requires StandsAt(s, i, EscapeAll([]) + [QUOTE])
    ensures Scan(s, i) == Text([], i + |EscapeAll([])| + 1)
  {
    var w := EscapeAll([]) + [QUOTE];
    assert w[0] == QUOTE;
  }

  lemma EscapeFirst(t: seq<byte>)
    requires t != []
    ensures EscapeAll(t) + [QUOTE] == Escape(t[0]) + (EscapeAll(t[1..]) + [QUOTE])
    ensures |EscapeAll(t)| == |Escape(t[0])| + |EscapeAll(t[1..])|
  {
  }

  /** One character, as it was escaped. */
  lemma {:induction false} ScanStep(s: seq<byte>, i: nat, c: byte)
    requires c != 0 && StandsAt(s, i, Escape(c))
    ensures Scan(s, i) == Prepend([c], Scan(s, i + |Escape(c)|))
  {
    StandsIndex(s, i, Escape(c), 0);
    StandsIndex(s, i, Escape(c), |Escape(c)| - 1);
  }

  /** What reading an argument into variable t gives. */
  function VarAt(t: Var, s: seq<byte>, i: nat): (r: Parsed<Var>)
    requires Terminated(s) && i < |s|
    ensures r.Good? ==> i < r.next <= |s| && (r.more ==> r.next < |s|)
  {
    match t
    case Number(kind, size, _) => NumberAt(kind, size, s, i)
    case HexBuf(data) => BufferAt(data, s, i)
    case Str(data) => StrAt(data, s, i)
  }

  function NumberAt(kind: Kind, size: nat, s: seq<byte>, i: nat): (r: Parsed<Var>)
    requires Terminated(s) && i < |s|
    ensures r.Good? ==> i < r.next <= |s| && (r.more ==> r.next < |s|)
  {
    var r: Parsed<int> :=
      if kind.IntDec? then IntAt(s, i) else Signed(if kind.UintDec? then UintAt(s, i) else HexAt(s, i));
    if r.Good? && InRange(kind, size, r.val) then Good(Number(kind, size, r.val), r.more, r.next) else Bad
  }

  function BufferAt(data: seq<byte>, s: seq<byte>, i: nat): (r: Parsed<Var>)
    requires Terminated(s) && i < |s|
    ensures r.Good? ==> i < r.next <= |s| && (r.more ==> r.next < |s|)
  {
    var r := HexBufAt(s, i, |data|);
    if r.Good? then Good(HexBuf(r.val + data[|r.val|..]), r.more, r.next) else Bad
  }

  function StrAt(data: seq<byte>, s: seq<byte>, i: nat): (r: Parsed<Var>)
    requires Terminated(s) && i < |s|
    ensures r.Good? ==> i < r.next <= |s| && (r.more ==> r.next < |s|)
  {
    var r := StringAt(s, i, |data|);
    if r.Good? then ScanAhead(s, i + 1); Good(Str(r.val + [0] + data[|r.val| + 1..]), r.more, r.next) else Bad
  }

  function Signed(r: Parsed<nat>): Parsed<int> {
    if r.Good? then Good(r.val, r.more, r.next) else Bad
  }

  lemma {:induction false} ScanAhead(s: seq<byte>, i: nat)
    ensures Scan(s, i).Text? ==> i < Scan(s, i).end <= |s|
    decreases |s| - i
  {
    if i < |s| && s[i] != 0 && s[i] != QUOTE {
      if s[i] == BACKSLASH && i + 1 < |s| {
        ScanAhead(s, i + 2);
      } else if s[i] != BACKSLASH {
        ScanAhead(s, i + 1);
      }
    }
  }

  /** Reading an argument into a read-only variable: the value is not looked at, and nothing changes. */
  function SkipAt(t: Var, s: seq<byte>, i: nat): (r: Parsed<Var>)
    requires Terminated(s) && i < |s|
    ensures r.Good? ==> i < r.next <= |s| && (r.more ==> r.next < |s|) && r.val == t
  {
    match t
    case Number(kind, _, _) =>
      var r: Parsed<int> := if kind.IntDec? then IntAt(s, i) else Signed(if kind.UintDec? then UintAt(s, i) else HexAt(s, i));
      if r.Good? then Good(t, r.more, r.next) else Bad
    case _ =>
      var r := VarAt(t, s, i);
      if r.Good? then Good(t, r.more, r.next) else Bad
  }

  lemma SkipsWhat(t: Var, s: seq<byte>, i: nat)
    requires Terminated(s) && i < |s| && VarAt(t, s, i).Good?
    ensures SkipAt(t, s, i) == Good(t, VarAt(t, s, i).more, VarAt(t, s, i).next)
  {
  }

  /** What reading an argument into a variable gives. */
  function ArgAt(t: Variable, s: seq<byte>, i: nat): (r: Parsed<Variable>)
    requires Terminated(s) && i < |s|
    ensures r.Good? ==> i < r.next <= |s| && (r.more ==> r.next < |s|) && r.val.access == t.access
  {
    var r := if t.access.ReadOnly? then SkipAt(t.content, s, i) else VarAt(t.content, s, i);
    if r.Good? then Good(t.(content := r.val), r.more, r.next) else Bad
  }

  /** One argument of parse_write_args. */
  method ParseVar(t: Variable, s: seq<byte>, pos: nat) returns (r: Parsed<Variable>)
    requires Terminated(s) && pos < |s|
    ensures r == ArgAt(t, s, pos)
  {
    r := Bad;
    match t.content
    case Number(kind, size, _) =>
      if kind.IntDec? {
        var n := ParseInt(s, pos);
        if n.Good? && (t.access.ReadOnly? || InRange(kind, size, n.val)) {
          r := Good(Stored(t, Number(kind, size, n.val)), n.more, n.next);
        }
      } else {
        var n: Parsed<nat>;
        if kind.UintDec? {
          n := ParseUint(s, pos);
        } else {
          n := ParseHex(s, pos);
        }
        if n.Good? && (t.access.ReadOnly? || InRange(kind, size, n.val)) {
          r := Good(Stored(t, Number(kind, size, n.val)), n.more, n.next);
        }
      }
    case HexBuf(data) =>
      var n, data' := ParseHexBuf(s, pos, data);
      if n.Good? {
        r := Good(Stored(t, HexBuf(data')), n.more, n.next);
      }
    case Str(data) =>
      var n, data' := ParseString(s, pos, data);
      if n.Good? {
        r := Good(Stored(t, Str(data')), n.more, n.next);
      }
  }

  function Stored(t: Variable, v: Var): Variable {
    if t.access.ReadOnly? then t else t.(content := v)
  }

  datatype Outcome = Failed | Accepted(vars: seq<Variable>, count: nat, next: nat)

  /** What reading a list of arguments into the variables from k on gives. */
  function ListAt(ts: seq<Variable>, k: nat, s: seq<byte>, i: nat, needAll: bool): Outcome
    requires Terminated(s) && i < |s| && k < |ts|
    decreases |ts| - k
  {
    match ArgAt(ts[k], s, i)
    case Bad => Failed
    case Good(v, more, next) =>
      if k + 1 < |ts| && more then ListAt(ts[k := v], k + 1, s, next, needAll)
      else if more || (needAll && k + 1 != |ts|) then Failed
      else Accepted(ts[k := v], k + 1, next)
  }

  /** parse_write_args over the whole list. */
  method ParseWriteArgs(vars: seq<Variable>, s: seq<byte>, needAll: bool) returns (r: Outcome)
    requires Terminated(s) && vars != []
    ensures r == ListAt(vars, 0, s, 0, needAll)
  {
    var ts, index: nat, pos: nat := vars, 0, 0;
    while true
      invariant index < |ts| == |vars| && pos < |s| && ListAt(ts, index, s, pos, needAll) == ListAt(vars, 0, s, 0, needAll)
      decreases |vars| - index
    {
      var v := ParseVar(ts[index], s, pos);
      if v.Bad? {
        return Failed;
      }
      ts, pos, index := ts[index := v.val], v.next, index + 1;
      if index < |ts| && v.more {
        continue;
      }
      if v.more || (needAll && index != |ts|) {
        return Failed;
      }
      return Accepted(ts, index, pos);
    }
  }
}
