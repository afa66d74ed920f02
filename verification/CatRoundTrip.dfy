/** Printing a list of variables and reading it back. */
module CatRoundTrip {
  import opened Bytes
  import opened CatNumbers
  import opened CatBuffers
  import opened CatVariables

  /** Bounded printing: print_nstring_to_buf and print_format_num leave room for the terminator. */
  method Print(out: seq<byte>, w: seq<byte>, size: nat) returns (ok: bool, out': seq<byte>)
    ensures ok <==> |out| + |w| < size
    ensures out' == if ok then out + w else out
  {
    if |w| >= size - |out| {
      return false, out;
    }
    return true, out + w;
  }

  method FormatHexBuf(data: seq<byte>, out: seq<byte>, size: nat) returns (ok: bool, out': seq<byte>)
    requires data != []
    ensures ok <==> |out| + |HexAll(data)| < size
    ensures ok ==> out' == out + HexAll(data)
  {
    out' := out;
    for i := 0 to |data|
      invariant out' == out + HexAll(data[..i])
      invariant i > 0 ==> |out'| < size
    {
      assert data[..i + 1][..i] == data[..i];
      TwoDigits(data[i]);
      ok, out' := Print(out', Hex(data[i], 2), size);
      if !ok {
        return;
      }
    }
    assert data[..|data|] == data;
    ok := true;
  }

  /** What is printed and what is still to be printed of string t, from character i on, make up total. */
  predicate Rest(out: seq<byte>, t: seq<byte>, i: nat, total: seq<byte>) {
    i <= |t| && out + (EscapeAll(t[i..]) + [QUOTE]) == total
  }

  lemma {:induction false} RestStep(out: seq<byte>, t: seq<byte>, i: nat, total: seq<byte>)
    requires Rest(out, t, i, total)
    ensures i < |t| ==> Rest(out + Escape(t[i]), t, i + 1, total) && |out| + |Escape(t[i])| < |total|
    ensures i == |t| ==> out + [QUOTE] == total
  {
    if i < |t| {
      assert t[i..][1..] == t[i + 1..];
      assert out + (Escape(t[i]) + EscapeAll(t[i + 1..]) + [QUOTE]) == out + Escape(t[i]) + (EscapeAll(t[i + 1..]) + [QUOTE]);
    } else {
      assert t[i..] == [];
    }
  }

  lemma RestStart(out: seq<byte>, data: seq<byte>)
    ensures Rest(out + [QUOTE], CString(data), 0, out + Printed(Str(data)))
  {
    var t := CString(data);
    assert t[0..] == t;
    assert out + ([QUOTE] + EscapeAll(t) + [QUOTE]) == out + [QUOTE] + (EscapeAll(t) + [QUOTE]);
  }

  method FormatString(data: seq<byte>, out: seq<byte>, size: nat) returns (ok: bool, out': seq<byte>)
    ensures ok <==> |out| + |Printed(Str(data))| < size
    ensures ok ==> out' == out + Printed(Str(data))
  {
    ghost var t, total := CString(data), out + Printed(Str(data));
    RestStart(out, data);
    ok, out' := Print(out, [QUOTE], size);
    if !ok {
      return;
    }
    var i: nat := 0;
    while i < |data| && data[i] != 0
      invariant Rest(out', t, i, total)
      decreases |data| - i
    {
      CharAt(data, i);
      RestStep(out', t, i, total);
      ok, out' := Print(out', Escape(data[i]), size);
      if !ok {
        return;
      }
      i := i + 1;
    }
    CharAt(data, i);
    RestStep(out', t, i, total);
    ok, out' := Print(out', [QUOTE], size);
  }

  lemma {:induction false} CharAt(data: seq<byte>, i: nat)
    requires i <= |CString(data)|
    ensures i < |data| && data[i] != 0 ==> i < |CString(data)| && CString(data)[i] == data[i]
    ensures i == |data| || data[i] == 0 ==> i == |CString(data)|
  {
    if data != [] && data[0] != 0 && i > 0 {
      CharAt(data[1..], i - 1);
    }
  }

  /** One variable of format_read_args. */
  method FormatVar(x: Variable, out: seq<byte>, size: nat) returns (ok: bool, out': seq<byte>)
    requires x.content.Ok()
    ensures ok <==> |out| + |Printed(Shown(x))| < size
    ensures ok ==> out' == out + Printed(Shown(x))
  {
    BlankOk(x.content);
    var v := Shown(x);
    match v
    case Number(_, _, _) => ok, out' := Print(out, Printed(v), size);
    case HexBuf(data) => ok, out' := FormatHexBuf(data, out, size);
    case Str(data) => ok, out' := FormatString(data, out, size);
  }

  /** What each variable is printed as. */
  function Words(vs: seq<Variable>): (ws: seq<seq<byte>>)
    ensures |ws| == |vs|
  {
    seq(|vs|, i requires 0 <= i < |vs| => Printed(Shown(vs[i])))
  }

  /** The words from k on, separated by commas. */
  function Joined(ws: seq<seq<byte>>, k: nat): (w: seq<byte>)
    requires k < |ws|
    ensures |ws[k]| <= |w|
    decreases |ws| - k
  {
    if k + 1 == |ws| then ws[k] else ws[k] + ([COMMA] + Joined(ws, k + 1))
  }

  /** What is printed and the words from k on make up total. */
  predicate ListRest(out: seq<byte>, ws: seq<seq<byte>>, k: nat, total: seq<byte>) {
    k < |ws| && out + Joined(ws, k) == total
  }

  lemma {:induction false} ListRestStep(out: seq<byte>, ws: seq<seq<byte>>, k: nat, total: seq<byte>)
    requires ListRest(out, ws, k, total)
    ensures |out| + |ws[k]| <= |total|
    ensures k + 1 == |ws| ==> out + ws[k] == total
    ensures k + 1 < |ws| ==> ListRest(out + ws[k] + [COMMA], ws, k + 1, total)
  {
    if k + 1 < |ws| {
      Regroup(out, ws[k], Joined(ws, k + 1));
    }
  }

  lemma Regroup(out: seq<byte>, w: seq<byte>, rest: seq<byte>)
    ensures out + (w + ([COMMA] + rest)) == out + w + [COMMA] + rest
    ensures |out + w| < |out + (w + ([COMMA] + rest))|
  {
  }

  /** format_read_args over the whole list, behind what is printed already. */
  method FormatReadArgs(vs: seq<Variable>, prefix: seq<byte>, size: nat) returns (ok: bool, out: seq<byte>)
    requires vs != [] && forall i :: 0 <= i < |vs| ==> vs[i].content.Ok()
    ensures ok <==> |prefix| + |Joined(Words(vs), 0)| < size
    ensures ok ==> out == prefix + Joined(Words(vs), 0)
  {
    out := prefix;
    var index: nat := 0;
    ghost var ws := Words(vs);
    ghost var total := prefix + Joined(ws, 0);
    while true
      invariant ListRest(out, ws, index, total)
      decreases |vs| - index
    {
      ListRestStep(out, ws, index, total);
      ok, out := FormatVar(vs[index], out, size);
      if !ok {
        return;
      }
      if index + 1 == |vs| {
        return;
      }
      if |out| >= size {
        return false, out;
      }
      out, index := out + [COMMA], index + 1;
    }
  }

  /** What was read is v, and reading goes on at next. */
  predicate Back(v: Var, r: Parsed<Var>, more: bool, next: nat) {
    r.Good? && r.next == next && r.more == more && v.Same(r.val) && v.Like(r.val)
  }

  /** Text w stands at i, followed by a comma or the end. */
  predicate Offered(w: seq<byte>, s: seq<byte>, i: nat, more: bool) {
    Terminated(s) && StandsAt(s, i, w) && i + |w| < |s| && s[i + |w|] == if more then COMMA else 0
  }

  /** A printed variable, followed by a comma or the end, is read back into any variable of its type. */
  lemma {:induction false} VarBack(v: Var, t: Var, s: seq<byte>, i: nat, more: bool)
    requires v.Ok() && v.Like(t) && Offered(Printed(v), s, i, more)
    ensures Back(v, VarAt(t, s, i), more, i + |Printed(v)| + 1)
  {
    match v
    case Number(kind, size, val) => NumberBack(v, s, i, more);
    case HexBuf(data) => BufferBack(data, t.data, s, i, more);
    case Str(data) => StringBack(data, t.data, s, i, more);
  }

  lemma {:induction false} NumberBack(v: Var, s: seq<byte>, i: nat, more: bool)
    requires v.Number? && v.Ok() && Offered(PrintedNumber(v.kind, v.size, v.val), s, i, more)
    ensures Back(v, NumberAt(v.kind, v.size, s, i), more, i + |PrintedNumber(v.kind, v.size, v.val)| + 1)
  {
    var next := i + |PrintedNumber(v.kind, v.size, v.val)| + 1;
    match v.kind {
      case IntDec => IntBack(s, i, v.val, more);
      case UintDec => UintBack(s, i, v.val, more);
      case NumHex => HexBack(s, i, v.size, v.val, more);
    }
    NumberIs(v.kind, v.size, v.val, s, i, more, next);
  }

  lemma {:induction false} NumberIs(kind: Kind, size: nat, val: int, s: seq<byte>, i: nat, more: bool, next: nat)
    requires Terminated(s) && i < |s| && InRange(kind, size, val)
    requires match kind case IntDec => IntAt(s, i) == Good(val, more, next)
                        case UintDec => val >= 0 && UintAt(s, i) == Good(val, more, next)
                        case NumHex => val >= 0 && HexAt(s, i) == Good(val, more, next)
    ensures NumberAt(kind, size, s, i) == Good(Number(kind, size, val), more, next)
  {
  }

  lemma {:induction false} BufferBack(data: seq<byte>, was: seq<byte>, s: seq<byte>, i: nat, more: bool)
    requires data != [] && |was| == |data| && Offered(HexAll(data), s, i, more)
    ensures Back(HexBuf(data), BufferAt(was, s, i), more, i + |HexAll(data)| + 1)
  {
    HexBufBack(s, i, data, more);
    BufferIs(data, was, s, i, more, i + |HexAll(data)| + 1);
  }

  lemma {:induction false} BufferIs(data: seq<byte>, was: seq<byte>, s: seq<byte>, i: nat, more: bool, next: nat)
    requires Terminated(s) && i < |s| && |was| == |data| && HexBufAt(s, i, |was|) == Good(data, more, next)
    ensures BufferAt(was, s, i) == Good(HexBuf(data), more, next)
  {
    AllReplaced(data, was);
  }

  lemma AllReplaced(data: seq<byte>, was: seq<byte>)
    requires |was| == |data|
    ensures data + was[|data|..] == data
  {
  }

  lemma {:induction false} StringBack(data: seq<byte>, was: seq<byte>, s: seq<byte>, i: nat, more: bool)
    requires 0 in data && |was| == |data| && Offered(Quoted(CString(data)), s, i, more)
    ensures Back(Str(data), StrAt(was, s, i), more, i + |Quoted(CString(data))| + 1)
  {
    var c := CString(data);
    StrBack(s, i, c, |data|);
    CStringOf(c, was[|c| + 1..]);
  }

  lemma {:induction false} HexBufBack(s: seq<byte>, i: nat, data: seq<byte>, more: bool)
    requires data != [] && Offered(HexAll(data), s, i, more)
    ensures HexBufAt(s, i, |data|) == Good(data, more, i + |HexAll(data)| + 1)
  {
    var n := |data|;
    OctetsBack(s, i, data);
    HexEndIs(s, i, i + 2 * n);
    HexBufIs(s, i, n, data, more);
  }

  lemma {:induction false} HexBufIs(s: seq<byte>, i: nat, n: nat, data: seq<byte>, more: bool)
    requires Terminated(s) && 0 < n && i + 2 * n < |s| && HexEnd(s, i) == i + 2 * n
    requires (forall j :: i <= j < i + 2 * n ==> IsHex(Upper(s[j]))) && Octets(s, i, n) == data && s[i + 2 * n] == if more then COMMA else 0
    ensures HexBufAt(s, i, n) == Good(data, more, i + 2 * n + 1)
  {
    assert (HexEnd(s, i) - i) / 2 == n;
  }

  lemma {:induction false} StrBack(s: seq<byte>, i: nat, c: seq<byte>, size: nat)
    requires Terminated(s) && 0 !in c && |c| < size && StandsAt(s, i, Quoted(c))
    requires var e := i + |EscapeAll(c)| + 2; e < |s| && IsDelim(s[e])
    ensures var e := i + |EscapeAll(c)| + 2; StringAt(s, i, size) == Good(c, s[e] == COMMA, e + 1)
  {
    var w := EscapeAll(c) + [QUOTE];
    assert Quoted(c) == [QUOTE] + w;
    StandsParts(s, i, [QUOTE], w);
    StandsIndex(s, i, [QUOTE], 0);
    ScanBack(s, i + 1, c);
  }

  lemma {:induction false} UintBack(s: seq<byte>, i: nat, val: nat, more: bool)
    requires Offered(Dec(val), s, i, more) && val < WORD
    ensures UintAt(s, i) == Good(val, more, i + |Dec(val)| + 1)
  {
    DecValue(s, i, val);
    DecEndIs(s, i, i + |Dec(val)|);
  }

  lemma {:induction false} IntBack(s: seq<byte>, i: nat, val: int, more: bool)
    requires Offered(PrintedNumber(IntDec, 0, val), s, i, more)
    ensures IntAt(s, i) == Good(val, more, i + |PrintedNumber(IntDec, 0, val)| + 1)
  {
    if val < 0 {
      StandsParts(s, i, [MINUS], Dec(-val));
      StandsIndex(s, i, [MINUS], 0);
      DecValue(s, i + 1, -val);
      DecEndIs(s, i + 1, i + 1 + |Dec(-val)|);
    } else {
      DecValue(s, i, val);
      DecEndIs(s, i, i + |Dec(val)|);
    }
  }

  lemma {:induction false} HexBack(s: seq<byte>, i: nat, size: nat, val: nat, more: bool)
    requires InRange(NumHex, size, val) && Offered([ZERO, SMALL_X] + Hex(val, 2 * size), s, i, more)
    ensures HexAt(s, i) == Good(val, more, i + 2 + 2 * size + 1)
  {
    var n := 2 * size;
    HexParts(s, i, Hex(val, n));
    FitsWidth(size, val);
    HexValueBack(s, i + 2, val, n);
    HexEndIs(s, i + 2, i + 2 + n);
    HexIs(s, i, n, val, more);
  }

  lemma {:induction false} HexIs(s: seq<byte>, i: nat, n: nat, val: nat, more: bool)
    requires Terminated(s) && i + 2 + n < |s| && 0 < n && s[i] == ZERO && Upper(s[i + 1]) == BIG_X
    requires HexEnd(s, i + 2) == i + 2 + n && (forall j :: i + 2 <= j < i + 2 + n ==> IsHex(Upper(s[j])))
    requires HexVal(s, i + 2, i + 2 + n) == val < WORD && s[i + 2 + n] == if more then COMMA else 0
    ensures HexAt(s, i) == Good(val, more, i + 2 + n + 1)
  {
  }

  lemma {:induction false} FitsWidth(size: nat, val: int)
    requires InRange(NumHex, size, val)
    ensures 0 < size && 0 <= val < Power16(2 * size) && val < WORD
  {
    Widths();
  }

  lemma {:induction false} HexParts(s: seq<byte>, i: nat, w: seq<byte>)
    requires StandsAt(s, i, [ZERO, SMALL_X] + w)
    ensures i + 2 <= |s| && s[i] == ZERO && s[i + 1] == SMALL_X && StandsAt(s, i + 2, w)
  {
    StandsParts(s, i, [ZERO, SMALL_X], w);
    StandsIndex(s, i, [ZERO, SMALL_X], 0);
    StandsIndex(s, i, [ZERO, SMALL_X], 1);
  }

  lemma {:induction false} Widths()
    ensures Power16(2) == 0x100 && Power16(4) == 0x1_0000 && Power16(8) == 0x1_0000_0000
  {
    assert Power16(0) == 1;
    assert Power16(1) == 16;
    assert Power16(2) == 0x100;
    assert Power16(3) == 0x1000;
    assert Power16(4) == 0x1_0000;
    assert Power16(5) == 0x10_0000;
    assert Power16(6) == 0x100_0000;
    assert Power16(7) == 0x1000_0000;
  }

  /** Variable t, once it has read what was printed for x: a read-write variable has the value of x, a read-only one is as it was, and
      a write-only one has nothing. */
  predicate Restored(x: Variable, t: Variable, y: Variable) {
    && y.access == x.access && x.content.Like(y.content)
    && match x.access
       case ReadWrite => x.content.Same(y.content)
       case ReadOnly => y == t
       case WriteOnly => Blank(x.content).Same(y.content)
  }

  /** Read back into itself, a variable keeps its value exactly when it is not write-only, or is blank already. */
  lemma RestoredExactly(x: Variable, y: Variable)
    requires Restored(x, x, y) && x.content.Ok()
    ensures x.content.Same(y.content) <==> !x.access.WriteOnly? || x.content.Same(Blank(x.content))
  {
  }

  predicate BackAt(vs: seq<Variable>, ts: seq<Variable>, rs: seq<Variable>, j: nat)
    requires j < |vs| && j < |ts| && j < |rs|
  {
    Restored(vs[j], ts[j], rs[j])
  }

  predicate LikeAt(vs: seq<Variable>, ts: seq<Variable>, j: nat)
    requires j < |vs| && j < |ts|
  {
    vs[j].content.Ok() && vs[j].content.Like(ts[j].content) && vs[j].access == ts[j].access
  }

  predicate WordAt(vs: seq<Variable>, ws: seq<seq<byte>>, j: nat)
    requires j < |vs| && j < |ws|
  {
    ws[j] == Printed(Shown(vs[j]))
  }

  ghost predicate AllWords(vs: seq<Variable>, ws: seq<seq<byte>>) {
    |ws| == |vs| && forall j :: 0 <= j < |vs| ==> WordAt(vs, ws, j)
  }

  /** The variables before k have been read back, and those from k on are as they were in ts. */
  ghost predicate BackUpTo(vs: seq<Variable>, ts: seq<Variable>, rs: seq<Variable>, k: nat) {
    && k <= |vs| == |ts| == |rs|
    && (forall j :: 0 <= j < k ==> BackAt(vs, ts, rs, j))
    && (forall j :: k <= j < |ts| ==> rs[j] == ts[j])
  }

  lemma {:induction false} ArgBack(x: Variable, t: Variable, s: seq<byte>, i: nat, more: bool) returns (y: Variable, next: nat)
    requires x.content.Ok() && x.content.Like(t.content) && x.access == t.access && Offered(Printed(Shown(x)), s, i, more)
    ensures ArgAt(t, s, i) == Good(y, more, next) && next == i + |Printed(Shown(x))| + 1 && Restored(x, t, y)
  {
    BlankOk(x.content);
    VarBack(Shown(x), t.content, s, i, more);
    if x.access.ReadOnly? {
      SkipsWhat(t.content, s, i);
    }
    y, next := ArgAt(t, s, i).val, i + |Printed(Shown(x))| + 1;
  }

  lemma {:induction false} ListBack(vs: seq<Variable>, ws: seq<seq<byte>>, ts: seq<Variable>, rs: seq<Variable>, k: nat, s: seq<byte>, i: nat,
                                    needAll: bool)
    requires k < |vs| == |ts| && (forall j :: 0 <= j < |vs| ==> LikeAt(vs, ts, j)) && BackUpTo(vs, ts, rs, k)
    requires AllWords(vs, ws) && Listed(ws, k, s, i)
    ensures var r := ListAt(rs, k, s, i, needAll);
            r.Accepted? && r.count == |vs| && r.next == |s| && BackUpTo(vs, ts, r.vars, |vs|)
    decreases |vs| - k
  {
    var y, next := FirstBack(vs, ws, ts, rs, k, s, i);
    ListAtStep(rs, k, s, i, needAll, y, k + 1 < |vs|, next);
    if k + 1 < |vs| {
      ListBack(vs, ws, ts, rs[k := y], k + 1, s, next, needAll);
    }
  }

  lemma ListAtStep(ts: seq<Variable>, k: nat, s: seq<byte>, i: nat, needAll: bool, v: Variable, more: bool, next: nat)
    requires k < |ts| && Terminated(s) && i < |s| && ArgAt(ts[k], s, i) == Good(v, more, next) && more == (k + 1 < |ts|)
    ensures more ==> next < |s| && ListAt(ts, k, s, i, needAll) == ListAt(ts[k := v], k + 1, s, next, needAll)
    ensures !more ==> ListAt(ts, k, s, i, needAll) == Accepted(ts[k := v], k + 1, next)
  {
  }

  /** The words from k on make up the rest of the text. */
  predicate Listed(ws: seq<seq<byte>>, k: nat, s: seq<byte>, i: nat)
    requires k < |ws|
  {
    Terminated(s) && i < |s| && StandsAt(s, i, Joined(ws, k)) && |s| == i + |Joined(ws, k)| + 1
  }

  /** The first variable of the list is read back, and the others stand where reading goes on. */
  lemma {:induction false} FirstBack(vs: seq<Variable>, ws: seq<seq<byte>>, ts: seq<Variable>, rs: seq<Variable>, k: nat, s: seq<byte>, i: nat)
      returns (y: Variable, next: nat)
    requires k < |vs| == |ts| && (forall j :: 0 <= j < |vs| ==> LikeAt(vs, ts, j)) && BackUpTo(vs, ts, rs, k)
    requires AllWords(vs, ws) && Listed(ws, k, s, i)
    ensures ArgAt(rs[k], s, i) == Good(y, k + 1 < |vs|, next) && BackUpTo(vs, ts, rs[k := y], k + 1)
    ensures if k + 1 == |vs| then next == |s| else Listed(ws, k + 1, s, next)
  {
    assert LikeAt(vs, ts, k) && WordAt(vs, ws, k);
    JoinedOffers(ws, k, s, i);
    y, next := ArgBack(vs[k], rs[k], s, i, k + 1 < |vs|);
    Step(vs, ts, rs, k, y);
  }

  /** Where the list stands, its first word stands, and then, behind a comma, the others. */
  lemma {:induction false} JoinedOffers(ws: seq<seq<byte>>, k: nat, s: seq<byte>, i: nat)
    requires k < |ws| && Listed(ws, k, s, i)
    ensures Offered(ws[k], s, i, k + 1 < |ws|)
    ensures var next := i + |ws[k]| + 1;
            if k + 1 == |ws| then next == |s| else Listed(ws, k + 1, s, next)
  {
    if k + 1 < |ws| {
      ListParts(s, i, ws[k], Joined(ws, k + 1), Joined(ws, k));
    }
  }

  lemma ListParts(s: seq<byte>, i: nat, w: seq<byte>, rest: seq<byte>, whole: seq<byte>)
    requires whole == w + ([COMMA] + rest) && StandsAt(s, i, whole) && |s| == i + |whole| + 1
    ensures StandsAt(s, i, w) && i + |w| + 1 < |s| && s[i + |w|] == COMMA
    ensures StandsAt(s, i + |w| + 1, rest) && |s| == i + |w| + 1 + |rest| + 1
  {
    ThreeParts(s, i, w, rest);
    assert |whole| == |w| + 1 + |rest|;
  }

  lemma ThreeParts(s: seq<byte>, i: nat, w: seq<byte>, rest: seq<byte>)
    requires StandsAt(s, i, w + ([COMMA] + rest))
    ensures StandsAt(s, i, w) && i + |w| < |s| && s[i + |w|] == COMMA && StandsAt(s, i + |w| + 1, rest)
  {
    StandsParts(s, i, w, [COMMA] + rest);
    StandsParts(s, i + |w|, [COMMA], rest);
    StandsIndex(s, i + |w|, [COMMA], 0);
  }

  lemma Step(vs: seq<Variable>, ts: seq<Variable>, rs: seq<Variable>, k: nat, y: Variable)
    requires k < |vs| && BackUpTo(vs, ts, rs, k) && Restored(vs[k], ts[k], y)
    ensures BackUpTo(vs, ts, rs[k := y], k + 1)
  {
    var rs' := rs[k := y];
    forall j | 0 <= j < k + 1 ensures BackAt(vs, ts, rs', j) {
      assert j < k ==> BackAt(vs, ts, rs, j);
    }
  }

  /** What a read printed, a write of exactly that text takes in full, and it restores every variable, as far as its access allows. */
  method RoundTrip(vs: seq<Variable>, ts: seq<Variable>, size: nat, needAll: bool) returns (fits: bool, r: Outcome)
    requires vs != [] && |vs| == |ts| && forall j :: 0 <= j < |vs| ==> LikeAt(vs, ts, j)
    ensures fits <==> |Joined(Words(vs), 0)| < size
    ensures fits ==> r.Accepted? && r.count == |vs| == |r.vars| && r.next == |Joined(Words(vs), 0)| + 1
    ensures fits ==> forall j :: 0 <= j < |vs| ==> BackAt(vs, ts, r.vars, j)
  {
    r := Failed;
    assert forall j :: 0 <= j < |vs| ==> LikeAt(vs, ts, j);
    forall i | 0 <= i < |vs| ensures vs[i].content.Ok() {
      assert LikeAt(vs, ts, i);
    }
    var out;
    fits, out := FormatReadArgs(vs, [], size);
    if fits {
      var s := out + [0];
      ghost var ws := Words(vs);
      assert [] + Joined(ws, 0) == out && s[0..|out|] == out;
      assert forall j :: 0 <= j < |vs| ==> WordAt(vs, ws, j);
      ListBack(vs, ws, ts, ts, 0, s, 0, needAll);
      r := ParseWriteArgs(ts, s, needAll);
    }
  }

  /** The value survives being printed and read back. */
  predicate SurvivesAt(vs: seq<Variable>, rs: seq<Variable>, j: nat)
    requires j < |vs| && j < |rs|
  {
    rs[j].access == vs[j].access && vs[j].content.Same(rs[j].content)
  }

  predicate ReadableAt(vs: seq<Variable>, j: nat)
    requires j < |vs|
  {
    !vs[j].access.WriteOnly? || vs[j].content.Same(Blank(vs[j].content))
  }

  /** The variables of a command, printed and read back into themselves, keep their values exactly when none is write-only, unless it is
      blank already. */
  method ReadBack(vs: seq<Variable>, size: nat, needAll: bool) returns (fits: bool, r: Outcome)
    requires vs != [] && forall j :: 0 <= j < |vs| ==> LikeAt(vs, vs, j)
    ensures fits <==> |Joined(Words(vs), 0)| < size
    ensures fits ==> r.Accepted? && |r.vars| == |vs|
    ensures fits ==> forall j :: 0 <= j < |vs| ==> (SurvivesAt(vs, r.vars, j) <==> ReadableAt(vs, j))
  {
    fits, r := RoundTrip(vs, vs, size, needAll);
    if fits {
      forall j | 0 <= j < |vs| ensures SurvivesAt(vs, r.vars, j) <==> ReadableAt(vs, j) {
        assert BackAt(vs, vs, r.vars, j) && LikeAt(vs, vs, j);
        RestoredExactly(vs[j], r.vars[j]);
      }
    }
  }
}
