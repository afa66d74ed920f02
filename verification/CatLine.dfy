/** The line that carries a list of arguments: reading it, and what becomes of a printed list that is sent back over it. */
module CatLine {
  import opened Bytes
  import opened CatNumbers
  import opened CatBuffers
  import opened CatVariables
  import opened CatRoundTrip

  const RETURN: byte := 13
  const QUESTION: byte := 63

  /** What is kept of a line: everything but carriage returns. */
  function Strip(s: seq<byte>): (t: seq<byte>)
    ensures |t| <= |s| && (t == s <==> RETURN !in s)
  {
    if s == [] then [] else (if s[0] == RETURN then [] else [s[0]]) + Strip(s[1..])
  }

  lemma {:induction false} StripKeeps(s: seq<byte>, c: byte)
    ensures c in Strip(s) <==> c in s && c != RETURN
  {
    if s != [] {
      StripKeeps(s[1..], c);
    }
  }

  lemma {:induction false} StripAppend(a: seq<byte>, b: seq<byte>)
    ensures Strip(a + b) == Strip(a) + Strip(b)
  {
    if a == [] {
      assert a + b == b;
    } else {
      assert (a + b)[1..] == a[1..] + b;
      StripAppend(a[1..], b);
    }
  }

  lemma StripMore(s: seq<byte>, k: nat)
    requires k < |s|
    ensures Strip(s[..k + 1]) == Strip(s[..k]) + if s[k] == RETURN then [] else [s[k]]
    ensures NEWLINE in s[..k + 1] <==> NEWLINE in s[..k] || s[k] == NEWLINE
  {
    assert s[..k + 1] == s[..k] + [s[k]];
    StripAppend(s[..k], [s[k]]);
  }

  predicate Asks(text: seq<byte>) {
    text != [] && text[0] == QUESTION
  }

  /** How the characters read so far have ended: they have not, as a question about the command, as too many, or as a line of arguments. */
  datatype Line = Unfinished | Question | TooLong | Arguments(text: seq<byte>)

  /** parse_command_args, character after character: used is how many it takes. */
  method ReadLine(input: seq<byte>, size: nat, canTest: bool) returns (r: Line, used: nat)
    requires size > 0
    ensures used <= |input|
    ensures r.Arguments? ==>
              && used > 0 && input[used - 1] == NEWLINE && NEWLINE !in input[..used - 1]
              && r.text == Strip(input[..used - 1]) && |r.text| < size && !(canTest && Asks(r.text))
    ensures r.Question? ==> canTest && used > 0 && input[used - 1] == QUESTION && Strip(input[..used - 1]) == [] && NEWLINE !in input[..used]
    ensures r.TooLong? ==> NEWLINE !in input[..used] && |Strip(input[..used])| == size && !(canTest && Asks(Strip(input[..used])))
    ensures r.Unfinished? ==> used == |input| && NEWLINE !in input && |Strip(input)| < size && !(canTest && Asks(Strip(input)))
  {
    var text: seq<byte>;
    text, used := [], 0;
    while used < |input|
      invariant used <= |input| && NEWLINE !in input[..used] && text == Strip(input[..used]) && |text| < size
      invariant !(canTest && Asks(text))
    {
      var c := input[used];
      StripMore(input, used);
      used := used + 1;
      if c == NEWLINE {
        return Arguments(text), used;
      } else if c != RETURN {
        if text == [] && c == QUESTION && canTest {
          return Question, used;
        }
        text := text + [c];
        if |text| >= size {
          return TooLong, used;
        }
      }
    }
    assert input[..used] == input;
    r := Unfinished;
  }

  /** A line whose characters, carriage returns apart, fit and do not start with a question is read to its end, and so is what is behind
      it left alone. */
  method ReadWholeLine(line: seq<byte>, behind: seq<byte>, size: nat, canTest: bool) returns (r: Line, used: nat)
    requires NEWLINE !in line && |Strip(line)| < size && !(canTest && Asks(Strip(line)))
    ensures r == Arguments(Strip(line)) && used == |line| + 1
  {
    var input := line + [NEWLINE] + behind;
    r, used := ReadLine(input, size, canTest);
    assert input[|line|] == NEWLINE;
    if used > |line| {
      assert r.Arguments? by {
        assert input[..used][|line|] == NEWLINE;
      }
      assert input[..|line|] == line;
    } else {
      assert input[..used] == line[..used];
      assert used > 0 ==> input[used - 1] == line[used - 1] && input[..used - 1] == line[..used - 1];
      StripFront(line[..used], line[used..]);
      assert line[..used] + line[used..] == line;
      if r.Question? {
        NothingKept(line[..used - 1]);
        assert forall i :: 0 <= i < used - 1 ==> line[i] == line[..used - 1][i];
        FirstKept(line, used - 1);
      }
    }
  }

  /** The first character that is no carriage return is the first one kept. */
  lemma {:induction false} FirstKept(line: seq<byte>, n: nat)
    requires n < |line| && line[n] != RETURN && forall i :: 0 <= i < n ==> line[i] == RETURN
    ensures Strip(line) != [] && Strip(line)[0] == line[n]
  {
    if n > 0 {
      assert forall i :: 0 <= i < n - 1 ==> line[1..][i] == line[i + 1];
      FirstKept(line[1..], n - 1);
    }
  }

  lemma NothingKept(s: seq<byte>)
    requires Strip(s) == []
    ensures forall i :: 0 <= i < |s| ==> s[i] == RETURN
  {
    forall i | 0 <= i < |s| ensures s[i] == RETURN {
      StripKeeps(s, s[i]);
    }
  }

  lemma StripFront(front: seq<byte>, back: seq<byte>)
    ensures Strip(front) <= Strip(front + back)
  {
    StripAppend(front, back);
  }

  function Zeros(n: nat): (z: seq<byte>)
    ensures |z| == n
  {
    seq(n, _ => 0)
  }

  /** A text with its terminator and nothing behind it, in a buffer of this length. */
  function Padded(t: seq<byte>, n: nat): seq<byte> {
    t + [0] + Zeros(Max(n - |t| - 1, 0))
  }

  lemma PaddedHolds(t: seq<byte>, n: nat)
    requires 0 !in t && |t| < n
    ensures CString(Padded(t, n)) == t && 0 in Padded(t, n) && |Padded(t, n)| == n
    ensures t == [] ==> Padded(t, n) == Zeros(n)
  {
    CStringOf(t, Zeros(n - |t| - 1));
    assert Padded(t, n)[|t|] == 0;
  }

  /** What is left of a variable once the carriage returns in its text are lost. */
  function WithoutReturns(v: Var): Var {
    match v
    case Str(data) => Str(Padded(Strip(CString(data)), |data|))
    case _ => v
  }

  lemma WithoutReturnsOk(v: Var)
    requires v.Ok()
    ensures WithoutReturns(v).Ok() && v.Like(WithoutReturns(v)) && WithoutReturns(v).Like(v)
    ensures v.Str? ==> CString(WithoutReturns(v).data) == Strip(CString(v.data))
    ensures v.Same(WithoutReturns(v)) <==> v.Str? ==> RETURN !in CString(v.data)
  {
    if v.Str? {
      StripKeeps(CString(v.data), 0);
      PaddedHolds(Strip(CString(v.data)), |v.data|);
    }
  }

  lemma StripChar(c: byte)
    ensures Strip(Escape(c)) == if c == RETURN then [] else Escape(c)
  {
    assert RETURN in Escape(c) <==> c == RETURN;
    if c == RETURN {
      assert Escape(c) == [RETURN] && Strip([RETURN][1..]) == [];
    }
  }

  /** Escapes keep carriage returns apart from everything else. */
  lemma {:induction false} StripEscaped(t: seq<byte>)
    ensures Strip(EscapeAll(t)) == EscapeAll(Strip(t))
  {
    if t != [] {
      StripEscaped(t[1..]);
      StripAppend(Escape(t[0]), EscapeAll(t[1..]));
      StripChar(t[0]);
      EscapeCons(t[0], Strip(t[1..]));
    }
  }

  lemma EscapeCons(c: byte, t: seq<byte>)
    ensures EscapeAll([c] + t) == Escape(c) + EscapeAll(t)
    ensures [] + t == t && [] + EscapeAll(t) == EscapeAll(t)
  {
    assert ([c] + t)[1..] == t;
  }

  lemma {:induction false} EscapedPlain(t: seq<byte>)
    ensures NEWLINE !in EscapeAll(t)
  {
    if t != [] {
      EscapedPlain(t[1..]);
    }
  }

  lemma {:induction false} HexPlain(data: seq<byte>)
    ensures NEWLINE !in HexAll(data) && RETURN !in HexAll(data)
    ensures data != [] ==> HexAll(data)[0] != QUESTION
  {
    if data != [] {
      var n := |data| - 1;
      HexPlain(data[..n]);
      assert HexAll(data) == HexAll(data[..n]) + Pair(data[n]);
      if n == 0 {
        assert HexAll(data) == Pair(data[0]);
      }
    }
  }

  /** What is printed for a variable has no line end in it and does not start with a question; only in a string can there be a carriage
      return, and what is left without it is what would be printed for the string without it. */
  lemma {:induction false} PrintedPlain(v: Var)
    requires v.Ok()
    ensures NEWLINE !in Printed(v) && Printed(v) != [] && Printed(v)[0] != RETURN && Printed(v)[0] != QUESTION
    ensures Strip(Printed(v)) == Printed(WithoutReturns(v))
  {
    match v
    case Number(kind, size, val) => NumberPlain(kind, size, val);
    case HexBuf(data) => HexPlain(data);
    case Str(data) =>
      WithoutReturnsOk(v);
      QuotedPlain(CString(data));
  }

  lemma QuotedPlain(t: seq<byte>)
    ensures NEWLINE !in Quoted(t) && Quoted(t) != [] && Quoted(t)[0] == QUOTE && Strip(Quoted(t)) == Quoted(Strip(t))
  {
    EscapedPlain(t);
    StripEscaped(t);
    StripAppend([QUOTE], EscapeAll(t));
    StripAppend([QUOTE] + EscapeAll(t), [QUOTE]);
  }

  lemma NumberPlain(kind: Kind, size: nat, val: int)
    requires InRange(kind, size, val)
    ensures var w := PrintedNumber(kind, size, val); NEWLINE !in w && RETURN !in w && w != [] && w[0] != QUESTION
  {
    match kind
    case IntDec => DigitsPlain(Dec(if val < 0 then -val else val));
    case UintDec => DigitsPlain(Dec(Max(val, 0)));
    case NumHex => HexDigitsPlain(Hex(Max(val, 0), 2 * size));
  }

  lemma DigitsPlain(w: seq<byte>)
    requires forall i :: 0 <= i < |w| ==> IsDec(w[i])
    ensures NEWLINE !in w && RETURN !in w && QUESTION !in w
  {
  }

  lemma HexDigitsPlain(w: seq<byte>)
    requires forall i :: 0 <= i < |w| ==> IsHex(Upper(w[i]))
    ensures NEWLINE !in w && RETURN !in w
  {
  }

  /** A variable without the carriage returns in its text. */
  function Stripped(x: Variable): Variable {
    x.(content := WithoutReturns(x.content))
  }

  /** What is shown of it. */
  lemma ShownStripped(x: Variable)
    requires x.content.Ok()
    ensures Strip(Printed(Shown(x))) == Printed(Shown(Stripped(x)))
    ensures NEWLINE !in Printed(Shown(x)) && Printed(Shown(x)) != [] && Printed(Shown(x))[0] != RETURN && Printed(Shown(x))[0] != QUESTION
    ensures Stripped(x).content.Ok() && Stripped(x).content.Like(x.content)
  {
    BlankOk(x.content);
    PrintedPlain(Shown(x));
    WithoutReturnsOk(x.content);
    if x.access.WriteOnly? {
      BlankStripped(x.content);
    }
  }

  lemma BlankStripped(v: Var)
    requires v.Ok()
    ensures WithoutReturns(Blank(v)) == Blank(WithoutReturns(v))
  {
    WithoutReturnsOk(v);
    if v.Str? {
      var n := |v.data|;
      assert Blank(v).data == Zeros(n) == Blank(WithoutReturns(v)).data;
      ZerosEmpty(n);
      PaddedHolds([], n);
    }
  }

  lemma ZerosEmpty(n: nat)
    ensures CString(Zeros(n)) == [] && Strip([]) == []
  {
    assert n > 0 ==> Zeros(n)[0] == 0;
  }

  lemma {:induction false} ZeroDigits(n: nat)
    ensures HexAll(Zeros(n)) == seq(2 * n, _ => ZERO) && Hex(0, n) == seq(n, _ => ZERO)
  {
    if n > 0 {
      ZeroDigits(n - 1);
      assert Zeros(n)[..n - 1] == Zeros(n - 1);
    }
  }

  /** A write-only variable is printed as 0, as zeros in its full width, or as an empty string. */
  lemma {:induction false} BlankPrinted(v: Var)
    requires v.Ok()
    ensures match v
            case Number(kind, size, _) => Printed(Blank(v)) == if kind.NumHex? then [ZERO, SMALL_X] + seq(2 * size, _ => ZERO) else [ZERO]
            case HexBuf(data) => Printed(Blank(v)) == seq(2 * |data|, _ => ZERO)
            case Str(_) => Printed(Blank(v)) == [QUOTE, QUOTE]
  {
    match v
    case Number(_, size, _) => ZeroDigits(2 * size);
    case HexBuf(data) =>
      ZeroDigits(|data|);
      assert Blank(v) == HexBuf(Zeros(|data|));
    case Str(data) =>
      ZerosEmpty(|data|);
      assert Blank(v) == Str(Zeros(|data|));
  }

  predicate StripAt(ws: seq<seq<byte>>, ws': seq<seq<byte>>, j: nat)
    requires j < |ws| && j < |ws'|
  {
    ws'[j] == Strip(ws[j]) && NEWLINE !in ws[j] && ws[j] != [] && ws[j][0] != RETURN && ws[j][0] != QUESTION
  }

  /** The printed list has no line end in it, does not start with a question, and without carriage returns is the list of the words without
      them. */
  lemma {:induction false} JoinedStripped(ws: seq<seq<byte>>, ws': seq<seq<byte>>, k: nat)
    requires k < |ws| == |ws'| && forall j :: 0 <= j < |ws| ==> StripAt(ws, ws', j)
    ensures Strip(Joined(ws, k)) == Joined(ws', k) && NEWLINE !in Joined(ws, k) && Joined(ws', k) != [] && Joined(ws', k)[0] != QUESTION
    decreases |ws| - k
  {
    assert StripAt(ws, ws', k) && Strip(ws[k])[0] == ws[k][0];
    if k + 1 < |ws| {
      JoinedStripped(ws, ws', k + 1);
      StripAppend(ws[k], [COMMA] + Joined(ws, k + 1));
      StripAppend([COMMA], Joined(ws, k + 1));
      assert Strip([COMMA]) == [COMMA];
    }
  }

  /** No carriage return is lost: the text is not printed, or holds none. */
  predicate KeepsReturnsAt(vs: seq<Variable>, j: nat)
    requires j < |vs|
  {
    vs[j].access.ReadWrite? && vs[j].content.Str? ==> RETURN !in CString(vs[j].content.data)
  }

  lemma StrippedExactly(x: Variable, y: Variable)
    requires x.content.Ok() && Restored(Stripped(x), x, y)
    ensures x.content.Same(y.content) <==>
              && (!x.access.WriteOnly? || x.content.Same(Blank(x.content)))
              && (x.access.ReadWrite? && x.content.Str? ==> RETURN !in CString(x.content.data))
  {
    WithoutReturnsOk(x.content);
    BlankStripped(x.content);
    BlankOk(x.content);
  }

  /** The list that is left, and that its text is what is left of the text. */
  lemma ListStripped(vs: seq<Variable>) returns (vs': seq<Variable>)
    requires vs != [] && forall j :: 0 <= j < |vs| ==> LikeAt(vs, vs, j)
    ensures |vs| == |vs'| && forall j :: 0 <= j < |vs| ==> LikeAt(vs', vs, j) && vs'[j] == Stripped(vs[j])
    ensures Strip(Joined(Words(vs), 0)) == Joined(Words(vs'), 0) && !Asks(Strip(Joined(Words(vs), 0)))
    ensures NEWLINE !in Joined(Words(vs), 0)
  {
    vs' := seq(|vs|, i requires 0 <= i < |vs| => Stripped(vs[i]));
    forall j | 0 <= j < |vs| ensures LikeAt(vs', vs, j) && StripAt(Words(vs), Words(vs'), j) {
      assert LikeAt(vs, vs, j);
      ShownStripped(vs[j]);
    }
    JoinedStripped(Words(vs), Words(vs'), 0);
  }

  /** The variables of a command are printed, and the text is sent back as the arguments of a write, with anything behind it. The whole
      line is read and all of it is accepted. Each variable keeps its value exactly if it is not write-only, unless it is blank already,
      and if it is not a read-write string with a carriage return in it. */
  method SendBack(vs: seq<Variable>, size: nat, needAll: bool, canTest: bool, behind: seq<byte>) returns (fits: bool, r: Outcome, used: nat)
    requires vs != [] && forall j :: 0 <= j < |vs| ==> LikeAt(vs, vs, j)
    ensures fits <==> |Joined(Words(vs), 0)| < size
    ensures fits ==> used == |Joined(Words(vs), 0)| + 1 && r.Accepted? && r.count == |vs| == |r.vars|
    ensures fits ==> forall j :: 0 <= j < |vs| ==> (SurvivesAt(vs, r.vars, j) <==> ReadableAt(vs, j) && KeepsReturnsAt(vs, j))
  {
    r, used := Failed, 0;
    ghost var vs' := ListStripped(vs);
    forall i | 0 <= i < |vs| ensures vs[i].content.Ok() {
      assert LikeAt(vs, vs, i);
    }
    var out;
    fits, out := FormatReadArgs(vs, [], size);
    if fits {
      r, used := SendText(vs, vs', out, size, needAll, canTest, behind);
    }
  }

  /** The printed text goes over the line. */
  method SendText(vs: seq<Variable>, ghost vs': seq<Variable>, out: seq<byte>, size: nat, needAll: bool, canTest: bool, behind: seq<byte>)
      returns (r: Outcome, used: nat)
    requires vs != [] && |vs| == |vs'| && forall j :: 0 <= j < |vs| ==> LikeAt(vs, vs, j) && LikeAt(vs', vs, j) && vs'[j] == Stripped(vs[j])
    requires out == [] + Joined(Words(vs), 0) && |out| < size
    requires Strip(Joined(Words(vs), 0)) == Joined(Words(vs'), 0) && !Asks(Strip(Joined(Words(vs), 0))) && NEWLINE !in Joined(Words(vs), 0)
    ensures used == |out| + 1 && r.Accepted? && r.count == |vs| == |r.vars|
    ensures forall j :: 0 <= j < |vs| ==> (SurvivesAt(vs, r.vars, j) <==> ReadableAt(vs, j) && KeepsReturnsAt(vs, j))
  {
    assert out == Joined(Words(vs), 0);
    var line;
    line, used := ReadWholeLine(out, behind, size, canTest);
    r := TakeBack(vs, vs', line.text, needAll);
  }

  /** What is left of the printed list is read back. */
  method TakeBack(vs: seq<Variable>, ghost vs': seq<Variable>, text: seq<byte>, needAll: bool) returns (r: Outcome)
    requires vs != [] && |vs| == |vs'| && forall j :: 0 <= j < |vs| ==> LikeAt(vs, vs, j) && LikeAt(vs', vs, j) && vs'[j] == Stripped(vs[j])
    requires text == Joined(Words(vs'), 0)
    ensures r.Accepted? && r.count == |vs| == |r.vars|
    ensures forall j :: 0 <= j < |vs| ==> (SurvivesAt(vs, r.vars, j) <==> ReadableAt(vs, j) && KeepsReturnsAt(vs, j))
  {
    var s := text + [0];
    ghost var ws := Words(vs');
    assert s[0..|text|] == text;
    assert forall j :: 0 <= j < |vs'| ==> WordAt(vs', ws, j);
    ListBack(vs', ws, vs, vs, 0, s, 0, needAll);
    r := ParseWriteArgs(vs, s, needAll);
    forall j | 0 <= j < |vs| ensures SurvivesAt(vs, r.vars, j) <==> ReadableAt(vs, j) && KeepsReturnsAt(vs, j) {
      assert BackAt(vs', vs, r.vars, j) && LikeAt(vs, vs, j);
      StrippedExactly(vs[j], r.vars[j]);
    }
  }

  /** A string of one carriage return does not come back. */
  method ReturnIsLost(behind: seq<byte>) returns (r: Outcome)
    ensures r.Accepted? && |r.vars| == 1 && !SurvivesAt([Variable(ReadWrite, Str([RETURN, 0]))], r.vars, 0)
  {
    var x := Variable(ReadWrite, Str([RETURN, 0]));
    assert [RETURN, 0][1..] == [0] && CString([RETURN, 0]) == [RETURN];
    assert EscapeAll([RETURN]) == [RETURN] + EscapeAll([]);
    assert LikeAt([x], [x], 0) && !KeepsReturnsAt([x], 0);
    assert |Words([x])[0]| == 3;
    var fits, used;
    fits, r, used := SendBack([x], 8, true, true, behind);
  }
}
