/** Command names: the two-bit match table and the search through it. */
module CatMatch {
  import opened Bytes
  import opened CatNumbers

  const NOT_MATCH: bv8 := 0
  const PARTIAL: bv8 := 1
  const FULL: bv8 := 2

  /** A command; disabled also when its whole group is. */
  datatype Command = Command(name: seq<byte>, disabled: bool, implicitWrite: bool)

  /** Two bits of a byte. */
  function Field(s: bv8, k: nat): bv8
    requires k < 4
  {
    if k == 0 then s & 3 else if k == 1 then (s >> 2) & 3 else if k == 2 then (s >> 4) & 3 else (s >> 6) & 3
  }

  function WithField(s: bv8, k: nat, v: bv8): bv8
    requires k < 4
  {
    if k == 0 then (s & !0x03) | (v & 3)
    else if k == 1 then (s & !0x0c) | ((v & 3) << 2)
    else if k == 2 then (s & !0x30) | ((v & 3) << 4)
    else (s & !0xc0) | ((v & 3) << 6)
  }

  lemma FieldSet(s: bv8, k: nat, v: bv8)
    requires k < 4 && v <= 3
    ensures Field(WithField(s, k, v), k) == v
  {
  }

  lemma FieldKept(s: bv8, k: nat, v: bv8, j: nat)
    requires k < 4 && j < 4 && j != k
    ensures Field(WithField(s, k, v), j) == Field(s, j)
  {
  }

  /** The case-insensitive comparison that the table stands for. */
  predicate IsPrefix(typed: seq<byte>, name: seq<byte>) {
    |typed| <= |name| && forall i :: 0 <= i < |typed| ==> Upper(name[i]) == typed[i]
  }

  /** What read_cmd_char makes of the characters read. */
  function Uppers(input: seq<byte>): seq<byte> {
    seq(|input|, i requires 0 <= i < |input| => Upper(input[i]))
  }

  /** The input is the beginning of the name, or all of it, in letters of either case. */
  predicate SameLetters(input: seq<byte>, name: seq<byte>) {
    |input| <= |name| && forall i :: 0 <= i < |input| ==> Upper(name[i]) == Upper(input[i])
  }

  lemma AnyCase(input: seq<byte>, name: seq<byte>)
    ensures IsPrefix(Uppers(input), name) <==> SameLetters(input, name)
  {
    if IsPrefix(Uppers(input), name) {
      forall i | 0 <= i < |input| ensures Upper(name[i]) == Upper(input[i]) {
        assert Uppers(input)[i] == Upper(input[i]);
      }
    }
  }

  lemma UppersMore(input: seq<byte>, n: nat)
    requires n < |input|
    ensures Uppers(input[..n + 1]) == Uppers(input[..n]) + [Upper(input[n])]
  {
  }

  function MatchOf(c: Command, typed: seq<byte>): bv8 {
    if c.disabled || !IsPrefix(typed, c.name) then NOT_MATCH
    else if |typed| == |c.name| then FULL
    else PARTIAL
  }

  /** One more character only ever narrows a match. */
  lemma PrefixMore(typed: seq<byte>, ch: byte, name: seq<byte>)
    ensures IsPrefix(typed + [ch], name) <==> IsPrefix(typed, name) && |typed| < |name| && Upper(name[|typed|]) == ch
  {
    var t := typed + [ch];
    if IsPrefix(t, name) {
      assert forall i :: 0 <= i < |typed| ==> t[i] == typed[i];
      assert t[|typed|] == ch;
    }
  }

  datatype Outcome = Found(index: nat) | NotFound | Error

  predicate IsAt(states: seq<bv8>, i: nat, v: bv8)
    requires i < |states|
  {
    states[i] == v
  }

  /** What a search must give: the first exact match; without one, the only partial match; otherwise nothing. newline says whether
      the name was ended by a newline. */
  predicate Resolves(states: seq<bv8>, newline: bool, o: Outcome) {
    var n := |states|;
    if exists i :: 0 <= i < n && IsAt(states, i, FULL) then
      o.Found? && o.index < n && IsAt(states, o.index, FULL) && forall j :: 0 <= j < o.index ==> !IsAt(states, j, FULL)
    else if Partials(states) == 1 then o.Found? && o.index < n && IsAt(states, o.index, PARTIAL)
    else if Partials(states) == 0 || (n > 0 && IsAt(states, n - 1, PARTIAL)) then o == if newline then NotFound else Error
    else o == NotFound
  }

  function Partials(states: seq<bv8>): nat {
    if states == [] then 0 else Partials(states[..|states| - 1]) + if states[|states| - 1] == PARTIAL then 1 else 0
  }

  lemma {:induction false} PartialsGrow(states: seq<bv8>, n: nat)
    requires n < |states|
    ensures Partials(states[..n + 1]) == Partials(states[..n]) + if states[n] == PARTIAL then 1 else 0
  {
    assert states[..n + 1][..n] == states[..n];
  }

  /** No exact match before position n, and count partial ones, the last of them at cmd. */
  ghost predicate Searched(states: seq<bv8>, n: nat, count: nat, cmd: nat)
    requires n <= |states|
  {
    && count == Partials(states[..n]) && (forall j :: 0 <= j < n ==> !IsAt(states, j, FULL))
    && (count > 0 ==> cmd < n && IsAt(states, cmd, PARTIAL))
  }

  lemma {:induction false} SearchOn(states: seq<bv8>, n: nat, count: nat, cmd: nat, newline: bool)
    requires n < |states| && Searched(states, n, count, cmd)
    ensures IsAt(states, n, PARTIAL) ==> Searched(states, n + 1, count + 1, n)
    ensures !IsAt(states, n, PARTIAL) && !IsAt(states, n, FULL) ==> Searched(states, n + 1, count, cmd)
    ensures IsAt(states, n, FULL) ==> Resolves(states, newline, Found(n))
  {
    PartialsGrow(states, n);
  }

  /** Without an exact match, the number of partial ones decides. */
  lemma {:induction false} EndOfSearch(states: seq<bv8>, newline: bool, count: nat, cmd: nat)
    requires states != [] && Searched(states, |states|, count, cmd)
    ensures count == 0 || (count > 1 && IsAt(states, |states| - 1, PARTIAL)) ==>
              Resolves(states, newline, if newline then NotFound else Error)
    ensures count == 1 ==> Resolves(states, newline, Found(cmd))
    ensures count > 1 && !IsAt(states, |states| - 1, PARTIAL) ==> Resolves(states, newline, NotFound)
  {
    assert states[..|states|] == states;
  }

  /** Every command compared with what was typed. */
  function Compared(commands: seq<Command>, typed: seq<byte>): seq<bv8> {
    seq(|commands|, i requires 0 <= i < |commands| => MatchOf(commands[i], typed))
  }

  /** The input is this command's name, in letters of either case. */
  predicate Named(c: Command, input: seq<byte>) {
    !c.disabled && |input| == |c.name| && SameLetters(input, c.name)
  }

  /** The input is the beginning of this command's name, but not all of it. */
  predicate Begun(c: Command, input: seq<byte>) {
    !c.disabled && |input| < |c.name| && SameLetters(input, c.name)
  }

  /** The choice in terms of names: the first command with this name; without one, the only command whose name begins with it; otherwise
      none, and then it depends on the last command and on the newline what is reported. */
  predicate Chosen(commands: seq<Command>, input: seq<byte>, newline: bool, o: Outcome) {
    var n := |commands|;
    match o
    case Found(i) =>
      i < n && (if Named(commands[i], input) then forall j :: 0 <= j < i ==> !Named(commands[j], input)
                else Begun(commands[i], input)
                     && forall j :: 0 <= j < n && j != i ==> !Named(commands[j], input) && !Begun(commands[j], input))
    case _ =>
      && (forall j :: 0 <= j < n ==> !Named(commands[j], input))
      && ((exists i, j :: 0 <= i < j < n && Begun(commands[i], input) && Begun(commands[j], input))
          || (forall j :: 0 <= j < n ==> !Begun(commands[j], input)))
      && (o.Error? <==> !newline && ((n > 0 && Begun(commands[n - 1], input)) || forall j :: 0 <= j < n ==> !Begun(commands[j], input)))
  }

  lemma MatchNames(c: Command, input: seq<byte>)
    ensures MatchOf(c, Uppers(input)) == FULL <==> Named(c, input)
    ensures MatchOf(c, Uppers(input)) == PARTIAL <==> Begun(c, input)
  {
    AnyCase(input, c.name);
  }

  /** None, one, or at least two. */
  lemma {:induction false} PartialsCount(states: seq<bv8>)
    ensures Partials(states) == 0 <==> forall i :: 0 <= i < |states| ==> !IsAt(states, i, PARTIAL)
    ensures Partials(states) >= 2 <==> exists i, j :: 0 <= i < j < |states| && IsAt(states, i, PARTIAL) && IsAt(states, j, PARTIAL)
  {
    if states != [] {
      var n := |states| - 1;
      var front := states[..n];
      PartialsCount(front);
      forall i | 0 <= i < n ensures IsAt(front, i, PARTIAL) <==> IsAt(states, i, PARTIAL) {
      }
      assert Partials(states) == Partials(front) + if IsAt(states, n, PARTIAL) then 1 else 0;
      if i, j :| 0 <= i < j < |states| && IsAt(states, i, PARTIAL) && IsAt(states, j, PARTIAL) {
        assert IsAt(front, i, PARTIAL);
        assert j < n ==> IsAt(front, j, PARTIAL);
      }
      if i :| 0 <= i < n && IsAt(states, i, PARTIAL) {
        assert IsAt(front, i, PARTIAL);
      }
    }
  }

  /** What the table gives is the choice by names. */
  lemma {:induction false} ChosenByName(commands: seq<Command>, input: seq<byte>, newline: bool, o: Outcome)
    requires Resolves(Compared(commands, Uppers(input)), newline, o)
    ensures Chosen(commands, input, newline, o)
  {
    var states := Compared(commands, Uppers(input));
    forall i | 0 <= i < |commands|
      ensures IsAt(states, i, FULL) <==> Named(commands[i], input)
      ensures IsAt(states, i, PARTIAL) <==> Begun(commands[i], input)
    {
      MatchNames(commands[i], input);
    }
    PartialsCount(states);
    ByStates(commands, input, states, newline, o);
  }

  lemma {:induction false} ByStates(commands: seq<Command>, input: seq<byte>, states: seq<bv8>, newline: bool, o: Outcome)
    requires |states| == |commands| && Resolves(states, newline, o)
    requires forall i :: 0 <= i < |commands| ==> (IsAt(states, i, FULL) <==> Named(commands[i], input))
    requires forall i :: 0 <= i < |commands| ==> (IsAt(states, i, PARTIAL) <==> Begun(commands[i], input))
    requires Partials(states) == 0 <==> forall i :: 0 <= i < |states| ==> !IsAt(states, i, PARTIAL)
    requires Partials(states) >= 2 <==> exists i, j :: 0 <= i < j < |states| && IsAt(states, i, PARTIAL) && IsAt(states, j, PARTIAL)
    ensures Chosen(commands, input, newline, o)
  {
    if o.Found? && !IsAt(states, o.index, FULL) {
      forall j | 0 <= j < |states| && j != o.index ensures !IsAt(states, j, PARTIAL) {
        assert j < o.index || o.index < j;
      }
    }
  }

  /** A command that takes its arguments without a sign between has this name. */
  ghost predicate Implied(commands: seq<Command>, input: seq<byte>) {
    exists i :: 0 <= i < |commands| && commands[i].implicitWrite && Named(commands[i], input)
  }

  class Matcher {
    const commands: seq<Command>
    /** The command buffer, which holds the table while a name is being typed. */
    const buf: array<bv8>

    ghost var typed: seq<byte>

    function Raw(i: nat): bv8
      reads buf
      requires i / 4 < buf.Length
    {
      Field(buf[i / 4], i % 4)
    }

    /** get_cmd_state. */
    function State(i: nat): bv8
      reads buf
      requires i < |commands| && i / 4 < buf.Length
    {
      if commands[i].disabled then NOT_MATCH else Raw(i)
    }

    predicate Fits() {
      commands != [] && |commands| <= 4 * buf.Length && forall i :: 0 <= i < |commands| ==> commands[i].name != []
    }

    ghost predicate StateIs(i: nat, t: seq<byte>)
      reads buf
      requires i < |commands| && i / 4 < buf.Length
    {
      State(i) == MatchOf(commands[i], t)
    }

    /** The table says what comparing every name with what was typed would say. */
    ghost predicate Valid()
      reads this, buf
    {
      Fits() && forall i :: 0 <= i < |commands| ==> StateIs(i, typed)
    }

    constructor (commands: seq<Command>, buf: array<bv8>)
      requires |commands| <= 4 * buf.Length && commands != [] && forall i :: 0 <= i < |commands| ==> commands[i].name != []
      ensures Fits() && this.commands == commands && this.buf == buf
    {
      this.commands, this.buf, typed := commands, buf, [];
    }

    /** prepare_parse_command: every command matches so far. */
    method Prepare()
      requires Fits()
      modifies this, buf
      ensures Valid() && typed == []
    {
      forall i | 0 <= i < buf.Length {
        buf[i] := 0x55;
      }
      typed := [];
      forall i | 0 <= i < |commands| ensures StateIs(i, []) {
        assert Field(0x55, i % 4) == PARTIAL;
      }
    }

    /** set_cmd_state. */
    method SetState(i: nat, v: bv8)
      requires Fits() && i < |commands| && v <= 3
      modifies buf
      ensures Raw(i) == v && forall j :: 0 <= j < |commands| && j != i ==> Raw(j) == old(Raw(j))
    {
      ghost var was := buf[i / 4];
      buf[i / 4] := WithField(buf[i / 4], i % 4, v);
      FieldSet(was, i % 4, v);
      forall j | 0 <= j < |commands| && j != i ensures Raw(j) == old(Raw(j)) {
        if j / 4 == i / 4 {
          FieldKept(was, i % 4, v, j % 4);
        }
      }
    }

    /** update_command for one command: ch is the character just typed, the last of length. */
    method UpdateOne(i: nat, ch: byte, length: nat) returns (implicit: bool)
      requires Fits() && i < |commands| && length == |typed| + 1 && StateIs(i, typed)
      modifies buf
      ensures StateIs(i, typed + [ch]) && forall j :: 0 <= j < |commands| && j != i ==> State(j) == old(State(j))
      ensures implicit <==> State(i) == FULL && commands[i].implicitWrite
    {
      var c := commands[i];
      implicit := false;
      PrefixMore(typed, ch, c.name);
      if State(i) != NOT_MATCH {
        if length > |c.name| || Upper(c.name[length - 1]) != ch {
          SetState(i, NOT_MATCH);
        } else if length == |c.name| {
          SetState(i, FULL);
          implicit := c.implicitWrite;
        }
      }
    }

    /** The pass over all commands after a character. */
    method Type(ch: byte, length: nat) returns (implicit: bool)
      requires Valid() && length == |typed| + 1
      modifies this`typed, buf
      ensures Valid() && typed == old(typed) + [ch]
      ensures implicit <==> exists i :: 0 <= i < |commands| && MatchOf(commands[i], typed) == FULL && commands[i].implicitWrite
    {
      implicit := false;
      ghost var t := typed + [ch];
      forall i | 0 <= i < |commands| ensures State(i) == MatchOf(commands[i], typed) {
        assert StateIs(i, typed);
      }
      for index := 0 to |commands|
        invariant typed == old(typed)
        invariant forall i :: 0 <= i < index ==> State(i) == MatchOf(commands[i], t)
        invariant forall i :: index <= i < |commands| ==> State(i) == MatchOf(commands[i], typed)
        invariant implicit <==> exists i :: 0 <= i < index && MatchOf(commands[i], t) == FULL && commands[i].implicitWrite
      {
        assert StateIs(index, typed);
        var one := UpdateOne(index, ch, length);
        assert StateIs(index, t);
        implicit := implicit || one;
      }
      typed := t;
    }

    ghost function States(): (s: seq<bv8>)
      reads buf
      requires Fits()
      ensures |s| == |commands| && forall i :: 0 <= i < |commands| ==> s[i] == State(i)
    {
      seq(|commands|, i requires 0 <= i < |commands| reads buf => State(i))
    }

    /** A whole name: typed character by character, and searched for at its end or as soon as a command with an implicit write
        matches. */
    method Resolve(input: seq<byte>, newline: bool) returns (o: Outcome, used: nat)
      requires Fits() && input != []
      modifies this, buf
      ensures 0 < used <= |input| && Chosen(commands, input[..used], newline && used == |input|, o)
      ensures (used < |input| ==> Implied(commands, input[..used])) && forall k :: 0 < k < used ==> !Implied(commands, input[..k])
    {
      Prepare();
      used := 0;
      var implicit := false;
      while used < |input| && !implicit
        invariant used <= |input| && Valid() && typed == Uppers(input[..used]) && (used == 0 ==> !implicit)
        invariant used > 0 ==> (implicit <==> Implied(commands, input[..used]))
        invariant forall k :: 0 < k < used ==> !Implied(commands, input[..k])
      {
        UppersMore(input, used);
        implicit := Type(Upper(input[used]), used + 1);
        used := used + 1;
        forall i | 0 <= i < |commands| ensures MatchOf(commands[i], typed) == FULL <==> Named(commands[i], input[..used]) {
          MatchNames(commands[i], input[..used]);
        }
      }
      forall i | 0 <= i < |commands| ensures State(i) == MatchOf(commands[i], typed) {
        assert StateIs(i, typed);
      }
      assert States() == Compared(commands, typed);
      o := Search(newline && used == |input|);
      ChosenByName(commands, input[..used], newline && used == |input|, o);
    }

    /** search_command over the whole table. */
    method Search(newline: bool) returns (o: Outcome)
      requires Valid()
      ensures Resolves(States(), newline, o)
    {
      ghost var states := States();
      var index, count: nat, cmd: nat, some := 0, 0, 0, false;
      while true
        invariant index < |commands| == |states| && Searched(states, index, count, cmd) && (some <==> count > 0)
        decreases |commands| - index
      {
        var s := State(index);
        assert s == states[index];
        SearchOn(states, index, count, cmd, newline);
        if s == PARTIAL {
          if some && index + 1 == |commands| {
            EndOfSearch(states, newline, count + 1, index);
            return if newline then NotFound else Error;
          }
          cmd, count, some := index, count + 1, true;
        } else if s == FULL {
          return Found(index);
        }
        index := index + 1;
        if index >= |commands| {
          EndOfSearch(states, newline, count, cmd);
          if !some {
            return if newline then NotFound else Error;
          }
          return if count == 1 then Found(cmd) else NotFound;
        }
      }
    }
  }
}
