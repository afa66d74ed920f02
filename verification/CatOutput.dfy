/** The two output machines of the AT command engine: command responses and unsolicited ones. */
module CatOutput {
  import opened Bytes

  datatype Who = Command | Unsolicited

  /** Doing something else, waiting to write a response, or writing it. */
  datatype Phase = Working | Waiting | Writing

  datatype Stage = Before | Body | After

  /** One machine: text is what is being written, up to its terminator, and body the content of its buffer. */
  datatype Machine = Machine(phase: Phase, stage: Stage, pos: nat, text: seq<byte>, body: seq<byte>, raw: bool)

  /** What a machine does when it is not writing: it goes on, or it has a response, with or without newlines around it. */
  datatype Work = GoOn | Respond(response: seq<byte>) | RespondRaw(response: seq<byte>)

  /** One call: what the handlers make of it, the line ending that is then in use, and whether a character could be written. */
  datatype Input = Input(work: Work, cr: bool, accepts: bool)

  function Newline(cr: bool): seq<byte> {
    if cr then [13, 10] else [10]
  }

  /** A newline follows the carriage return exactly if one has been read. */
  lemma NewlineIs(cr: bool)
    ensures Newline(cr)[|Newline(cr)| - 1] == 10 && (13 in Newline(cr) <==> cr) && (cr ==> Newline(cr) == [13] + Newline(false))
  {
  }

  predicate IsNewline(t: seq<byte>) {
    t == Newline(true) || t == Newline(false)
  }

  /** A response on its way out, and what has been written of it. */
  datatype Frame = Frame(who: Who, head: seq<byte>, body: seq<byte>, raw: bool, text: seq<byte>)

  /** All of it has been written: a newline, the body and a newline, which for a command is the same one; or just the body. */
  predicate Complete(f: Frame) {
    if f.raw then f.text == f.body
    else IsNewline(f.head) && if f.who.Command? then f.text == f.head + f.body + f.head else exists cr :: f.text == f.head + f.body + Newline(cr)
  }

  function Flatten(fs: seq<Frame>): seq<byte> {
    if fs == [] then [] else Flatten(fs[..|fs| - 1]) + fs[|fs| - 1].text
  }

  lemma FlattenMore(fs: seq<Frame>, f: Frame)
    ensures Flatten(fs + [f]) == Flatten(fs) + f.text
  {
    assert (fs + [f])[..|fs|] == fs;
  }

  /** Each response occupies one stretch of the output, and the stretches follow each other. */
  lemma {:induction false} OneStretch(fs: seq<Frame>, i: nat)
    requires i < |fs|
    ensures |Flatten(fs[..i])| + |fs[i].text| == |Flatten(fs[..i + 1])| <= |Flatten(fs)|
    ensures Flatten(fs)[|Flatten(fs[..i])|..|Flatten(fs[..i + 1])|] == fs[i].text
  {
    assert fs[..i + 1][..i] == fs[..i];
    if i + 1 == |fs| {
      assert fs[..i + 1] == fs;
    } else {
      var n := |fs| - 1;
      OneStretch(fs[..n], i);
      assert fs[..n][..i] == fs[..i] && fs[..n][..i + 1] == fs[..i + 1];
    }
  }

  lemma LastGrows(fs: seq<Frame>, c: byte)
    requires fs != []
    ensures var f := fs[|fs| - 1]; Flatten(fs[..|fs| - 1] + [f.(text := f.text + [c])]) == Flatten(fs) + [c]
  {
    var f := fs[|fs| - 1];
    FlattenMore(fs[..|fs| - 1], f.(text := f.text + [c]));
    assert Flatten(fs[..|fs| - 1]) + (f.text + [c]) == Flatten(fs[..|fs| - 1]) + f.text + [c];
  }

  /** What machine m has written of its frame f. */
  predicate Written(m: Machine, f: Frame) {
    && f.body == m.body && f.raw == m.raw && m.pos <= |m.text|
    && if m.raw then m.stage.After? && m.text == m.body && f.text == m.text[..m.pos]
       else
         match m.stage
         case Before => IsNewline(m.text) && f.head == m.text && f.text == m.text[..m.pos]
         case Body => IsNewline(f.head) && m.text == m.body && f.text == f.head + m.body[..m.pos]
         case After =>
           && IsNewline(f.head) && IsNewline(m.text) && f.text == f.head + m.body + m.text[..m.pos]
           && (f.who.Command? ==> m.text == f.head)
  }

  /** A machine about to write. */
  predicate Ready(m: Machine) {
    m.pos == 0 && if m.raw then m.stage.After? && m.text == m.body else m.stage.Before? && IsNewline(m.text)
  }

  lemma ReadyWritten(m: Machine, f: Frame)
    requires Ready(m) && f.head == m.text && f.body == m.body && f.raw == m.raw && f.text == []
    ensures Written(m.(phase := Writing), f)
  {
    assert m.text[..0] == [];
  }

  /** process_io_write at the end of a text: the next part, or the response is out. */
  function NextPart(m: Machine, cr: bool): Machine {
    match m.stage
    case Before => m.(pos := 0, text := m.body, stage := Body)
    case Body => m.(pos := 0, text := Newline(cr), stage := After)
    case After => m.(phase := Working)
  }

  lemma NextPartWritten(m: Machine, f: Frame, cr: bool)
    requires Written(m, f) && m.phase.Writing? && m.pos == |m.text| && (f.who.Command? && !m.raw ==> f.head == Newline(cr))
    ensures !m.stage.After? ==> Written(NextPart(m, cr), f)
    ensures m.stage.After? ==> Complete(f)
  {
    assert m.text[..m.pos] == m.text;
    match m.stage
    case Before => assert f.text == f.head + m.body[..0];
    case Body =>
      assert m.body[..m.pos] == m.body;
      assert f.text == f.head + m.body + Newline(cr)[..0];
    case After =>
      if !m.raw {
        assert f.text == f.head + f.body + Newline(true) || f.text == f.head + f.body + Newline(false);
      }
  }

  lemma CharWritten(m: Machine, f: Frame)
    requires Written(m, f) && m.phase.Writing? && m.pos < |m.text|
    ensures Written(m.(pos := m.pos + 1), f.(text := f.text + [m.text[m.pos]]))
  {
    assert m.text[..m.pos + 1] == m.text[..m.pos] + [m.text[m.pos]];
  }

  /** What a handler leaves to be written. */
  datatype Response = Response(body: seq<byte>, raw: bool)

  /** Only the command machine has responses without newlines. */
  predicate Responds(who: Who, work: Work) {
    work.Respond? || (work.RespondRaw? && who.Command?)
  }

  /** The responses of one machine among the frames, in order. */
  function Bodies(fs: seq<Frame>, who: Who): seq<Response> {
    if fs == [] then []
    else
      var f := fs[|fs| - 1];
      Bodies(fs[..|fs| - 1], who) + if f.who == who then [Response(f.body, f.raw)] else []
  }

  lemma BodiesMore(fs: seq<Frame>, f: Frame, who: Who)
    ensures Bodies(fs + [f], who) == Bodies(fs, who) + if f.who == who then [Response(f.body, f.raw)] else []
  {
    assert (fs + [f])[..|fs|] == fs;
  }

  /** The responses of one machine but for the last frame, if that is being written. */
  function Finished(fs: seq<Frame>, writing: bool, who: Who): seq<Response> {
    Bodies(if writing && fs != [] then fs[..|fs| - 1] else fs, who)
  }

  /** All frames are complete, but for the last one while it is being written. */
  predicate FramesOk(fs: seq<Frame>, writing: bool) {
    (forall i :: 0 <= i < |fs| - 1 ==> Complete(fs[i])) && (fs != [] && !writing ==> Complete(fs[|fs| - 1]))
  }

  /** A frame is begun. */
  lemma FrameBegun(fs: seq<Frame>, f: Frame, gs: seq<Frame>)
    requires FramesOk(fs, false) && f.text == [] && gs == fs + [f]
    ensures FramesOk(gs, true) && Flatten(gs) == Flatten(fs) && |gs| == |fs| + 1 && gs[|fs|] == f
    ensures Finished(gs, true, Command) == Finished(fs, false, Command) && Finished(gs, true, Unsolicited) == Finished(fs, false, Unsolicited)
    ensures Bodies(gs, Command) == Bodies(fs, Command) + if f.who.Command? then [Response(f.body, f.raw)] else []
    ensures Bodies(gs, Unsolicited) == Bodies(fs, Unsolicited) + if f.who.Unsolicited? then [Response(f.body, f.raw)] else []
  {
    FlattenMore(fs, f);
    assert (fs + [f])[..|fs|] == fs;
    BodiesMore(fs, f, Command);
    BodiesMore(fs, f, Unsolicited);
  }

  /** A frame is complete. */
  lemma FinishedEnd(fs: seq<Frame>, who: Who)
    ensures Finished(fs, true, who) <= Finished(fs, false, who)
  {
    if fs != [] {
      assert fs == fs[..|fs| - 1] + [fs[|fs| - 1]];
    }
  }

  /** The frames once one more character of the last one is written. */
  function Grown(fs: seq<Frame>, c: byte): (gs: seq<Frame>)
    requires fs != []
    ensures |gs| == |fs| && gs[..|gs| - 1] == fs[..|fs| - 1]
    ensures gs[|gs| - 1] == fs[|fs| - 1].(text := fs[|fs| - 1].text + [c])
  {
    fs[..|fs| - 1] + [fs[|fs| - 1].(text := fs[|fs| - 1].text + [c])]
  }

  lemma FrameGrown(fs: seq<Frame>, c: byte)
    requires fs != [] && FramesOk(fs, true)
    ensures FramesOk(Grown(fs, c), true) && Flatten(Grown(fs, c)) == Flatten(fs) + [c]
    ensures forall who :: Finished(Grown(fs, c), true, who) == Finished(fs, true, who)
    ensures forall who :: Bodies(Grown(fs, c), who) == Bodies(fs, who)
  {
    var gs := Grown(fs, c);
    LastGrows(fs, c);
    BodiesGrow(fs, c, Command);
    BodiesGrow(fs, c, Unsolicited);
    forall i | 0 <= i < |gs| - 1 ensures Complete(gs[i]) {
      assert gs[i] == gs[..|gs| - 1][i] == fs[i];
    }
  }

  /** What has been written of a frame is no part of the response. */
  lemma BodiesGrow(fs: seq<Frame>, c: byte, who: Who)
    requires fs != []
    ensures var f := fs[|fs| - 1];
            var gs := fs[..|fs| - 1] + [f.(text := f.text + [c])];
            Bodies(gs, who) == Bodies(fs, who) && Finished(gs, true, who) == Finished(fs, true, who)
  {
    BodiesMore(fs[..|fs| - 1], fs[|fs| - 1].(text := fs[|fs| - 1].text + [c]), who);
    var gs := fs[..|fs| - 1] + [fs[|fs| - 1].(text := fs[|fs| - 1].text + [c])];
    assert gs[..|gs| - 1] == fs[..|fs| - 1];
  }

  /** The response a machine holds while it waits. */
  function Held(m: Machine): seq<Response> {
    if m.phase.Waiting? then [Response(m.body, m.raw)] else []
  }

  /** How many characters and ends of parts are still to come, at most: a newline has one or two characters. */
  function ToGo(m: Machine): nat
    requires m.pos <= |m.text|
  {
    |m.text| - m.pos + 1 + match m.stage case Before => |m.body| + 4 case Body => 3 case After => 0
  }

  /** What one call makes of a machine, in which phase the other one is. A machine that works waits once it has a response; one that waits
      writes as soon as the other one does not; one that writes goes on, or works again. */
  predicate Goes(who: Who, phase: Phase, work: Work, other: Phase, phase': Phase) {
    match phase
    case Working => phase' == if Responds(who, work) then Waiting else Working
    case Waiting => phase' == if other.Writing? then Waiting else Writing
    case Writing => !phase'.Waiting?
  }

  /** The response that a handler leaves for a machine which it finds working. */
  function Asked(who: Who, phase: Phase, work: Work): seq<Response> {
    if !phase.Working? || !Responds(who, work) then [] else [Response(work.response, work.RespondRaw?)]
  }

  /** The phases of the unsolicited machine and of the command machine, and what each has been given to write. */
  datatype View = View(uns: Phase, cmd: Phase, forUns: seq<Response>, forCmd: seq<Response>)

  /** One call serves the unsolicited machine and then the command machine, each with what its handler leaves. */
  predicate Turn(v: View, i: (Input, Input), v': View) {
    && Goes(Unsolicited, v.uns, i.0.work, v.cmd, v'.uns) && Goes(Command, v.cmd, i.1.work, v'.uns, v'.cmd)
    && v'.forUns == v.forUns + Asked(Unsolicited, v.uns, i.0.work) && v'.forCmd == v.forCmd + Asked(Command, v.cmd, i.1.work)
  }

  /** What is seen before each call and after the last one. */
  ghost predicate Turns(vs: seq<View>, inputs: seq<(Input, Input)>) {
    |vs| == |inputs| + 1 && forall k :: 0 <= k < |inputs| ==> TurnAt(vs, inputs, k)
  }

  predicate TurnAt(ps: seq<View>, inputs: seq<(Input, Input)>, k: nat)
    requires k < |inputs| && k + 1 < |ps|
  {
    Turn(ps[k], inputs[k], ps[k + 1])
  }

  lemma TurnsMore(vs: seq<View>, v: View, inputs: seq<(Input, Input)>, k: nat)
    requires |vs| == k + 1 && k < |inputs| && (forall j :: 0 <= j < k ==> TurnAt(vs, inputs, j)) && Turn(vs[k], inputs[k], v)
    ensures forall j :: 0 <= j < k + 1 ==> TurnAt(vs + [v], inputs, j)
  {
    forall j | 0 <= j < k + 1 ensures TurnAt(vs + [v], inputs, j) {
      assert j < k ==> TurnAt(vs, inputs, j);
    }
  }

  /** The terminal takes every character. */
  predicate Accepting(inputs: seq<(Input, Input)>) {
    forall k :: 0 <= k < |inputs| ==> inputs[k].0.accepts && inputs[k].1.accepts
  }

  lemma PrefixTwice(a: seq<Response>, b: seq<Response>, c: seq<Response>)
    requires a <= b <= c
    ensures a <= c
  {
  }

  class Engine {
    var cmd: Machine
    var uns: Machine
    var cr: bool
    /** Everything written to the terminal. */
    var out: seq<byte>

    /** The same, response by response. */
    ghost var frames: seq<Frame>

    /** The responses that handlers left for each machine. */
    ghost var forCmd: seq<Response>
    ghost var forUns: seq<Response>

    function At(who: Who): Machine
      reads this
    {
      if who.Command? then cmd else uns
    }

    ghost predicate MachineOk(who: Who)
      reads this
    {
      && (At(who).phase.Waiting? ==> Ready(At(who)))
      && (who.Command? && cmd.phase.Waiting? && !cmd.raw ==> cmd.text == Newline(cr))
      && (who.Command? && cmd.phase.Writing? && !cmd.raw ==> frames != [] && frames[|frames| - 1].head == Newline(cr))
      && (At(who).phase.Writing? ==> frames != [] && frames[|frames| - 1].who == who && Written(At(who), frames[|frames| - 1]))
    }

    ghost function Given(who: Who): seq<Response>
      reads this
    {
      if who.Command? then forCmd else forUns
    }

    /** The responses of a machine that are completely written. */
    ghost function Done(who: Who): seq<Response>
      reads this
    {
      Finished(frames, cmd.phase.Writing? || uns.phase.Writing?, who)
    }

    /** Every response left for a machine is framed in its turn, or held while it waits; nothing else is framed. */
    ghost predicate InTurn(who: Who)
      reads this
    {
      Bodies(frames, who) + Held(At(who)) == Given(who)
    }

    /** How many more calls it takes a machine to be done with its response, if the terminal takes every character. */
    ghost function Pending(who: Who): nat
      reads this
      requires MachineOk(Command) && MachineOk(Unsolicited)
    {
      var m, o := At(who), Other(who);
      match m.phase
      case Working => 0
      case Writing => ToGo(m)
      case Waiting =>
        ToGo(m) + 1 + if o.phase.Writing? then ToGo(o) else if o.phase.Waiting? && who.Command? then ToGo(o) + 1 else 0
    }

    ghost function Now(): View
      reads this
    {
      View(uns.phase, cmd.phase, forUns, forCmd)
    }

    /** The machines never write at the same time; the output is one response after the other, and only the last of them, that of
        the machine that is writing, may be incomplete. */
    ghost predicate Valid()
      reads this
    {
      && !(cmd.phase.Writing? && uns.phase.Writing?)
      && MachineOk(Command) && MachineOk(Unsolicited)
      && out == Flatten(frames)
      && FramesOk(frames, cmd.phase.Writing? || uns.phase.Writing?)
      && InTurn(Command) && InTurn(Unsolicited)
    }

    constructor ()
      ensures Valid() && out == [] && cmd.phase.Working? && uns.phase.Working? && Given(Command) == [] == Given(Unsolicited)
    {
      cmd, uns := Machine(Working, Before, 0, [], [], false), Machine(Working, Before, 0, [], [], false);
      cr, out, frames, forCmd, forUns := false, [], [], [], [];
    }

    method Set(who: Who, m: Machine)
      modifies this`cmd, this`uns
      ensures At(who) == m
      ensures if who.Command? then uns == old(uns) else cmd == old(cmd)
    {
      if who.Command? {
        cmd := m;
      } else {
        uns := m;
      }
    }

    ghost function GivenOther(who: Who): seq<Response>
      reads this
    {
      if who.Command? then forUns else forCmd
    }

    function Other(who: Who): Machine
      reads this
    {
      if who.Command? then uns else cmd
    }

    /** A machine that is not writing: a handler runs and may leave a response. */
    method DoWork(who: Who, work: Work, newCr: bool)
      requires Valid() && At(who).phase.Working?
      modifies this`cmd, this`uns, this`cr, this`forCmd, this`forUns
      ensures Valid() && Other(who) == old(Other(who)) && Given(who) == old(Given(who)) + Asked(who, Working, work)
      ensures GivenOther(who) == old(GivenOther(who)) && cr == (if who.Command? then newCr else old(cr))
      ensures At(who) == if !Responds(who, work) then old(At(who))
                         else if work.Respond? then Machine(Waiting, Before, 0, Newline(cr), work.response, false)
                         else Machine(Waiting, After, 0, work.response, work.response, true)
    {
      if who.Command? {
        SetCr(newCr);
      }
      if Responds(who, work) {
        match work
        case Respond(b) => Leave(who, Machine(Waiting, Before, 0, Newline(cr), b, false));
        case RespondRaw(b) => Leave(who, Machine(Waiting, After, 0, b, b, true));
        case GoOn =>
      }
    }

    /** A carriage return has been read, or a command is over. */
    method SetCr(newCr: bool)
      requires Valid() && cmd.phase.Working?
      modifies this`cr
      ensures Valid() && cr == newCr
    {
      cr := newCr;
    }

    /** start_flush_io_buffer: a response is left to be written. */
    method Leave(who: Who, m: Machine)
      requires Valid() && At(who).phase.Working? && m.phase.Waiting? && Ready(m) && (m.raw || m.text == Newline(cr))
      modifies this`cmd, this`uns, this`forCmd, this`forUns
      ensures Valid() && At(who) == m && Other(who) == old(Other(who))
      ensures Given(who) == old(Given(who)) + [Response(m.body, m.raw)] && GivenOther(who) == old(GivenOther(who))
    {
      if who.Command? {
        forCmd := forCmd + [Response(m.body, m.raw)];
      } else {
        forUns := forUns + [Response(m.body, m.raw)];
      }
      Set(who, m);
    }

    /** process_io_write_wait: writing starts unless the other machine is writing. */
    method Wait(who: Who)
      requires Valid() && At(who).phase.Waiting?
      modifies this`cmd, this`uns, this`frames
      ensures Valid() && Other(who) == old(Other(who))
      ensures At(who) == old(At(who)).(phase := if old(Other(who)).phase.Writing? then Waiting else Writing)
      ensures Done(Command) == old(Done(Command)) && Done(Unsolicited) == old(Done(Unsolicited))
    {
      if !Other(who).phase.Writing? {
        Begin(who);
      }
    }

    method Begin(who: Who)
      requires Valid() && At(who).phase.Waiting? && !Other(who).phase.Writing?
      modifies this`cmd, this`uns, this`frames
      ensures Valid() && Other(who) == old(Other(who)) && At(who) == old(At(who)).(phase := Writing)
      ensures Done(Command) == old(Done(Command)) && Done(Unsolicited) == old(Done(Unsolicited))
    {
      var m := At(who);
      ghost var f := Frame(who, m.text, m.body, m.raw, []);
      ghost var gs := frames + [f];
      FrameBegun(frames, f, gs);
      ReadyWritten(m, f);
      frames := gs;
      Set(who, m.(phase := Writing));
      assert MachineOk(who);
    }

    /** process_io_write: one character, or on to the next part. */
    method Write(who: Who, accepts: bool)
      requires Valid() && At(who).phase.Writing?
      modifies this`cmd, this`uns, this`out, this`frames
      ensures Valid() && Other(who) == old(Other(who)) && old(out) <= out
      ensures !At(who).phase.Waiting? && (accepts && At(who).phase.Writing? ==> ToGo(At(who)) < old(ToGo(At(who))))
      ensures old(Done(Command)) <= Done(Command) && old(Done(Unsolicited)) <= Done(Unsolicited)
      ensures old(At(who)).pos < |old(At(who)).text| && accepts ==> out == old(out) + [old(At(who)).text[old(At(who)).pos]]
    {
      var m := At(who);
      if m.pos == |m.text| {
        EndOfPart(who);
      } else if accepts {
        WriteChar(who);
      }
    }

    method EndOfPart(who: Who)
      requires Valid() && At(who).phase.Writing? && At(who).pos == |At(who).text|
      modifies this`cmd, this`uns
      ensures Valid() && Other(who) == old(Other(who)) && At(who) == NextPart(old(At(who)), cr)
      ensures old(Done(Command)) <= Done(Command) && old(Done(Unsolicited)) <= Done(Unsolicited)
    {
      NextPartWritten(At(who), frames[|frames| - 1], cr);
      FinishedEnd(frames, Command);
      FinishedEnd(frames, Unsolicited);
      Set(who, NextPart(At(who), cr));
    }

    method WriteChar(who: Who)
      requires Valid() && At(who).phase.Writing? && At(who).pos < |At(who).text|
      modifies this`cmd, this`uns, this`out, this`frames
      ensures Valid() && Other(who) == old(Other(who)) && out == old(out) + [old(At(who)).text[old(At(who)).pos]]
      ensures At(who) == old(At(who)).(pos := old(At(who)).pos + 1)
      ensures Done(Command) == old(Done(Command)) && Done(Unsolicited) == old(Done(Unsolicited))
    {
      var m := At(who);
      CharWritten(m, frames[|frames| - 1]);
      FrameGrown(frames, m.text[m.pos]);
      out := out + [m.text[m.pos]];
      frames := Grown(frames, m.text[m.pos]);
      Set(who, m.(pos := m.pos + 1));
    }

    /** One machine is served. */
    method Step(who: Who, i: Input)
      requires Valid()
      modifies this
      ensures Valid() && old(out) <= out && Other(who) == old(Other(who))
      ensures Goes(who, old(At(who)).phase, i.work, Other(who).phase, At(who).phase)
      ensures Given(who) == old(Given(who)) + Asked(who, old(At(who)).phase, i.work) && GivenOther(who) == old(GivenOther(who))
      ensures old(Done(Command)) <= Done(Command) && old(Done(Unsolicited)) <= Done(Unsolicited)
      ensures old(At(who)).phase.Waiting? ==> ToGo(At(who)) == old(ToGo(At(who)))
      ensures old(At(who)).phase.Writing? && i.accepts && At(who).phase.Writing? ==> ToGo(At(who)) < old(ToGo(At(who)))
    {
      match At(who).phase
      case Working => DoWork(who, i.work, i.cr);
      case Waiting => Wait(who);
      case Writing => Write(who, i.accepts);
    }

    /** cat_service: first the unsolicited machine, then the command machine. */
    method Service(i: (Input, Input))
      requires Valid()
      modifies this
      ensures Valid() && old(out) <= out && Turn(old(Now()), i, Now())
      ensures old(Done(Command)) <= Done(Command) && old(Done(Unsolicited)) <= Done(Unsolicited)
      ensures i.0.accepts && i.1.accepts && old(Pending(Unsolicited)) > 0 ==> Pending(Unsolicited) < old(Pending(Unsolicited))
      ensures i.0.accepts && i.1.accepts && old(Pending(Command)) > 0 ==> Pending(Command) < old(Pending(Command))
    {
      Step(Unsolicited, i.0);
      Step(Command, i.1);
    }

    /** A response takes at most this many calls: its own characters, ends of parts and newlines, and those of one before it. */
    lemma PendingBound(who: Who)
      requires Valid()
      ensures Pending(who) <= |At(who).body| + |Other(who).body| + 16
    {
    }

    /** A machine that is not writing, waiting or not, has framed all that it was given but what it holds. */
    lemma AllDone(who: Who)
      requires Valid()
      ensures Pending(who) == 0 ==> Done(who) == Given(who)
    {
      if (cmd.phase.Writing? || uns.phase.Writing?) && frames != [] {
        assert frames == frames[..|frames| - 1] + [frames[|frames| - 1]];
        BodiesMore(frames[..|frames| - 1], frames[|frames| - 1], who);
      }
    }

    /** Of what a machine once had, all is written, or so many calls are left of all it would take. */
    predicate Fair(given: seq<Response>, done: seq<Response>, pending: nat, all: nat, k: nat) {
      given <= done || pending + k <= all
    }

    lemma FairOn(given: seq<Response>, now: seq<Response>, done: seq<Response>, pending: nat, all: nat, k: nat, done': seq<Response>, pending': nat)
      requires Fair(given, done, pending, all, k) && given <= now && done <= done' && (pending == 0 ==> done == now)
      requires pending > 0 ==> pending' < pending
      ensures Fair(given, done', pending', all, k + 1)
    {
    }

    /** One call of cat_service among others, for machines that had u and c before all of them, which would then take nu and nc calls. */
    method Call(inputs: seq<(Input, Input)>, k: nat, ghost vs: seq<View>, ghost u: seq<Response>, ghost nu: nat, ghost c: seq<Response>,
                ghost nc: nat) returns (ghost vs': seq<View>)
      requires Valid() && k < |inputs| && |vs| == k + 1 && vs[k] == Now() && forall j :: 0 <= j < k ==> TurnAt(vs, inputs, j)
      requires u <= Given(Unsolicited) && c <= Given(Command)
      requires Accepting(inputs) ==> Fair(u, Done(Unsolicited), Pending(Unsolicited), nu, k) && Fair(c, Done(Command), Pending(Command), nc, k)
      modifies this
      ensures Valid() && old(out) <= out && vs' == vs + [Now()] && forall j :: 0 <= j < k + 1 ==> TurnAt(vs', inputs, j)
      ensures u <= Given(Unsolicited) && c <= Given(Command)
      ensures Accepting(inputs) ==> Fair(u, Done(Unsolicited), Pending(Unsolicited), nu, k + 1)
      ensures Accepting(inputs) ==> Fair(c, Done(Command), Pending(Command), nc, k + 1)
    {
      ghost var du, pu, gu, dc, pc, gc := Done(Unsolicited), Pending(Unsolicited), Given(Unsolicited), Done(Command), Pending(Command), Given(Command);
      AllDone(Unsolicited);
      AllDone(Command);
      Service(inputs[k]);
      TurnsMore(vs, Now(), inputs, k);
      vs' := vs + [Now()];
      if Accepting(inputs) {
        FairOn(u, gu, du, pu, nu, k, Done(Unsolicited), Pending(Unsolicited));
        FairOn(c, gc, dc, pc, nc, k, Done(Command), Pending(Command));
      }
    }

    /** cat_service, any number of times. The machines never write at once, and the output is one response after another. vs is what each
        call finds: what is framed for a machine, and then what it holds, is exactly what handlers left while it was working, in that
        order; a machine that waits writes as soon as the other does not; and enough calls in which the terminal takes its character
        complete whatever was left before. */
    method Run(inputs: seq<(Input, Input)>) returns (ghost vs: seq<View>)
      requires Valid()
      modifies this
      ensures Valid() && old(out) <= out && out == Flatten(frames) && !(cmd.phase.Writing? && uns.phase.Writing?)
      ensures forall i :: 0 <= i < |frames| - 1 ==> Complete(frames[i])
      ensures Turns(vs, inputs) && vs[0] == old(Now()) && vs[|inputs|] == Now()
      ensures Bodies(frames, Unsolicited) + Held(uns) == forUns && Bodies(frames, Command) + Held(cmd) == forCmd
      ensures Accepting(inputs) && |inputs| >= old(Pending(Unsolicited)) ==> old(forUns) <= Done(Unsolicited)
      ensures Accepting(inputs) && |inputs| >= old(Pending(Command)) ==> old(forCmd) <= Done(Command)
    {
      vs := [Now()];
      ghost var u, nu, c, nc := Given(Unsolicited), Pending(Unsolicited), Given(Command), Pending(Command);
      for k := 0 to |inputs|
        invariant Valid() && old(out) <= out && |vs| == k + 1 && vs[0] == old(Now()) && vs[k] == Now()
        invariant forall j :: 0 <= j < k ==> TurnAt(vs, inputs, j)
        invariant u <= Given(Unsolicited) && c <= Given(Command)
        invariant Accepting(inputs) ==> Fair(u, Done(Unsolicited), Pending(Unsolicited), nu, k)
        invariant Accepting(inputs) ==> Fair(c, Done(Command), Pending(Command), nc, k)
      {
        vs := Call(inputs, k, vs, u, nu, c, nc);
      }
      AllDone(Unsolicited);
      AllDone(Command);
      assert InTurn(Unsolicited) && InTurn(Command);
    }
  }
}
