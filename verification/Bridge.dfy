/** The bidirectional bridge (main.go) as a state machine over its atomic steps: two copy
    goroutines, the channel they report on, the waiting caller and the order in which
    connections are opened and closed. Connection `a` is the accepted one, `b` the dialed
    one. The peers choose chunk sizes, ends of stream and failures. */
module Bridge {
  import opened Text
  import opened Hex

  const COPY_BUFFER: nat := 32768
  const CHANNEL_CAPACITY: nat := 2

  datatype Direction = AToB | BToA {
    function Other(): Direction {
      if AToB? then BToA else AToB
    }
  }

  // ------------------------------------------------------------- one direction

  datatype ReadStatus = More | EndOfStream | ReadFailure

  /** The error of a copy; `Clean` is nil. */
  datatype Verdict = Clean | ReadError | WriteError | ShortWrite

  datatype Phase =
    | Reading
    | Writing(chunk: seq<byte>, status: ReadStatus)
    | Copied(err: Verdict)
    | HalfClosed(err: Verdict)
    | Reported(err: Verdict)

  /** The copy loop of one direction: bytes read, bytes the destination accepted, and the
      count it will report. */
  datatype Copy = Copy(read: nat, delivered: seq<byte>, count: nat, phase: Phase)

  const START := Copy(0, [], 0, Reading)

  /** What one direction does by itself. */
  datatype Step =
    | Read(n: nat, status: ReadStatus)
    | Write(accepted: nat, failed: bool)
    | CloseWrite
    | Send

  predicate CanStep(input: seq<byte>, c: Copy, e: Step) {
    match e
    case Read(n, status) =>
      && c.phase.Reading? && n <= COPY_BUFFER && c.read + n <= |input|
      && (n > 0 || status != More)
      && (status == EndOfStream ==> c.read + n == |input|)
    case Write(n, _) => c.phase.Writing? && n <= |c.phase.chunk|
    case CloseWrite => c.phase.Copied?
    case Send => c.phase.HalfClosed?
  }

  /** The end of a read without failure of the write after it. */
  function AfterChunk(status: ReadStatus): Phase {
    match status
    case More => Reading
    case EndOfStream => Copied(Clean)
    case ReadFailure => Copied(ReadError)
  }

  function StepCopy(input: seq<byte>, c: Copy, e: Step): Copy
    requires CanStep(input, c, e)
  {
    match e
    case Read(n, status) =>
      c.(read := c.read + n,
         phase := if n > 0 then Writing(input[c.read..c.read + n], status) else AfterChunk(status))
    case Write(n, failed) =>
      c.(delivered := c.delivered + c.phase.chunk[..n],
         count := c.count + n,
         phase := if failed then Copied(WriteError)
                  else if n < |c.phase.chunk| then Copied(ShortWrite)
                  else AfterChunk(c.phase.status))
    case CloseWrite => c.(phase := HalfClosed(c.phase.err))
    case Send => c.(phase := Reported(c.phase.err))
  }

  predicate Ended(c: Copy) {
    c.phase.Copied? || c.phase.HalfClosed? || c.phase.Reported?
  }

  /** What holds of a direction at every moment. */
  ghost predicate CopyInv(input: seq<byte>, c: Copy) {
    && c.read <= |input| && c.count == |c.delivered|
    && match c.phase
       case Reading => c.delivered == input[..c.read]
       case Writing(chunk, status) =>
         && 0 < |chunk| <= c.read
         && c.delivered == input[..c.read - |chunk|]
         && chunk == input[c.read - |chunk|..c.read]
         && (status == EndOfStream ==> c.read == |input|)
       case Copied(err) => EndInv(input, c, err)
       case HalfClosed(err) => EndInv(input, c, err)
       case Reported(err) => EndInv(input, c, err)
  }

  ghost predicate EndInv(input: seq<byte>, c: Copy, err: Verdict)
    requires c.read <= |input|
  {
    && c.delivered <= input[..c.read]
    && (err == Clean ==> c.delivered == input)
    && (err == ReadError ==> c.delivered == input[..c.read])
  }

  lemma CopyInvStep(input: seq<byte>, c: Copy, e: Step)
    requires CopyInv(input, c) && CanStep(input, c, e)
    ensures CopyInv(input, StepCopy(input, c, e))
  {
    if e.Write? {
      Regroup(input, c.read - |c.phase.chunk|, c.read, e.accepted);
    } else if e.Read? {
      assert input[..|input|] == input;
    }
  }

  lemma Regroup(input: seq<byte>, i: nat, j: nat, n: nat)
    requires i <= j <= |input| && n <= j - i
    ensures input[..i] + input[i..j][..n] == input[..i + n] && input[..|input|] == input
  {
  }

  /** Which steps change what the other actors see of a direction. */
  lemma StepVisible(input: seq<byte>, c: Copy, e: Step)
    requires CanStep(input, c, e)
    ensures var t := StepCopy(input, c, e);
            && !c.phase.Reported?
            && (c.phase.HalfClosed? <==> e.Send?) && (c.phase.Copied? <==> e.CloseWrite?)
            && (t.phase.Reported? <==> e.Send?) && (t.phase.HalfClosed? <==> e.CloseWrite?)
            && (e.Send? ==> t.count == c.count && t.phase.err == c.phase.err)
  {
  }

  /** An upper bound on the steps a direction has left. */
  function CopyMeasure(input: seq<byte>, c: Copy): nat
    requires c.read <= |input|
  {
    match c.phase
    case Reading => 2 * (|input| - c.read) + 4
    case Writing(_, _) => 2 * (|input| - c.read) + 5
    case Copied(_) => 2
    case HalfClosed(_) => 1
    case Reported(_) => 0
  }

  lemma CopyMeasureDrops(input: seq<byte>, c: Copy, e: Step)
    requires CopyInv(input, c) && CanStep(input, c, e)
    ensures CopyMeasure(input, StepCopy(input, c, e)) < CopyMeasure(input, c)
  {
  }

  // -------------------------------------------------------------- the whole bridge

  /** What a goroutine sends: its direction, byte count and error. */
  datatype Outcome = Outcome(dir: Direction, bytes: nat, err: Verdict)

  datatype Stage = Dialing | DialFailed | Waiting | Closing | ClosingAccepted | Done

  datatype State = State(
    inAB: seq<byte>,
    inBA: seq<byte>,
    ab: Copy,
    ba: Copy,
    channel: seq<Outcome>,
    received: seq<Outcome>,
    stage: Stage,
    dialed: bool,
    aWriteClosed: bool,
    bWriteClosed: bool,
    aClosed: bool,
    bClosed: bool)
  {
    function Input(d: Direction): seq<byte> {
      if d.AToB? then inAB else inBA
    }

    function Get(d: Direction): Copy {
      if d.AToB? then ab else ba
    }

    function Put(d: Direction, c: Copy): State {
      if d.AToB? then this.(ab := c) else this.(ba := c)
    }

    /** The destination's write side has been shut down. */
    predicate WriteClosed(d: Direction) {
      if d.AToB? then bWriteClosed else aWriteClosed
    }

    predicate DestinationClosed(d: Direction) {
      if d.AToB? then bClosed else aClosed
    }

    predicate SourceClosed(d: Direction) {
      if d.AToB? then aClosed else bClosed
    }
  }

  function Init(inAB: seq<byte>, inBA: seq<byte>): State {
    State(inAB, inBA, START, START, [], [], Dialing, false, false, false, false, false)
  }

  datatype Event =
    | Dial(ok: bool)
    | Local(d: Direction, step: Step)
    | Receive
    | CloseDialed
    | CloseAccepted

  predicate Enabled(s: State, e: Event) {
    match e
    case Dial(_) => s.stage.Dialing?
    case Local(d, step) =>
      && s.dialed && CanStep(s.Input(d), s.Get(d), step)
      && (step.Send? ==> |s.channel| < CHANNEL_CAPACITY)
    case Receive => s.stage.Waiting? && s.channel != []
    case CloseDialed => s.stage.Closing?
    case CloseAccepted => s.stage.ClosingAccepted? || s.stage.DialFailed?
  }

  /** The effects of a direction's step outside its own copy loop. */
  function AfterStep(s: State, d: Direction, step: Step): State
    requires CanStep(s.Input(d), s.Get(d), step)
  {
    if step.CloseWrite? then
      if d.AToB? then s.(bWriteClosed := true) else s.(aWriteClosed := true)
    else if step.Send? then
      s.(channel := s.channel + [Outcome(d, s.Get(d).count, s.Get(d).phase.err)])
    else s
  }

  function Apply(s: State, e: Event): State
    requires Enabled(s, e)
  {
    match e
    case Dial(ok) => if ok then s.(stage := Waiting, dialed := true) else s.(stage := DialFailed)
    case Local(d, step) => AfterStep(s, d, step).Put(d, StepCopy(s.Input(d), s.Get(d), step))
    case Receive =>
      s.(received := s.received + [s.channel[0]], channel := s.channel[1..],
         stage := if |s.received| == 1 then Closing else Waiting)
    case CloseDialed => s.(bClosed := true, stage := ClosingAccepted)
    case CloseAccepted => s.(aClosed := true, stage := Done)
  }

  // ------------------------------------------------------------------- invariant

  function Sent(c: Copy): nat {
    if c.phase.Reported? then 1 else 0
  }

  /** The outcomes reported so far, received or still in the channel: one for each
      direction that has sent, and what it sent. */
  ghost predicate OutcomesInv(s: State) {
    var all := s.received + s.channel;
    && |all| == Sent(s.ab) + Sent(s.ba)
    && (|all| >= 1 ==> SentBy(all[0], s.ab, s.ba))
    && (|all| == 2 ==> SentBy(all[1], s.ab, s.ba) && all[0].dir != all[1].dir)
  }

  predicate SentBy(o: Outcome, ab: Copy, ba: Copy) {
    var c := if o.dir.AToB? then ab else ba;
    c.phase.Reported? && o.bytes == c.count && o.err == c.phase.err
  }

  ghost predicate StageInv(s: State) {
    && (!s.dialed ==> s.ab == START && s.ba == START)
    && (s.stage.Dialing? || s.stage.DialFailed? ==> !s.dialed && !s.aClosed && !s.bClosed)
    && (s.stage.Waiting? ==> s.dialed && |s.received| < 2 && !s.aClosed && !s.bClosed)
    && (s.stage.Closing? ==> s.dialed && |s.received| == 2 && !s.aClosed && !s.bClosed)
    && (s.stage.ClosingAccepted? ==> s.dialed && |s.received| == 2 && !s.aClosed && s.bClosed)
    && (s.stage.Done? ==> s.aClosed && (s.bClosed <==> s.dialed) && (s.dialed ==> |s.received| == 2))
  }

  ghost predicate Inv(s: State) {
    && CopyInv(s.inAB, s.ab) && CopyInv(s.inBA, s.ba)
    && OutcomesInv(s)
    && StageInv(s)
    && (s.bWriteClosed <==> s.ab.phase.HalfClosed? || s.ab.phase.Reported?)
    && (s.aWriteClosed <==> s.ba.phase.HalfClosed? || s.ba.phase.Reported?)
  }

  lemma InvInit(inAB: seq<byte>, inBA: seq<byte>)
    ensures Inv(Init(inAB, inBA))
  {
  }

  lemma OutcomesAfterLocal(s: State, d: Direction, step: Step)
    requires Inv(s) && Enabled(s, Local(d, step))
    ensures OutcomesInv(Apply(s, Local(d, step)))
  {
    hide CopyInv, CanStep, StepCopy, StageInv;
    StepVisible(s.Input(d), s.Get(d), step);
    if step.Send? {
      OutcomesAfterSend(s, d);
    }
  }

  lemma OutcomesAfterSend(s: State, d: Direction)
    requires OutcomesInv(s) && Enabled(s, Local(d, Send))
    ensures OutcomesInv(Apply(s, Local(d, Send)))
  {
    hide CanStep, StepCopy;
    StepVisible(s.Input(d), s.Get(d), Send);
    var t := Apply(s, Local(d, Send));
    var all := s.received + s.channel;
    assert t.received + t.channel == all + [Outcome(d, s.Get(d).count, s.Get(d).phase.err)];
    assert |all| >= 1 ==> all[0].dir != d;
  }

  lemma InvLocal(s: State, d: Direction, step: Step)
    requires Inv(s) && Enabled(s, Local(d, step))
    ensures Inv(Apply(s, Local(d, step)))
  {
    hide CopyInv, CanStep, StepCopy, OutcomesInv;
    CopyInvStep(s.Input(d), s.Get(d), step);
    StepVisible(s.Input(d), s.Get(d), step);
    OutcomesAfterLocal(s, d, step);
  }

  lemma InvReceive(s: State)
    requires Inv(s) && Enabled(s, Receive)
    ensures Inv(Apply(s, Receive))
  {
    hide CopyInv;
    var t := Apply(s, Receive);
    assert t.received + t.channel == s.received + s.channel;
  }

  /** Every step of every actor keeps the invariant. */
  lemma InvStep(s: State, e: Event)
    requires Inv(s) && Enabled(s, e)
    ensures Inv(Apply(s, e))
  {
    match e {
      case Local(d, step) => InvLocal(s, d, step);
      case Receive => InvReceive(s);
      case Dial(_) => hide CopyInv;
      case CloseDialed => hide CopyInv;
      case CloseAccepted => hide CopyInv;
    }
  }

  // ------------------------------------------------------------------------ runs

  /** What an event does to a direction: its own step, or nothing. */
  lemma EventOnDirection(s: State, e: Event, d: Direction)
    requires Enabled(s, e)
    ensures var t := Apply(s, e);
            && t.Input(d) == s.Input(d)
            && (if e.Local? && e.d == d then
                  CanStep(s.Input(d), s.Get(d), e.step) && t.Get(d) == StepCopy(s.Input(d), s.Get(d), e.step)
                else t.Get(d) == s.Get(d))
  {
    hide CanStep, StepCopy, AfterStep;
    if e.Local? {
      OutsideTheLoop(s, e.d, e.step);
    }
  }

  lemma OutsideTheLoop(s: State, d: Direction, step: Step)
    requires CanStep(s.Input(d), s.Get(d), step)
    ensures var t := AfterStep(s, d, step);
            && t.ab == s.ab && t.ba == s.ba && t.inAB == s.inAB && t.inBA == s.inBA
            && t.stage == s.stage && t.dialed == s.dialed && t.received == s.received
  {
    hide CanStep;
  }

  /** `t` is reached from `s` by the events `es`, in that order. */
  predicate Run(s: State, es: seq<Event>, t: State)
    decreases |es|
  {
    if es == [] then s == t
    else Enabled(s, es[0]) && Run(Apply(s, es[0]), es[1..], t)
  }

  lemma {:induction false} RunInv(s: State, es: seq<Event>, t: State)
    requires Inv(s) && Run(s, es, t)
    ensures Inv(t) && t.inAB == s.inAB && t.inBA == s.inBA
    decreases |es|
  {
    hide Inv, Enabled, Apply;
    if es != [] {
      InvStep(s, es[0]);
      EventOnDirection(s, es[0], AToB);
      EventOnDirection(s, es[0], BToA);
      RunInv(Apply(s, es[0]), es[1..], t);
    }
  }

  ghost predicate Reachable(inAB: seq<byte>, inBA: seq<byte>, t: State) {
    exists es :: Run(Init(inAB, inBA), es, t)
  }

  lemma ReachableInv(inAB: seq<byte>, inBA: seq<byte>, t: State)
    requires Reachable(inAB, inBA, t)
    ensures Inv(t) && t.inAB == inAB && t.inBA == inBA
  {
    var es :| Run(Init(inAB, inBA), es, t);
    InvInit(inAB, inBA);
    RunInv(Init(inAB, inBA), es, t);
  }

  /** In every interleaving, what a destination has accepted is an in-order prefix of what
      was read from its source, and the count is its length; a clean end has delivered
      the whole stream. */
  lemma DeliveredInOrder(inAB: seq<byte>, inBA: seq<byte>, t: State, d: Direction)
    requires Reachable(inAB, inBA, t)
    ensures var c, input := t.Get(d), if d.AToB? then inAB else inBA;
            && c.read <= |input|
            && c.delivered <= input[..c.read] && c.count == |c.delivered|
            && (Ended(c) && c.phase.err == Clean ==> c.delivered == input)
  {
    ReachableInv(inAB, inBA, t);
  }

  // ------------------------------------------------------------- half-close safety

  /** No write can start on a write side that is shut down or a closed connection, no read
      on a closed one, and a write side is shut down only after its own direction ended. */
  lemma HalfCloseSafe(s: State, d: Direction, step: Step)
    requires Inv(s) && Enabled(s, Local(d, step))
    ensures step.Write? ==> !s.WriteClosed(d) && !s.DestinationClosed(d)
    ensures step.Read? ==> !s.SourceClosed(d) && !s.DestinationClosed(d)
    ensures s.WriteClosed(d) ==> Ended(s.Get(d))
    ensures step.CloseWrite? ==> Ended(s.Get(d)) && !s.WriteClosed(d) && !s.DestinationClosed(d)
  {
    hide CopyInv;
    NothingClosedEarly(s);
  }

  /** Neither connection of a dialed bridge is closed before both directions have ended
      and reported. */
  lemma NothingClosedEarly(s: State)
    requires Inv(s)
    ensures s.dialed && (s.aClosed || s.bClosed) ==>
      s.ab.phase.Reported? && s.ba.phase.Reported? && s.aWriteClosed && s.bWriteClosed
    ensures s.aClosed && s.dialed ==> s.bClosed
  {
    hide CopyInv;
    assert |s.received + s.channel| >= |s.received|;
  }

  predicate WritesTo(es: seq<Event>, d: Direction) {
    exists k :: 0 <= k < |es| && es[k].Local? && es[k].d == d && es[k].step.Write?
  }

  /** Once a write side is shut down, no continuation of the run writes to it again. */
  lemma {:induction false} NoWriteAfterHalfClose(s: State, es: seq<Event>, t: State, d: Direction)
    requires Inv(s) && s.WriteClosed(d) && Run(s, es, t)
    ensures !WritesTo(es, d) && t.WriteClosed(d)
    decreases |es|
  {
    hide Inv, Enabled, Apply, CanStep, StepCopy;
    if es != [] {
      var e := es[0];
      InvStep(s, e);
      SidesAfterStep(s, e);
      if e.Local? { HalfCloseSafe(s, e.d, e.step); }
      NoWriteAfterHalfClose(Apply(s, e), es[1..], t, d);
      assert es == [e] + es[1..];
    }
  }

  lemma SidesAfterStep(s: State, e: Event)
    requires Enabled(s, e)
    ensures var t := Apply(s, e);
            && (t.bWriteClosed <==> s.bWriteClosed || e == Local(AToB, CloseWrite))
            && (t.aWriteClosed <==> s.aWriteClosed || e == Local(BToA, CloseWrite))
            && (t.bClosed <==> s.bClosed || e == CloseDialed)
            && (t.aClosed <==> s.aClosed || e == CloseAccepted)
  {
    hide CanStep, StepCopy, AfterStep;
    if e.Local? {
      SidesAfterLocal(s, e.d, e.step);
    }
  }

  lemma SidesAfterLocal(s: State, d: Direction, step: Step)
    requires CanStep(s.Input(d), s.Get(d), step)
    ensures var t := AfterStep(s, d, step);
            && (t.bWriteClosed <==> s.bWriteClosed || (d == AToB && step == CloseWrite))
            && (t.aWriteClosed <==> s.aWriteClosed || (d == BToA && step == CloseWrite))
            && t.aClosed == s.aClosed && t.bClosed == s.bClosed
  {
    hide CanStep;
  }

  /** Over every run, the write side of the dialed connection is shut down exactly by the end
      of the direction towards it, that of the accepted one by the end of the other, and
      each connection is closed by its own close. */
  lemma {:induction false} SidesAfterRun(s: State, es: seq<Event>, t: State)
    requires Run(s, es, t)
    ensures t.bWriteClosed <==> s.bWriteClosed || Local(AToB, CloseWrite) in es
    ensures t.aWriteClosed <==> s.aWriteClosed || Local(BToA, CloseWrite) in es
    ensures t.bClosed <==> s.bClosed || CloseDialed in es
    ensures t.aClosed <==> s.aClosed || CloseAccepted in es
    decreases |es|
  {
    hide Enabled, Apply;
    if es != [] {
      SidesAfterStep(s, es[0]);
      SidesAfterRun(Apply(s, es[0]), es[1..], t);
      assert es == [es[0]] + es[1..];
    }
  }

  /** Nothing one direction does, its half-close included, takes a step away from the other. */
  lemma OtherDirectionUndisturbed(s: State, d: Direction, mine: Step, theirs: Step)
    requires Inv(s) && Enabled(s, Local(d, mine)) && Enabled(s, Local(d.Other(), theirs))
    ensures Enabled(Apply(s, Local(d, mine)), Local(d.Other(), theirs))
    ensures Apply(s, Local(d, mine)).Get(d.Other()) == s.Get(d.Other())
  {
    hide CopyInv;
    InvLocal(s, d, mine);
    var t := Apply(s, Local(d, mine));
    assert |t.received + t.channel| == Sent(t.ab) + Sent(t.ba);
  }

  // ----------------------------------------------------- no deadlock, termination

  /** A send never finds the channel full. */
  lemma SendNeverBlocks(s: State, d: Direction)
    requires Inv(s) && s.Get(d).phase.HalfClosed?
    ensures Enabled(s, Local(d, Send))
  {
    hide CopyInv;
    assert |s.received + s.channel| == Sent(s.ab) + Sent(s.ba) <= 1;
  }

  /** A step a direction can always take until it has reported, if its peers answer. */
  function NextStep(input: seq<byte>, c: Copy): Step
    requires !c.phase.Reported? && c.read <= |input|
  {
    match c.phase
    case Reading =>
      if c.read < |input| then Read(1, More) else Read(0, EndOfStream)
    case Writing(chunk, _) => Write(|chunk|, false)
    case Copied(_) => CloseWrite
    case HalfClosed(_) => Send
  }

  /** No reachable state is stuck: until everything is closed some actor has a step. */
  lemma NoDeadlock(s: State)
    requires Inv(s) && s.stage != Done
    ensures exists e :: Enabled(s, e)
  {
    match s.stage {
      case Dialing => assert Enabled(s, Dial(true));
      case DialFailed => assert Enabled(s, CloseAccepted);
      case Closing => assert Enabled(s, CloseDialed);
      case ClosingAccepted => assert Enabled(s, CloseAccepted);
      case Waiting =>
        if !s.ab.phase.Reported? {
          if s.ab.phase.HalfClosed? { SendNeverBlocks(s, AToB); }
          assert Enabled(s, Local(AToB, NextStep(s.inAB, s.ab)));
        } else if !s.ba.phase.Reported? {
          if s.ba.phase.HalfClosed? { SendNeverBlocks(s, BToA); }
          assert Enabled(s, Local(BToA, NextStep(s.inBA, s.ba)));
        } else {
          assert |s.received + s.channel| == 2;
          assert Enabled(s, Receive);
        }
    }
  }

  /** A dial that fails is followed by closing the accepted connection, and nothing else. */
  lemma FailedDial(inAB: seq<byte>, inBA: seq<byte>)
    ensures exists t ::
      && Run(Init(inAB, inBA), [Dial(false), CloseAccepted], t)
      && t.stage == Done && t.aClosed && !t.bClosed && t.ab == START && t.ba == START
    ensures Enabled(Init(inAB, inBA), Dial(false)) &&
      forall e :: Enabled(Apply(Init(inAB, inBA), Dial(false)), e) ==> e == CloseAccepted
  {
    var s := Init(inAB, inBA);
    var s1 := Apply(s, Dial(false));
    var t := Apply(s1, CloseAccepted);
    assert Run(t, [], t);
    assert [CloseAccepted][1..] == [] && [Dial(false), CloseAccepted][1..] == [CloseAccepted];
    assert Run(s1, [CloseAccepted], t);
    assert Run(s, [Dial(false), CloseAccepted], t);
  }

  function StageMeasure(s: State): nat {
    match s.stage
    case Dialing => 5
    case Waiting => 4 - if |s.received| < 2 then |s.received| else 2
    case Closing => 2
    case ClosingAccepted => 1
    case DialFailed => 1
    case Done => 0
  }

  function Measure(s: State): nat
    requires s.ab.read <= |s.inAB| && s.ba.read <= |s.inBA|
  {
    CopyMeasure(s.inAB, s.ab) + CopyMeasure(s.inBA, s.ba) + StageMeasure(s)
  }

  lemma MeasureDrops(s: State, e: Event)
    requires Inv(s) && Enabled(s, e)
    ensures Inv(Apply(s, e)) && Measure(Apply(s, e)) < Measure(s)
  {
    hide Inv, CopyInv, OutcomesInv, CopyMeasure, CanStep, StepCopy, AfterStep;
    InvStep(s, e);
    ReadWithinInput(s);
    if e.Local? {
      OutsideTheLoop(s, e.d, e.step);
      DirectionInv(s, e.d);
      CopyMeasureDrops(s.Input(e.d), s.Get(e.d), e.step);
    } else {
      StageMeasureDrops(s, e);
    }
  }

  lemma DirectionInv(s: State, d: Direction)
    requires Inv(s)
    ensures CopyInv(s.Input(d), s.Get(d))
  {
    hide CopyInv, OutcomesInv, StageInv;
  }

  lemma ReadWithinInput(s: State)
    requires Inv(s)
    ensures s.ab.read <= |s.inAB| && s.ba.read <= |s.inBA|
  {
    hide OutcomesInv, StageInv;
  }

  lemma StageMeasureDrops(s: State, e: Event)
    requires Inv(s) && Enabled(s, e) && !e.Local?
    ensures var t := Apply(s, e);
            StageMeasure(t) < StageMeasure(s) && t.ab == s.ab && t.ba == s.ba && t.inAB == s.inAB && t.inBA == s.inBA
  {
    hide CopyInv, OutcomesInv;
  }

  lemma {:induction false} RunBounded(s: State, es: seq<Event>, t: State)
    requires Inv(s) && Run(s, es, t)
    ensures Inv(t) && |es| + Measure(t) <= Measure(s)
    decreases |es|
  {
    hide Inv, Measure;
    if es != [] {
      MeasureDrops(s, es[0]);
      RunBounded(Apply(s, es[0]), es[1..], t);
    }
  }

  /** Every run with finite sources is finite, and a run that cannot be continued has
      closed the accepted connection last and, if dialed, both connections. */
  lemma Termination(inAB: seq<byte>, inBA: seq<byte>, es: seq<Event>, t: State)
    requires Run(Init(inAB, inBA), es, t)
    ensures |es| <= 2 * (|inAB| + |inBA|) + 13
    ensures (forall e :: !Enabled(t, e)) ==> t.stage == Done && t.aClosed && (t.dialed <==> t.bClosed)
  {
    InvInit(inAB, inBA);
    RunBounded(Init(inAB, inBA), es, t);
    if t.stage != Done {
      NoDeadlock(t);
    }
  }

  // ------------------------------------------------------------------- the result

  datatype CopyResult = CopyResult(aToBBytes: nat, bToABytes: nat, aToBErr: Verdict, bToAErr: Verdict) {
    /** The error the bridge reports: the first direction's, else the second's. */
    function Err(): Verdict {
      if aToBErr != Clean then aToBErr else bToAErr
    }
  }

  function Record(r: CopyResult, o: Outcome): CopyResult {
    if o.dir.AToB? then r.(aToBBytes := o.bytes, aToBErr := o.err)
    else r.(bToABytes := o.bytes, bToAErr := o.err)
  }

  /** Sorts the outcomes into the result in the order they arrived. */
  method Collect(outcomes: seq<Outcome>) returns (result: CopyResult)
    ensures result == Collected(outcomes)
  {
    result := CopyResult(0, 0, Clean, Clean);
    for k := 0 to |outcomes|
      invariant result == Collected(outcomes[..k])
    {
      assert outcomes[..k + 1][..k] == outcomes[..k];
      result := Record(result, outcomes[k]);
    }
    assert outcomes[..|outcomes|] == outcomes;
  }

  function Collected(outcomes: seq<Outcome>): CopyResult {
    if outcomes == [] then CopyResult(0, 0, Clean, Clean)
    else Record(Collected(outcomes[..|outcomes| - 1]), outcomes[|outcomes| - 1])
  }

  /** Once two outcomes are in, they are one from each direction and the result pairs each
      direction with its own count and error, whichever arrived first. */
  lemma ResultIsPerDirection(s: State)
    requires Inv(s) && |s.received| == 2
    ensures s.ab.phase.Reported? && s.ba.phase.Reported?
    ensures Collected(s.received) == CopyResult(s.ab.count, s.ba.count, s.ab.phase.err, s.ba.phase.err)
    ensures Collected(s.received).Err() == Clean
       <==> s.ab.phase.err == Clean && s.ba.phase.err == Clean
    ensures s.ab.phase.err != Clean ==> Collected(s.received).Err() == s.ab.phase.err
    ensures s.ab.phase.err == Clean ==> Collected(s.received).Err() == s.ba.phase.err
  {
    hide CopyInv;
    var all := s.received + s.channel;
    assert all[0] == s.received[0] && all[1] == s.received[1];
    var first, second := s.received[0], s.received[1];
    assert s.received[..1] == [first] && s.received[..1][..0] == [];
    assert Collected([first]) == Record(CopyResult(0, 0, Clean, Clean), first) by {
      assert [first][..0] == [];
    }
  }

  // -------------------------------------------------------- schedule independence

  /** The steps of one direction, in order. */
  function Projection(es: seq<Event>, d: Direction): seq<Step> {
    if es == [] then []
    else if es[0].Local? && es[0].d == d then [es[0].step] + Projection(es[1..], d)
    else Projection(es[1..], d)
  }

  /** One direction run by itself. */
  function RunAlone(input: seq<byte>, c: Copy, steps: seq<Step>): Option<Copy>
    decreases |steps|
  {
    if steps == [] then Some(c)
    else if CanStep(input, c, steps[0]) then RunAlone(input, StepCopy(input, c, steps[0]), steps[1..])
    else None
  }

  /** In any interleaving each direction behaves as if it ran alone. */
  lemma {:induction false} DirectionsIndependent(s: State, es: seq<Event>, t: State, d: Direction)
    requires Run(s, es, t)
    ensures RunAlone(s.Input(d), s.Get(d), Projection(es, d)) == Some(t.Get(d))
    decreases |es|
  {
    hide CanStep, StepCopy, Enabled, Apply;
    if es != [] {
      EventOnDirection(s, es[0], d);
      DirectionsIndependent(Apply(s, es[0]), es[1..], t, d);
    }
  }

  /** Two completed runs in which each direction takes the same steps give the same
      result, whatever the interleaving and the order of the reports. */
  lemma ScheduleIndependent(inAB: seq<byte>, inBA: seq<byte>, es1: seq<Event>, t1: State, es2: seq<Event>, t2: State)
    requires Run(Init(inAB, inBA), es1, t1) && Run(Init(inAB, inBA), es2, t2)
    requires |t1.received| == |t2.received| == 2
    requires Projection(es1, AToB) == Projection(es2, AToB) && Projection(es1, BToA) == Projection(es2, BToA)
    ensures Collected(t1.received) == Collected(t2.received)
    ensures t1.ab == t2.ab && t1.ba == t2.ba
  {
    hide Inv, Run;
    var s := Init(inAB, inBA);
    InvInit(inAB, inBA);
    RunInv(s, es1, t1);
    RunInv(s, es2, t2);
    DirectionsIndependent(s, es1, t1, AToB);
    DirectionsIndependent(s, es1, t1, BToA);
    DirectionsIndependent(s, es2, t2, AToB);
    DirectionsIndependent(s, es2, t2, BToA);
    ResultIsPerDirection(t1);
    ResultIsPerDirection(t2);
  }

  // ------------------------------------------------------------------ clean runs

  /** A step with which no peer fails. */
  predicate Smooth(c: Copy, step: Step) {
    match step
    case Read(_, status) => status != ReadFailure
    case Write(n, failed) => !failed && c.phase.Writing? && n == |c.phase.chunk|
    case _ => true
  }

  predicate SmoothRun(s: State, es: seq<Event>)
    decreases |es|
  {
    es == [] ||
    (Enabled(s, es[0])
      && (es[0].Dial? ==> es[0].ok)
      && (es[0].Local? ==> Smooth(s.Get(es[0].d), es[0].step))
      && SmoothRun(Apply(s, es[0]), es[1..]))
  }

  predicate CleanSoFar(c: Copy) {
    && (Ended(c) ==> c.phase.err == Clean)
    && (c.phase.Writing? ==> c.phase.status != ReadFailure)
  }

  predicate AllClean(s: State) {
    && CleanSoFar(s.ab) && CleanSoFar(s.ba)
    && s.stage != DialFailed && (s.stage == Dialing || s.dialed)
  }

  lemma SmoothCopyStaysClean(input: seq<byte>, c: Copy, step: Step)
    requires CanStep(input, c, step) && CleanSoFar(c) && Smooth(c, step)
    ensures CleanSoFar(StepCopy(input, c, step))
  {
  }

  lemma SmoothStepStaysClean(s: State, e: Event)
    requires Enabled(s, e) && AllClean(s)
    requires (e.Dial? ==> e.ok) && (e.Local? ==> Smooth(s.Get(e.d), e.step))
    ensures AllClean(Apply(s, e))
  {
    hide CleanSoFar, CanStep, StepCopy, Smooth, AfterStep;
    EventOnDirection(s, e, AToB);
    EventOnDirection(s, e, BToA);
    if e.Local? {
      OutsideTheLoop(s, e.d, e.step);
      SmoothCopyStaysClean(s.Input(e.d), s.Get(e.d), e.step);
    }
  }

  lemma {:induction false} SmoothStaysClean(s: State, es: seq<Event>, t: State)
    requires Run(s, es, t) && SmoothRun(s, es) && AllClean(s)
    ensures AllClean(t)
    decreases |es|
  {
    hide Enabled, Apply, AllClean, Smooth;
    if es != [] {
      SmoothStepStaysClean(s, es[0]);
      SmoothStaysClean(Apply(s, es[0]), es[1..], t);
    }
  }

  /** If the dial succeeds and neither peer fails, every run that cannot be continued ends
      in the same result: both streams delivered whole and counted, no error. */
  lemma CleanRunsDeliverAll(inAB: seq<byte>, inBA: seq<byte>, es: seq<Event>, t: State)
    requires Run(Init(inAB, inBA), es, t) && SmoothRun(Init(inAB, inBA), es)
    requires forall e :: !Enabled(t, e)
    ensures t.ab.delivered == inAB && t.ba.delivered == inBA
    ensures Collected(t.received) == CopyResult(|inAB|, |inBA|, Clean, Clean)
    ensures t.aClosed && t.bClosed
  {
    hide Run, SmoothRun, Enabled;
    Termination(inAB, inBA, es, t);
    InvInit(inAB, inBA);
    RunInv(Init(inAB, inBA), es, t);
    SmoothStaysClean(Init(inAB, inBA), es, t);
    ResultIsPerDirection(t);
  }
}
