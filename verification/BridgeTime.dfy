/** Idle deadlines on the bridge (main.go): every read and every write sets a deadline one
    timeout ahead on its own side of its connection. Time passes only while each pending
    operation is within its deadline and no goroutine is about to act. A timeout of zero
    switches the deadlines off. */
module BridgeTime {
  import opened Text
  import opened Hex
  import opened Bridge

  /** A bridge with a clock, the four deadlines of its two connections, and for each
      direction the time its last operation completed. */
  datatype Timed = Timed(
    s: State,
    now: nat,
    aReadDeadline: nat,
    bWriteDeadline: nat,
    bReadDeadline: nat,
    aWriteDeadline: nat,
    lastAB: nat,
    lastBA: nat)
  {
    function Last(d: Direction): nat {
      if d.AToB? then lastAB else lastBA
    }

    /** The deadline of the operation a direction is waiting in. */
    function PendingDeadline(d: Direction): nat {
      if d.AToB? then
        if s.ab.phase.Reading? then aReadDeadline else bWriteDeadline
      else
        if s.ba.phase.Reading? then bReadDeadline else aWriteDeadline
    }

    predicate Pending(d: Direction) {
      s.dialed && !Ended(s.Get(d))
    }
  }

  datatype TimedEvent = Act(e: Event) | Wait(delay: nat)

  function TimedInit(inAB: seq<byte>, inBA: seq<byte>): Timed {
    Timed(Init(inAB, inBA), 0, 0, 0, 0, 0, 0, 0)
  }

  /** Steps that need no peer: they are taken before time passes. */
  predicate Urgent(e: Event) {
    e.Receive? || e.CloseDialed? || e.CloseAccepted? || (e.Local? && (e.step.CloseWrite? || e.step.Send?))
  }

  ghost predicate NothingUrgent(s: State) {
    forall e :: Urgent(e) ==> !Enabled(s, e)
  }

  ghost predicate TimedEnabled(t: Timed, e: TimedEvent, timeout: nat) {
    match e
    case Act(a) => Enabled(t.s, a)
    case Wait(delay) =>
      && delay > 0 && NothingUrgent(t.s)
      && (timeout > 0 && t.Pending(AToB) ==> t.now + delay <= t.PendingDeadline(AToB))
      && (timeout > 0 && t.Pending(BToA) ==> t.now + delay <= t.PendingDeadline(BToA))
  }

  predicate Completes(e: Event, d: Direction) {
    e.Local? && e.d == d && (e.step.Read? || e.step.Write?)
  }

  /** The deadlines an action leaves: the operation a direction begins next sets its own. */
  function TimedApply(t: Timed, e: TimedEvent, timeout: nat): Timed
    requires match e case Act(a) => Enabled(t.s, a) case Wait(_) => true
  {
    match e
    case Wait(delay) => t.(now := t.now + delay)
    case Act(a) =>
      var s' := Apply(t.s, a);
      var begunAB := (a.Dial? && a.ok) || Completes(a, AToB);
      var begunBA := (a.Dial? && a.ok) || Completes(a, BToA);
      Timed(s', t.now,
        if begunAB && s'.ab.phase.Reading? then t.now + timeout else t.aReadDeadline,
        if begunAB && s'.ab.phase.Writing? then t.now + timeout else t.bWriteDeadline,
        if begunBA && s'.ba.phase.Reading? then t.now + timeout else t.bReadDeadline,
        if begunBA && s'.ba.phase.Writing? then t.now + timeout else t.aWriteDeadline,
        if begunAB then t.now else t.lastAB,
        if begunBA then t.now else t.lastBA)
  }

  function Later(x: nat, y: nat): nat {
    if x > y then x else y
  }

  ghost predicate TimedInv(t: Timed, timeout: nat) {
    && Inv(t.s)
    && t.lastAB <= t.now && t.lastBA <= t.now
    && (timeout > 0 ==> forall d :: t.Pending(d) ==>
          t.now <= t.PendingDeadline(d) == t.Last(d) + timeout)
    && (t.s.dialed && Ended(t.s.ab) && Ended(t.s.ba) && t.s.stage != Done ==>
          t.now == Later(t.lastAB, t.lastBA))
    && (forall d :: t.s.dialed && Ended(t.s.Get(d)) && !t.s.Get(d).phase.Reported? ==> t.now == t.Last(d))
  }

  lemma TimedInvInit(inAB: seq<byte>, inBA: seq<byte>, timeout: nat)
    ensures TimedInv(TimedInit(inAB, inBA), timeout)
  {
    InvInit(inAB, inBA);
  }

  /** When both directions have ended and the bridge is not done, something is urgent. */
  lemma EndedIsUrgent(s: State)
    requires Inv(s) && s.dialed && s.stage != Done
    requires Ended(s.ab) && Ended(s.ba)
    ensures !NothingUrgent(s)
  {
    hide CopyInv;
    if s.ab.phase.Copied? {
      assert Enabled(s, Local(AToB, CloseWrite));
    } else if s.ba.phase.Copied? {
      assert Enabled(s, Local(BToA, CloseWrite));
    } else if s.ab.phase.HalfClosed? {
      SendNeverBlocks(s, AToB);
      assert Enabled(s, Local(AToB, Send));
    } else if s.ba.phase.HalfClosed? {
      SendNeverBlocks(s, BToA);
      assert Enabled(s, Local(BToA, Send));
    } else if s.stage == Waiting {
      assert |s.received + s.channel| == 2;
      assert Enabled(s, Receive);
    } else if s.stage == Closing {
      assert Enabled(s, CloseDialed);
    } else {
      assert Enabled(s, CloseAccepted);
    }
  }

  lemma UnreportedIsUrgent(s: State, d: Direction)
    requires Inv(s) && s.dialed && Ended(s.Get(d)) && !s.Get(d).phase.Reported?
    ensures !NothingUrgent(s)
  {
    hide CopyInv;
    if s.Get(d).phase.Copied? {
      assert Enabled(s, Local(d, CloseWrite));
    } else {
      SendNeverBlocks(s, d);
      assert Enabled(s, Local(d, Send));
    }
  }

  lemma TimedInvWait(t: Timed, delay: nat, timeout: nat)
    requires TimedInv(t, timeout) && TimedEnabled(t, Wait(delay), timeout)
    ensures TimedInv(TimedApply(t, Wait(delay), timeout), timeout)
  {
    hide Inv, NothingUrgent, Enabled;
    if t.s.dialed && Ended(t.s.ab) && Ended(t.s.ba) && t.s.stage != Done {
      EndedIsUrgent(t.s);
    }
    forall d | t.s.dialed && Ended(t.s.Get(d)) && !t.s.Get(d).phase.Reported?
      ensures false
    {
      UnreportedIsUrgent(t.s, d);
    }
  }

  /** What an action means for one direction's progress. */
  lemma ActionOnDirection(s: State, a: Event, d: Direction)
    requires Inv(s) && Enabled(s, a)
    ensures var s' := Apply(s, a);
            && Inv(s')
            && (s'.dialed <==> s.dialed || (a.Dial? && a.ok))
            && (a.Dial? ==> !s.dialed && s'.Get(d).phase.Reading?)
            && (!s.dialed ==> !a.Local?)
            && (Completes(a, d) ==> s.dialed && !Ended(s.Get(d)))
            && (!Completes(a, d) && !Ended(s.Get(d)) ==> s'.Get(d) == s.Get(d))
            && (!Completes(a, d) ==> (Ended(s'.Get(d)) <==> Ended(s.Get(d))))
            && (s.Get(d).phase.Reported? ==> s'.Get(d) == s.Get(d))
  {
    hide CopyInv, OutcomesInv;
    InvStep(s, a);
    EventOnDirection(s, a, d);
  }

  lemma DoneIsFinal(s: State, a: Event)
    requires Inv(s) && s.stage == Done
    ensures !Enabled(s, a)
  {
    hide CopyInv;
    assert |s.received + s.channel| >= |s.received|;
  }

  lemma TimedInvAct(t: Timed, a: Event, timeout: nat)
    requires TimedInv(t, timeout) && TimedEnabled(t, Act(a), timeout)
    ensures TimedInv(TimedApply(t, Act(a), timeout), timeout)
  {
    hide Inv, Enabled, Apply;
    if t.s.stage == Done {
      DoneIsFinal(t.s, a);
    }
    ActionOnDirection(t.s, a, AToB);
    ActionOnDirection(t.s, a, BToA);
    DeadlineAfterAct(t, a, timeout, AToB);
    DeadlineAfterAct(t, a, timeout, BToA);
  }

  lemma DeadlineAfterAct(t: Timed, a: Event, timeout: nat, d: Direction)
    requires TimedInv(t, timeout) && TimedEnabled(t, Act(a), timeout)
    ensures var u := TimedApply(t, Act(a), timeout);
            timeout > 0 && u.Pending(d) ==> u.now <= u.PendingDeadline(d) == u.Last(d) + timeout
  {
    hide Inv, Enabled, Apply;
    ActionOnDirection(t.s, a, d);
    var u := TimedApply(t, Act(a), timeout);
    assert u.s.Get(d).phase.Reading? || u.s.Get(d).phase.Writing? || Ended(u.s.Get(d));
    if Completes(a, d) {
      assert u.Last(d) == u.now;
    } else if !a.Dial? {
      assert u.Pending(d) ==> t.Pending(d) && u.PendingDeadline(d) == t.PendingDeadline(d);
    }
  }

  // ------------------------------------------------------------------------ runs

  ghost predicate TimedRun(t: Timed, es: seq<TimedEvent>, u: Timed, timeout: nat)
    decreases |es|
  {
    if es == [] then t == u
    else TimedEnabled(t, es[0], timeout) && TimedRun(TimedApply(t, es[0], timeout), es[1..], u, timeout)
  }

  lemma {:induction false} TimedRunInv(t: Timed, es: seq<TimedEvent>, u: Timed, timeout: nat)
    requires TimedInv(t, timeout) && TimedRun(t, es, u, timeout)
    ensures TimedInv(u, timeout)
    decreases |es|
  {
    hide TimedInv, TimedApply, Enabled;
    if es != [] {
      match es[0] {
        case Act(a) => TimedInvAct(t, a, timeout);
        case Wait(delay) => TimedInvWait(t, delay, timeout);
      }
      TimedRunInv(TimedApply(t, es[0], timeout), es[1..], u, timeout);
    }
  }

  ghost predicate TimedReachable(inAB: seq<byte>, inBA: seq<byte>, u: Timed, timeout: nat) {
    exists es :: TimedRun(TimedInit(inAB, inBA), es, u, timeout)
  }

  /** At every moment of every run, a direction that has not ended waits in an operation
      whose deadline is one timeout after its previous one completed; so one that has
      completed nothing for longer has ended, and a bridge with both directions that quiet
      is done, both connections closed. */
  lemma QuietBridgeEnds(inAB: seq<byte>, inBA: seq<byte>, u: Timed, timeout: nat)
    requires TimedReachable(inAB, inBA, u, timeout) && timeout > 0
    ensures forall d :: u.Pending(d) ==> u.now <= u.PendingDeadline(d) == u.Last(d) + timeout
    ensures forall d :: u.s.dialed && u.now > u.Last(d) + timeout ==> u.s.Get(d).phase.Reported?
    ensures u.s.dialed && u.now > u.lastAB + timeout && u.now > u.lastBA + timeout ==>
      u.s.stage == Done && u.s.aClosed && u.s.bClosed
  {
    hide TimedRun, CopyInv, OutcomesInv;
    var es :| TimedRun(TimedInit(inAB, inBA), es, u, timeout);
    TimedInvInit(inAB, inBA, timeout);
    TimedRunInv(TimedInit(inAB, inBA), es, u, timeout);
    assert u.s.Get(AToB) == u.s.ab && u.s.Get(BToA) == u.s.ba;
  }

  // ------------------------------------------------- quiet, told from the events alone

  /** The time that passes over a list of events. */
  function Waits(es: seq<TimedEvent>): nat {
    if es == [] then 0 else Waits(es[1..]) + if es[0].Wait? then es[0].delay else 0
  }

  /** Whether an event is a step of a direction. */
  predicate StepOf(e: TimedEvent, d: Direction) {
    e.Act? && e.e.Local? && e.e.d == d
  }

  ghost predicate NoStepOf(es: seq<TimedEvent>, d: Direction) {
    forall k :: 0 <= k < |es| ==> !StepOf(es[k], d)
  }

  /** The clock shows the time that has passed. */
  lemma {:induction false} ClockRuns(t: Timed, es: seq<TimedEvent>, u: Timed, timeout: nat)
    requires TimedRun(t, es, u, timeout)
    ensures u.now == t.now + Waits(es)
    decreases |es|
  {
    hide Enabled, Apply;
    if es != [] {
      ClockRuns(TimedApply(t, es[0], timeout), es[1..], u, timeout);
    }
  }

  /** An event that is no step of a pending direction leaves it pending in the same
      operation, under the same deadline. */
  lemma OthersLeaveDeadline(t: Timed, e: TimedEvent, timeout: nat, d: Direction)
    requires TimedInv(t, timeout) && TimedEnabled(t, e, timeout) && t.Pending(d) && !StepOf(e, d)
    ensures var u := TimedApply(t, e, timeout);
            u.Pending(d) && u.PendingDeadline(d) == t.PendingDeadline(d) && u.Last(d) == t.Last(d)
  {
    hide Inv, Enabled, Apply;
    if e.Act? {
      ActionOnDirection(t.s, e.e, d);
      EventOnDirection(t.s, e.e, d);
    }
  }

  lemma {:induction false} QuietSpan(t: Timed, es: seq<TimedEvent>, u: Timed, timeout: nat, d: Direction)
    requires TimedInv(t, timeout) && t.Pending(d) && TimedRun(t, es, u, timeout) && NoStepOf(es, d)
    ensures TimedInv(u, timeout) && u.Pending(d)
    ensures u.PendingDeadline(d) == t.PendingDeadline(d) && u.Last(d) == t.Last(d)
    decreases |es|
  {
    hide TimedInv, TimedApply, Enabled;
    if es != [] {
      match es[0] {
        case Act(a) => TimedInvAct(t, a, timeout);
        case Wait(delay) => TimedInvWait(t, delay, timeout);
      }
      assert !StepOf(es[0], d);
      OthersLeaveDeadline(t, es[0], timeout, d);
      assert forall k :: 0 <= k < |es[1..]| ==> es[1..][k] == es[k + 1];
      QuietSpan(TimedApply(t, es[0], timeout), es[1..], u, timeout, d);
    }
  }

  /** Whatever the other direction does meanwhile, no more than one timeout passes over
      any stretch of a run in which a pending direction takes no step. */
  lemma QuietAtMostTimeout(t: Timed, es: seq<TimedEvent>, u: Timed, timeout: nat, d: Direction)
    requires TimedInv(t, timeout) && timeout > 0 && t.Pending(d)
    requires TimedRun(t, es, u, timeout) && NoStepOf(es, d)
    ensures Waits(es) <= timeout
  {
    hide Inv, TimedRun, NoStepOf, Waits;
    QuietSpan(t, es, u, timeout, d);
    ClockRuns(t, es, u, timeout);
  }

  /** The action with which a direction begins to wait: a successful dial, or its own read
      or write before. */
  predicate Begins(a: Event, d: Direction) {
    (a.Dial? && a.ok) || (a.Local? && a.d == d && (a.step.Read? || a.step.Write?))
  }

  /** And a pending direction has the whole timeout, counted from its own last operation:
      its deadline lies ahead by what is left of it, and `Last` is when it was. */
  lemma DeadlineFromOwnOperation(t: Timed, a: Event, es: seq<TimedEvent>, u: Timed, timeout: nat, d: Direction)
    requires TimedInv(t, timeout) && timeout > 0 && TimedEnabled(t, Act(a), timeout) && Begins(a, d)
    requires TimedRun(TimedApply(t, Act(a), timeout), es, u, timeout) && NoStepOf(es, d) && u.Pending(d)
    ensures TimedInv(u, timeout)
    ensures u.PendingDeadline(d) == u.now - Waits(es) + timeout
    ensures u.Last(d) == u.now - Waits(es)
  {
    hide Inv, TimedRun, NoStepOf, Waits, Enabled, Apply;
    var v := TimedApply(t, Act(a), timeout);
    TimedInvAct(t, a, timeout);
    BeginsNow(t, a, timeout, d);
    ClockRuns(v, es, u, timeout);
    if v.Pending(d) {
      QuietSpan(v, es, u, timeout, d);
    } else {
      EndedStays(v, es, u, timeout, d);
    }
  }

  lemma BeginsNow(t: Timed, a: Event, timeout: nat, d: Direction)
    requires TimedInv(t, timeout) && timeout > 0 && TimedEnabled(t, Act(a), timeout) && Begins(a, d)
    ensures var v := TimedApply(t, Act(a), timeout);
            && v.now == t.now && v.s.dialed && v.Last(d) == v.now
            && (v.Pending(d) ==> v.PendingDeadline(d) == v.now + timeout)
  {
    hide Inv, Enabled, Apply;
    ActionOnDirection(t.s, a, d);
    TimedInvAct(t, a, timeout);
  }

  /** A direction that has ended does not begin to wait again. */
  lemma {:induction false} EndedStays(t: Timed, es: seq<TimedEvent>, u: Timed, timeout: nat, d: Direction)
    requires TimedInv(t, timeout) && t.s.dialed && !t.Pending(d) && TimedRun(t, es, u, timeout)
    ensures !u.Pending(d)
    decreases |es|
  {
    hide Inv, TimedInv, Enabled, Apply;
    if es != [] {
      match es[0] {
        case Act(a) =>
          TimedInvAct(t, a, timeout);
          StillEnded(t, a, timeout, d);
        case Wait(delay) => TimedInvWait(t, delay, timeout);
      }
      EndedStays(TimedApply(t, es[0], timeout), es[1..], u, timeout, d);
    }
  }

  lemma StillEnded(t: Timed, a: Event, timeout: nat, d: Direction)
    requires TimedInv(t, timeout) && t.s.dialed && !t.Pending(d) && TimedEnabled(t, Act(a), timeout)
    ensures var u := TimedApply(t, Act(a), timeout); u.s.dialed && !u.Pending(d)
  {
    hide Inv, Enabled, Apply;
    ActionOnDirection(t.s, a, d);
    EndedTakesNoOperation(t.s, a, d);
  }

  lemma EndedTakesNoOperation(s: State, a: Event, d: Direction)
    requires Enabled(s, a) && Ended(s.Get(d))
    ensures !Completes(a, d)
  {
  }

  /** While both directions wait for their peers, time can pass exactly as long as neither
      has been quiet for the whole timeout. */
  lemma WaitsExactly(u: Timed, timeout: nat, delay: nat)
    requires TimedInv(u, timeout) && timeout > 0 && u.Pending(AToB) && u.Pending(BToA)
    ensures TimedEnabled(u, Wait(delay), timeout)
       <==> 0 < delay && u.now + delay <= u.lastAB + timeout && u.now + delay <= u.lastBA + timeout
  {
    hide CopyInv;
    assert u.Last(AToB) == u.lastAB && u.Last(BToA) == u.lastBA;
    assert |u.s.received + u.s.channel| == 0;
    assert NothingUrgent(u.s);
  }

  /** Deadlines never stop the clock for good: until the bridge is done, time can pass or
      some actor, a timed-out operation included, can act. */
  lemma TimeOrAction(u: Timed, timeout: nat)
    requires TimedInv(u, timeout) && u.s.stage != Done
    ensures exists e :: TimedEnabled(u, e, timeout)
  {
    NoDeadlock(u.s);
    var a :| Enabled(u.s, a);
    assert TimedEnabled(u, Act(a), timeout);
  }

  /** An operation that reaches its deadline can only complete, and it can fail. */
  lemma DeadlineFires(u: Timed, timeout: nat, d: Direction, delay: nat)
    requires timeout > 0 && TimedInv(u, timeout) && u.Pending(d) && u.now == u.PendingDeadline(d)
    ensures !TimedEnabled(u, Wait(delay), timeout)
    ensures TimedEnabled(u, Act(Local(d, if u.s.Get(d).phase.Reading? then Read(0, ReadFailure) else Write(0, true))), timeout)
  {
  }

  /** With the timeout switched off no bound holds: silent peers keep a bridge open for any
      length of time. */
  lemma WithoutTimeoutQuietForever(quiet: nat)
    ensures exists u ::
      && TimedReachable([], [], u, 0) && u.Pending(AToB) && u.Pending(BToA)
      && u.now > u.lastAB + quiet && u.now > u.lastBA + quiet
  {
    var t0 := TimedInit([], []);
    var dial, wait := Act(Dial(true)), Wait(quiet + 1);
    var t1 := TimedApply(t0, dial, 0);
    var u := TimedApply(t1, wait, 0);
    assert TimedRun(u, [], u, 0);
    assert TimedRun(t1, [wait], u, 0);
    assert [dial, wait][1..] == [wait];
    assert TimedRun(t0, [dial, wait], u, 0);
  }
}
