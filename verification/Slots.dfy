/** Limiter slots over time (main.go): the accept loops of a process together with the
    bridges their goroutines run, under the idle deadlines. A goroutine gives its slot back
    when its bridge is done, and time passes only while no goroutine is about to act. */
module Slots {
  import opened Hex
  import opened BridgeTime
  import B = Bridge
  import L = Listener

  /** The accept loops and, for each bridge goroutine, the bridge it runs, with a clock
      that starts when the goroutine does. */
  datatype Process = Process(sys: L.System, timed: seq<Timed>)

  datatype Event =
    | Loop(e: L.Event)
    | Start(l: nat, inAB: seq<byte>, inBA: seq<byte>)
    | Inside(k: nat, a: B.Event)
    | Delay(d: nat)

  /** A goroutine that has something to do before time passes, outside its bridge. */
  predicate Busy(phase: L.Phase, t: Timed) {
    phase.Spawned? || phase.Returned? || (phase.Bridging? && t.s.stage.Done?)
  }

  ghost predicate MayWait(phase: L.Phase, t: Timed, d: nat, timeout: nat) {
    !Busy(phase, t) && (phase.Bridging? ==> TimedEnabled(t, Wait(d), timeout))
  }

  ghost predicate Enabled(p: Process, e: Event, timeout: nat) {
    match e
    case Loop(x) =>
      !x.Spawn? && L.Enabled(p.sys, x) && (x.Return? ==> x.b < |p.timed| && p.timed[x.b].s.stage.Done?)
    case Start(l, _, _) => L.Enabled(p.sys, L.Spawn(l))
    case Inside(k, a) =>
      k < |p.timed| && k < |p.sys.bridges| && p.sys.bridges[k].phase.Bridging?
      && TimedEnabled(p.timed[k], Act(a), timeout)
    case Delay(d) =>
      d > 0 && |p.timed| == |p.sys.bridges|
      && forall k :: 0 <= k < |p.timed| ==> MayWait(p.sys.bridges[k].phase, p.timed[k], d, timeout)
  }

  ghost function Apply(p: Process, e: Event, timeout: nat): Process
    requires Enabled(p, e, timeout)
  {
    match e
    case Loop(x) => p.(sys := L.Apply(p.sys, x))
    case Start(l, inAB, inBA) => Process(L.Apply(p.sys, L.Spawn(l)), p.timed + [TimedInit(inAB, inBA)])
    case Inside(k, a) => p.(timed := p.timed[k := TimedApply(p.timed[k], Act(a), timeout)])
    case Delay(d) =>
      p.(timed := seq(|p.timed|, k requires 0 <= k < |p.timed| => TimedApply(p.timed[k], Wait(d), timeout)))
  }

  // ---------------------------------------------------------------------- invariant

  /** How far a goroutine's bridge is; until the slot is given back no time passes after the
      bridge is done. */
  ghost predicate GoroutineInv(phase: L.Phase, t: Timed, timeout: nat) {
    && TimedInv(t, timeout)
    && (phase.Spawned? ==> t.s.stage.Dialing?)
    && (phase.Returned? || phase.Released? ==> t.s.stage.Done?)
    && (!phase.Released? && t.s.stage.Done? && t.s.dialed ==> t.now == Later(t.lastAB, t.lastBA))
  }

  ghost predicate Inv(p: Process, timeout: nat) {
    && L.Inv(p.sys) && |p.timed| == |p.sys.bridges|
    && forall k :: 0 <= k < |p.timed| ==> GoroutineInv(p.sys.bridges[k].phase, p.timed[k], timeout)
  }

  /** A bridge that is done lets time pass. */
  lemma DoneMayWait(t: Timed, d: nat, timeout: nat)
    requires TimedInv(t, timeout) && t.s.stage.Done? && d > 0
    ensures TimedEnabled(t, Wait(d), timeout)
  {
    hide B.CopyInv;
    forall a ensures !B.Enabled(t.s, a) {
      DoneIsFinal(t.s, a);
    }
    assert |t.s.received + t.s.channel| >= |t.s.received|;
  }

  lemma GoroutineWaits(phase: L.Phase, t: Timed, d: nat, timeout: nat)
    requires GoroutineInv(phase, t, timeout) && MayWait(phase, t, d, timeout) && d > 0
    ensures GoroutineInv(phase, TimedApply(t, Wait(d), timeout), timeout)
  {
    hide TimedInv, TimedEnabled;
    if phase.Released? {
      DoneMayWait(t, d, timeout);
    }
    TimedInvWait(t, d, timeout);
  }

  lemma GoroutineActs(phase: L.Phase, t: Timed, a: B.Event, timeout: nat)
    requires GoroutineInv(phase, t, timeout) && phase.Bridging? && TimedEnabled(t, Act(a), timeout)
    ensures GoroutineInv(phase, TimedApply(t, Act(a), timeout), timeout)
  {
    hide B.CopyInv, B.OutcomesInv, B.CanStep, B.StepCopy, B.AfterStep;
    TimedInvAct(t, a, timeout);
    if a.Local? {
      B.OutsideTheLoop(t.s, a.d, a.step);
    }
    ClosingIsLate(t, a, timeout);
  }

  /** The step that makes a dialed bridge done is taken when both directions have ended. */
  lemma ClosingIsLate(t: Timed, a: B.Event, timeout: nat)
    requires TimedInv(t, timeout) && B.Enabled(t.s, a)
    ensures a.CloseAccepted? && t.s.dialed ==> t.now == Later(t.lastAB, t.lastBA)
  {
    hide B.CopyInv;
    assert |t.s.received + t.s.channel| >= |t.s.received|;
  }

  lemma BridgesAfterLoopStep(s: L.System, x: L.Event, k: nat)
    requires L.Enabled(s, x) && !x.Spawn? && k < |s.bridges|
    ensures var t := L.Apply(s, x);
            && |t.bridges| == |s.bridges|
            && var (before, after) := (s.bridges[k].phase, t.bridges[k].phase);
               || after == before
               || (before.Spawned? && after.Bridging?)
               || (x == L.Return(k) && before.Bridging? && after.Returned?)
               || (before.Returned? && after.Released?)
  {
  }

  lemma InvLoop(p: Process, x: L.Event, timeout: nat)
    requires Inv(p, timeout) && Enabled(p, Loop(x), timeout)
    ensures Inv(Apply(p, Loop(x), timeout), timeout)
  {
    hide L.Inv, L.Enabled, L.Apply, TimedInv;
    L.InvStep(p.sys, x);
    SameBridges(p.sys, x);
    forall k | 0 <= k < |p.timed|
      ensures GoroutineInv(L.Apply(p.sys, x).bridges[k].phase, p.timed[k], timeout)
    {
      assert GoroutineInv(p.sys.bridges[k].phase, p.timed[k], timeout);
      BridgesAfterLoopStep(p.sys, x, k);
    }
  }

  lemma SameBridges(s: L.System, x: L.Event)
    requires L.Enabled(s, x) && !x.Spawn?
    ensures |L.Apply(s, x).bridges| == |s.bridges|
  {
  }

  lemma InvStart(p: Process, l: nat, inAB: seq<byte>, inBA: seq<byte>, timeout: nat)
    requires Inv(p, timeout) && Enabled(p, Start(l, inAB, inBA), timeout)
    ensures Inv(Apply(p, Start(l, inAB, inBA), timeout), timeout)
  {
    hide L.Inv, TimedInv, L.StepLoop;
    L.InvStep(p.sys, L.Spawn(l));
    TimedInvInit(inAB, inBA, timeout);
  }

  /** Every event of the process keeps the invariant. */
  lemma InvStep(p: Process, e: Event, timeout: nat)
    requires Inv(p, timeout) && Enabled(p, e, timeout)
    ensures Inv(Apply(p, e, timeout), timeout)
  {
    hide L.Inv, L.Enabled, L.Apply, GoroutineInv, TimedApply, TimedEnabled, MayWait;
    match e {
      case Loop(x) => InvLoop(p, x, timeout);
      case Start(l, inAB, inBA) => InvStart(p, l, inAB, inBA, timeout);
      case Inside(k, a) => GoroutineActs(p.sys.bridges[k].phase, p.timed[k], a, timeout);
      case Delay(d) =>
        forall k | 0 <= k < |p.timed|
          ensures GoroutineInv(p.sys.bridges[k].phase, TimedApply(p.timed[k], Wait(d), timeout), timeout)
        {
          GoroutineWaits(p.sys.bridges[k].phase, p.timed[k], d, timeout);
        }
    }
  }

  // ---------------------------------------------------------------------------- runs

  ghost predicate Run(p: Process, es: seq<Event>, q: Process, timeout: nat)
    decreases |es|
  {
    if es == [] then p == q
    else Enabled(p, es[0], timeout) && Run(Apply(p, es[0], timeout), es[1..], q, timeout)
  }

  lemma {:induction false} RunInv(p: Process, es: seq<Event>, q: Process, timeout: nat)
    requires Inv(p, timeout) && Run(p, es, q, timeout)
    ensures Inv(q, timeout)
    decreases |es|
  {
    hide Inv, Enabled, Apply;
    if es != [] {
      InvStep(p, es[0], timeout);
      RunInv(Apply(p, es[0], timeout), es[1..], q, timeout);
    }
  }

  ghost predicate Reachable(q: Process, timeout: nat) {
    exists s, es :: L.Initial(s) && Run(Process(s, []), es, q, timeout)
  }

  lemma ReachableInv(q: Process, timeout: nat)
    requires Reachable(q, timeout)
    ensures Inv(q, timeout)
  {
    hide Run, L.Inv, GoroutineInv;
    var s, es :| L.Initial(s) && Run(Process(s, []), es, q, timeout);
    L.InvInit(s);
    RunInv(Process(s, []), es, q, timeout);
  }

  // --------------------------------------------------------------------- composition

  /** What an event of the process is to the accept loops. */
  function LoopEvents(e: Event): seq<L.Event> {
    match e
    case Loop(x) => [x]
    case Start(l, _, _) => [L.Spawn(l)]
    case Inside(_, _) => []
    case Delay(_) => []
  }

  lemma {:induction false} LoopRun(p: Process, es: seq<Event>, q: Process, timeout: nat) returns (xs: seq<L.Event>)
    requires Run(p, es, q, timeout)
    ensures L.Run(p.sys, xs, q.sys)
    decreases |es|
  {
    hide L.Enabled, L.Apply, TimedEnabled, TimedApply, MayWait;
    if es == [] {
      xs := [];
    } else {
      var p1 := Apply(p, es[0], timeout);
      var rest := LoopRun(p1, es[1..], q, timeout);
      xs := LoopEvents(es[0]) + rest;
      if LoopEvents(es[0]) == [] {
        assert xs == rest;
      } else {
        assert xs[0] == LoopEvents(es[0])[0] && xs[1..] == rest;
      }
    }
  }

  /** The accept loops of a process run as they do by themselves, so everything shown of
      listeners holds of them here; and neither the bridges nor the clock keep a loop or a
      goroutine from a step, except that a bridge returns only when it is done. */
  lemma LoopsRunAsByThemselves(q: Process, x: L.Event, inAB: seq<byte>, inBA: seq<byte>, timeout: nat)
    requires Reachable(q, timeout)
    ensures L.Reachable(q.sys)
    ensures L.Enabled(q.sys, x) && !x.Return? ==>
      var e := if x.Spawn? then Start(x.l, inAB, inBA) else Loop(x);
      Enabled(q, e, timeout) && Apply(q, e, timeout).sys == L.Apply(q.sys, x)
    ensures x.Return? && L.Enabled(q.sys, x) && x.b < |q.timed| ==>
      (Enabled(q, Loop(x), timeout) <==> q.timed[x.b].s.stage.Done?)
  {
    hide Run, L.Run, L.Enabled, L.Apply;
    var s, es :| L.Initial(s) && Run(Process(s, []), es, q, timeout);
    var xs := LoopRun(Process(s, []), es, q, timeout);
    assert L.Initial(s) && L.Run(s, xs, q.sys);
  }

  ghost predicate TimedBridge(t: Timed, timeout: nat) {
    exists inAB, inBA :: TimedReachable(inAB, inBA, t, timeout)
  }

  lemma {:induction false} TimedRunOneMore(t: Timed, es: seq<TimedEvent>, u: Timed, e: TimedEvent, timeout: nat)
    requires TimedRun(t, es, u, timeout) && TimedEnabled(u, e, timeout)
    ensures TimedRun(t, es + [e], TimedApply(u, e, timeout), timeout)
    decreases |es|
  {
    hide TimedApply, B.Enabled;
    if es == [] {
      assert (es + [e])[1..] == [];
      assert TimedRun(TimedApply(u, e, timeout), [], TimedApply(u, e, timeout), timeout);
    } else {
      assert (es + [e])[1..] == es[1..] + [e];
      TimedRunOneMore(TimedApply(t, es[0], timeout), es[1..], u, e, timeout);
    }
  }

  lemma TimedBridgeStep(t: Timed, e: TimedEvent, timeout: nat)
    requires TimedBridge(t, timeout) && TimedEnabled(t, e, timeout)
    ensures TimedBridge(TimedApply(t, e, timeout), timeout)
  {
    hide TimedApply, TimedRun, B.Enabled;
    var inAB, inBA :| TimedReachable(inAB, inBA, t, timeout);
    var es :| TimedRun(TimedInit(inAB, inBA), es, t, timeout);
    TimedRunOneMore(TimedInit(inAB, inBA), es, t, e, timeout);
    assert TimedReachable(inAB, inBA, TimedApply(t, e, timeout), timeout);
  }

  lemma TimedBridgeStart(inAB: seq<byte>, inBA: seq<byte>, timeout: nat)
    ensures TimedBridge(TimedInit(inAB, inBA), timeout)
  {
    assert TimedRun(TimedInit(inAB, inBA), [], TimedInit(inAB, inBA), timeout);
    assert TimedReachable(inAB, inBA, TimedInit(inAB, inBA), timeout);
  }

  ghost predicate AllTimedBridges(p: Process, timeout: nat) {
    forall k :: 0 <= k < |p.timed| ==> TimedBridge(p.timed[k], timeout)
  }

  lemma TimedBridgesStep(p: Process, e: Event, timeout: nat)
    requires Inv(p, timeout) && Enabled(p, e, timeout) && AllTimedBridges(p, timeout)
    ensures AllTimedBridges(Apply(p, e, timeout), timeout)
  {
    hide L.Inv, L.Enabled, L.Apply, TimedApply, TimedEnabled, TimedBridge, TimedInv;
    match e {
      case Loop(_) =>
      case Start(_, inAB, inBA) => TimedBridgeStart(inAB, inBA, timeout);
      case Inside(k, a) => TimedBridgeStep(p.timed[k], Act(a), timeout);
      case Delay(d) =>
        forall k | 0 <= k < |p.timed|
          ensures TimedBridge(TimedApply(p.timed[k], Wait(d), timeout), timeout)
        {
          assert GoroutineInv(p.sys.bridges[k].phase, p.timed[k], timeout);
          assert MayWait(p.sys.bridges[k].phase, p.timed[k], d, timeout);
          if p.sys.bridges[k].phase.Released? {
            DoneMayWait(p.timed[k], d, timeout);
          }
          TimedBridgeStep(p.timed[k], Wait(d), timeout);
        }
    }
  }

  lemma {:induction false} TimedBridgesRun(p: Process, es: seq<Event>, q: Process, timeout: nat)
    requires Inv(p, timeout) && AllTimedBridges(p, timeout) && Run(p, es, q, timeout)
    ensures AllTimedBridges(q, timeout)
    decreases |es|
  {
    hide Inv, Enabled, Apply, AllTimedBridges;
    if es != [] {
      InvStep(p, es[0], timeout);
      TimedBridgesStep(p, es[0], timeout);
      TimedBridgesRun(Apply(p, es[0], timeout), es[1..], q, timeout);
    }
  }

  /** And each bridge of a process is in a state that a bridge by itself can reach under the
      same timeout, so everything shown of timed bridges holds of it. */
  lemma BridgesRunAsByThemselves(q: Process, timeout: nat, k: nat)
    requires Reachable(q, timeout) && k < |q.timed|
    ensures exists inAB, inBA :: TimedReachable(inAB, inBA, q.timed[k], timeout)
  {
    hide Run, L.Inv, TimedReachable;
    var s, es :| L.Initial(s) && Run(Process(s, []), es, q, timeout);
    L.InvInit(s);
    TimedBridgesRun(Process(s, []), es, q, timeout);
    assert TimedBridge(q.timed[k], timeout);
  }

  // ------------------------------------------------------------------------- results

  /** A bridge whose two directions have completed nothing for longer than the timeout. */
  predicate Quiet(t: Timed, timeout: nat) {
    t.s.dialed && t.now > t.lastAB + timeout && t.now > t.lastBA + timeout
  }

  lemma QuietIsReleased(phase: L.Phase, t: Timed, timeout: nat)
    requires GoroutineInv(phase, t, timeout) && timeout > 0 && Quiet(t, timeout)
    ensures phase.Released?
  {
    hide B.Inv;
    assert t.s.Get(B.AToB) == t.s.ab && t.s.Get(B.BToA) == t.s.ba;
    assert t.Pending(B.AToB) <==> t.s.dialed && !B.Ended(t.s.ab);
    assert t.Pending(B.BToA) <==> t.s.dialed && !B.Ended(t.s.ba);
  }

  /** With a positive timeout every slot taken for a connection that was dialed is given
      back: a bridge quiet for longer than the timeout no longer holds one. */
  lemma SlotGivenBack(q: Process, k: nat, timeout: nat)
    requires Reachable(q, timeout) && timeout > 0
    requires k < |q.timed| && Quiet(q.timed[k], timeout)
    ensures k < |q.sys.bridges| && q.sys.bridges[k].phase.Released?
  {
    hide GoroutineInv, L.Inv, Quiet;
    ReachableInv(q, timeout);
    QuietIsReleased(q.sys.bridges[k].phase, q.timed[k], timeout);
  }

  /** The bridges of a listener that have not been quiet for longer than the timeout. */
  function ActiveOf(bs: seq<L.Bridge>, timed: seq<Timed>, l: nat, timeout: nat): nat
    requires |bs| == |timed|
  {
    if bs == [] then 0
    else
      var n := |bs| - 1;
      ActiveOf(bs[..n], timed[..n], l, timeout) + L.One(bs[n].listener == l && !Quiet(timed[n], timeout))
  }

  lemma {:induction false} RunningAreActive(bs: seq<L.Bridge>, timed: seq<Timed>, l: nat, timeout: nat)
    requires |bs| == |timed|
    requires forall k :: 0 <= k < |bs| && Quiet(timed[k], timeout) ==> !L.Running(bs[k])
    ensures L.RunningOf(bs, l) <= ActiveOf(bs, timed, l, timeout)
  {
    hide Quiet, L.Running;
    if bs != [] {
      var n := |bs| - 1;
      RunningAreActive(bs[..n], timed[..n], l, timeout);
    }
  }

  /** So the slots a listener holds never exceed its bridges still dialing or active within
      the timeout, plus one about to start: silent peers cannot use up the limit. */
  lemma SlotsHeldByActiveBridges(q: Process, l: nat, timeout: nat)
    requires Reachable(q, timeout) && timeout > 0 && l < |q.sys.listeners|
    ensures |q.timed| == |q.sys.bridges|
    ensures q.sys.listeners[l].held <= ActiveOf(q.sys.bridges, q.timed, l, timeout) + 1
  {
    hide GoroutineInv, Quiet, ActiveOf, L.RunningOf, L.FinishedOf, L.BridgesInv;
    ReachableInv(q, timeout);
    forall k | 0 <= k < |q.timed| && Quiet(q.timed[k], timeout)
      ensures !L.Running(q.sys.bridges[k])
    {
      QuietIsReleased(q.sys.bridges[k].phase, q.timed[k], timeout);
    }
    RunningAreActive(q.sys.bridges, q.timed, l, timeout);
    assert L.LoopInv(q.sys.listeners[l], L.RunningOf(q.sys.bridges, l), L.FinishedOf(q.sys.bridges, l));
  }

  /** The clock is never stuck: when time cannot pass, some goroutine has a step of its own,
      for its bridge, its id or its slot. */
  lemma TimeOrGoroutine(q: Process, timeout: nat)
    requires Reachable(q, timeout)
    ensures Enabled(q, Delay(1), timeout)
         || exists e :: Enabled(q, e, timeout) && (e.Inside? || (e.Loop? && (e.e.DrawId? || e.e.Return? || e.e.Release?)))
  {
    hide GoroutineInv, TimedEnabled, L.Inv, Run;
    ReachableInv(q, timeout);
    if !Enabled(q, Delay(1), timeout) {
      var k :| 0 <= k < |q.timed| && !MayWait(q.sys.bridges[k].phase, q.timed[k], 1, timeout);
      GoroutineStep(q, k, timeout);
    }
  }

  lemma GoroutineStep(q: Process, k: nat, timeout: nat)
    requires Inv(q, timeout) && k < |q.timed| && !q.sys.bridges[k].phase.Released?
    ensures exists e :: Enabled(q, e, timeout) && (e.Inside? || (e.Loop? && (e.e.DrawId? || e.e.Return? || e.e.Release?)))
  {
    hide L.Inv, B.Inv, B.Enabled;
    var (phase, t) := (q.sys.bridges[k].phase, q.timed[k]);
    assert GoroutineInv(phase, t, timeout);
    match phase {
      case Spawned => assert Enabled(q, Loop(L.DrawId(k)), timeout);
      case Returned(_, _) =>
        L.ReturnedMayRelease(q.sys, k);
        assert Enabled(q, Loop(L.Release(k)), timeout);
      case Bridging(_, _) =>
        if t.s.stage.Done? {
          assert Enabled(q, Loop(L.Return(k)), timeout);
        } else {
          B.NoDeadlock(t.s);
          var a :| B.Enabled(t.s, a);
          assert Enabled(q, Inside(k, a), timeout);
        }
    }
  }
}
