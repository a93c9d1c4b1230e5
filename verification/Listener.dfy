/** The accept loops of a process (main.go): every listener with its own connection limiter,
    the peer check of the VSOCK listeners, the bridge goroutines they start, and the
    connection ids all of them draw from one counter. */
module Listener {
  import opened Text

  const ID_SPACE: nat := 0x1_0000_0000_0000_0000

  // --------------------------------------------------------------- the code's objects

  /** A counting semaphore on a channel of capacity `max`. */
  class ConnectionLimiter {
    const max: nat
    var held: nat

    ghost predicate Valid()
      reads this
    {
      held <= max
    }

    constructor (max: nat)
      ensures Valid() && this.max == max && held == 0
    {
      this.max := max;
      held := 0;
    }

    method TryAcquire() returns (ok: bool)
      requires Valid()
      modifies this
      ensures Valid() && (ok <==> old(held) < max)
      ensures held == old(held) + if ok then 1 else 0
    {
      if held < max {
        held := held + 1;
        return true;
      }
      return false;
    }

    /** Takes one token out of the channel; with none in it the receive would block. */
    method Release()
      requires Valid() && held > 0
      modifies this
      ensures Valid() && held == old(held) - 1
    {
      held := held - 1;
    }
  }

  /** The atomic 64-bit counter behind connection ids. */
  class ConnectionIds {
    var last: nat

    constructor ()
      ensures last == 0
    {
      last := 0;
    }

    method Next() returns (id: nat)
      modifies this
      ensures id == last == (old(last) + 1) % 0x1_0000_0000_0000_0000
    {
      last := (last + 1) % ID_SPACE;
      return last;
    }
  }

  function NextId(last: nat): nat {
    (last + 1) % ID_SPACE
  }

  // ------------------------------------------------------------------ state machine

  /** Where an accept loop is with the connection it has accepted last. `matches` tells
      whether the peer is a VSOCK peer with the expected CID. */
  datatype Loop = Accepting | Checking(matches: bool) | Acquiring(matches: bool) | Spawning(matches: bool)

  datatype AcceptLoop = AcceptLoop(
    max: nat, checksPeer: bool, loop: Loop, held: nat,
    accepted: nat, peerRejected: nat, limitRejected: nat)

  /** A bridge goroutine; `ticket` counts ids in the order they are drawn. */
  datatype Phase = Spawned | Bridging(id: nat, ticket: nat) | Returned(id: nat, ticket: nat) | Released(id: nat, ticket: nat)

  datatype Bridge = Bridge(listener: nat, matches: bool, phase: Phase)

  datatype System = System(listeners: seq<AcceptLoop>, bridges: seq<Bridge>, lastId: nat, drawn: nat)

  datatype Event =
    | AcceptError(l: nat)
    | Accept(l: nat, matches: bool)
    | CheckPeer(l: nat)
    | TryAcquire(l: nat)
    | Spawn(l: nat)
    | DrawId(b: nat)
    | Return(b: nat)
    | Release(b: nat)

  predicate Enabled(s: System, e: Event) {
    match e
    case AcceptError(l) => l < |s.listeners| && s.listeners[l].loop.Accepting?
    case Accept(l, _) => l < |s.listeners| && s.listeners[l].loop.Accepting?
    case CheckPeer(l) => l < |s.listeners| && s.listeners[l].loop.Checking?
    case TryAcquire(l) => l < |s.listeners| && s.listeners[l].loop.Acquiring?
    case Spawn(l) => l < |s.listeners| && s.listeners[l].loop.Spawning?
    case DrawId(b) => b < |s.bridges| && s.bridges[b].phase.Spawned?
    case Return(b) => b < |s.bridges| && s.bridges[b].phase.Bridging?
    case Release(b) =>
      && b < |s.bridges| && s.bridges[b].phase.Returned?
      && s.bridges[b].listener < |s.listeners| && s.listeners[s.bridges[b].listener].held > 0
  }

  /** One step of an accept loop. */
  function StepLoop(x: AcceptLoop, e: Event): AcceptLoop {
    match e
    case Accept(_, matches) =>
      x.(accepted := x.accepted + 1, loop := if x.checksPeer then Checking(matches) else Acquiring(matches))
    case CheckPeer(_) =>
      if x.loop.Checking? && x.loop.matches then x.(loop := Acquiring(true))
      else x.(loop := Accepting, peerRejected := x.peerRejected + 1)
    case TryAcquire(_) =>
      if x.held < x.max && x.loop.Acquiring? then x.(held := x.held + 1, loop := Spawning(x.loop.matches))
      else x.(loop := Accepting, limitRejected := x.limitRejected + 1)
    case Spawn(_) => x.(loop := Accepting)
    case _ => x
  }

  function Apply(s: System, e: Event): System
    requires Enabled(s, e)
  {
    match e
    case DrawId(b) =>
      var id := NextId(s.lastId);
      s.(bridges := s.bridges[b := s.bridges[b].(phase := Bridging(id, s.drawn + 1))],
         lastId := id, drawn := s.drawn + 1)
    case Return(b) =>
      s.(bridges := s.bridges[b := s.bridges[b].(phase := Returned(s.bridges[b].phase.id, s.bridges[b].phase.ticket))])
    case Release(b) =>
      var l := s.bridges[b].listener;
      s.(bridges := s.bridges[b := s.bridges[b].(phase := Released(s.bridges[b].phase.id, s.bridges[b].phase.ticket))],
         listeners := s.listeners[l := s.listeners[l].(held := s.listeners[l].held - 1)])
    case Spawn(l) =>
      s.(listeners := s.listeners[l := StepLoop(s.listeners[l], e)],
         bridges := s.bridges + [Bridge(l, s.listeners[l].loop.matches, Spawned)])
    case _ => s.(listeners := s.listeners[e.l := StepLoop(s.listeners[e.l], e)])
  }

  // ----------------------------------------------------------------------- counting

  predicate Running(b: Bridge) {
    !b.phase.Released?
  }

  function One(c: bool): nat {
    if c then 1 else 0
  }

  /** Bridges of a listener whose slot is not given back. */
  function RunningOf(bs: seq<Bridge>, l: nat): nat {
    if bs == [] then 0
    else RunningOf(bs[..|bs| - 1], l) + One(bs[|bs| - 1].listener == l && Running(bs[|bs| - 1]))
  }

  function FinishedOf(bs: seq<Bridge>, l: nat): nat {
    if bs == [] then 0
    else FinishedOf(bs[..|bs| - 1], l) + One(bs[|bs| - 1].listener == l && !Running(bs[|bs| - 1]))
  }

  lemma {:induction false} CountsAfterUpdate(bs: seq<Bridge>, k: nat, b: Bridge, l: nat)
    requires k < |bs| && b.listener == bs[k].listener
    ensures RunningOf(bs[k := b], l) + One(b.listener == l && Running(bs[k]))
         == RunningOf(bs, l) + One(b.listener == l && Running(b))
    ensures FinishedOf(bs[k := b], l) + One(b.listener == l && !Running(bs[k]))
         == FinishedOf(bs, l) + One(b.listener == l && !Running(b))
  {
    var n := |bs| - 1;
    var cs := bs[k := b];
    if k == n {
      assert cs[..n] == bs[..n];
    } else {
      CountsAfterUpdate(bs[..n], k, b, l);
      assert cs[..n] == bs[..n][k := b];
    }
  }

  lemma CountsAfterAppend(bs: seq<Bridge>, b: Bridge, l: nat)
    ensures RunningOf(bs + [b], l) == RunningOf(bs, l) + One(b.listener == l && Running(b))
    ensures FinishedOf(bs + [b], l) == FinishedOf(bs, l) + One(b.listener == l && !Running(b))
  {
    assert (bs + [b])[..|bs|] == bs;
  }

  // ---------------------------------------------------------------------- invariant

  /** The books of one accept loop balance. */
  predicate LoopInv(x: AcceptLoop, running: nat, finished: nat) {
    && x.held == running + One(x.loop.Spawning?)
    && x.held <= x.max
    && x.accepted == x.peerRejected + x.limitRejected + running + finished + One(!x.loop.Accepting?)
    && (x.checksPeer && (x.loop.Acquiring? || x.loop.Spawning?) ==> x.loop.matches)
    && (!x.checksPeer ==> !x.loop.Checking? && x.peerRejected == 0)
  }

  ghost predicate LoopsInv(s: System) {
    forall l :: 0 <= l < |s.listeners| ==>
      LoopInv(s.listeners[l], RunningOf(s.bridges, l), FinishedOf(s.bridges, l))
  }

  function Ticket(b: Bridge): nat {
    if b.phase.Spawned? then 0 else b.phase.ticket
  }

  /** Every bridge belongs to a listener that let its peer in; ids are tickets modulo the
      id space, and no two bridges hold one ticket. */
  ghost predicate BridgesInv(s: System) {
    && (forall k :: 0 <= k < |s.bridges| ==>
          var b := s.bridges[k];
          && b.listener < |s.listeners|
          && (s.listeners[b.listener].checksPeer ==> b.matches)
          && (!b.phase.Spawned? ==> 1 <= b.phase.ticket <= s.drawn && b.phase.id == b.phase.ticket % ID_SPACE))
    && (forall j, k :: 0 <= j < k < |s.bridges| && Ticket(s.bridges[j]) == Ticket(s.bridges[k]) ==>
          Ticket(s.bridges[j]) == 0)
    && s.lastId == s.drawn % ID_SPACE
  }

  ghost predicate Inv(s: System) {
    LoopsInv(s) && BridgesInv(s)
  }

  /** All limits positive, nothing accepted yet. */
  predicate Initial(s: System) {
    && s.bridges == [] && s.lastId == 0 && s.drawn == 0
    && forall l :: 0 <= l < |s.listeners| ==>
         var x := s.listeners[l];
         x.max > 0 && x == AcceptLoop(x.max, x.checksPeer, Accepting, 0, 0, 0, 0)
  }

  lemma InvInit(s: System)
    requires Initial(s)
    ensures Inv(s)
  {
  }

  lemma NextIdIsTicket(drawn: nat)
    ensures NextId(drawn % ID_SPACE) == (drawn + 1) % ID_SPACE
  {
    var q, r := drawn / ID_SPACE, drawn % ID_SPACE;
    if r == ID_SPACE - 1 {
      assert drawn + 1 == (q + 1) * ID_SPACE;
    } else {
      assert drawn + 1 == q * ID_SPACE + (r + 1);
    }
  }

  lemma LoopsAfterBridgeStep(s: System, e: Event, l: nat)
    requires Inv(s) && Enabled(s, e) && l < |s.listeners|
    requires e.DrawId? || e.Return? || e.Release?
    ensures var t := Apply(s, e);
            LoopInv(t.listeners[l], RunningOf(t.bridges, l), FinishedOf(t.bridges, l))
  {
    hide RunningOf, FinishedOf, NextId;
    var t := Apply(s, e);
    CountsAfterUpdate(s.bridges, e.b, t.bridges[e.b], l);
    assert t.bridges == s.bridges[e.b := t.bridges[e.b]];
    assert LoopInv(s.listeners[l], RunningOf(s.bridges, l), FinishedOf(s.bridges, l));
  }

  lemma LoopsAfterLoopStep(s: System, e: Event, l: nat)
    requires Inv(s) && Enabled(s, e) && l < |s.listeners|
    requires !(e.DrawId? || e.Return? || e.Release?)
    ensures var t := Apply(s, e);
            LoopInv(t.listeners[l], RunningOf(t.bridges, l), FinishedOf(t.bridges, l))
  {
    hide RunningOf, FinishedOf;
    if e.Spawn? {
      CountsAfterAppend(s.bridges, Bridge(e.l, s.listeners[e.l].loop.matches, Spawned), l);
    }
    assert LoopInv(s.listeners[l], RunningOf(s.bridges, l), FinishedOf(s.bridges, l));
  }

  lemma BridgesAfterSpawn(s: System, e: Event)
    requires Inv(s) && Enabled(s, e) && e.Spawn?
    ensures BridgesInv(Apply(s, e))
  {
    hide RunningOf, FinishedOf;
    assert LoopInv(s.listeners[e.l], RunningOf(s.bridges, e.l), FinishedOf(s.bridges, e.l));
  }

  lemma BridgesAfterDraw(s: System, e: Event)
    requires Inv(s) && Enabled(s, e) && e.DrawId?
    ensures BridgesInv(Apply(s, e))
  {
    hide LoopInv, NextId;
    NextIdIsTicket(s.drawn);
  }

  lemma BridgesAfterReturn(s: System, e: Event)
    requires Inv(s) && Enabled(s, e) && (e.Return? || e.Release?)
    ensures BridgesInv(Apply(s, e))
  {
    hide LoopInv, RunningOf, FinishedOf, StepLoop;
    var t := Apply(s, e);
    assert forall k :: 0 <= k < |t.bridges| ==> Ticket(t.bridges[k]) == Ticket(s.bridges[k]);
  }

  lemma BridgesAfterStep(s: System, e: Event)
    requires Inv(s) && Enabled(s, e)
    ensures BridgesInv(Apply(s, e))
  {
    hide LoopInv, NextId;
    if e.Spawn? {
      BridgesAfterSpawn(s, e);
    } else if e.DrawId? {
      BridgesAfterDraw(s, e);
    } else if e.Return? || e.Release? {
      BridgesAfterReturn(s, e);
    }
  }

  /** Every step of every accept loop and bridge keeps the invariant. */
  lemma InvStep(s: System, e: Event)
    requires Inv(s) && Enabled(s, e)
    ensures Inv(Apply(s, e))
  {
    hide LoopInv, BridgesInv;
    BridgesAfterStep(s, e);
    forall l | 0 <= l < |s.listeners|
      ensures var t := Apply(s, e);
              LoopInv(t.listeners[l], RunningOf(t.bridges, l), FinishedOf(t.bridges, l))
    {
      if e.DrawId? || e.Return? || e.Release? {
        LoopsAfterBridgeStep(s, e, l);
      } else {
        LoopsAfterLoopStep(s, e, l);
      }
    }
  }

  // ---------------------------------------------------------------------------- runs

  predicate Run(s: System, es: seq<Event>, t: System)
    decreases |es|
  {
    if es == [] then s == t
    else Enabled(s, es[0]) && Run(Apply(s, es[0]), es[1..], t)
  }

  ghost predicate Reachable(t: System) {
    exists s, es :: Initial(s) && Run(s, es, t)
  }

  lemma {:induction false} RunInv(s: System, es: seq<Event>, t: System)
    requires Inv(s) && Run(s, es, t)
    ensures Inv(t)
    decreases |es|
  {
    hide Inv, Apply, Enabled;
    if es != [] {
      InvStep(s, es[0]);
      RunInv(Apply(s, es[0]), es[1..], t);
    }
  }

  lemma ReachableInv(t: System)
    requires Reachable(t)
    ensures Inv(t)
  {
    hide Inv, Run;
    var s, es :| Initial(s) && Run(s, es, t);
    InvInit(s);
    RunInv(s, es, t);
  }

  /** In every interleaving the slots taken are the bridges still running, plus one about
      to start, never more than the limit; and every accepted connection is rejected for
      its peer, rejected for the limit, running, finished or still in the loop's hands. */
  lemma SlotsAndConnectionsBalance(t: System, l: nat)
    requires Reachable(t) && l < |t.listeners|
    ensures var x := t.listeners[l];
            && x.held == RunningOf(t.bridges, l) + One(x.loop.Spawning?)
            && x.held <= x.max
            && x.accepted == x.peerRejected + x.limitRejected
                 + RunningOf(t.bridges, l) + FinishedOf(t.bridges, l) + One(!x.loop.Accepting?)
  {
    hide RunningOf, FinishedOf;
    ReachableInv(t);
  }

  /** A listener turns a connection away for its limit exactly when that many of its
      bridges are running. */
  lemma LimitIsExact(t: System, l: nat)
    requires Reachable(t) && Enabled(t, TryAcquire(l))
    ensures Apply(t, TryAcquire(l)).listeners[l].loop.Spawning?
       <==> RunningOf(t.bridges, l) < t.listeners[l].max
  {
    hide RunningOf, FinishedOf;
    SlotsAndConnectionsBalance(t, l);
  }

  /** No bridge of a VSOCK listener serves a peer with the wrong CID, nor does one ever
      take a slot. */
  lemma WrongPeersNeverServed(t: System)
    requires Reachable(t)
    ensures forall k :: 0 <= k < |t.bridges| ==>
      t.bridges[k].listener < |t.listeners|
      && (t.listeners[t.bridges[k].listener].checksPeer ==> t.bridges[k].matches)
    ensures forall l :: 0 <= l < |t.listeners| && t.listeners[l].checksPeer && t.listeners[l].loop.Spawning? ==>
      t.listeners[l].loop.matches
  {
    hide RunningOf, FinishedOf;
    ReachableInv(t);
    assert forall l :: 0 <= l < |t.listeners| ==>
      LoopInv(t.listeners[l], RunningOf(t.bridges, l), FinishedOf(t.bridges, l));
  }

  // ------------------------------------------------------- told from the events alone

  predicate AcceptedOn(e: Event, l: nat) {
    e.Accept? && e.l == l
  }

  predicate WrongPeerOn(e: Event, l: nat) {
    e.Accept? && e.l == l && !e.matches
  }

  predicate DrawsId(e: Event) {
    e.DrawId?
  }

  function CountOf(es: seq<Event>, p: Event -> bool): nat {
    if es == [] then 0 else One(p(es[0])) + CountOf(es[1..], p)
  }

  /** Connections the loop has accepted, and those of wrong peers, so far or in its hands. */
  function WrongPeers(x: AcceptLoop): nat {
    x.peerRejected + One(x.loop.Checking? && !x.loop.matches)
  }

  /** What one event adds to the books of a listener and to the ids drawn. */
  lemma BooksAfterStep(s: System, e: Event, l: nat)
    requires Inv(s) && Enabled(s, e) && l < |s.listeners|
    ensures var t := Apply(s, e);
            && |t.listeners| == |s.listeners|
            && t.listeners[l].checksPeer == s.listeners[l].checksPeer && t.listeners[l].max == s.listeners[l].max
            && t.listeners[l].accepted == s.listeners[l].accepted + One(AcceptedOn(e, l))
            && (s.listeners[l].checksPeer ==>
                  WrongPeers(t.listeners[l]) == WrongPeers(s.listeners[l]) + One(WrongPeerOn(e, l)))
            && t.drawn == s.drawn + One(DrawsId(e))
  {
    hide RunningOf, FinishedOf, BridgesInv, NextId;
    assert LoopInv(s.listeners[l], RunningOf(s.bridges, l), FinishedOf(s.bridges, l));
  }

  lemma {:induction false} BooksAfterRun(s: System, es: seq<Event>, t: System, l: nat)
    requires Inv(s) && Run(s, es, t) && l < |s.listeners|
    ensures && |t.listeners| == |s.listeners|
            && t.listeners[l].checksPeer == s.listeners[l].checksPeer && t.listeners[l].max == s.listeners[l].max
            && t.listeners[l].accepted == s.listeners[l].accepted + CountOf(es, e => AcceptedOn(e, l))
            && (s.listeners[l].checksPeer ==>
                  WrongPeers(t.listeners[l]) == WrongPeers(s.listeners[l]) + CountOf(es, e => WrongPeerOn(e, l)))
            && t.drawn == s.drawn + CountOf(es, e => DrawsId(e))
    decreases |es|
  {
    hide Inv, Apply, Enabled, WrongPeers;
    if es != [] {
      InvStep(s, es[0]);
      BooksAfterStep(s, es[0], l);
      BooksAfterRun(Apply(s, es[0]), es[1..], t, l);
    }
  }

  /** A matching peer goes on to ask for a slot and any other is turned away, and over every
      run the peers turned away, with one still being checked, are exactly the wrong ones
      that were accepted. Every connection id drawn is counted. */
  lemma ExactlyWrongPeersRejected(s: System, es: seq<Event>, t: System, l: nat)
    requires Initial(s) && Run(s, es, t) && l < |s.listeners|
    ensures l < |t.listeners| && t.listeners[l].checksPeer == s.listeners[l].checksPeer
    ensures t.listeners[l].accepted == CountOf(es, e => AcceptedOn(e, l))
    ensures t.listeners[l].checksPeer ==>
      t.listeners[l].peerRejected + One(t.listeners[l].loop.Checking? && !t.listeners[l].loop.matches)
        == CountOf(es, e => WrongPeerOn(e, l))
    ensures !t.listeners[l].checksPeer ==> t.listeners[l].peerRejected == 0
    ensures t.drawn == CountOf(es, e => DrawsId(e))
  {
    hide RunningOf, FinishedOf, BridgesInv, Run;
    InvInit(s);
    BooksAfterRun(s, es, t, l);
    RunInv(s, es, t);
    assert LoopInv(t.listeners[l], RunningOf(t.bridges, l), FinishedOf(t.bridges, l));
  }

  lemma PeerCheckExactly(t: System, l: nat)
    requires Enabled(t, CheckPeer(l))
    ensures var u := Apply(t, CheckPeer(l)).listeners[l];
            && (u.loop.Acquiring? <==> t.listeners[l].loop.matches)
            && (u.loop.Accepting? <==> !t.listeners[l].loop.matches)
            && u.peerRejected == t.listeners[l].peerRejected + One(!t.listeners[l].loop.matches)
  {
  }

  /** So a peer that matches, on a listener with a free slot, is always bridged: the loop can
      only check it, take the slot and start its bridge. */
  lemma MatchingPeerIsBridged(s: System, l: nat)
    requires Inv(s) && l < |s.listeners| && s.listeners[l].loop.Accepting?
    requires RunningOf(s.bridges, l) < s.listeners[l].max
    ensures var path := if s.listeners[l].checksPeer then [Accept(l, true), CheckPeer(l), TryAcquire(l), Spawn(l)]
              else [Accept(l, true), TryAcquire(l), Spawn(l)];
            exists t :: Run(s, path, t) && l < |t.listeners| && t.bridges == s.bridges + [Bridge(l, true, Spawned)]
              && t.listeners[l].held == s.listeners[l].held + 1
  {
    hide RunningOf, FinishedOf, BridgesInv;
    assert LoopInv(s.listeners[l], RunningOf(s.bridges, l), FinishedOf(s.bridges, l));
    var s1 := Apply(s, Accept(l, true));
    var s2 := if s.listeners[l].checksPeer then Apply(s1, CheckPeer(l)) else s1;
    var s3 := Apply(s2, TryAcquire(l));
    var t := Apply(s3, Spawn(l));
    assert Run(t, [], t) && [Spawn(l)][1..] == [];
    assert Run(s3, [Spawn(l)], t);
    assert [TryAcquire(l), Spawn(l)][1..] == [Spawn(l)];
    assert Run(s2, [TryAcquire(l), Spawn(l)], t);
    if s.listeners[l].checksPeer {
      assert [CheckPeer(l), TryAcquire(l), Spawn(l)][1..] == [TryAcquire(l), Spawn(l)];
      assert Run(s1, [CheckPeer(l), TryAcquire(l), Spawn(l)], t);
      assert [Accept(l, true), CheckPeer(l), TryAcquire(l), Spawn(l)][1..] == [CheckPeer(l), TryAcquire(l), Spawn(l)];
      assert Run(s, [Accept(l, true), CheckPeer(l), TryAcquire(l), Spawn(l)], t);
    } else {
      assert [Accept(l, true), TryAcquire(l), Spawn(l)][1..] == [TryAcquire(l), Spawn(l)];
      assert Run(s, [Accept(l, true), TryAcquire(l), Spawn(l)], t);
    }
  }

  /** No goroutine and no accept loop of a listener is ever stuck, and a loop that waits for
      connections takes any peer's, or an error. */
  lemma NothingStuck(t: System, l: nat, b: nat)
    requires Inv(t)
    ensures l < |t.listeners| && t.listeners[l].loop.Accepting? ==>
      Enabled(t, Accept(l, true)) && Enabled(t, Accept(l, false)) && Enabled(t, AcceptError(l))
    ensures l < |t.listeners| ==>
      exists e :: Enabled(t, e) && !e.DrawId? && !e.Return? && !e.Release? && e.l == l
    ensures b < |t.bridges| && Running(t.bridges[b]) ==>
      exists e :: Enabled(t, e) && (e.DrawId? || e.Return? || e.Release?) && e.b == b
  {
    hide Inv;
    if l < |t.listeners| {
      match t.listeners[l].loop {
        case Accepting => assert Enabled(t, AcceptError(l));
        case Checking(_) => assert Enabled(t, CheckPeer(l));
        case Acquiring(_) => assert Enabled(t, TryAcquire(l));
        case Spawning(_) => assert Enabled(t, Spawn(l));
      }
    }
    if b < |t.bridges| && Running(t.bridges[b]) {
      match t.bridges[b].phase {
        case Spawned => assert Enabled(t, DrawId(b));
        case Bridging(_, _) => assert Enabled(t, Return(b));
        case Returned(_, _) =>
          ReturnedMayRelease(t, b);
          assert Enabled(t, Release(b));
      }
    }
  }

  lemma {:induction false} RunningCounts(bs: seq<Bridge>, k: nat)
    requires k < |bs| && Running(bs[k])
    ensures RunningOf(bs, bs[k].listener) >= 1
  {
    var n := |bs| - 1;
    if k < n {
      RunningCounts(bs[..n], k);
    }
  }

  /** A bridge that has returned can always give its slot back. */
  lemma ReleaseNeverBlocks(t: System, b: nat)
    requires Reachable(t) && b < |t.bridges| && t.bridges[b].phase.Returned?
    ensures Enabled(t, Release(b))
  {
    hide Inv;
    ReachableInv(t);
    ReturnedMayRelease(t, b);
  }

  lemma ReturnedMayRelease(t: System, b: nat)
    requires Inv(t) && b < |t.bridges| && t.bridges[b].phase.Returned?
    ensures Enabled(t, Release(b))
  {
    hide RunningOf, FinishedOf;
    RunningCounts(t.bridges, b);
    var l := t.bridges[b].listener;
    assert LoopInv(t.listeners[l], RunningOf(t.bridges, l), FinishedOf(t.bridges, l));
  }

  predicate HasId(b: Bridge) {
    !b.phase.Spawned?
  }

  /** Two bridges share an id exactly when the counter went round a whole number of times
      between them. */
  lemma IdsRepeatOnlyByWrapping(t: System, j: nat, k: nat)
    requires Reachable(t) && j < k < |t.bridges| && HasId(t.bridges[j]) && HasId(t.bridges[k])
    ensures t.bridges[j].phase.id == t.bridges[k].phase.id
       <==> Ticket(t.bridges[j]) % ID_SPACE == Ticket(t.bridges[k]) % ID_SPACE
    ensures Ticket(t.bridges[j]) != Ticket(t.bridges[k])
    ensures t.drawn <= 0x1_0000_0000_0000_0000 ==> t.bridges[j].phase.id != t.bridges[k].phase.id
  {
    hide RunningOf, FinishedOf;
    ReachableInv(t);
  }
}
