/** Two applications that reschedule themselves: Sender of examples/stats/wifi-example-apps.cc and
    TutorialApp of examples/tutorial/tutorial-app.cc. The simulator may start and stop them at any
    time, and run any event that is pending.
 */
module SenderApps {

  datatype Action = Start | Stop | Fire(event: nat)

  /** `pending` are the events of the simulator that call SendPacket; identifiers below
      `nextEvent` have been given out, and 0 is the identifier of no event. `sent` counts the
      packets handed to the socket. */
  datatype State = State(count: nat, sendEvent: nat, pending: set<nat>, nextEvent: nat, running: bool, sent: nat)

  const INITIAL: State := State(0, 0, {}, 1, false, 0)

  function Schedule(s: State): State {
    s.(pending := s.pending + {s.nextEvent}, sendEvent := s.nextEvent, nextEvent := s.nextEvent + 1)
  }

  function Cancel(s: State): State { s.(pending := s.pending - {s.sendEvent}) }

  datatype Kind = Sender | Tutorial

  /** SendPacket, and ScheduleTx of the tutorial. */
  function Send(kind: Kind, packets: nat, s: State): State {
    var t := s.(sent := s.sent + 1, count := s.count + 1);
    if t.count < packets && (kind == Tutorial ==> t.running) then Schedule(t) else t
  }

  function Step(kind: Kind, packets: nat, s: State, a: Action): State {
    match a
    case Start =>
      if kind == Sender then Schedule(Cancel(s.(running := true, count := 0)))
      else Send(kind, packets, s.(running := true, count := 0))
    case Stop => Cancel(s.(running := false))
    case Fire(event) => Send(kind, packets, s.(pending := s.pending - {event}))
  }

  /** The state after a sequence of actions. */
  function Run(kind: Kind, packets: nat, actions: seq<Action>): State {
    if actions == [] then INITIAL
    else Step(kind, packets, Run(kind, packets, actions[..|actions| - 1]), actions[|actions| - 1])
  }

  /** Only pending events fire. */
  ghost predicate Legal(kind: Kind, packets: nat, actions: seq<Action>) {
    forall k :: 0 <= k < |actions| && actions[k].Fire? ==> actions[k].event in Run(kind, packets, actions[..k]).pending
  }

  /** The last start came after the last stop. */
  predicate Active(actions: seq<Action>) {
    actions != [] && (actions[|actions| - 1].Start?
                      || (!actions[|actions| - 1].Stop? && Active(actions[..|actions| - 1])))
  }

  /** The packets sent before the last start. */
  function SentBefore(kind: Kind, packets: nat, actions: seq<Action>): nat {
    if actions == [] then 0
    else
      var front := actions[..|actions| - 1];
      if actions[|actions| - 1].Start? then Run(kind, packets, front).sent else SentBefore(kind, packets, front)
  }

  /** Nobody starts the application while its send event is pending. */
  ghost predicate NoRestart(kind: Kind, packets: nat, actions: seq<Action>) {
    forall k :: 0 <= k < |actions| && actions[k].Start? ==> Run(kind, packets, actions[..k]).pending == {}
  }

  // ----- invariants

  function Limit(kind: Kind, packets: nat): nat { if kind == Tutorial && packets == 0 then 1 else packets }

  /** What one state promises: `active` says whether the application was started last, `before`
      what had been sent until then. */
  ghost predicate Good(kind: Kind, packets: nat, s: State, active: bool, before: nat) {
    && s.nextEvent > s.sendEvent
    && s.pending <= {s.sendEvent}
    && (s.pending != {} ==> active && s.count < packets)
    && s.sent == before + s.count && s.count <= Limit(kind, packets)
    && (active && s.pending == {} ==> s.count == Limit(kind, packets))
    && s.running == active && (kind == Tutorial && active ==> s.count >= 1)
  }

  lemma GoodStep(kind: Kind, packets: nat, s: State, a: Action, active: bool, before: nat)
    requires kind == Sender ==> packets >= 1
    requires Good(kind, packets, s, active, before)
    requires a.Fire? ==> a.event in s.pending
    requires kind == Tutorial && a.Start? ==> s.pending == {}
    ensures Good(kind, packets, Step(kind, packets, s, a), a.Start? || (active && !a.Stop?),
                 if a.Start? then s.sent else before)
  {
  }

  lemma {:induction false} GoodRun(kind: Kind, packets: nat, actions: seq<Action>)
    requires kind == Sender ==> packets >= 1
    requires Legal(kind, packets, actions)
    requires kind == Tutorial ==> NoRestart(kind, packets, actions)
    ensures Good(kind, packets, Run(kind, packets, actions), Active(actions), SentBefore(kind, packets, actions))
  {
    if actions == [] {
    } else {
      var front := actions[..|actions| - 1];
      FrontLegal(kind, packets, actions);
      GoodRun(kind, packets, front);
      GoodStep(kind, packets, Run(kind, packets, front), actions[|actions| - 1], Active(front),
               SentBefore(kind, packets, front));
    }
  }

  lemma FrontLegal(kind: Kind, packets: nat, actions: seq<Action>)
    requires actions != [] && Legal(kind, packets, actions)
    ensures var front := actions[..|actions| - 1];
      && Legal(kind, packets, front)
      && (NoRestart(kind, packets, actions) ==> NoRestart(kind, packets, front))
  {
    hide Run;
    var front := actions[..|actions| - 1];
    assert forall k :: 0 <= k < |front| ==> front[..k] == actions[..k] && front[k] == actions[k];
  }

  /** One more action. */
  lemma Extend(kind: Kind, packets: nat, actions: seq<Action>, a: Action)
    ensures var all, s := actions + [a], Run(kind, packets, actions);
      && Run(kind, packets, all) == Step(kind, packets, s, a)
      && (Legal(kind, packets, all) <==> Legal(kind, packets, actions) && (a.Fire? ==> a.event in s.pending))
      && (NoRestart(kind, packets, all) <==> NoRestart(kind, packets, actions) && (a.Start? ==> s.pending == {}))
      && Active(all) == (a.Start? || (!a.Stop? && Active(actions)))
      && SentBefore(kind, packets, all) == if a.Start? then s.sent else SentBefore(kind, packets, actions)
  {
    var all := actions + [a];
    assert all[..|actions|] == actions && all[|actions|] == a;
    assert Run(kind, packets, all) == Step(kind, packets, Run(kind, packets, actions), a);
    hide Run;
    assert forall k :: 0 <= k < |actions| ==> all[..k] == actions[..k] && all[k] == actions[k];
  }

  /** At most one pending send, and none after a stop; exactly `count` packets since the last
      start, never more than allowed, and all of them once nothing is pending. */
  ghost predicate Promises(kind: Kind, packets: nat, actions: seq<Action>) {
    var s := Run(kind, packets, actions);
    && |s.pending| <= 1
    && (s.pending != {} ==> Active(actions))
    && s.sent - SentBefore(kind, packets, actions) == s.count <= Limit(kind, packets)
    && (Active(actions) && s.pending == {} ==> s.count == Limit(kind, packets))
  }

  /** Both applications keep this over every run; the tutorial must not be restarted. */
  lemma EveryRun(kind: Kind, packets: nat, actions: seq<Action>)
    requires kind == Sender ==> packets >= 1
    requires Legal(kind, packets, actions)
    requires kind == Tutorial ==> NoRestart(kind, packets, actions)
    ensures Promises(kind, packets, actions)
  {
    GoodRun(kind, packets, actions);
    hide Run, SentBefore, Active, Limit;
    var s := Run(kind, packets, actions);
    if s.pending != {} { assert s.pending == {s.sendEvent}; }
  }

  /** A packet is sent only while the application is active. */
  lemma SendsOnlyWhileActive(kind: Kind, packets: nat, actions: seq<Action>, a: Action)
    requires kind == Sender ==> packets >= 1
    requires Legal(kind, packets, actions + [a])
    requires kind == Tutorial ==> NoRestart(kind, packets, actions + [a])
    ensures Run(kind, packets, actions + [a]).sent != Run(kind, packets, actions).sent ==> Active(actions + [a])
  {
    Extend(kind, packets, actions, a);
    EveryRun(kind, packets, actions);
    hide Run, Legal, NoRestart, Active;
  }

  /** Left alone after a start, the sender sends one packet for every event, and stops by itself
      after exactly `packets` of them. */
  lemma {:induction false} Undisturbed(packets: nat, actions: seq<Action>, fires: seq<Action>)
    requires packets >= 1 && forall a :: a in fires ==> a.Fire?
    requires Legal(Sender, packets, actions + [Start] + fires)
    ensures var s := Run(Sender, packets, actions + [Start] + fires);
      && s.count == |fires| <= packets
      && (s.pending == {} <==> |fires| == packets)
  {
    var all := actions + [Start] + fires;
    CountsFires(packets, actions, fires);
    GoodRun(Sender, packets, all);
    hide Run;
  }

  lemma {:induction false} CountsFires(packets: nat, actions: seq<Action>, fires: seq<Action>)
    requires forall a :: a in fires ==> a.Fire?
    ensures Run(Sender, packets, actions + [Start] + fires).count == |fires|
    ensures Active(actions + [Start] + fires)
  {
    var all := actions + [Start] + fires;
    if fires == [] {
      assert all[..|all| - 1] == actions;
    } else {
      var front := fires[..|fires| - 1];
      CountsFires(packets, actions, front);
      assert all[..|all| - 1] == actions + [Start] + front;
      assert all[|all| - 1] in fires;
    }
  }

  // ----- the tutorial, restarted

  /** The tutorial keeps to one pending send exactly if it is never restarted. */
  lemma OnePendingIff(packets: nat, actions: seq<Action>)
    requires Legal(Tutorial, packets, actions)
    ensures (forall k :: 0 <= k <= |actions| ==> |Run(Tutorial, packets, actions[..k]).pending| <= 1)
            <==> NoRestart(Tutorial, packets, actions)
  {
    if NoRestart(Tutorial, packets, actions) {
      forall k | 0 <= k <= |actions| ensures |Run(Tutorial, packets, actions[..k]).pending| <= 1 {
        PrefixLegal(Tutorial, packets, actions, k);
        EveryRun(Tutorial, packets, actions[..k]);
      }
    } else {
      var k := FirstRestart(packets, actions);
      PrefixLegal(Tutorial, packets, actions, k);
      GoodRun(Tutorial, packets, actions[..k]);
      assert actions[..k + 1][..k] == actions[..k];
      RestartAddsOne(packets, Run(Tutorial, packets, actions[..k]), Active(actions[..k]),
                     SentBefore(Tutorial, packets, actions[..k]));
    }
  }

  lemma PrefixLegal(kind: Kind, packets: nat, actions: seq<Action>, n: nat)
    requires n <= |actions| && Legal(kind, packets, actions)
    ensures Legal(kind, packets, actions[..n])
    ensures NoRestart(kind, packets, actions) ==> NoRestart(kind, packets, actions[..n])
  {
    hide Run;
    assert forall k :: 0 <= k < n ==> actions[..n][..k] == actions[..k];
  }

  lemma {:induction false} FirstRestart(packets: nat, actions: seq<Action>) returns (k: nat)
    requires Legal(Tutorial, packets, actions) && !NoRestart(Tutorial, packets, actions)
    ensures k < |actions| && actions[k].Start? && Run(Tutorial, packets, actions[..k]).pending != {}
    ensures NoRestart(Tutorial, packets, actions[..k])
  {
    hide Run;
    k :| 0 <= k < |actions| && actions[k].Start? && Run(Tutorial, packets, actions[..k]).pending != {};
    if !NoRestart(Tutorial, packets, actions[..k]) {
      PrefixLegal(Tutorial, packets, actions, k);
      var j := FirstRestart(packets, actions[..k]);
      assert actions[..k][..j] == actions[..j];
      k := j;
    }
  }

  lemma RestartAddsOne(packets: nat, s: State, active: bool, before: nat)
    requires Good(Tutorial, packets, s, active, before) && s.pending != {}
    ensures |Step(Tutorial, packets, s, Start).pending| == 2
  {
    assert s.pending == {s.sendEvent};
    assert Step(Tutorial, packets, s, Start).pending == {s.sendEvent, s.nextEvent};
  }

  /** Nothing is sent between a stop and the next start, whatever fires. */
  ghost predicate QuietAfterStop(kind: Kind, packets: nat, actions: seq<Action>) {
    forall fires: seq<Action> :: OnlyFires(fires) && Legal(kind, packets, actions + [Stop] + fires) ==>
      Run(kind, packets, actions + [Stop] + fires).sent == Run(kind, packets, actions).sent
  }

  predicate OnlyFires(actions: seq<Action>) {
    forall a :: a in actions ==> a.Fire?
  }

  /** At any moment of any run, a stop silences either application exactly if no event is
      pending but the one that it remembers. */
  lemma QuietIff(kind: Kind, packets: nat, actions: seq<Action>)
    requires Legal(kind, packets, actions)
    ensures QuietAfterStop(kind, packets, actions) <==>
            Run(kind, packets, actions).pending <= {Run(kind, packets, actions).sendEvent}
  {
    var s, stopped := Run(kind, packets, actions), actions + [Stop];
    Extend(kind, packets, actions, Stop);
    assert Run(kind, packets, stopped) == Cancel(s.(running := false));
    hide Run;
    if s.pending <= {s.sendEvent} {
      forall fires: seq<Action> | OnlyFires(fires) && Legal(kind, packets, stopped + fires)
        ensures Run(kind, packets, stopped + fires).sent == s.sent
      {
        if fires != [] { FirstIsPending(kind, packets, stopped, fires); }
        assert stopped + [] == stopped;
      }
    } else {
      var e :| e in s.pending && e != s.sendEvent;
      Extend(kind, packets, stopped, Fire(e));
      assert OnlyFires([Fire(e)]);
      assert Run(kind, packets, stopped + [Fire(e)]).sent == s.sent + 1;
    }
  }

  lemma FirstIsPending(kind: Kind, packets: nat, actions: seq<Action>, fires: seq<Action>)
    requires fires != [] && OnlyFires(fires) && Legal(kind, packets, actions + fires)
    ensures fires[0].Fire? && fires[0].event in Run(kind, packets, actions).pending
  {
    hide Run;
    var all := actions + fires;
    assert all[|actions|] == fires[0] && fires[0] in fires && all[..|actions|] == actions;
  }

  /** Left alone after a start, the tutorial never sends more than it may. */
  ghost predicate WithinLimit(packets: nat, actions: seq<Action>) {
    forall fires: seq<Action> :: OnlyFires(fires) && Legal(Tutorial, packets, actions + [Start] + fires) ==>
      Run(Tutorial, packets, actions + [Start] + fires).count <= Limit(Tutorial, packets)
  }

  /** At any moment of any run, a start keeps the tutorial within its limit exactly if it finds
      nothing pending; with fewer than two packets, nothing ever is. */
  lemma WithinLimitIff(packets: nat, actions: seq<Action>)
    requires Legal(Tutorial, packets, actions)
    ensures WithinLimit(packets, actions) <==> Run(Tutorial, packets, actions).pending == {}
    ensures packets < 2 ==> Run(Tutorial, packets, actions).pending == {}
  {
    hide Run, Legal, OneLeft, OnlyFires;
    FewPackets(packets, actions);
    AfterStart(packets, actions);
    var s, started := Run(Tutorial, packets, actions), actions + [Start];
    if s.pending == {} {
      forall fires: seq<Action> | OnlyFires(fires) && Legal(Tutorial, packets, started + fires)
        ensures Run(Tutorial, packets, started + fires).count <= Limit(Tutorial, packets)
      {
        FiresBounded(packets, started, fires);
      }
    } else {
      var e :| e in s.pending;
      StartBesides(packets, actions, e);
      var fires := TooMany(packets, started, e, s.nextEvent, packets);
      assert Run(Tutorial, packets, started + fires).count > Limit(Tutorial, packets);
    }
  }

  lemma {:induction false} FewPackets(packets: nat, actions: seq<Action>)
    requires Legal(Tutorial, packets, actions)
    ensures packets < 2 ==> Run(Tutorial, packets, actions).pending == {}
  {
    if actions == [] {
    } else {
      FrontLegal(Tutorial, packets, actions);
      FewPackets(packets, actions[..|actions| - 1]);
    }
  }

  /** One event at most, and only while more may be sent. */
  ghost predicate OneLeft(packets: nat, s: State) {
    && s.running && s.pending <= {s.sendEvent}
    && 1 <= s.count <= Limit(Tutorial, packets) && (s.pending != {} ==> s.count < packets)
  }

  /** Two events that both may fire. */
  ghost predicate Rivals(s: State, e: nat, f: nat) {
    s.running && s.count >= 1 && e != f && e in s.pending && f in s.pending
  }

  lemma AfterStart(packets: nat, actions: seq<Action>)
    requires Legal(Tutorial, packets, actions)
    ensures Legal(Tutorial, packets, actions + [Start])
    ensures var s, t := Run(Tutorial, packets, actions), Run(Tutorial, packets, actions + [Start]);
      s.pending == {} ==> OneLeft(packets, t)
  {
    Extend(Tutorial, packets, actions, Start);
    hide Run, Legal;
  }

  lemma StartBesides(packets: nat, actions: seq<Action>, e: nat)
    requires packets >= 2 && e in Run(Tutorial, packets, actions).pending
    ensures Rivals(Run(Tutorial, packets, actions + [Start]), e, Run(Tutorial, packets, actions).nextEvent)
  {
    Extend(Tutorial, packets, actions, Start);
    EventsAreOld(packets, actions);
    hide Run, Legal;
    var s, t := Run(Tutorial, packets, actions), Run(Tutorial, packets, actions + [Start]);
    assert t.pending == s.pending + {s.nextEvent};
  }

  /** Firing an event that leaves at most one, or one of two rivals. */
  lemma AfterFire(packets: nat, s: State, e: nat)
    requires e in s.pending
    ensures var t := Step(Tutorial, packets, s, Fire(e));
      && t.count == s.count + 1
      && (OneLeft(packets, s) ==> OneLeft(packets, t))
      && (forall f :: Rivals(s, e, f) && t.count < packets && s.nextEvent !in s.pending ==> Rivals(t, s.nextEvent, f))
      && (forall f :: Rivals(s, e, f) ==> f in t.pending)
  {
  }

  lemma {:induction false} FiresBounded(packets: nat, actions: seq<Action>, fires: seq<Action>)
    requires OneLeft(packets, Run(Tutorial, packets, actions))
    requires OnlyFires(fires) && Legal(Tutorial, packets, actions + fires)
    ensures OneLeft(packets, Run(Tutorial, packets, actions + fires))
    ensures Run(Tutorial, packets, actions + fires).count <= Limit(Tutorial, packets)
  {
    hide Run, Legal;
    if fires == [] {
      assert actions + fires == actions;
    } else {
      var front, a := fires[..|fires| - 1], fires[|fires| - 1];
      assert a in fires && actions + front + [a] == actions + fires;
      Extend(Tutorial, packets, actions + front, a);
      FiresBounded(packets, actions, front);
      hide Send, Limit;
      AfterFire(packets, Run(Tutorial, packets, actions + front), a.event);
    }
  }

  /** With two events pending, firing on leads above the limit. */
  lemma {:induction false} TooMany(packets: nat, actions: seq<Action>, e: nat, f: nat, left: nat)
    returns (fires: seq<Action>)
    requires Legal(Tutorial, packets, actions) && Rivals(Run(Tutorial, packets, actions), e, f)
    requires Run(Tutorial, packets, actions).count + left > packets
    ensures OnlyFires(fires) && Legal(Tutorial, packets, actions + fires)
    ensures Run(Tutorial, packets, actions + fires).count > packets
    decreases left
  {
    hide Run, Legal, Send;
    var s, next := Run(Tutorial, packets, actions), actions + [Fire(e)];
    if s.count > packets {
      assert actions + [] == actions;
      return [];
    }
    EventsAreOld(packets, actions);
    Extend(Tutorial, packets, actions, Fire(e));
    AfterFire(packets, s, e);
    if s.count + 1 < packets {
      fires := TooMany(packets, next, s.nextEvent, f, left - 1);
      assert next + fires == actions + ([Fire(e)] + fires);
      fires := [Fire(e)] + fires;
    } else {
      fires := [Fire(e), Fire(f)];
      Extend(Tutorial, packets, next, Fire(f));
      AfterFire(packets, Run(Tutorial, packets, next), f);
      assert next + [Fire(f)] == actions + fires;
    }
  }

  /** Started twice and left alone, it sends three packets where two were asked for. */
  lemma OneTooMany()
    ensures var actions := [Start, Start, Fire(1), Fire(2)];
      Legal(Tutorial, 2, actions) && Run(Tutorial, 2, actions).count == 3 > Limit(Tutorial, 2)
  {
    var one, two, three := [Start], [Start, Start], [Start, Start, Fire(1)];
    var actions := [Start, Start, Fire(1), Fire(2)];
    assert one[..0] == [] && two[..1] == one && three[..2] == two && actions[..3] == three;
    assert actions[..2] == two;
    assert Run(Tutorial, 2, one) == State(1, 1, {1}, 2, true, 1) by {
      assert {} + {1} == {1};
    }
    assert Run(Tutorial, 2, two) == State(1, 2, {1, 2}, 3, true, 2) by {
      assert {1} + {2} == {1, 2};
    }
    assert Run(Tutorial, 2, three) == State(2, 2, {2}, 3, true, 3) by {
      assert {1, 2} - {1} == {2};
    }
  }

  /** Started twice, then stopped, it still holds an event that sends. */
  lemma StrayEvent(packets: nat)
    requires packets >= 2
    ensures var actions := [Start, Start, Stop];
      && Run(Tutorial, packets, [Start, Start]).pending == {1, 2}
      && Run(Tutorial, packets, actions).pending == {1} && !Active(actions)
      && Run(Tutorial, packets, actions + [Fire(1)]).sent == Run(Tutorial, packets, actions).sent + 1
  {
    var one, two, actions := [Start], [Start, Start], [Start, Start, Stop];
    assert one[..0] == [] && two[..1] == one && actions[..2] == two;
    assert (actions + [Fire(1)])[..3] == actions;
    assert Run(Tutorial, packets, one) == State(1, 1, {1}, 2, true, 1) by {
      assert {} + {1} == {1};
    }
    assert Run(Tutorial, packets, two) == State(1, 2, {1, 2}, 3, true, 2) by {
      assert {1} + {2} == {1, 2};
    }
    assert {1, 2} - {2} == {1};
  }

  // ----- the applications

  /** The part of the simulator that the applications use: the pending events that call their
      SendPacket, and the number of packets that reached the socket. */
  class Simulator {
    var pending: set<nat>
    var nextEvent: nat
    var sent: nat

    constructor ()
      ensures pending == {} && nextEvent == 1 && sent == 0
    {
      pending, nextEvent, sent := {}, 1, 0;
    }

    method Schedule() returns (event: nat)
      modifies this`pending, this`nextEvent
      ensures event == old(nextEvent) && nextEvent == event + 1 && pending == old(pending) + {event}
    {
      event := nextEvent;
      pending, nextEvent := pending + {event}, nextEvent + 1;
    }

    method Cancel(event: nat)
      modifies this`pending
      ensures pending == old(pending) - {event}
    {
      pending := pending - {event};
    }
  }

  class WifiSender {
    const simulator: Simulator
    const packets: nat
    var count: nat
    var sendEvent: nat
    ghost var running: bool
    ghost var history: seq<Action>

    constructor (simulator: Simulator, packets: nat)
      requires packets >= 1 && simulator.pending == {} && simulator.nextEvent == 1 && simulator.sent == 0
      ensures this.simulator == simulator && this.packets == packets && Valid() && history == []
    {
      this.simulator, this.packets := simulator, packets;
      count, sendEvent, running, history := 0, 0, false, [];
    }

    ghost function Now(): State
      reads this, simulator
    {
      State(count, sendEvent, simulator.pending, simulator.nextEvent, running, simulator.sent)
    }

    /** The object is where a legal run of the application leads. */
    ghost predicate Valid()
      reads this, simulator
    {
      packets >= 1 && Legal(Sender, packets, history) && Now() == Run(Sender, packets, history)
    }

    /** What holds between any two calls: see Promises, here about the fields. */
    ghost predicate Kept()
      reads this, simulator
    {
      && |simulator.pending| <= 1
      && (simulator.pending != {} ==> Active(history))
      && simulator.sent - SentBefore(Sender, packets, history) == count <= packets
      && (Active(history) && simulator.pending == {} ==> count == packets)
    }

    lemma KeptWhenValid()
      requires Valid()
      ensures Kept()
    {
      EveryRun(Sender, packets, history);
    }

    /** A new round: nothing is sent yet, and one fresh event is pending, whatever was before. */
    method StartApplication()
      requires Valid()
      modifies this, simulator
      ensures Valid() && Kept() && history == old(history) + [Start]
      ensures count == 0 && simulator.sent == old(simulator.sent)
      ensures |simulator.pending| == 1 && simulator.pending !! old(simulator.pending)
    {
      Extend(Sender, packets, history, Start);
      SenderEvent(packets, history);
      hide Run, Legal, SentBefore, Active, NoRestart, Kept;
      count := 0;
      simulator.Cancel(sendEvent);
      sendEvent := simulator.Schedule();
      running, history := true, history + [Start];
      KeptWhenValid();
    }

    /** No event is left that could send. */
    method StopApplication()
      requires Valid()
      modifies this, simulator
      ensures Valid() && Kept() && history == old(history) + [Stop]
      ensures simulator.pending == {} && simulator.sent == old(simulator.sent)
    {
      Extend(Sender, packets, history, Stop);
      SenderEvent(packets, history);
      hide Run, Legal, SentBefore, Active, NoRestart, Kept;
      simulator.Cancel(sendEvent);
      running, history := false, history + [Stop];
      KeptWhenValid();
    }

    /** The simulator has just taken `event` off its list. */
    ghost predicate Fired(event: nat)
      reads this, simulator
    {
      && packets >= 1 && Legal(Sender, packets, history) && event in Run(Sender, packets, history).pending
      && Now() == Run(Sender, packets, history).(pending := Run(Sender, packets, history).pending - {event})
    }

    /** One packet is sent; the next event is pending unless this was the last of `packets`. */
    method SendPacket(ghost event: nat)
      requires Fired(event)
      modifies this, simulator
      ensures Valid() && Kept() && history == old(history) + [Fire(event)]
      ensures simulator.sent == old(simulator.sent) + 1
      ensures simulator.pending == {} <==> count == packets
    {
      SenderFires(packets, history, event);
      hide Run, Legal, SentBefore, Active, Kept;
      simulator.sent := simulator.sent + 1;
      count := count + 1;
      if count < packets {
        sendEvent := simulator.Schedule();
      }
      history := history + [Fire(event)];
      KeptWhenValid();
    }

    /** Simulator::Run, at this event. */
    method RunEvent(event: nat)
      requires Valid() && event in simulator.pending
      modifies this, simulator
      ensures Valid() && Kept() && history == old(history) + [Fire(event)]
      ensures simulator.sent == old(simulator.sent) + 1
      ensures simulator.pending == {} <==> count == packets
    {
      simulator.pending := simulator.pending - {event};
      SendPacket(event);
    }
  }

  /** The sender remembers the only event that can be pending. */
  lemma SenderEvent(packets: nat, actions: seq<Action>)
    requires packets >= 1 && Legal(Sender, packets, actions)
    ensures var s := Run(Sender, packets, actions);
      && s.pending - {s.sendEvent} == {} && s.nextEvent !in s.pending
      && (s.pending == {} || (s.pending == {s.sendEvent} && s.count < packets))
      && s.count <= packets
  {
    GoodRun(Sender, packets, actions);
  }

  lemma SenderFires(packets: nat, actions: seq<Action>, event: nat)
    requires packets >= 1 && Legal(Sender, packets, actions) && event in Run(Sender, packets, actions).pending
    ensures var s, t := Run(Sender, packets, actions), Run(Sender, packets, actions + [Fire(event)]);
      && Legal(Sender, packets, actions + [Fire(event)])
      && t == Send(Sender, packets, s.(pending := s.pending - {event}))
      && (t.pending == {} <==> t.count == packets)
  {
    Extend(Sender, packets, actions, Fire(event));
    SenderEvent(packets, actions);
    SenderEvent(packets, actions + [Fire(event)]);
    hide Run, Legal;
    assert Run(Sender, packets, actions).pending - {event} == {};
  }

  class TutorialApp {
    const simulator: Simulator
    const packets: nat
    var packetsSent: nat
    var sendEvent: nat
    var running: bool
    ghost var history: seq<Action>

    constructor (simulator: Simulator, packets: nat)
      requires simulator.pending == {} && simulator.nextEvent == 1 && simulator.sent == 0
      ensures this.simulator == simulator && this.packets == packets
      ensures Valid() && NeverRestarted() && history == []
    {
      this.simulator, this.packets := simulator, packets;
      packetsSent, sendEvent, running, history := 0, 0, false, [];
    }

    ghost function Now(): State
      reads this, simulator
    {
      State(packetsSent, sendEvent, simulator.pending, simulator.nextEvent, running, simulator.sent)
    }

    ghost predicate Valid()
      reads this, simulator
    {
      Legal(Tutorial, packets, history) && Now() == Run(Tutorial, packets, history)
    }

    ghost predicate NeverRestarted()
      reads this
    {
      NoRestart(Tutorial, packets, history)
    }

    /** What holds between any two calls of an application that was never restarted. */
    ghost predicate Kept()
      reads this, simulator
    {
      && |simulator.pending| <= 1
      && (simulator.pending != {} ==> running)
      && simulator.sent - SentBefore(Tutorial, packets, history) == packetsSent <= Limit(Tutorial, packets)
      && (running && simulator.pending == {} ==> packetsSent == Limit(Tutorial, packets))
    }

    /** The first packet is sent at once. The application counts as restarted, and loses its
        promises, exactly if an event was pending. */
    method StartApplication()
      requires Valid()
      modifies this, simulator
      ensures Valid() && history == old(history) + [Start]
      ensures NeverRestarted() <==> old(NeverRestarted()) && old(simulator.pending) == {}
      ensures NeverRestarted() ==> Kept()
      ensures packetsSent == 1 && simulator.sent == old(simulator.sent) + 1
      ensures |simulator.pending| == |old(simulator.pending)| + (if packets > 1 then 1 else 0)
    {
      EventsAreOld(packets, history);
      Extend(Tutorial, packets, history, Start);
      running := true;
      packetsSent := 0;
      SendPacket();
      history := history + [Start];
      KeptIfNeverRestarted();
    }

    /** The event it remembers is cancelled; it is silent now exactly if there was no other. */
    method StopApplication()
      requires Valid()
      modifies this, simulator
      ensures Valid() && history == old(history) + [Stop]
      ensures NeverRestarted() <==> old(NeverRestarted())
      ensures NeverRestarted() ==> Kept()
      ensures simulator.sent == old(simulator.sent)
      ensures simulator.pending == {} <==> old(simulator.pending <= {sendEvent})
    {
      Extend(Tutorial, packets, history, Stop);
      hide Run, Legal, SentBefore, Active, NoRestart;
      running := false;
      if sendEvent in simulator.pending {
        simulator.Cancel(sendEvent);
      }
      history := history + [Stop];
      KeptIfNeverRestarted();
    }

    method SendPacket()
      modifies this, simulator
      ensures Now() == Send(Tutorial, packets, old(Now())) && history == old(history)
    {
      simulator.sent := simulator.sent + 1;
      packetsSent := packetsSent + 1;
      if packetsSent < packets {
        ScheduleTx();
      }
    }

    method ScheduleTx()
      modifies this, simulator
      ensures Now() == (if old(running) then Schedule(old(Now())) else old(Now())) && history == old(history)
    {
      if running {
        sendEvent := simulator.Schedule();
      }
    }

    /** Simulator::Run, at this event: one packet is sent, whether or not it was meant to be. */
    method RunEvent(event: nat)
      requires Valid() && event in simulator.pending
      modifies this, simulator
      ensures Valid() && history == old(history) + [Fire(event)]
      ensures NeverRestarted() <==> old(NeverRestarted())
      ensures NeverRestarted() ==> Kept()
      ensures simulator.sent == old(simulator.sent) + 1
    {
      Extend(Tutorial, packets, history, Fire(event));
      simulator.pending := simulator.pending - {event};
      SendPacket();
      history := history + [Fire(event)];
      KeptIfNeverRestarted();
    }

    lemma KeptIfNeverRestarted()
      requires Valid()
      ensures NeverRestarted() ==> Kept()
    {
      if NeverRestarted() {
        EveryRun(Tutorial, packets, history);
        GoodRun(Tutorial, packets, history);
      }
    }
  }

  /** No identifier is given out twice. */
  lemma {:induction false} EventsAreOld(packets: nat, actions: seq<Action>)
    ensures forall e :: e in Run(Tutorial, packets, actions).pending ==> e < Run(Tutorial, packets, actions).nextEvent
  {
    if actions == [] {
    } else {
      EventsAreOld(packets, actions[..|actions| - 1]);
    }
  }
}
