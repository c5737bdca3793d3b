/** Whole runs on the delta list: it does what the independent countdowns do, event after event. */
module TimerRuns {
  import opened Countdown
  import opened TimerSystem
  import opened TimerHandler

  /** The handler's timers are the countdowns of a system. */
  ghost predicate Shows(h: Handler, s: map<Timer, Countdown>)
    requires |h.active| == |h.rem|
    reads h`timers, h`active, h`rem, h.timers
  {
    s.Keys == h.timers && forall u :: u in h.timers ==> h.View(u) == s[u]
  }

  /** A timer is known, armed only while inactive, and asked only about a message it has in flight. */
  predicate Allowed(s: map<Timer, Countdown>, e: SystemEvent<Timer>) {
    e.One? ==>
      && e.t in s && e.e != Tick
      && (e.e.Arm? ==> s[e.t].left == 0)
      && (e.e.Take? ==> s[e.t].inFlight != [])
  }

  predicate AllowedRun(s: map<Timer, Countdown>, es: seq<SystemEvent<Timer>>) {
    forall k {:trigger es[..k]} :: 0 <= k < |es| ==> Allowed(SystemRun(s, es[..k]), es[k])
  }

  /** The events a run of the system allows are those of a disciplined run. */
  lemma AllowedIsDisciplined(s: map<Timer, Countdown>, es: seq<SystemEvent<Timer>>)
    requires AllowedRun(s, es)
    ensures Disciplined(s, es)
  {
    forall k | 0 <= k < |es| && es[k].One?
      ensures es[k].e != Tick && (es[k].e.Arm? ==> SystemRun(s, es[..k])[es[k].t].left == 0)
    {
      assert Allowed(SystemRun(s, es[..k]), es[k]);
    }
  }

  /** What a validity test has to answer. */
  predicate Answer(s: map<Timer, Countdown>, e: SystemEvent<Timer>)
    requires Allowed(s, e)
  {
    e.One? && e.e.Take? && OldestIsCurrent(s[e.t])
  }

  /** The answers of a run, false for all other events. */
  function Answers(s: map<Timer, Countdown>, es: seq<SystemEvent<Timer>>): (answers: seq<bool>)
    requires AllowedRun(s, es)
    ensures |answers| == |es|
  {
    if es == [] then []
    else
      var n := |es| - 1;
      AllowedPrefix(s, es, n);
      assert Allowed(SystemRun(s, es[..n]), es[n]);
      Answers(s, es[..n]) + [Answer(SystemRun(s, es[..n]), es[n])]
  }

  lemma {:induction false} AnswerAt(s: map<Timer, Countdown>, es: seq<SystemEvent<Timer>>, k: nat)
    requires AllowedRun(s, es) && k < |es|
    ensures Allowed(SystemRun(s, es[..k]), es[k])
    ensures Answers(s, es)[k] == Answer(SystemRun(s, es[..k]), es[k])
  {
    var n := |es| - 1;
    AllowedPrefix(s, es, n);
    if k < n {
      AnswerAt(s, es[..n], k);
      assert es[..n][..k] == es[..k];
    }
  }

  /** One critical section of the handler is one event of the system. */
  method Perform(h: Handler, e: SystemEvent<Timer>, ghost s: map<Timer, Countdown>) returns (valid: bool)
    requires h.Valid() && Shows(h, s) && Allowed(s, e)
    modifies h`head, h`active, h`rem, h`posted, h.timers
    ensures h.Valid() && h.timers == old(h.timers) && Shows(h, SystemStep(s, e))
    ensures valid == Answer(s, e)
  {
    valid := false;
    match e
    case AllTick =>
      ghost var fired := h.Tick();
    case One(t, ev) =>
      valid := PerformOne(h, t, ev, s);
  }

  method PerformOne(h: Handler, t: Timer, ev: Event, ghost s: map<Timer, Countdown>) returns (valid: bool)
    requires h.Valid() && Shows(h, s) && Allowed(s, One(t, ev))
    modifies h`head, h`active, h`rem, h.timers
    ensures h.Valid() && h.timers == old(h.timers) && Shows(h, SystemStep(s, One(t, ev)))
    ensures valid == Answer(s, One(t, ev))
  {
    valid := false;
    match ev
    case Stop => StopOne(h, t, s);
    case Arm(initial, repeat) => ArmOne(h, t, initial, repeat, s);
    case Take => valid := Ask(h, t, s);
  }

  method StopOne(h: Handler, t: Timer, ghost s: map<Timer, Countdown>)
    requires h.Valid() && Shows(h, s) && t in s
    modifies h`head, h`active, h`rem, h.timers
    ensures h.Valid() && h.timers == old(h.timers) && Shows(h, SystemStep(s, One(t, Stop)))
  {
    h.Stop(t);
  }

  method ArmOne(h: Handler, t: Timer, initial: nat, repeat: nat, ghost s: map<Timer, Countdown>)
    requires h.Valid() && Shows(h, s) && t in s && s[t].left == 0
    modifies h`head, h`active, h`rem, h.timers
    ensures h.Valid() && h.timers == old(h.timers)
    ensures Shows(h, SystemStep(s, One(t, Arm(initial, repeat))))
  {
    h.Arm(t, initial, repeat);
  }

  method Ask(h: Handler, t: Timer, ghost s: map<Timer, Countdown>) returns (valid: bool)
    requires h.Valid() && Shows(h, s) && t in s && s[t].inFlight != []
    modifies h.timers`outstanding, h.timers`toIgnore, h.timers`inFlight
    ensures h.Valid() && h.timers == old(h.timers) && Shows(h, SystemStep(s, One(t, Take)))
    ensures valid == OldestIsCurrent(s[t])
  {
    assert h.View(t) == s[t];
    valid := h.IsMessageValid(t);
  }

  /**
   Over every allowed run, in whatever order threads and the tick take the mutex, each timer in the list
   is the countdown it would be alone, and each validity test answers for its own message.
   */
  method RunEvents(h: Handler, es: seq<SystemEvent<Timer>>, ghost s: map<Timer, Countdown>)
    returns (answers: seq<bool>)
    requires h.Valid() && Shows(h, s) && AllowedRun(s, es)
    modifies h`head, h`active, h`rem, h`posted, h.timers
    ensures h.Valid() && h.timers == old(h.timers) && Shows(h, SystemRun(s, es))
    ensures forall u :: u in h.timers ==> h.View(u) == Run(s[u], Project(es, u))
    ensures answers == Answers(s, es)
  {
    var i := 0;
    answers := [];
    ghost var now := s;
    assert es[..0] == [];
    while i < |es|
      invariant 0 <= i <= |es| && DoneTo(s, es, i, now, answers)
      invariant h.Valid() && h.timers == old(h.timers) && Shows(h, now)
    {
      answers, now := NextEvent(h, es, i, s, now, answers);
      i := i + 1;
    }
    assert es[..i] == es;
    AllIndependent(s, es);
  }

  ghost predicate DoneTo(s: map<Timer, Countdown>, es: seq<SystemEvent<Timer>>, i: nat,
                         now: map<Timer, Countdown>, answers: seq<bool>) {
    && i <= |es| && AllowedRun(s, es[..i])
    && now == SystemRun(s, es[..i]) && answers == Answers(s, es[..i])
  }

  method NextEvent(h: Handler, es: seq<SystemEvent<Timer>>, i: nat, ghost s: map<Timer, Countdown>,
                   ghost now: map<Timer, Countdown>, answers: seq<bool>)
    returns (more: seq<bool>, ghost next: map<Timer, Countdown>)
    requires h.Valid() && Shows(h, now) && AllowedRun(s, es) && i < |es| && DoneTo(s, es, i, now, answers)
    modifies h`head, h`active, h`rem, h`posted, h.timers
    ensures h.Valid() && h.timers == old(h.timers) && Shows(h, next)
    ensures DoneTo(s, es, i + 1, next, more)
  {
    RunGoesOn(s, es, i);
    var valid := Perform(h, es[i], now);
    more, next := answers + [valid], SystemStep(now, es[i]);
  }

  lemma RunGoesOn(s: map<Timer, Countdown>, es: seq<SystemEvent<Timer>>, i: nat)
    requires AllowedRun(s, es) && i < |es|
    ensures Allowed(SystemRun(s, es[..i]), es[i])
    ensures SystemRun(s, es[..i + 1]) == SystemStep(SystemRun(s, es[..i]), es[i])
    ensures AllowedRun(s, es[..i]) && AllowedRun(s, es[..i + 1])
    ensures Answers(s, es[..i + 1]) == Answers(s, es[..i]) + [Answer(SystemRun(s, es[..i]), es[i])]
  {
    assert es[..i + 1][..i] == es[..i];
    AllowedPrefix(s, es, i);
    AllowedPrefix(s, es, i + 1);
    assert Allowed(SystemRun(s, es[..i]), es[i]);
  }

  lemma AllIndependent(s: map<Timer, Countdown>, es: seq<SystemEvent<Timer>>)
    requires AllowedRun(s, es)
    ensures forall u :: u in s ==> SystemRun(s, es)[u] == Run(s[u], Project(es, u))
  {
    AllowedIsDisciplined(s, es);
    forall u | u in s
      ensures SystemRun(s, es)[u] == Run(s[u], Project(es, u))
    {
      TimersAreIndependent(s, es, u);
    }
  }

  lemma AllowedPrefix(s: map<Timer, Countdown>, es: seq<SystemEvent<Timer>>, n: nat)
    requires AllowedRun(s, es) && n <= |es|
    ensures AllowedRun(s, es[..n])
  {
    forall k | 0 <= k < n
      ensures Allowed(SystemRun(s, es[..n][..k]), es[..n][k])
    {
      assert es[..n][..k] == es[..k];
    }
  }

  /** A timer's own events take its messages once each. */
  lemma {:induction false} ProjectTakesOnce(s: map<Timer, Countdown>, es: seq<SystemEvent<Timer>>, t: Timer)
    requires AllowedRun(s, es) && t in s
    ensures TakesOnce(s[t], Project(es, t))
  {
    if es != [] {
      var n := |es| - 1;
      AllowedPrefix(s, es, n);
      ProjectTakesOnce(s, es[..n], t);
      AllIndependent(s, es[..n]);
      assert Allowed(SystemRun(s, es[..n]), es[n]);
      var own := Project(es[..n], t);
      if es[n].AllTick? {
        TakesOnceMore(s[t], own, Event.Tick);
      } else if es[n].t == t {
        TakesOnceMore(s[t], own, es[n].e);
      } else {
        assert Project(es, t) == own;
      }
    }
  }

  lemma TakesOnceMore(c: Countdown, es: seq<Event>, e: Event)
    requires TakesOnce(c, es) && (e == Take ==> Run(c, es).inFlight != [])
    ensures TakesOnce(c, es + [e])
  {
    forall k | 0 <= k < |es + [e]| && (es + [e])[k] == Take
      ensures Run(c, (es + [e])[..k]).inFlight != []
    {
      assert (es + [e])[..k] == es[..k];
      assert es[..|es|] == es;
    }
  }

  /**
   What a validity test answers, told by the events alone: whether the timer was not stopped, or started
   anew, since the tick that posted the message, whatever happened to other timers.
   */
  lemma AnswerExactlyUnlessStopped(s: map<Timer, Countdown>, es: seq<SystemEvent<Timer>>, k: nat)
    requires AllowedRun(s, es) && k < |es| && es[k].One? && es[k].e.Take?
    requires es[k].t in s && s[es[k].t].inFlight == []
    ensures
      var t := es[k].t; var own := Project(es[..k], t);
      && TakeCount(own) < |PostIndices(s[t], own)|
      && (Answers(s, es)[k] <==> NoStopAfter(own, PostIndices(s[t], own)[TakeCount(own)]))
  {
    var t := es[k].t;
    AnswerAt(s, es, k);
    AllowedPrefix(s, es, k);
    ProjectTakesOnce(s, es[..k], t);
    AllIndependent(s, es[..k]);
    assert Allowed(SystemRun(s, es[..k]), es[k]);
    ValidExactlyUnlessStopped(s[t], Project(es[..k], t));
  }
}
