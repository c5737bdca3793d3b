/**
 Any number of timers sharing one tick. The handler's operations act on it like this: a tick
 advances all countdowns, everything else changes one. TimerHandler proves this of the delta list,
 operation by operation, for runs in which a timer is only ever armed while it is inactive. Two
 starts of one timer that overlap break that rule, and then the list (see Handler.ArmActive).
 */
module TimerSystem {
  import opened Countdown

  datatype SystemEvent<T> = AllTick | One(t: T, e: Event)

  /** A tick is common to all timers. */
  predicate WellFormed<T>(es: seq<SystemEvent<T>>) {
    forall i :: 0 <= i < |es| && es[i].One? ==> es[i].e != Tick
  }

  function SystemStep<T>(s: map<T, Countdown>, e: SystemEvent<T>): (r: map<T, Countdown>)
    ensures r.Keys == s.Keys
  {
    match e
    case AllTick => map t | t in s :: Ticked(s[t])
    case One(t, ev) => if t in s then s[t := Step(s[t], ev)] else s
  }

  function SystemRun<T>(s: map<T, Countdown>, es: seq<SystemEvent<T>>): (r: map<T, Countdown>)
    ensures r.Keys == s.Keys
  {
    if es == [] then s else SystemStep(SystemRun(s, es[..|es| - 1]), es[|es| - 1])
  }

  /** The events that concern timer `t`. */
  function Project<T(==)>(es: seq<SystemEvent<T>>, t: T): seq<Event> {
    if es == [] then []
    else
      var last := es[|es| - 1];
      Project(es[..|es| - 1], t)
      + if last.AllTick? then [Tick] else if last.t == t then [last.e] else []
  }

  lemma RunOneMore(c: Countdown, es: seq<Event>, e: Event)
    ensures Run(c, es + [e]) == Step(Run(c, es), e)
  {
    assert (es + [e])[..|es|] == es;
  }

  /** Every arm finds its timer inactive. */
  predicate Disciplined<T>(s: map<T, Countdown>, es: seq<SystemEvent<T>>) {
    && WellFormed(es)
    && forall k :: 0 <= k < |es| && es[k].One? && es[k].e.Arm? && es[k].t in s ==>
         SystemRun(s, es[..k])[es[k].t].left == 0
  }

  /** In every interleaving a timer does exactly what it would do alone. */
  lemma {:induction false} TimersAreIndependent<T>(s: map<T, Countdown>, es: seq<SystemEvent<T>>, t: T)
    requires t in s && Disciplined(s, es)
    ensures SystemRun(s, es)[t] == Run(s[t], Project(es, t))
  {
    if es != [] {
      var n := |es| - 1;
      assert forall k :: 0 <= k < n ==> es[..n][..k] == es[..k];
      TimersAreIndependent(s, es[..n], t);
      var before := Project(es[..n], t);
      if es[n].AllTick? {
        RunOneMore(s[t], before, Tick);
      } else if es[n].t == t {
        RunOneMore(s[t], before, es[n].e);
      } else {
        assert Project(es, t) == before;
      }
    }
  }

  /** What a start does: two critical sections, between which other threads may run. */
  function Start<T>(t: T, initial: nat, repeat: nat): seq<SystemEvent<T>> {
    [One(t, Stop), One(t, Arm(initial, repeat))]
  }

  lemma SuccessiveStartsAreDisciplined<T>(s: map<T, Countdown>, t: T, a: nat, b: nat)
    requires t in s
    ensures Disciplined(s, Start(t, a, 0) + Start(t, b, 0))
  {
    var es := Start(t, a, 0) + Start(t, b, 0);
    assert es[..0] == [] && es[..1][..0] == [] && es[..2][..1] == es[..1] && es[..3][..2] == es[..2];
    assert SystemRun(s, es[..1])[t].left == 0;
    assert SystemRun(s, es[..3])[t].left == 0;
  }

  /** Two starts of one timer are in order one after the other, and not interleaved. */
  lemma OverlappingStartsBreakDiscipline<T>(s: map<T, Countdown>, t: T, a: nat, b: nat)
    requires t in s
    ensures Disciplined(s, Start(t, a, 0) + Start(t, b, 0))
    ensures !Disciplined(s, [One(t, Stop), One(t, Stop), One(t, Arm(a, 0)), One(t, Arm(b, 0))])
  {
    SuccessiveStartsAreDisciplined(s, t, a, b);
    var fs := [One(t, Stop), One(t, Stop), One(t, Arm(a, 0)), One(t, Arm(b, 0))];
    assert fs[..3][..2] == fs[..2] && fs[3].e.Arm?;
    assert SystemRun(s, fs[..3]) == SystemStep(SystemRun(s, fs[..2]), fs[2]);
  }

  /**
   Whatever happens to other timers, the time left of a timer that is started and then left alone is
   given by arithmetic.
   */
  lemma StartedTimerKeepsSchedule<T>(s: map<T, Countdown>, es: seq<SystemEvent<T>>, t: T,
                                     c: Countdown, initial: nat, repeat: nat)
    requires t in s && Disciplined(s, es) && s[t] == Armed(c, initial, repeat)
    requires Undisturbed(Project(es, t))
    ensures SystemRun(s, es)[t].left
      == LeftAfter(DivCeil(initial) + 1, DivCeil(repeat), TickCount(Project(es, t)))
  {
    TimersAreIndependent(s, es, t);
    Schedule(s[t], Project(es, t));
  }

  /**
   Such a timer posts a message on tick DivCeil(initial) + 1 after its start, then every
   DivCeil(repeat) ticks when that is not zero, and on no other tick, in every interleaving.
   */
  lemma StartedTimerPostsOnSchedule<T>(s: map<T, Countdown>, es: seq<SystemEvent<T>>, t: T,
                                       c: Countdown, initial: nat, repeat: nat)
    requires t in s && Disciplined(s, es) && s[t] == Armed(c, initial, repeat)
    requires Undisturbed(Project(es, t))
    ensures SystemStep(SystemRun(s, es), AllTick)[t].inFlight
      == AfterTick(SystemRun(s, es)[t], initial, repeat, TickCount(Project(es, t)) + 1)
  {
    TimersAreIndependent(s, es, t);
    NextTickPosts(c, initial, repeat, Project(es, t));
  }

  /** The messages in flight after tick number `n` of a timer that is due on its schedule only. */
  function AfterTick(c: Countdown, initial: nat, repeat: nat, n: nat): seq<nat> {
    if OnSchedule(DivCeil(initial) + 1, DivCeil(repeat), n) then c.inFlight + [c.epoch] else c.inFlight
  }

  lemma NextTickPosts(c: Countdown, initial: nat, repeat: nat, events: seq<Event>)
    requires Undisturbed(events)
    ensures var before := Run(Armed(c, initial, repeat), events);
      Ticked(before).inFlight == AfterTick(before, initial, repeat, TickCount(events) + 1)
  {
    var es, k := events + [Tick], |events|;
    assert es[..k] == events && es[k] == Tick;
    assert Undisturbed(es);
    PostsExactlyOnSchedule(c, initial, repeat, es, k);
    assert Posts(Armed(c, initial, repeat), es, k) <==> Run(Armed(c, initial, repeat), events).left == 1;
  }
}
