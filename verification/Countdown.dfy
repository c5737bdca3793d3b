/**
 What one timer is for: an independent countdown. A timer counts handler ticks down,
 posts a message when it reaches zero and starts over when it is periodic. Messages
 that were posted before the latest stop are still in flight afterwards and have to be
 told apart from newer ones.

 Nothing in this module knows about the delta list; TimerHandler proves that the list
 of relative timeouts behaves like a map from timer to Countdown.
 */
module Countdown {

  const UINT_MAX: nat := 0xFFFF_FFFF
  const UINT_MODULUS: nat := 0x1_0000_0000

  /** The largest number of ticks any timeout can ask for, plus the extra start tick. */
  const MAX_TICKS: nat := 42949673

  /** Ceiling division by the tick length of 100 ms in 32-bit unsigned arithmetic. */
  function DivCeil(ms: nat): (ticks: nat)
    ensures ticks < MAX_TICKS
  {
    (ms + 99) % UINT_MODULUS / 100
  }

  /** The division rounds up, and never by a whole tick, exactly when the sum does not wrap. */
  lemma DivCeilRoundsUp(ms: nat)
    requires ms <= 0xffff_ffff
    ensures ms <= 100 * DivCeil(ms) < ms + 100 <==> ms <= 0xffff_ffff - 99
    ensures 0xffff_ffff - 99 < ms ==> DivCeil(ms) == 0
  {
  }

  /**
   `left` is the number of ticks until the next expiry, 0 when the timer is not active.
   `epoch` counts stops. `inFlight` holds, oldest first, the epoch in which each message
   that was posted and not yet taken was posted.
   */
  datatype Countdown = Countdown(left: nat, repeat: nat, epoch: nat, inFlight: seq<nat>)

  /** `Arm` is the second half of a start; the first half is `Stop`. */
  datatype Event = Tick | Stop | Arm(initial: nat, repeat: nat) | Take

  function Ticked(c: Countdown): Countdown {
    if c.left == 1 then c.(left := c.repeat, inFlight := c.inFlight + [c.epoch])
    else if c.left == 0 then c
    else c.(left := c.left - 1)
  }

  function Stopped(c: Countdown): Countdown {
    c.(left := 0, epoch := c.epoch + 1)
  }

  function Armed(c: Countdown, initial: nat, repeat: nat): Countdown {
    c.(left := DivCeil(initial) + 1, repeat := DivCeil(repeat))
  }

  function Taken(c: Countdown): Countdown {
    if c.inFlight == [] then c else c.(inFlight := c.inFlight[1..])
  }

  function Step(c: Countdown, e: Event): Countdown {
    match e
    case Tick => Ticked(c)
    case Stop => Stopped(c)
    case Arm(initial, repeat) => Armed(c, initial, repeat)
    case Take => Taken(c)
  }

  function Run(c: Countdown, es: seq<Event>): Countdown {
    if es == [] then c else Step(Run(c, es[..|es| - 1]), es[|es| - 1])
  }

  function TickCount(es: seq<Event>): nat {
    if es == [] then 0
    else TickCount(es[..|es| - 1]) + if es[|es| - 1] == Tick then 1 else 0
  }

  /** Whether event `k` of the run posts an expiry message. */
  predicate Posts(c: Countdown, es: seq<Event>, k: nat)
    requires k < |es|
  {
    es[k] == Tick && Run(c, es[..k]).left == 1
  }

  /** No stop and no (re)start of this timer. */
  predicate Undisturbed(es: seq<Event>) {
    forall k :: 0 <= k < |es| ==> es[k] == Tick || es[k] == Take
  }

  /** Ticks left after `ticks` ticks, by arithmetic alone. */
  function LeftAfter(first: nat, repeat: nat, ticks: nat): nat
    requires 0 < first
  {
    if ticks < first then first - ticks
    else if repeat == 0 then 0
    else repeat - (ticks - first) % repeat
  }

  /** A multiple of `r` strictly between -r and r is zero. */
  lemma SmallMultiple(d: int, r: int)
    requires -r < d * r < r
    ensures d == 0
  {
  }

  lemma PeriodStep(x: nat, r: nat)
    requires 0 < r
    ensures (x + 1) % r == if x % r == r - 1 then 0 else x % r + 1
  {
    var q, m := x / r, x % r;
    var q', m' := (x + 1) / r, (x + 1) % r;
    var d := q' - q;
    assert d * r == q' * r - q * r == m + 1 - m';
    if m == r - 1 {
      assert (d - 1) * r == d * r - r;
      SmallMultiple(d - 1, r);
    } else {
      SmallMultiple(d, r);
    }
  }

  /**
   The schedule of a started timer, in closed form: while it is left alone, the time left
   depends only on how many ticks have passed, however other timers' events and message
   handling interleave.
   */
  lemma {:induction false} Schedule(c: Countdown, es: seq<Event>)
    requires 0 < c.left && Undisturbed(es)
    ensures Run(c, es).left == LeftAfter(c.left, c.repeat, TickCount(es))
    ensures Run(c, es).repeat == c.repeat && Run(c, es).epoch == c.epoch
  {
    if es != [] {
      var n := |es| - 1;
      Schedule(c, es[..n]);
      LeftAfterStep(c.left, c.repeat, TickCount(es[..n]));
    }
  }

  lemma LeftAfterStep(first: nat, repeat: nat, ticks: nat)
    requires 0 < first
    ensures
      var l := LeftAfter(first, repeat, ticks);
      LeftAfter(first, repeat, ticks + 1) == if l == 1 then repeat else if l == 0 then 0 else l - 1
  {
    if first <= ticks && repeat > 0 {
      PeriodStep(ticks - first, repeat);
    } else if first == ticks + 1 && repeat > 0 {
      assert 0 % repeat == 0;
    }
  }

  /** Tick number `n` is the first expiry or a whole number of periods after it. */
  predicate OnSchedule(first: nat, period: nat, n: nat) {
    n == first || (n > first && period > 0 && (n - first) % period == 0)
  }

  /**
   A timer started with `initial` and `repeat` and then left alone posts a message on tick
   number DivCeil(initial) + 1 after the start, then every DivCeil(repeat) ticks when that
   is not zero, and on no other tick.
   */
  lemma PostsExactlyOnSchedule(c: Countdown, initial: nat, repeat: nat, es: seq<Event>, k: nat)
    requires Undisturbed(es) && k < |es| && es[k] == Tick
    ensures Posts(Armed(c, initial, repeat), es, k)
      <==> OnSchedule(DivCeil(initial) + 1, DivCeil(repeat), TickCount(es[..k]) + 1)
  {
    var first, r, n := DivCeil(initial) + 1, DivCeil(repeat), TickCount(es[..k]) + 1;
    Schedule(Armed(c, initial, repeat), es[..k]);
    if n > first && r > 0 {
      PeriodStep(n - 1 - first, r);
    }
  }

  /** A stopped timer posts nothing until it is armed again. */
  lemma {:induction false} StoppedIsSilent(c: Countdown, es: seq<Event>)
    requires forall k :: 0 <= k < |es| ==> !es[k].Arm?
    ensures Run(Stopped(c), es).left == 0
    ensures forall k :: 0 <= k < |es| ==> !Posts(Stopped(c), es, k)
  {
    if es != [] {
      var n := |es| - 1;
      StoppedIsSilent(c, es[..n]);
      forall k | 0 <= k < |es|
        ensures !Posts(Stopped(c), es, k)
      {
        if k < n {
          assert !Posts(Stopped(c), es[..n], k);
          assert es[..n][..k] == es[..k];
        }
      }
    }
  }

  // ---------------------------------------------------------------- message filtering

  /** The oldest `stale` messages in flight precede the latest stop, all others follow it. */
  predicate Tagged(c: Countdown, stale: nat) {
    && stale <= |c.inFlight|
    && (forall i :: 0 <= i < stale ==> c.inFlight[i] < c.epoch)
    && (forall i :: stale <= i < |c.inFlight| ==> c.inFlight[i] == c.epoch)
  }

  /** How the two counters of a timer are maintained. */
  datatype Counters = Counters(outstanding: int, toIgnore: int)

  function CountersStep(n: Counters, c: Countdown, e: Event): Counters {
    match e
    case Tick => if c.left == 1 then n.(outstanding := n.outstanding + 1) else n
    case Stop => n.(toIgnore := n.outstanding)
    case Arm(_, _) => n
    case Take =>
      Counters(n.outstanding - 1, if n.toIgnore > 0 then n.toIgnore - 1 else n.toIgnore)
  }

  function CountersRun(n: Counters, c: Countdown, es: seq<Event>): Counters {
    if es == [] then n
    else CountersStep(CountersRun(n, c, es[..|es| - 1]), Run(c, es[..|es| - 1]), es[|es| - 1])
  }

  /** Every message is taken once: nothing is taken when nothing is in flight. */
  predicate TakesOnce(c: Countdown, es: seq<Event>) {
    forall k :: 0 <= k < |es| && es[k] == Take ==> Run(c, es[..k]).inFlight != []
  }

  predicate CountersMatch(n: Counters, c: Countdown) {
    && n.outstanding == |c.inFlight|
    && 0 <= n.toIgnore <= n.outstanding
    && Tagged(c, n.toIgnore)
  }

  lemma CountersStepMatch(n: Counters, c: Countdown, e: Event)
    requires CountersMatch(n, c) && (e == Take ==> c.inFlight != [])
    ensures CountersMatch(CountersStep(n, c, e), Step(c, e))
    ensures e == Take ==> (n.toIgnore == 0 <==> c.inFlight[0] == c.epoch)
  {
  }

  /**
   In every run in which messages are taken in order, once each, the counters stay within
   0 <= toIgnore <= outstanding = posted - taken, and `toIgnore == 0` is the exact test for
   "posted after the latest stop or start" of the message taken next.
   */
  lemma {:induction false} ValidExactlySinceLastStop(n: Counters, c: Countdown, es: seq<Event>)
    requires CountersMatch(n, c) && TakesOnce(c, es)
    ensures CountersMatch(CountersRun(n, c, es), Run(c, es))
    ensures var s := Run(c, es);
      s.inFlight != [] ==> (CountersRun(n, c, es).toIgnore == 0 <==> s.inFlight[0] == s.epoch)
  {
    if es != [] {
      var m := |es| - 1;
      forall k | 0 <= k < m && es[..m][k] == Take
        ensures Run(c, es[..m][..k]).inFlight != []
      {
        assert es[k] == Take && es[..m][..k] == es[..k];
      }
      ValidExactlySinceLastStop(n, c, es[..m]);
      CountersStepMatch(CountersRun(n, c, es[..m]), Run(c, es[..m]), es[m]);
    }
  }

  // ---------------------------------------------------------------- told by the events alone

  function StopCount(es: seq<Event>): nat {
    if es == [] then 0
    else StopCount(es[..|es| - 1]) + if es[|es| - 1] == Stop then 1 else 0
  }

  function TakeCount(es: seq<Event>): nat {
    if es == [] then 0
    else TakeCount(es[..|es| - 1]) + if es[|es| - 1] == Take then 1 else 0
  }

  /** The events of a run that post a message, in order. */
  function PostIndices(c: Countdown, es: seq<Event>): (ks: seq<nat>)
    ensures forall i :: 0 <= i < |ks| ==> ks[i] < |es| && es[ks[i]] == Tick
  {
    if es == [] then []
    else
      var n := |es| - 1;
      PostIndices(c, es[..n]) + if Posts(c, es, n) then [n] else []
  }

  lemma {:induction false} EpochCountsStops(c: Countdown, es: seq<Event>)
    ensures Run(c, es).epoch == c.epoch + StopCount(es)
  {
    if es != [] {
      EpochCountsStops(c, es[..|es| - 1]);
    }
  }

  lemma TakesOncePrefix(c: Countdown, es: seq<Event>, n: nat)
    requires TakesOnce(c, es) && n <= |es|
    ensures TakesOnce(c, es[..n])
  {
    forall k | 0 <= k < n && es[..n][k] == Take
      ensures Run(c, es[..n][..k]).inFlight != []
    {
      assert es[k] == Take && es[..n][..k] == es[..k];
    }
  }

  /** The epochs in which those messages were posted. */
  function PostEpochs(c: Countdown, es: seq<Event>): (epochs: seq<nat>)
    ensures |epochs| == |PostIndices(c, es)|
  {
    if es == [] then []
    else
      var n := |es| - 1;
      PostEpochs(c, es[..n]) + if Posts(c, es, n) then [Run(c, es[..n]).epoch] else []
  }

  lemma {:induction false} EpochsCountStops(c: Countdown, es: seq<Event>, i: nat)
    requires i < |PostIndices(c, es)|
    ensures PostEpochs(c, es)[i] == c.epoch + StopCount(es[..PostIndices(c, es)[i]])
  {
    var n := |es| - 1;
    if i < |PostIndices(c, es[..n])| {
      EpochsCountStops(c, es[..n], i);
      assert es[..n][..PostIndices(c, es)[i]] == es[..PostIndices(c, es)[i]];
    } else {
      EpochCountsStops(c, es[..n]);
    }
  }

  /** The messages in flight are those posted and not yet taken. */
  lemma {:induction false} InFlightArePosted(c: Countdown, es: seq<Event>)
    requires c.inFlight == [] && TakesOnce(c, es)
    ensures TakeCount(es) <= |PostEpochs(c, es)|
    ensures PostEpochs(c, es)[TakeCount(es)..] == Run(c, es).inFlight
  {
    if es != [] {
      var n := |es| - 1;
      TakesOncePrefix(c, es, n);
      InFlightArePosted(c, es[..n]);
      assert es[n] == Take ==> Run(c, es[..n]).inFlight != [];
      Shifted(PostEpochs(c, es[..n]), TakeCount(es[..n]), Run(c, es[..n]).inFlight);
    }
  }

  lemma Shifted(all: seq<nat>, taken: nat, left: seq<nat>)
    requires taken <= |all| && all[taken..] == left
    ensures left != [] ==> taken < |all| && all[taken + 1..] == left[1..]
    ensures forall x :: (all + [x])[taken..] == left + [x]
  {
  }

  lemma {:induction false} NoStopsBetween(es: seq<Event>, p: nat)
    requires p <= |es|
    ensures StopCount(es[..p]) <= StopCount(es)
    ensures StopCount(es[..p]) == StopCount(es) <==> forall k :: p <= k < |es| ==> es[k] != Stop
  {
    if p < |es| {
      var n := |es| - 1;
      NoStopsBetween(es[..n], p);
      assert es[..n][..p] == es[..p];
    } else {
      assert es[..p] == es;
    }
  }

  /** The message taken next, if any, was posted in the current epoch. */
  predicate OldestIsCurrent(c: Countdown) {
    c.inFlight != [] && c.inFlight[0] == c.epoch
  }

  predicate NoStopAfter(es: seq<Event>, p: nat) {
    forall k :: p < k < |es| ==> es[k] != Stop
  }

  lemma NoStopsAfterTick(es: seq<Event>, p: nat)
    requires p < |es| && es[p] == Tick
    ensures StopCount(es[..p]) == StopCount(es) <==> NoStopAfter(es, p)
  {
    NoStopsBetween(es, p);
  }

  /** The message to be taken next is the first posted that has not been taken. */
  lemma OldestWasPosted(c: Countdown, es: seq<Event>)
    requires c.inFlight == [] && TakesOnce(c, es) && Run(c, es).inFlight != []
    ensures TakeCount(es) < |PostIndices(c, es)|
    ensures Run(c, es).inFlight[0] == c.epoch + StopCount(es[..PostIndices(c, es)[TakeCount(es)]])
  {
    InFlightArePosted(c, es);
    EpochsCountStops(c, es, TakeCount(es));
    assert Run(c, es).inFlight[0] == PostEpochs(c, es)[TakeCount(es)];
  }

  lemma CurrentExactlyUnlessStopped(c: Countdown, es: seq<Event>)
    requires c.inFlight == [] && TakesOnce(c, es) && Run(c, es).inFlight != []
    ensures TakeCount(es) < |PostIndices(c, es)|
    ensures OldestIsCurrent(Run(c, es)) <==> NoStopAfter(es, PostIndices(c, es)[TakeCount(es)])
  {
    OldestWasPosted(c, es);
    EpochCountsStops(c, es);
    NoStopsAfterTick(es, PostIndices(c, es)[TakeCount(es)]);
  }

  /**
   Over every run from a timer without messages: the next message is of the current epoch, and the two
   counters call it valid, exactly when there was no stop after the tick that posted it. Earlier messages
   have all been taken.
   */
  lemma ValidExactlyUnlessStopped(c: Countdown, es: seq<Event>)
    requires c.inFlight == [] && TakesOnce(c, es) && Run(c, es).inFlight != []
    ensures TakeCount(es) < |PostIndices(c, es)|
    ensures var p := PostIndices(c, es)[TakeCount(es)];
      && (OldestIsCurrent(Run(c, es)) <==> NoStopAfter(es, p))
      && (CountersRun(Counters(0, 0), c, es).toIgnore == 0 <==> NoStopAfter(es, p))
  {
    CurrentExactlyUnlessStopped(c, es);
    ValidExactlySinceLastStop(Counters(0, 0), c, es);
  }

  // ---------------------------------------------------------------- wall-clock bounds

  /** The instants of the ticks of a run whose events happen at the given instants. */
  function TickInstants(es: seq<Event>, at: seq<real>): (ts: seq<real>)
    requires |es| == |at|
    ensures |ts| == TickCount(es)
  {
    if es == [] then []
    else
      var n := |es| - 1;
      TickInstants(es[..n], at[..n]) + if es[n] == Tick then [at[n]] else []
  }

  lemma {:induction false} InstantOfTick(es: seq<Event>, at: seq<real>, k: nat)
    requires |es| == |at| && k < |es| && es[k] == Tick
    ensures TickCount(es[..k]) < TickCount(es)
    ensures TickInstants(es, at)[TickCount(es[..k])] == at[k]
  {
    var n := |es| - 1;
    if k < n {
      InstantOfTick(es[..n], at[..n], k);
      assert es[..n][..k] == es[..k];
    }
  }

  /** Ticks come at least 100 ms apart and none of them before `start`. */
  predicate SpacedFrom(start: real, ts: seq<real>) {
    && (ts != [] ==> start <= ts[0])
    && forall i :: 0 <= i < |ts| - 1 ==> ts[i] + 100.0 <= ts[i + 1]
  }

  /** Ticks come exactly 100 ms apart, and the one before the first was not after `start`. */
  predicate RegularFrom(start: real, ts: seq<real>) {
    && (ts != [] ==> start <= ts[0] <= start + 100.0)
    && forall i :: 0 <= i < |ts| - 1 ==> ts[i] + 100.0 == ts[i + 1]
  }

  lemma {:induction false} SpacedSum(start: real, ts: seq<real>, i: nat)
    requires SpacedFrom(start, ts) && i < |ts|
    ensures start + 100.0 * i as real <= ts[i]
  {
    if i > 0 {
      SpacedSum(start, ts, i - 1);
      assert ts[i - 1] + 100.0 <= ts[i - 1 + 1];
    }
  }

  lemma {:induction false} RegularSum(start: real, ts: seq<real>, i: nat)
    requires RegularFrom(start, ts) && i < |ts|
    ensures ts[i] <= start + 100.0 * (i + 1) as real
  {
    if i > 0 {
      RegularSum(start, ts, i - 1);
      assert ts[i - 1] + 100.0 == ts[i - 1 + 1];
    }
  }

  /** No event of an undisturbed run posts a message earlier than `initial` ms after `start`. */
  ghost predicate NeverEarly(initial: nat) {
    forall c: Countdown, repeat: nat, start: real, es: seq<Event>, at: seq<real>, k: nat
      | |es| == |at| && Undisturbed(es) && SpacedFrom(start, TickInstants(es, at))
        && k < |es| && Posts(Armed(c, initial, repeat), es, k)
      :: start + initial as real <= at[k]
  }

  lemma PostIsNotEarly(c: Countdown, initial: nat, repeat: nat, start: real,
                       es: seq<Event>, at: seq<real>, k: nat)
    requires initial <= UINT_MAX - 99
    requires |es| == |at| && Undisturbed(es) && SpacedFrom(start, TickInstants(es, at))
    requires k < |es| && Posts(Armed(c, initial, repeat), es, k)
    ensures start + initial as real <= at[k]
  {
    PostsExactlyOnSchedule(c, initial, repeat, es, k);
    InstantOfTick(es, at, k);
    SpacedSum(start, TickInstants(es, at), TickCount(es[..k]));
    DivCeilRoundsUp(initial);
  }

  /**
   A timer never fires early if and only if its timeout is at most UINT_MAX - 99 ms. Above
   that the ceiling division wraps to zero ticks and the very next tick fires it.
   */
  lemma NeverEarlyExactly(initial: nat)
    requires initial <= 0xffff_ffff
    ensures NeverEarly(initial) <==> initial <= 0xffff_ffff - 99
  {
    if initial <= UINT_MAX - 99 {
      forall c: Countdown, repeat: nat, start: real, es: seq<Event>, at: seq<real>, k: nat
        | |es| == |at| && Undisturbed(es) && SpacedFrom(start, TickInstants(es, at))
          && k < |es| && Posts(Armed(c, initial, repeat), es, k)
        ensures start + initial as real <= at[k]
      {
        PostIsNotEarly(c, initial, repeat, start, es, at, k);
      }
    } else {
      DivCeilRoundsUp(initial);
      var c := Countdown(0, 0, 0, []);
      var es, at := [Tick], [1.0];
      assert es[..0] == [] && at[..0] == [];
      assert TickInstants(es, at) == [1.0];
      assert Posts(Armed(c, initial, 0), es, 0);
      assert SpacedFrom(0.0, TickInstants(es, at));
    }
  }

  /** With regular ticks and none missed, the first expiry comes in under `initial` + 200 ms. */
  lemma FiresInTime(c: Countdown, initial: nat, repeat: nat, start: real,
                    es: seq<Event>, at: seq<real>, k: nat)
    requires initial <= UINT_MAX
    requires |es| == |at| && Undisturbed(es) && RegularFrom(start, TickInstants(es, at))
    requires k < |es| && es[k] == Tick && TickCount(es[..k]) == DivCeil(initial)
    ensures Posts(Armed(c, initial, repeat), es, k)
    ensures forall j :: 0 <= j < k ==> !Posts(Armed(c, initial, repeat), es, j)
    ensures at[k] < start + initial as real + 200.0
  {
    PostsExactlyOnSchedule(c, initial, repeat, es, k);
    forall j | 0 <= j < k && es[j] == Tick
      ensures !Posts(Armed(c, initial, repeat), es, j)
    {
      PostsExactlyOnSchedule(c, initial, repeat, es, j);
      InstantOfTick(es[..k], at[..k], j);
      assert es[..k][..j] == es[..j];
    }
    InstantOfTick(es, at, k);
    RegularSum(start, TickInstants(es, at), TickCount(es[..k]));
    DivCeilRoundsUp(initial);
  }
}
