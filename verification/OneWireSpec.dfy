/**
 DS18B20 temperature reads over the 1-wire netlink connector: a request starts a conversion, the
 driver waits 750 ms, reads the scratchpad and answers. Replies are matched by sequence number.
 The environment chooses the replies, when the timer fires and whether sends succeed.
 */
module OneWireSpec {
  import opened Wrappers
  import Countdown

  datatype Phase = Idle | WaitForConvertDone | WaitForConvertTimeout | WaitForReadDone

  const BUSY: int := -16
  const SCRATCHPAD_SIZE: nat := 9
  const MAX_SEQNO: nat := 1000

  /** A response names the request it answers; the raw temperature counts when `res` is 0. */
  datatype Response = Response(request: nat, res: int, temperature: int)

  /** What happens to a request, in the order it happens. */
  datatype Mark =
    | Started(request: nat)
    | Converted(request: nat)
    | TimedOut(request: nat)
    | Answered(request: nat, res: int)

  /**
   Requests are numbered as they are handled. `active` is the one whose response queue is
   remembered. `armed` is the timer, with the milliseconds it was started with, and `inFlight` its
   messages not yet handled. `fault` is set
   when a response is put on no queue. `log` is a history that no handler reads.
   */
  datatype Machine = Machine(
    phase: Phase,
    seqno: int,
    active: Option<nat>,
    cnSeqno: nat,
    armed: Option<nat>,
    inFlight: nat,
    handled: nat,
    responses: seq<Response>,
    fault: bool,
    log: seq<Mark>)

  datatype CmdKind = ReadCmd | WriteCmd | OtherCmd
  datatype Cmd = Cmd(kind: CmdKind, length: nat, temperature: int)
  datatype NlMsg = NlMsg(slaveCmd: bool, status: nat, cmds: seq<Cmd>)

  /** `error` is the errno of a failed send. */
  datatype Event =
    | Request(error: Option<nat>)
    | TimerFires
    | Timeout(error: Option<nat>)
    | Reply(seq32: nat, msgs: seq<NlMsg>)

  const INITIAL: Machine := Machine(Idle, -1, None, 0, None, 0, 0, [], false, [])

  function NextSeqno(cn: nat): nat {
    (if cn == MAX_SEQNO then 0 else cn) + 1
  }

  function Uint32(v: int): nat {
    v % 0x1_0000_0000
  }

  function Marked(m: Machine, mark: Mark): Machine {
    m.(log := m.log + [mark])
  }

  /** Answers the active request and goes idle. */
  function Finalize(m: Machine, res: int, temperature: int): Machine {
    var idle := m.(phase := Idle, seqno := -1, active := None);
    if m.active.None? then idle.(fault := true)
    else Marked(idle, Answered(m.active.value, res)).(
           responses := m.responses + [Response(m.active.value, res, temperature)])
  }

  /** The result of a send is its sequence number or a negative error. */
  function Send(m: Machine, error: Option<nat>): Machine {
    var cn := NextSeqno(m.cnSeqno);
    m.(cnSeqno := cn, seqno := if error.None? then cn else -(error.value as int))
  }

  /** Waits in `next` after a send that succeeded, otherwise answers with its error. */
  function Sent(m: Machine, error: Option<nat>, next: Phase): Machine {
    var s := Send(m, error);
    if s.seqno >= 0 then s.(phase := next) else Finalize(s, s.seqno, 0)
  }

  function StartRequest(m: Machine): Machine {
    Marked(m, Started(m.handled)).(handled := m.handled + 1, active := Some(m.handled))
  }

  function HandleRequest(m: Machine, error: Option<nat>): Machine {
    var id := m.handled;
    if m.active.Some? then
      Marked(m, Answered(id, BUSY)).(
        handled := id + 1, responses := m.responses + [Response(id, BUSY, 0)])
    else Sent(StartRequest(m), error, WaitForConvertDone)
  }

  function HandleTimeout(m: Machine, error: Option<nat>): Machine {
    var m' := m.(inFlight := if m.inFlight > 0 then m.inFlight - 1 else 0);
    Sent(if m.active.None? then m' else Marked(m', TimedOut(m.active.value)), error, WaitForReadDone)
  }

  function HandleCmd(m: Machine, c: Cmd): Machine {
    if c.kind == WriteCmd && m.phase == WaitForConvertDone then
      var m' := m.(phase := WaitForConvertTimeout, armed := Some(750));
      if m.active.None? then m' else Marked(m', Converted(m.active.value))
    else if c.kind == ReadCmd && m.phase == WaitForReadDone && c.length == SCRATCHPAD_SIZE then
      Finalize(m, 0, c.temperature)
    else m
  }

  function HandleCmds(m: Machine, cmds: seq<Cmd>): Machine {
    if cmds == [] then m else HandleCmd(HandleCmds(m, cmds[..|cmds| - 1]), cmds[|cmds| - 1])
  }

  predicate ForUs(m: Machine, seq32: nat, n: NlMsg) {
    n.slaveCmd && seq32 == Uint32(m.seqno)
  }

  function HandleMsg(m: Machine, seq32: nat, n: NlMsg): Machine {
    if !ForUs(m, seq32, n) then m
    else if n.status != 0 then Finalize(m, -(n.status as int), 0)
    else HandleCmds(m, n.cmds)
  }

  function HandleMsgs(m: Machine, seq32: nat, msgs: seq<NlMsg>): Machine {
    if msgs == [] then m
    else HandleMsg(HandleMsgs(m, seq32, msgs[..|msgs| - 1]), seq32, msgs[|msgs| - 1])
  }

  /** Only an armed timer fires, and only a message in flight is handled. */
  predicate Enabled(m: Machine, e: Event) {
    match e
    case Request(error) => error.Some? ==> error.value > 0
    case TimerFires => m.armed.Some?
    case Timeout(error) => m.inFlight > 0 && (error.Some? ==> error.value > 0)
    case Reply(_, _) => true
  }

  function Apply(m: Machine, e: Event): Machine {
    match e
    case Request(error) => HandleRequest(m, error)
    case TimerFires => m.(armed := None, inFlight := m.inFlight + 1)
    case Timeout(error) => HandleTimeout(m, error)
    case Reply(seq32, msgs) => HandleMsgs(m, seq32, msgs)
  }

  // ---------------------------------------------------------------- what every step keeps

  predicate PhaseInv(m: Machine) {
    && (m.phase == Idle <==> m.active.None?)
    && (m.phase == Idle <==> m.seqno == -1)
    && (m.phase != Idle ==> 1 <= m.seqno <= MAX_SEQNO)
    && m.cnSeqno <= MAX_SEQNO
    && (if m.armed.Some? then 1 else 0) + m.inFlight == (if m.phase == WaitForConvertTimeout then 1 else 0)
    && !m.fault
  }

  predicate AnswerInv(m: Machine) {
    && m.handled == |m.responses| + (if m.active.Some? then 1 else 0)
    && (forall i :: 0 <= i < |m.responses| ==> m.responses[i].request < m.handled)
    && (forall i, j :: 0 <= i < j < |m.responses| ==> m.responses[i].request != m.responses[j].request)
    && (m.active.Some? ==> m.active.value < m.handled)
    && (m.active.Some? ==>
          forall i :: 0 <= i < |m.responses| ==> m.responses[i].request != m.active.value)
  }

  /** What happened to one request. */
  function Story(log: seq<Mark>, r: nat): seq<Mark> {
    if log == [] then []
    else
      var n := |log| - 1;
      Story(log[..n], r) + if log[n].request == r then [log[n]] else []
  }

  /** A request was refused, failed to start or convert, or took all the steps of a reading. */
  predicate Finished(r: nat, story: seq<Mark>) {
    && story != [] && story[|story| - 1].Answered?
    && var res := story[|story| - 1].res;
      || (story == [Answered(r, res)] && res == BUSY)
      || (story == [Started(r), Answered(r, res)] && res != 0)
      || story == [Started(r), Converted(r), TimedOut(r), Answered(r, res)]
  }

  /** What has happened to the active request in each phase. */
  function Progress(m: Machine): seq<Mark> {
    if m.active.None? then []
    else
      var r := m.active.value;
      match m.phase
      case Idle => []
      case WaitForConvertDone => [Started(r)]
      case WaitForConvertTimeout => [Started(r), Converted(r)]
      case WaitForReadDone => [Started(r), Converted(r), TimedOut(r)]
  }

  predicate EndsWith(story: seq<Mark>, mark: Mark) {
    story != [] && story[|story| - 1] == mark
  }

  /** The story of a request ends with its response. */
  predicate Logged(log: seq<Mark>, q: Response) {
    EndsWith(Story(log, q.request), Answered(q.request, q.res))
  }

  /** `progress` is what has happened to the active request; all earlier ones are finished. */
  ghost predicate LogInv(m: Machine, progress: seq<Mark>) {
    && (m.active.Some? ==> Story(m.log, m.active.value) == progress)
    && (forall r: nat :: r >= m.handled ==> Story(m.log, r) == [])
    && (forall r: nat :: r < m.handled && m.active != Some(r) ==> Finished(r, Story(m.log, r)))
    && (forall i :: 0 <= i < |m.responses| ==> Logged(m.log, m.responses[i]))
  }

  ghost predicate Inv(m: Machine) {
    PhaseInv(m) && AnswerInv(m) && LogInv(m, Progress(m))
  }

  /**
   The two replies the driver does not cope with: a failed status for the conversion while its
   timer is pending, and a failed status with sequence number 0xffffffff, the -1 of an idle driver.
   */
  predicate Harmful(m: Machine, seq32: nat, n: NlMsg) {
    && ForUs(m, seq32, n) && n.status != 0
    && m.phase in {Idle, WaitForConvertTimeout}
  }

  predicate HarmlessMsgs(m: Machine, seq32: nat, msgs: seq<NlMsg>) {
    msgs == []
    || (HarmlessMsgs(m, seq32, msgs[..|msgs| - 1])
        && !Harmful(HandleMsgs(m, seq32, msgs[..|msgs| - 1]), seq32, msgs[|msgs| - 1]))
  }

  predicate Harmless(m: Machine, e: Event) {
    e.Reply? ==> HarmlessMsgs(m, e.seq32, e.msgs)
  }

  /** A mark is added to the story of its request and to no other. */
  lemma StoryGrows(log: seq<Mark>, mark: Mark, r: nat)
    ensures Story(log + [mark], r) == if mark.request == r then Story(log, r) + [mark] else Story(log, r)
  {
    assert (log + [mark])[..|log|] == log;
  }

  lemma StoriesGrow(log: seq<Mark>, mark: Mark)
    ensures Story(log + [mark], mark.request) == Story(log, mark.request) + [mark]
    ensures forall r: nat :: r != mark.request ==> Story(log + [mark], r) == Story(log, r)
  {
    forall r: nat ensures r != mark.request ==> Story(log + [mark], r) == Story(log, r) {
      StoryGrows(log, mark, r);
    }
    StoryGrows(log, mark, mark.request);
  }

  /** A mark of the active request is the next of its steps. */
  lemma MarkKeeps(m: Machine, progress: seq<Mark>, mark: Mark)
    requires AnswerInv(m) && LogInv(m, progress) && m.active == Some(mark.request)
    ensures LogInv(Marked(m, mark), progress + [mark])
  {
    StoriesGrow(m.log, mark);
  }

  lemma FinalizeAnswers(m: Machine, progress: seq<Mark>, res: int, temperature: int)
    requires AnswerInv(m) && LogInv(m, progress) && m.active.Some?
    requires Finished(m.active.value, progress + [Answered(m.active.value, res)])
    ensures var f := Finalize(m, res, temperature);
      AnswerInv(f) && LogInv(f, []) && f.handled == m.handled
  {
    FinalizeCounts(m, res, temperature);
    FinalizeLogs(m, progress, res, temperature);
  }

  lemma FinalizeCounts(m: Machine, res: int, temperature: int)
    requires AnswerInv(m) && m.active.Some?
    ensures AnswerInv(Finalize(m, res, temperature))
  {
  }

  lemma FinalizeLogs(m: Machine, progress: seq<Mark>, res: int, temperature: int)
    requires AnswerInv(m) && LogInv(m, progress) && m.active.Some?
    requires Finished(m.active.value, progress + [Answered(m.active.value, res)])
    ensures LogInv(Finalize(m, res, temperature), [])
  {
    var f, r := Finalize(m, res, temperature), m.active.value;
    StoriesGrow(m.log, Answered(r, res));
    forall i | 0 <= i < |f.responses|
      ensures Logged(f.log, f.responses[i])
    {
      if i < |m.responses| {
        assert Logged(m.log, m.responses[i]) && m.responses[i].request != r;
      }
    }
    forall u: nat | u < f.handled
      ensures Finished(u, Story(f.log, u))
    {
      assert u != r ==> Finished(u, Story(m.log, u));
    }
  }

  /** After a send the next phase is entered, or the request has failed. */
  lemma SentKeeps(m: Machine, progress: seq<Mark>, error: Option<nat>, next: Phase)
    requires AnswerInv(m) && m.active.Some? && !m.fault && m.cnSeqno <= MAX_SEQNO
    requires m.armed.None? && m.inFlight == 0 && next in {WaitForConvertDone, WaitForReadDone}
    requires LogInv(m, progress) && progress == Progress(m.(phase := next))
    requires error.Some? ==> error.value > 0
    ensures Inv(Sent(m, error, next))
  {
    var s := Send(m, error);
    if error.Some? {
      FinalizeAnswers(s, progress, s.seqno, 0);
    }
  }

  lemma StartLogged(m: Machine)
    requires LogInv(m, []) && m.active.None?
    ensures LogInv(StartRequest(m), [Started(m.handled)])
  {
    StoriesGrow(m.log, Started(m.handled));
  }

  lemma StartKeeps(m: Machine, error: Option<nat>)
    requires Inv(m) && m.active.None? && (error.Some? ==> error.value > 0)
    ensures Inv(Sent(StartRequest(m), error, WaitForConvertDone))
  {
    StartLogged(m);
    SentKeeps(StartRequest(m), [Started(m.handled)], error, WaitForConvertDone);
  }

  lemma BusyLogged(m: Machine, progress: seq<Mark>)
    requires AnswerInv(m) && LogInv(m, progress) && m.active.Some?
    ensures LogInv(HandleRequest(m, None), progress)
  {
    var b, r := HandleRequest(m, None), m.handled;
    StoriesGrow(m.log, Answered(r, BUSY));
    assert Story(m.log, r) == [] && [] + [Answered(r, BUSY)] == [Answered(r, BUSY)];
    assert Finished(r, [Answered(r, BUSY)]);
    forall i | 0 <= i < |b.responses|
      ensures Logged(b.log, b.responses[i])
    {
      if i < |m.responses| {
        assert Logged(m.log, m.responses[i]) && m.responses[i].request != r;
      }
    }
  }

  lemma BusyKeeps(m: Machine, error: Option<nat>)
    requires Inv(m) && m.active.Some?
    ensures Inv(HandleRequest(m, error))
  {
    BusyLogged(m, Progress(m));
  }

  lemma RequestKeeps(m: Machine, error: Option<nat>)
    requires Inv(m) && (error.Some? ==> error.value > 0)
    ensures Inv(HandleRequest(m, error))
  {
    if m.active.None? {
      StartKeeps(m, error);
    } else {
      BusyKeeps(m, error);
    }
  }

  lemma TimeoutKeeps(m: Machine, error: Option<nat>)
    requires Inv(m) && m.inFlight > 0 && (error.Some? ==> error.value > 0)
    ensures Inv(HandleTimeout(m, error))
  {
    var r := m.active.value;
    MarkKeeps(m, Progress(m), TimedOut(r));
    var m' := Marked(m.(inFlight := m.inFlight - 1), TimedOut(r));
    SentKeeps(m', Progress(m) + [TimedOut(r)], error, WaitForReadDone);
  }

  lemma CmdKeeps(m: Machine, c: Cmd)
    requires Inv(m)
    ensures Inv(HandleCmd(m, c))
  {
    if m.active.Some? {
      var r := m.active.value;
      if c.kind == WriteCmd {
        MarkKeeps(m, Progress(m), Converted(r));
      } else if m.phase == WaitForReadDone {
        FinalizeAnswers(m, Progress(m), 0, c.temperature);
      }
    }
  }

  lemma {:induction false} CmdsKeep(m: Machine, cmds: seq<Cmd>)
    requires Inv(m)
    ensures Inv(HandleCmds(m, cmds))
  {
    if cmds != [] {
      var n := |cmds| - 1;
      CmdsKeep(m, cmds[..n]);
      CmdKeeps(HandleCmds(m, cmds[..n]), cmds[n]);
    }
  }

  /** One netlink message keeps the invariant exactly when it is not one of the harmful two. */
  lemma MsgKeepsExactly(m: Machine, seq32: nat, n: NlMsg)
    requires Inv(m)
    ensures Inv(HandleMsg(m, seq32, n)) <==> !Harmful(m, seq32, n)
  {
    if ForUs(m, seq32, n) {
      if n.status == 0 {
        CmdsKeep(m, n.cmds);
      } else if !Harmful(m, seq32, n) {
        FinalizeAnswers(m, Progress(m), -(n.status as int), 0);
      }
    }
  }

  lemma {:induction false} MsgsKeep(m: Machine, seq32: nat, msgs: seq<NlMsg>)
    requires Inv(m) && HarmlessMsgs(m, seq32, msgs)
    ensures Inv(HandleMsgs(m, seq32, msgs))
  {
    if msgs != [] {
      var n := |msgs| - 1;
      MsgsKeep(m, seq32, msgs[..n]);
      MsgKeepsExactly(HandleMsgs(m, seq32, msgs[..n]), seq32, msgs[n]);
    }
  }

  lemma StepKeeps(m: Machine, e: Event)
    requires Inv(m) && Enabled(m, e) && Harmless(m, e)
    ensures Inv(Apply(m, e))
  {
    match e
    case Request(error) => RequestKeeps(m, error);
    case TimerFires =>
    case Timeout(error) => TimeoutKeeps(m, error);
    case Reply(seq32, msgs) => MsgsKeep(m, seq32, msgs);
  }

  // ---------------------------------------------------------------- one transaction

  /** A reading: a read command that carries a whole scratchpad. */
  predicate IsReading(c: Cmd) {
    c.kind == ReadCmd && c.length == SCRATCHPAD_SIZE
  }

  /** Commands before the first reading change nothing while a reading is awaited. */
  lemma {:induction false} NoReadingYet(m: Machine, cmds: seq<Cmd>)
    requires m.phase == WaitForReadDone && forall i :: 0 <= i < |cmds| ==> !IsReading(cmds[i])
    ensures HandleCmds(m, cmds) == m
  {
    if cmds != [] {
      NoReadingYet(m, cmds[..|cmds| - 1]);
    }
  }

  lemma {:induction false} IdleIgnores(m: Machine, cmds: seq<Cmd>)
    requires m.phase == Idle
    ensures HandleCmds(m, cmds) == m
  {
    if cmds != [] {
      IdleIgnores(m, cmds[..|cmds| - 1]);
    }
  }

  lemma {:induction false} CmdsSplit(m: Machine, a: seq<Cmd>, b: seq<Cmd>)
    ensures HandleCmds(m, a + b) == HandleCmds(HandleCmds(m, a), b)
    decreases |b|
  {
    if b == [] {
      assert a + b == a;
    } else {
      CmdsSplit(m, a, b[..|b| - 1]);
      assert (a + b)[..|a + b| - 1] == a + b[..|b| - 1];
    }
  }

  /** While a reading is awaited, the first one in a reply, and only that, answers the request. */
  lemma FirstReadingAnswers(m: Machine, n: NlMsg, seq32: nat, i: nat)
    requires m.phase == WaitForReadDone && m.active.Some? && ForUs(m, seq32, n) && n.status == 0
    requires i < |n.cmds| && IsReading(n.cmds[i]) && forall k :: 0 <= k < i ==> !IsReading(n.cmds[k])
    ensures HandleMsg(m, seq32, n) == m.(phase := Idle, seqno := -1, active := None,
      responses := m.responses + [Response(m.active.value, 0, n.cmds[i].temperature)],
      log := m.log + [Answered(m.active.value, 0)])
  {
    var before, after := n.cmds[..i], n.cmds[i + 1..];
    NoReadingYet(m, before);
    assert n.cmds == before + [n.cmds[i]] + after;
    CmdsSplit(m, before + [n.cmds[i]], after);
    assert (before + [n.cmds[i]])[..i] == before;
    IdleIgnores(HandleCmds(m, before + [n.cmds[i]]), after);
  }

  // ---------------------------------------------------------------- what a reply does

  /** A reply with another sequence number than the one waited for changes nothing. */
  lemma {:induction false} OtherSeqnoIgnored(m: Machine, seq32: nat, msgs: seq<NlMsg>)
    requires seq32 != m.seqno % 0x1_0000_0000
    ensures Apply(m, Reply(seq32, msgs)) == m
  {
    if msgs != [] {
      OtherSeqnoIgnored(m, seq32, msgs[..|msgs| - 1]);
    }
  }

  /** Neither does a reply without slave commands. */
  lemma {:induction false} OtherKindsIgnored(m: Machine, seq32: nat, msgs: seq<NlMsg>)
    requires forall i :: 0 <= i < |msgs| ==> !msgs[i].slaveCmd
    ensures Apply(m, Reply(seq32, msgs)) == m
  {
    if msgs != [] {
      OtherKindsIgnored(m, seq32, msgs[..|msgs| - 1]);
    }
  }

  lemma {:induction false} NoWriteYet(m: Machine, cmds: seq<Cmd>)
    requires m.phase == WaitForConvertDone && forall i :: 0 <= i < |cmds| ==> cmds[i].kind != WriteCmd
    ensures HandleCmds(m, cmds) == m
  {
    if cmds != [] {
      NoWriteYet(m, cmds[..|cmds| - 1]);
    }
  }

  lemma {:induction false} ConvertingIgnores(m: Machine, cmds: seq<Cmd>)
    requires m.phase == WaitForConvertTimeout
    ensures HandleCmds(m, cmds) == m
  {
    if cmds != [] {
      ConvertingIgnores(m, cmds[..|cmds| - 1]);
    }
  }

  /** The conversion is done with the first write command, once, whatever follows it. */
  lemma FirstWriteConverts(m: Machine, cmds: seq<Cmd>, i: nat)
    requires m.phase == WaitForConvertDone && m.active.Some?
    requires i < |cmds| && cmds[i].kind == WriteCmd && forall k :: 0 <= k < i ==> cmds[k].kind != WriteCmd
    ensures HandleCmds(m, cmds) == m.(phase := WaitForConvertTimeout, armed := Some(750),
      log := m.log + [Converted(m.active.value)])
  {
    var before, after := cmds[..i], cmds[i + 1..];
    NoWriteYet(m, before);
    assert cmds == before + [cmds[i]] + after;
    CmdsSplit(m, before + [cmds[i]], after);
    assert (before + [cmds[i]])[..i] == before;
    ConvertingIgnores(HandleCmds(m, before + [cmds[i]]), after);
  }

  /** The machine after its active request has been answered. */
  predicate AnsweredWith(m: Machine, r: Machine, res: int, temperature: int)
    requires m.active.Some?
  {
    r == m.(phase := Idle, seqno := -1, active := None,
            responses := m.responses + [Response(m.active.value, res, temperature)],
            log := m.log + [Answered(m.active.value, res)])
  }

  /** Position of the first command of a kind that counts, the length when there is none. */
  function FirstWrite(cmds: seq<Cmd>): (i: nat)
    ensures i <= |cmds| && (i < |cmds| ==> cmds[i].kind == WriteCmd)
    ensures forall k :: 0 <= k < i ==> cmds[k].kind != WriteCmd
  {
    if cmds == [] || cmds[0].kind == WriteCmd then 0 else 1 + FirstWrite(cmds[1..])
  }

  function FirstReading(cmds: seq<Cmd>): (i: nat)
    ensures i <= |cmds| && (i < |cmds| ==> cmds[i].kind == ReadCmd && cmds[i].length == 9)
    ensures forall k :: 0 <= k < i ==> !(cmds[k].kind == ReadCmd && cmds[k].length == 9)
  {
    if cmds == [] || (cmds[0].kind == ReadCmd && cmds[0].length == 9) then 0
    else 1 + FirstReading(cmds[1..])
  }

  /**
   What one message does while a request is active. It has to be a slave command with the sequence
   number waited for. Then a status other than 0 answers the request with its negative; without one
   the first write ends the wait for the conversion, and the first whole scratchpad the wait for the
   read, answering with its temperature. Everything else changes nothing.
   */
  lemma MessageExactly(m: Machine, seq32: nat, n: NlMsg)
    requires m.active.Some? && m.phase != Idle
    ensures
      var r := HandleMsg(m, seq32, n);
      var w, d := FirstWrite(n.cmds), FirstReading(n.cmds);
      if !n.slaveCmd || seq32 != m.seqno % 0x1_0000_0000 then r == m
      else if n.status != 0 then AnsweredWith(m, r, -(n.status as int), 0)
      else if m.phase == WaitForConvertDone && w < |n.cmds| then
        r == m.(phase := WaitForConvertTimeout, armed := Some(750), log := m.log + [Converted(m.active.value)])
      else if m.phase == WaitForReadDone && d < |n.cmds| then
        AnsweredWith(m, r, 0, n.cmds[d].temperature)
      else r == m
  {
    if ForUs(m, seq32, n) && n.status == 0 {
      match m.phase
      case WaitForConvertDone =>
        if FirstWrite(n.cmds) < |n.cmds| {
          FirstWriteConverts(m, n.cmds, FirstWrite(n.cmds));
        } else {
          NoWriteYet(m, n.cmds);
        }
      case WaitForConvertTimeout =>
        ConvertingIgnores(m, n.cmds);
      case WaitForReadDone =>
        if FirstReading(n.cmds) < |n.cmds| {
          FirstReadingAnswers(m, n, seq32, FirstReading(n.cmds));
        } else {
          NoReadingYet(m, n.cmds);
        }
    }
  }

  // ---------------------------------------------------------------- the wait

  /** Over every run the timer is only ever started for the 750 ms that a conversion takes. */
  lemma {:induction false} TimerIsForConversion(m: Machine, es: seq<Event>)
    requires m.armed in {None, Some(750)}
    ensures Run(m, es).armed in {None, Some(750)}
    decreases |es|
  {
    if es != [] {
      if es[0].Reply? {
        ReplyArms(m, es[0].seq32, es[0].msgs);
      }
      TimerIsForConversion(Apply(m, es[0]), es[1..]);
    }
  }

  lemma {:induction false} CmdsArm(m: Machine, cmds: seq<Cmd>)
    ensures HandleCmds(m, cmds).armed in {m.armed, Some(750)}
  {
    if cmds != [] {
      CmdsArm(m, cmds[..|cmds| - 1]);
    }
  }

  lemma {:induction false} ReplyArms(m: Machine, seq32: nat, msgs: seq<NlMsg>)
    ensures HandleMsgs(m, seq32, msgs).armed in {m.armed, Some(750)}
  {
    if msgs != [] {
      var n := |msgs| - 1;
      ReplyArms(m, seq32, msgs[..n]);
      CmdsArm(HandleMsgs(m, seq32, msgs[..n]), msgs[n].cmds);
    }
  }

  /** A timer started for that time never fires early, and counts eight ticks of 100 ms and one more. */
  lemma ConversionGetsItsTime()
    ensures Countdown.NeverEarly(750) && Countdown.DivCeil(750) + 1 == 9
  {
    Countdown.NeverEarlyExactly(750);
  }

  // ---------------------------------------------------------------- sends

  /** What a failed send does: the request is answered with the negative error and the driver idle. */
  lemma FailedSendAnswers(m: Machine, error: nat)
    requires error > 0
    ensures m.phase == Idle && m.active.None? ==>
      var r := Apply(m, Request(Some(error)));
      && r.responses == m.responses + [Response(m.handled, -(error as int), 0)]
      && r.phase == Idle && r.active.None? && r.seqno == -1 && r.handled == m.handled + 1
    ensures m.active.Some? ==>
      var r := Apply(m, Timeout(Some(error)));
      && r.responses == m.responses + [Response(m.active.value, -(error as int), 0)]
      && r.phase == Idle && r.active.None? && r.seqno == -1 && r.handled == m.handled
  {
  }

  /** A request that comes while another is active is answered with -EBUSY, and nothing else changes. */
  lemma BusyAnswers(m: Machine, error: Option<nat>)
    requires m.active.Some?
    ensures Apply(m, Request(error)) == m.(handled := m.handled + 1,
      responses := m.responses + [Response(m.handled, -16, 0)], log := m.log + [Answered(m.handled, -16)])
  {
  }

  /** How many messages an event sends. */
  function Sends(m: Machine, e: Event): nat {
    if (e.Request? && m.active.None?) || e.Timeout? then 1 else 0
  }

  function SendsOf(m: Machine, es: seq<Event>): nat
    decreases |es|
  {
    if es == [] then 0 else Sends(m, es[0]) + SendsOf(Apply(m, es[0]), es[1..])
  }

  /** The sequence number of the latest of `n` sends. */
  function Nth(n: nat): nat {
    if n == 0 then 0 else (n - 1) % 1000 + 1
  }

  lemma NextIsNth(n: nat)
    ensures NextSeqno(Nth(n)) == Nth(n + 1)
  {
    if n > 0 {
      Countdown.PeriodStep(n - 1, 1000);
    }
  }

  lemma {:induction false} CmdsSendNothing(m: Machine, cmds: seq<Cmd>)
    ensures HandleCmds(m, cmds).cnSeqno == m.cnSeqno
  {
    if cmds != [] {
      CmdsSendNothing(m, cmds[..|cmds| - 1]);
    }
  }

  lemma {:induction false} MsgsSendNothing(m: Machine, seq32: nat, msgs: seq<NlMsg>)
    ensures HandleMsgs(m, seq32, msgs).cnSeqno == m.cnSeqno
  {
    if msgs != [] {
      var n := |msgs| - 1;
      MsgsSendNothing(m, seq32, msgs[..n]);
      CmdsSendNothing(HandleMsgs(m, seq32, msgs[..n]), msgs[n].cmds);
    }
  }

  lemma {:induction false} RunSends(m: Machine, es: seq<Event>, n: nat)
    requires m.cnSeqno == Nth(n)
    ensures Run(m, es).cnSeqno == Nth(n + SendsOf(m, es))
    decreases |es|
  {
    if es != [] {
      if es[0].Reply? {
        MsgsSendNothing(m, es[0].seq32, es[0].msgs);
      }
      NextIsNth(n);
      RunSends(Apply(m, es[0]), es[1..], n + Sends(m, es[0]));
    }
  }

  /** Over every run the sequence numbers sent are 1 to 1000 in turn, and then 1 again. */
  lemma SeqnosCycle(es: seq<Event>)
    requires SendsOf(INITIAL, es) > 0
    ensures Run(INITIAL, es).cnSeqno == (SendsOf(INITIAL, es) - 1) % 1000 + 1
  {
    RunSends(INITIAL, es, 0);
  }

  /** The replies a sensor gives to the two sends. */
  function ConvertDone(length: nat): NlMsg {
    NlMsg(true, 0, [Cmd(WriteCmd, length, 0)])
  }

  function ReadOut(length: nat, temperature: int): NlMsg {
    NlMsg(true, 0, [Cmd(WriteCmd, length, 0), Cmd(ReadCmd, SCRATCHPAD_SIZE, temperature)])
  }

  lemma ConvertedArmsTimer(m: Machine, seq32: nat, length: nat)
    requires m.phase == WaitForConvertDone && m.active.Some? && seq32 == Uint32(m.seqno)
    ensures HandleMsg(m, seq32, ConvertDone(length))
      == m.(phase := WaitForConvertTimeout, armed := Some(750),
            log := m.log + [Converted(m.active.value)])
  {
    var cmds := ConvertDone(length).cmds;
    assert cmds[..0] == [];
    assert HandleCmds(m, cmds) == HandleCmd(HandleCmds(m, []), cmds[0]);
  }

  /**
   A transaction from any idle state: request, conversion, 750 ms, read. It is answered once, with
   the temperature read, and the two sends use the next two sequence numbers.
   */
  lemma TransactionAnswersReading(m: Machine, length: nat, temperature: int)
    requires Inv(m) && m.phase == Idle
    ensures
      var s1 := NextSeqno(m.cnSeqno);
      var s2 := NextSeqno(s1);
      var a := Apply(m, Request(None));
      var b := Apply(a, Reply(s1, [ConvertDone(length)]));
      var c := Apply(Apply(b, TimerFires), Timeout(None));
      Apply(c, Reply(s2, [ReadOut(length, temperature)]))
      == m.(cnSeqno := s2, handled := m.handled + 1,
            responses := m.responses + [Response(m.handled, 0, temperature)],
            log := m.log + [Started(m.handled), Converted(m.handled), TimedOut(m.handled),
                            Answered(m.handled, 0)])
  {
    var s1 := NextSeqno(m.cnSeqno);
    var s2 := NextSeqno(s1);
    var a := Apply(m, Request(None));
    OneMsg(a, s1, ConvertDone(length));
    ConvertedArmsTimer(a, s1, length);
    var b := Apply(a, Reply(s1, [ConvertDone(length)]));
    var c := Apply(Apply(b, TimerFires), Timeout(None));
    OneMsg(c, s2, ReadOut(length, temperature));
    FirstReadingAnswers(c, ReadOut(length, temperature), s2, 1);
  }

  // ---------------------------------------------------------------- whole runs

  predicate Possible(m: Machine, es: seq<Event>)
    decreases |es|
  {
    es == [] || (Enabled(m, es[0]) && Possible(Apply(m, es[0]), es[1..]))
  }

  predicate HarmlessRun(m: Machine, es: seq<Event>)
    decreases |es|
  {
    es == [] || (Harmless(m, es[0]) && HarmlessRun(Apply(m, es[0]), es[1..]))
  }

  function Run(m: Machine, es: seq<Event>): Machine
    decreases |es|
  {
    if es == [] then m else Run(Apply(m, es[0]), es[1..])
  }

  lemma {:induction false} RunKeeps(m: Machine, es: seq<Event>)
    requires Inv(m) && Possible(m, es) && HarmlessRun(m, es)
    ensures Inv(Run(m, es))
    decreases |es|
  {
    if es != [] {
      StepKeeps(m, es[0]);
      RunKeeps(Apply(m, es[0]), es[1..]);
    }
  }

  /**
   Over every harmless run: the driver is idle exactly when it remembers no response queue and its
   sequence number is -1, every request but the active one has been answered, none twice, and no
   response is put on no queue.
   */
  lemma EveryRequestAnsweredOnce(es: seq<Event>)
    requires Possible(INITIAL, es) && HarmlessRun(INITIAL, es)
    ensures var m := Run(INITIAL, es);
      && (m.phase == Idle <==> m.active.None?) && (m.phase == Idle <==> m.seqno == -1)
      && m.handled == |m.responses| + (if m.phase == Idle then 0 else 1)
      && (forall i, j :: 0 <= i < j < |m.responses| ==> m.responses[i].request != m.responses[j].request)
      && !m.fault
  {
    RunKeeps(INITIAL, es);
  }

  /**
   In every harmless run the story of an answered request ends with its response: it was refused, it
   has failed, or it took all the steps. A temperature is answered only after that very request was
   started, converted and given its 750 ms, in this order.
   */
  lemma TemperatureOnlyAfterConversion(es: seq<Event>, i: nat)
    requires Possible(INITIAL, es) && HarmlessRun(INITIAL, es)
    requires i < |Run(INITIAL, es).responses|
    ensures
      var m := Run(INITIAL, es);
      var r, res := m.responses[i].request, m.responses[i].res;
      && Finished(r, Story(m.log, r)) && EndsWith(Story(m.log, r), Answered(r, res))
      && (res == 0 ==>
            Story(m.log, r) == [Started(r), Converted(r), TimedOut(r), Answered(r, 0)])
  {
    RunKeeps(INITIAL, es);
  }

  /** Some possible continuation without a harmful reply puts a response on no queue. */
  ghost predicate CanFault(m: Machine) {
    exists es: seq<Event> :: Possible(m, es) && HarmlessRun(m, es) && Run(m, es).fault
  }

  /**
   A reply is harmful exactly when what follows it, without another harmful reply, can put a
   response on no queue.
   */
  lemma HarmfulExactly(m: Machine, seq32: nat, n: NlMsg)
    requires Inv(m)
    ensures Harmful(m, seq32, n) <==> CanFault(HandleMsg(m, seq32, n))
  {
    var m' := HandleMsg(m, seq32, n);
    MsgKeepsExactly(m, seq32, n);
    if Harmful(m, seq32, n) {
      if m.phase == Idle {
        FaultedFaults(m');
      } else {
        LateTimeoutFaults(m');
      }
    } else {
      forall es: seq<Event> | Possible(m', es) && HarmlessRun(m', es) ensures !Run(m', es).fault {
        RunKeeps(m', es);
      }
    }
  }

  lemma FaultedFaults(m: Machine)
    requires m.fault
    ensures CanFault(m)
  {
    var none: seq<Event> := [];
    assert Possible(m, none) && HarmlessRun(m, none) && Run(m, none).fault;
  }

  function LateTimeout(armed: bool): seq<Event> {
    (if armed then [TimerFires] else []) + [Timeout(Some(5))]
  }

  /** A timeout that comes in when the driver is idle, and fails to send, has no one to tell. */
  lemma LateTimeoutFaults(m: Machine)
    requires m.active.None? && (m.armed.Some? || m.inFlight > 0)
    ensures var es := LateTimeout(m.armed.Some?);
      Possible(m, es) && HarmlessRun(m, es) && Run(m, es).fault
  {
    var late := Timeout(Some(5));
    var fired := if m.armed.Some? then Apply(m, TimerFires) else m;
    assert [late] == [late] + [];
    Chain(fired, late, []);
    if m.armed.Some? {
      Chain(m, TimerFires, [late]);
    }
  }

  const FAILED: NlMsg := NlMsg(true, 5, [])

  /** The driver while it waits for its first conversion. */
  const CONVERTING: Machine :=
    Machine(WaitForConvertTimeout, 1, Some(0), 1, Some(750), 0, 1, [], false, [Started(0), Converted(0)])

  const AFTER_FAILURE: Machine :=
    Machine(Idle, -1, None, 1, Some(750), 0, 1, [Response(0, -5, 0)], false,
            [Started(0), Converted(0), Answered(0, -5)])

  /** A first conversion that then fails. */
  function FailedConversion(rest: seq<Event>): seq<Event> {
    [Request(None)] + ([Reply(1, [ConvertDone(1)])] + ([Reply(1, [FAILED])] + rest))
  }

  lemma FailedConversionRuns(rest: seq<Event>)
    ensures Run(INITIAL, FailedConversion(rest)) == Run(AFTER_FAILURE, rest)
    ensures Possible(INITIAL, FailedConversion(rest)) <==> Possible(AFTER_FAILURE, rest)
  {
    var request, done, failed := Request(None), Reply(1, [ConvertDone(1)]), Reply(1, [FAILED]);
    var started := Apply(INITIAL, request);
    OneMsg(started, 1, ConvertDone(1));
    ConvertedArmsTimer(started, 1, 1);
    assert Apply(started, done) == CONVERTING;
    OneMsg(CONVERTING, 1, FAILED);
    assert Apply(CONVERTING, failed) == AFTER_FAILURE;
    Chain(CONVERTING, failed, rest);
    Chain(started, done, [failed] + rest);
    Chain(INITIAL, request, [done] + ([failed] + rest));
  }

  /** Both harmful replies lead to the fault: in a fresh driver, and while a conversion is awaited. */
  lemma HarmfulRunFaults()
    ensures Run(INITIAL, [Reply(0xffff_ffff, [FAILED])]).fault
    ensures var es := FailedConversion(LateTimeout(true));
      Possible(INITIAL, es) && Run(INITIAL, es).fault
  {
    OneMsg(INITIAL, 0xffff_ffff, FAILED);
    assert [Reply(0xffff_ffff, [FAILED])] == [Reply(0xffff_ffff, [FAILED])] + [];
    Chain(INITIAL, Reply(0xffff_ffff, [FAILED]), []);
    FailedConversionRuns(LateTimeout(true));
    LateTimeoutFaults(AFTER_FAILURE);
  }

  /** A second request, sent after the failure, to which the timeout of the first one comes. */
  const EARLY_READ: Machine :=
    Machine(WaitForReadDone, 3, Some(1), 3, None, 0, 2, [Response(0, -5, 0)], false,
            AFTER_FAILURE.log + [Started(1)] + [TimedOut(1)])

  /**
   After the failed status a second request can also be answered with a temperature that was never
   converted for it.
   */
  lemma HarmfulRunAnswersEarly(temperature: int)
    ensures
      var es := FailedConversion([Request(None)] + ([TimerFires] + ([Timeout(None)] +
        ([Reply(3, [ReadOut(1, temperature)])] + []))));
      var m := Run(INITIAL, es);
      && Possible(INITIAL, es) && !m.fault
      && m.responses == [Response(0, -5, 0), Response(1, 0, temperature)]
      && Story(m.log, 1) == [Started(1), TimedOut(1), Answered(1, 0)]
  {
    var read := Reply(3, [ReadOut(1, temperature)]);
    var m1 := Apply(AFTER_FAILURE, Request(None));
    var m2 := Apply(m1, TimerFires);
    assert Apply(m2, Timeout(None)) == EARLY_READ;
    FailedConversionRuns([Request(None)] + ([TimerFires] + ([Timeout(None)] + ([read] + []))));
    Chain(AFTER_FAILURE, Request(None), [TimerFires] + ([Timeout(None)] + ([read] + [])));
    Chain(m1, TimerFires, [Timeout(None)] + ([read] + []));
    Chain(m2, Timeout(None), [read] + []);
    Chain(EARLY_READ, read, []);
    OneMsg(EARLY_READ, 3, ReadOut(1, temperature));
    FirstReadingAnswers(EARLY_READ, ReadOut(1, temperature), 3, 1);
    EarlyStory();
  }

  lemma EarlyStory()
    ensures Story(EARLY_READ.log + [Answered(1, 0)], 1) == [Started(1), TimedOut(1), Answered(1, 0)]
  {
    StoriesGrow([], Started(0));
    StoriesGrow([Started(0)], Converted(0));
    StoriesGrow([Started(0)] + [Converted(0)], Answered(0, -5));
    assert [] + [Started(0)] == [Started(0)];
    assert [Started(0)] + [Converted(0)] + [Answered(0, -5)] == AFTER_FAILURE.log;
    StoriesGrow(AFTER_FAILURE.log, Started(1));
    StoriesGrow(AFTER_FAILURE.log + [Started(1)], TimedOut(1));
    StoriesGrow(EARLY_READ.log, Answered(1, 0));
  }

  lemma OneMsg(m: Machine, seq32: nat, n: NlMsg)
    ensures Apply(m, Reply(seq32, [n])) == HandleMsg(m, seq32, n)
  {
    assert [n][..0] == [];
    assert HandleMsgs(m, seq32, [n]) == HandleMsg(HandleMsgs(m, seq32, []), seq32, n);
  }

  lemma Chain(m: Machine, e: Event, rest: seq<Event>)
    ensures Run(m, [e] + rest) == Run(Apply(m, e), rest)
    ensures HarmlessRun(m, [e] + rest) <==> Harmless(m, e) && HarmlessRun(Apply(m, e), rest)
    ensures Possible(m, [e] + rest) <==> Enabled(m, e) && Possible(Apply(m, e), rest)
  {
    assert ([e] + rest)[1..] == rest;
  }
}
