/** The driver object, whose handlers update its fields in place. */
module OneWire {
  import opened Inet
  import opened OneWireSpec
  import opened OneWireBytes
  import opened Wrappers

  /** The command with which the rest of the data starts. */
  function CmdAt(data: seq<Byte>, offset: nat): Option<RawCmd>
    requires offset <= |data|
  {
    if HasCmd(data[offset..]) then Some(FirstCmd(data[offset..])) else None
  }

  /** The command at an offset, if all of it is within the data. */
  method NextCmd(data: seq<Byte>, offset: nat) returns (c: Option<RawCmd>)
    requires offset <= |data|
    ensures c == CmdAt(data, offset)
  {
    if offset + CMD_HEADER > |data| {
      return None;
    }
    var len := Le16(data[offset + 2..]);
    assert data[offset..][2..] == data[offset + 2..];
    if offset + CMD_HEADER + len > |data| {
      return None;
    }
    var start := offset + CMD_HEADER;
    assert data[offset..][CMD_HEADER..CMD_HEADER + len] == data[start..start + len];
    c := Some(RawCmd(data[offset], data[offset + 1], data[start..start + len]));
  }

  class Driver {
    var phase: Phase
    var seqno: int
    /** The remembered response queue, named by the request it came with. */
    var active: Option<nat>
    var cnSeqno: nat
    var armed: Option<nat>
    var inFlight: nat
    var responses: seq<Response>
    ghost var handled: nat
    ghost var fault: bool
    ghost var log: seq<Mark>

    ghost function View(): Machine
      reads this
    {
      Machine(phase, seqno, active, cnSeqno, armed, inFlight, handled, responses, fault, log)
    }

    constructor ()
      ensures View() == INITIAL
    {
      phase, seqno, active, cnSeqno := Idle, -1, None, 0;
      armed, inFlight, responses := None, 0, [];
      handled, fault, log := 0, false, [];
    }

    method Finish(res: int, temperature: int)
      modifies this
      ensures View() == Finalize(old(View()), res, temperature)
    {
      if active.Some? {
        responses := responses + [Response(active.value, res, temperature)];
        log := log + [Answered(active.value, res)];
      } else {
        fault := true;
      }
      phase := Idle;
      seqno := -1;
      active := None;
    }

    method SendMessage(error: Option<nat>) returns (res: int)
      modifies this`cnSeqno
      ensures cnSeqno == NextSeqno(old(cnSeqno))
      ensures res == if error.None? then cnSeqno else -(error.value as int)
    {
      if cnSeqno == MAX_SEQNO {
        cnSeqno := 0;
      }
      cnSeqno := cnSeqno + 1;
      res := if error.None? then cnSeqno else -(error.value as int);
    }

    method OnRequest(id: nat, error: Option<nat>)
      requires id == handled
      modifies this
      ensures View() == Apply(old(View()), Request(error))
      ensures old(Inv(View())) && (error.Some? ==> error.value > 0) ==> Inv(View())
    {
      Keeps(View(), Request(error));
      handled := handled + 1;
      if active.Some? {
        responses := responses + [Response(id, BUSY, 0)];
        log := log + [Answered(id, BUSY)];
        return;
      }
      active := Some(id);
      log := log + [Started(id)];
      seqno := SendMessage(error);
      if seqno >= 0 {
        phase := WaitForConvertDone;
      } else {
        Finish(seqno, 0);
      }
    }

    method OnTimeout(error: Option<nat>)
      requires 0 < inFlight
      modifies this
      ensures View() == Apply(old(View()), Timeout(error))
      ensures old(Inv(View())) && (error.Some? ==> error.value > 0) ==> Inv(View())
    {
      Keeps(View(), Timeout(error));
      inFlight := inFlight - 1;
      if active.Some? {
        log := log + [TimedOut(active.value)];
      }
      seqno := SendMessage(error);
      if seqno >= 0 {
        phase := WaitForReadDone;
      } else {
        Finish(seqno, 0);
      }
    }

    method OnCmd(c: Cmd)
      modifies this
      ensures View() == HandleCmd(old(View()), c)
    {
      match c.kind
      case WriteCmd =>
        if phase == WaitForConvertDone {
          armed := Some(750);
          phase := WaitForConvertTimeout;
          if active.Some? {
            log := log + [Converted(active.value)];
          }
        }
      case ReadCmd =>
        if phase == WaitForReadDone && c.length == SCRATCHPAD_SIZE {
          Finish(0, c.temperature);
        }
      case OtherCmd =>
    }

    method OnNextCmd(c: Cmd, ghost start: Machine, ghost done: seq<Cmd>)
      requires View() == HandleCmds(start, done)
      modifies this
      ensures View() == HandleCmds(start, done + [c])
    {
      OneMoreCmd(start, done, c);
      OnCmd(c);
    }

    method OnSlaveResponse(status: Byte, data: seq<Byte>)
      modifies this
      ensures View() == if status != 0 then Finalize(old(View()), -(status as int), 0)
                        else HandleCmds(old(View()), ToCmds(ParseCmds(data)))
    {
      if status != 0 {
        Finish(-(status as int), 0);
        return;
      }
      var offset := 0;
      ghost var done: seq<Cmd> := [];
      ghost var all := ToCmds(ParseCmds(data));
      assert data[0..] == data;
      var next := NextCmd(data, 0);
      while next.Some?
        invariant 0 <= offset <= |data| && CmdsAt(data, offset, done, all)
        invariant next == CmdAt(data, offset)
        invariant View() == HandleCmds(old(View()), done)
        decreases |data| - offset
      {
        OnNextCmd(ToCmd(next.value), old(View()), done);
        CmdsAtNext(data, offset, done, all, next.value);
        done := done + [ToCmd(next.value)];
        offset := offset + CMD_HEADER + |next.value.data|;
        next := NextCmd(data, offset);
      }
      CmdsAtEnd(data, offset, done, all);
    }

    /** The messages of a reply, which end where its data ends. */
    method OnReply(seq32: nat, data: seq<Byte>)
      requires ParseMsgs(data).Some?
      modifies this
      ensures View() == Apply(old(View()), Reply(seq32, ToMsgs(ParseMsgs(data).value)))
      ensures old(Inv(View())) && old(Harmless(View(), Reply(seq32, ToMsgs(ParseMsgs(data).value))))
        ==> Inv(View())
      ensures seq32 != old(seqno) % 0x1_0000_0000 ==> View() == old(View())
    {
      if seq32 != seqno % 0x1_0000_0000 {
        OtherSeqnoIgnored(View(), seq32, ToMsgs(ParseMsgs(data).value));
      }
      HandleMessageDone(seq32, data);
      Keeps(old(View()), Reply(seq32, ToMsgs(ParseMsgs(data).value)));
    }

    method HandleMessage(seq32: nat, n: RawMsg, ghost start: Machine, ghost done: seq<NlMsg>)
      requires View() == HandleMsgs(start, seq32, done)
      modifies this
      ensures View() == HandleMsgs(start, seq32, done + [ToMsg(n)])
    {
      OneMoreMsg(start, seq32, done, ToMsg(n));
      if n.kind == SLAVE_CMD && seq32 == Uint32(seqno) {
        OnSlaveResponse(n.status, n.data);
      }
    }

    /** One round of the loop over a reply. */
    method HandleNext(seq32: nat, data: seq<Byte>, offset: nat, ghost start: Machine,
                      ghost done: seq<NlMsg>, ghost all: seq<NlMsg>)
      returns (next: nat, ghost more: seq<NlMsg>)
      requires offset < |data| && MsgsAt(data, offset, done, all)
      requires View() == HandleMsgs(start, seq32, done)
      modifies this
      ensures offset < next <= |data| && MsgsAt(data, next, more, all)
      ensures View() == HandleMsgs(start, seq32, more)
    {
      var n := NextMsg(data, offset, done, all);
      HandleMessage(seq32, n, start, done);
      next, more := offset + MSG_HEADER + |n.data|, done + [ToMsg(n)];
    }

    method HandleMessageDone(seq32: nat, data: seq<Byte>)
      requires ParseMsgs(data).Some?
      modifies this
      ensures View() == HandleMsgs(old(View()), seq32, ToMsgs(ParseMsgs(data).value))
    {
      ghost var done: seq<NlMsg>, all, start := [], ToMsgs(ParseMsgs(data).value), View();
      var offset := 0;
      assert data[0..] == data;
      while offset != |data|
        invariant 0 <= offset <= |data| && MsgsAt(data, offset, done, all)
        invariant View() == HandleMsgs(start, seq32, done)
        decreases |data| - offset
      {
        offset, done := HandleNext(seq32, data, offset, start, done, all);
      }
      MsgsAtEnd(data, done, all);
    }
  }

  /** The message at an offset. */
  method NextMsg(data: seq<Byte>, offset: nat, ghost done: seq<NlMsg>, ghost all: seq<NlMsg>)
    returns (n: RawMsg)
    requires offset < |data| && MsgsAt(data, offset, done, all)
    ensures offset + MSG_HEADER + |n.data| <= |data|
    ensures MsgsAt(data, offset + MSG_HEADER + |n.data|, done + [ToMsg(n)], all)
  {
    n := MsgAt(data, offset);
    MsgsAtNext(data, offset, done, all, n);
  }

  method MsgAt(data: seq<Byte>, offset: nat) returns (n: RawMsg)
    requires offset <= |data| && HasMsg(data[offset..])
    ensures n == FirstMsg(data[offset..]) && MSG_HEADER + |n.data| == MsgSize(data[offset..])
    ensures offset + MSG_HEADER + |n.data| <= |data|
  {
    FirstMsgAt(data, offset);
    var start, len := offset + MSG_HEADER, Le16(data[offset + 2..]);
    n := RawMsg(data[offset], data[offset + 1], data[offset + 4..start], data[start..start + len]);
  }

  lemma FirstMsgAt(data: seq<Byte>, offset: nat)
    requires offset <= |data| && HasMsg(data[offset..])
    ensures var start, len := offset + MSG_HEADER, Le16(data[offset + 2..]);
      start + len == offset + MsgSize(data[offset..]) <= |data|
      && FirstMsg(data[offset..])
        == RawMsg(data[offset], data[offset + 1], data[offset + 4..start], data[start..start + len])
  {
    var rest := data[offset..];
    assert rest[2..] == data[offset + 2..];
    assert rest[4..MSG_HEADER] == data[offset + 4..offset + MSG_HEADER];
    assert rest[MSG_HEADER..MsgSize(rest)] == data[offset + MSG_HEADER..offset + MsgSize(rest)];
  }

  lemma Keeps(m: Machine, e: Event)
    ensures Inv(m) && Enabled(m, e) && Harmless(m, e) ==> Inv(Apply(m, e))
  {
    if Inv(m) && Enabled(m, e) && Harmless(m, e) {
      StepKeeps(m, e);
    }
  }

  lemma OneMoreCmd(m: Machine, done: seq<Cmd>, c: Cmd)
    ensures HandleCmds(m, done + [c]) == HandleCmd(HandleCmds(m, done), c)
  {
    assert (done + [c])[..|done|] == done;
  }

  lemma OneMoreMsg(m: Machine, seq32: nat, done: seq<NlMsg>, n: NlMsg)
    ensures HandleMsgs(m, seq32, done + [n]) == HandleMsg(HandleMsgs(m, seq32, done), seq32, n)
  {
    assert (done + [n])[..|done|] == done;
  }

  /** `done` are the commands in front of an offset. */
  ghost predicate CmdsAt(data: seq<Byte>, offset: nat, done: seq<Cmd>, all: seq<Cmd>) {
    offset <= |data| && done + ToCmds(ParseCmds(data[offset..])) == all
  }

  lemma CmdsAtNext(data: seq<Byte>, offset: nat, done: seq<Cmd>, all: seq<Cmd>, c: RawCmd)
    requires CmdsAt(data, offset, done, all) && CmdAt(data, offset) == Some(c)
    ensures CmdsAt(data, offset + CMD_HEADER + |c.data|, done + [ToCmd(c)], all)
  {
    var rest := data[offset..];
    assert rest[CmdSize(rest)..] == data[offset + CMD_HEADER + |c.data|..];
    CmdsTake(rest);
  }

  lemma CmdsTake(data: seq<Byte>)
    requires HasCmd(data)
    ensures ToCmds(ParseCmds(data))
      == [ToCmd(FirstCmd(data))] + ToCmds(ParseCmds(data[CmdSize(data)..]))
  {
    var rest := ParseCmds(data[CmdSize(data)..]);
    assert ([FirstCmd(data)] + rest)[1..] == rest;
  }

  lemma CmdsAtEnd(data: seq<Byte>, offset: nat, done: seq<Cmd>, all: seq<Cmd>)
    requires CmdsAt(data, offset, done, all) && CmdAt(data, offset) == None
    ensures done == all
  {
    assert done + [] == done;
  }

  /** `done` are the messages in front of an offset, and whole ones that make up the rest follow. */
  ghost predicate MsgsAt(data: seq<Byte>, offset: nat, done: seq<NlMsg>, all: seq<NlMsg>) {
    && offset <= |data| && ParseMsgs(data[offset..]).Some?
    && done + ToMsgs(ParseMsgs(data[offset..]).value) == all
  }

  lemma MsgsAtNext(data: seq<Byte>, offset: nat, done: seq<NlMsg>, all: seq<NlMsg>, n: RawMsg)
    requires offset < |data| && MsgsAt(data, offset, done, all)
    requires HasMsg(data[offset..]) && n == FirstMsg(data[offset..])
    ensures MsgsAt(data, offset + MSG_HEADER + |n.data|, done + [ToMsg(n)], all)
  {
    var rest := data[offset..];
    assert rest[MsgSize(rest)..] == data[offset + MSG_HEADER + |n.data|..];
    MsgsTake(rest);
  }

  lemma MsgsTake(data: seq<Byte>)
    requires data != [] && ParseMsgs(data).Some?
    ensures HasMsg(data) && ParseMsgs(data[MsgSize(data)..]).Some?
    ensures ToMsgs(ParseMsgs(data).value)
      == [ToMsg(FirstMsg(data))] + ToMsgs(ParseMsgs(data[MsgSize(data)..]).value)
  {
    var ms := ParseMsgs(data[MsgSize(data)..]).value;
    assert ([FirstMsg(data)] + ms)[1..] == ms;
  }

  lemma MsgsAtEnd(data: seq<Byte>, done: seq<NlMsg>, all: seq<NlMsg>)
    requires MsgsAt(data, |data|, done, all)
    ensures done == all
  {
    assert data[|data|..] == [];
    assert done + [] == done;
  }
}
