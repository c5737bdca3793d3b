/**
 The payload of a netlink connector message: slave messages with commands in them, each behind a
 header with the length of its data, in little-endian byte order.
 */
module OneWireBytes {
  import opened Inet
  import opened OneWireSpec
  import opened Wrappers

  const CMD_READ: Byte := 0
  const CMD_WRITE: Byte := 1
  const SLAVE_CMD: Byte := 5
  const READ_SCRATCHPAD: Byte := 0xbe
  const CMD_HEADER: nat := 4
  const MSG_HEADER: nat := 12

  datatype RawCmd = RawCmd(cmd: Byte, res: Byte, data: seq<Byte>)
  datatype RawMsg = RawMsg(kind: Byte, status: Byte, id: seq<Byte>, data: seq<Byte>)

  function Le16(b: seq<Byte>): (v: nat)
    requires 2 <= |b|
    ensures v < 0x1_0000
  {
    b[0] as int + 256 * b[1] as int
  }

  function ToLe16(v: nat): (b: seq<Byte>)
    requires v < 0x1_0000
    ensures |b| == 2 && Le16(b) == v
  {
    [v % 256, v / 256]
  }

  function Signed16(v: nat): int {
    if v < 0x8000 then v else v - 0x1_0000
  }

  // ---------------------------------------------------------------- commands

  predicate HasCmd(data: seq<Byte>) {
    CMD_HEADER <= |data| && CMD_HEADER + Le16(data[2..]) <= |data|
  }

  function CmdSize(data: seq<Byte>): nat
    requires HasCmd(data)
  {
    CMD_HEADER + Le16(data[2..])
  }

  function FirstCmd(data: seq<Byte>): RawCmd
    requires HasCmd(data)
  {
    RawCmd(data[0], data[1], data[CMD_HEADER..CmdSize(data)])
  }

  /** The commands up to the first one that is not whole. */
  function ParseCmds(data: seq<Byte>): seq<RawCmd> {
    if HasCmd(data) then [FirstCmd(data)] + ParseCmds(data[CmdSize(data)..]) else []
  }

  predicate CmdFits(c: RawCmd) {
    |c.data| < 0x1_0000
  }

  function EncodeCmd(c: RawCmd): seq<Byte>
    requires CmdFits(c)
  {
    [c.cmd, c.res] + ToLe16(|c.data|) + c.data
  }

  function EncodeCmds(cs: seq<RawCmd>): seq<Byte>
    requires forall i :: 0 <= i < |cs| ==> CmdFits(cs[i])
  {
    if cs == [] then [] else EncodeCmd(cs[0]) + EncodeCmds(cs[1..])
  }

  /** One encoded command is found again in front of anything. */
  lemma CmdInFront(c: RawCmd, tail: seq<Byte>)
    requires CmdFits(c)
    ensures
      var data := EncodeCmd(c) + tail;
      HasCmd(data) && FirstCmd(data) == c && data[CmdSize(data)..] == tail
  {
    var data := EncodeCmd(c) + tail;
    assert data[2..][0] == ToLe16(|c.data|)[0] && data[2..][1] == ToLe16(|c.data|)[1];
    assert data[CMD_HEADER..CmdSize(data)] == c.data;
    assert data[CmdSize(data)..] == tail;
  }

  /** A command found is the encoding of its parts. */
  lemma FrontIsCmd(data: seq<Byte>)
    requires HasCmd(data)
    ensures var c := FirstCmd(data);
      CmdFits(c) && data == EncodeCmd(c) + data[CmdSize(data)..]
  {
    var c := FirstCmd(data);
    assert |c.data| == Le16(data[2..]);
    assert ToLe16(|c.data|) == [data[2], data[3]];
  }

  lemma {:induction false} ParsedFit(data: seq<Byte>)
    ensures forall i :: 0 <= i < |ParseCmds(data)| ==> CmdFits(ParseCmds(data)[i])
  {
    if HasCmd(data) {
      FrontIsCmd(data);
      ParsedFit(data[CmdSize(data)..]);
    }
  }

  lemma OneMoreParsed(c: RawCmd, tail: seq<Byte>)
    requires CmdFits(c)
    ensures ParseCmds(EncodeCmd(c) + tail) == [c] + ParseCmds(tail)
  {
    CmdInFront(c, tail);
  }

  lemma Concat(a: seq<Byte>, b: seq<Byte>, c: seq<Byte>)
    ensures (a + b) + c == a + (b + c)
  {
  }

  lemma {:induction false} EncodedParse(cs: seq<RawCmd>, rest: seq<Byte>)
    requires forall i :: 0 <= i < |cs| ==> CmdFits(cs[i])
    requires !HasCmd(rest)
    ensures ParseCmds(EncodeCmds(cs) + rest) == cs
  {
    if cs == [] {
      assert EncodeCmds(cs) + rest == rest;
    } else {
      var c, tail := cs[0], EncodeCmds(cs[1..]) + rest;
      EncodedParse(cs[1..], rest);
      OneMoreParsed(c, tail);
      Concat(EncodeCmd(c), EncodeCmds(cs[1..]), rest);
    }
  }

  /** The rest of the data after the commands that are whole. */
  function Rest(data: seq<Byte>): (rest: seq<Byte>)
    ensures !HasCmd(rest)
  {
    if HasCmd(data) then Rest(data[CmdSize(data)..]) else data
  }

  lemma {:induction false} ParsedEncode(data: seq<Byte>)
    ensures (forall i :: 0 <= i < |ParseCmds(data)| ==> CmdFits(ParseCmds(data)[i]))
      && data == EncodeCmds(ParseCmds(data)) + Rest(data)
  {
    ParsedFit(data);
    if HasCmd(data) {
      var tail := data[CmdSize(data)..];
      FrontIsCmd(data);
      ParsedEncode(tail);
      assert ParseCmds(data)[1..] == ParseCmds(tail);
    }
  }

  /** The commands found are exactly those of which the data is an encoding, up to no whole one. */
  lemma ParseCmdsExactly(data: seq<Byte>, cs: seq<RawCmd>)
    requires forall i :: 0 <= i < |cs| ==> CmdFits(cs[i])
    ensures ParseCmds(data) == cs <==>
      exists rest :: !HasCmd(rest) && data == EncodeCmds(cs) + rest
  {
    ParsedEncode(data);
    forall rest | !HasCmd(rest) && data == EncodeCmds(cs) + rest ensures ParseCmds(data) == cs {
      EncodedParse(cs, rest);
    }
  }

  // ---------------------------------------------------------------- messages

  predicate HasMsg(data: seq<Byte>) {
    MSG_HEADER <= |data| && MSG_HEADER + Le16(data[2..]) <= |data|
  }

  function MsgSize(data: seq<Byte>): nat
    requires HasMsg(data)
  {
    MSG_HEADER + Le16(data[2..])
  }

  function FirstMsg(data: seq<Byte>): RawMsg
    requires HasMsg(data)
  {
    RawMsg(data[0], data[1], data[4..MSG_HEADER], data[MSG_HEADER..MsgSize(data)])
  }

  /** The messages that make up the data; `None` when it does not end with a whole one. */
  function ParseMsgs(data: seq<Byte>): Option<seq<RawMsg>> {
    if data == [] then Some([])
    else if !HasMsg(data) then None
    else
      var ms := ParseMsgs(data[MsgSize(data)..]);
      if ms.None? then None else Some([FirstMsg(data)] + ms.value)
  }

  predicate MsgFits(m: RawMsg) {
    |m.id| == 8 && |m.data| < 0x1_0000
  }

  function EncodeMsg(m: RawMsg): seq<Byte>
    requires MsgFits(m)
  {
    [m.kind, m.status] + ToLe16(|m.data|) + m.id + m.data
  }

  function EncodeMsgs(ms: seq<RawMsg>): seq<Byte>
    requires forall i :: 0 <= i < |ms| ==> MsgFits(ms[i])
  {
    if ms == [] then [] else EncodeMsg(ms[0]) + EncodeMsgs(ms[1..])
  }

  lemma MsgInFront(m: RawMsg, tail: seq<Byte>)
    requires MsgFits(m)
    ensures
      var data := EncodeMsg(m) + tail;
      HasMsg(data) && FirstMsg(data) == m && data[MsgSize(data)..] == tail
  {
    var data := EncodeMsg(m) + tail;
    assert data[2..][0] == ToLe16(|m.data|)[0] && data[2..][1] == ToLe16(|m.data|)[1];
    assert data[4..MSG_HEADER] == m.id;
    assert data[MSG_HEADER..MsgSize(data)] == m.data;
    assert data[MsgSize(data)..] == tail;
  }

  lemma FrontIsMsg(data: seq<Byte>)
    requires HasMsg(data)
    ensures var m := FirstMsg(data);
      MsgFits(m) && data == EncodeMsg(m) + data[MsgSize(data)..]
  {
    var m := FirstMsg(data);
    assert |m.data| == Le16(data[2..]);
    assert ToLe16(|m.data|) == [data[2], data[3]];
  }

  lemma {:induction false} EncodedMsgsParse(ms: seq<RawMsg>)
    requires forall i :: 0 <= i < |ms| ==> MsgFits(ms[i])
    ensures ParseMsgs(EncodeMsgs(ms)) == Some(ms)
  {
    if ms != [] {
      MsgInFront(ms[0], EncodeMsgs(ms[1..]));
      EncodedMsgsParse(ms[1..]);
      assert ms == [ms[0]] + ms[1..];
    }
  }

  lemma {:induction false} ParsedMsgsEncode(data: seq<Byte>)
    requires ParseMsgs(data).Some?
    ensures var ms := ParseMsgs(data).value;
      (forall i :: 0 <= i < |ms| ==> MsgFits(ms[i])) && data == EncodeMsgs(ms)
  {
    if data != [] {
      FrontIsMsg(data);
      ParsedMsgsEncode(data[MsgSize(data)..]);
      assert ParseMsgs(data).value[1..] == ParseMsgs(data[MsgSize(data)..]).value;
    }
  }

  /** Data is taken as these messages exactly when it is their encoding. */
  lemma ParseMsgsExactly(data: seq<Byte>, ms: seq<RawMsg>)
    requires forall i :: 0 <= i < |ms| ==> MsgFits(ms[i])
    ensures ParseMsgs(data) == Some(ms) <==> data == EncodeMsgs(ms)
  {
    EncodedMsgsParse(ms);
    if ParseMsgs(data) == Some(ms) {
      ParsedMsgsEncode(data);
    }
  }

  // ---------------------------------------------------------------- what they mean to the driver

  /** A whole scratchpad starts with the temperature, in sixteenths of a degree. */
  function ToCmd(c: RawCmd): Cmd {
    var kind := if c.cmd == CMD_READ then ReadCmd else if c.cmd == CMD_WRITE then WriteCmd else OtherCmd;
    Cmd(kind, |c.data|, if |c.data| == SCRATCHPAD_SIZE then Signed16(Le16(c.data)) else 0)
  }

  function ToCmds(cs: seq<RawCmd>): seq<Cmd> {
    if cs == [] then [] else [ToCmd(cs[0])] + ToCmds(cs[1..])
  }

  function ToMsg(m: RawMsg): NlMsg {
    NlMsg(m.kind == SLAVE_CMD, m.status as int, ToCmds(ParseCmds(m.data)))
  }

  function ToMsgs(ms: seq<RawMsg>): seq<NlMsg> {
    if ms == [] then [] else [ToMsg(ms[0])] + ToMsgs(ms[1..])
  }

  function ScratchpadCmds(temperature: int, tail: seq<Byte>): (cs: seq<RawCmd>)
    requires -0x8000 <= temperature < 0x8000 && |tail| == 7
    ensures |cs| == 2 && CmdFits(cs[0]) && CmdFits(cs[1])
  {
    [RawCmd(CMD_WRITE, 0, [READ_SCRATCHPAD]), RawCmd(CMD_READ, 0, ToLe16(temperature % 0x1_0000) + tail)]
  }

  /** The reply of a sensor to a read of its scratchpad. */
  function ScratchpadMsg(id: seq<Byte>, temperature: int, tail: seq<Byte>): (m: RawMsg)
    requires -0x8000 <= temperature < 0x8000 && |id| == 8 && |tail| == 7
    ensures MsgFits(m)
  {
    var cs := ScratchpadCmds(temperature, tail);
    RawMsg(SLAVE_CMD, 0, id, EncodeCmd(cs[0]) + EncodeCmd(cs[1]))
  }

  lemma ScratchpadCmdsReadBack(temperature: int, tail: seq<Byte>)
    requires -0x8000 <= temperature < 0x8000 && |tail| == 7
    ensures var cs := ScratchpadCmds(temperature, tail);
      ToCmds(ParseCmds(EncodeCmd(cs[0]) + EncodeCmd(cs[1]))) == ReadOut(1, temperature).cmds
  {
    var cs := ScratchpadCmds(temperature, tail);
    CmdInFront(cs[0], EncodeCmd(cs[1]));
    CmdInFront(cs[1], []);
    assert EncodeCmd(cs[1]) + [] == EncodeCmd(cs[1]);
    assert ParseCmds(EncodeCmd(cs[1])) == [cs[1]];
    assert Le16(cs[1].data) == temperature % 0x1_0000;
    assert ParseCmds(EncodeCmd(cs[0]) + EncodeCmd(cs[1])) == [cs[0]] + [cs[1]];
    assert ToCmd(cs[1]) == Cmd(ReadCmd, SCRATCHPAD_SIZE, temperature);
    assert ToCmds([cs[1]]) == [ToCmd(cs[1])];
    assert ToCmds([cs[0]] + [cs[1]]) == [ToCmd(cs[0])] + [ToCmd(cs[1])];
  }

  /** Every temperature is read back from the bytes that carry it. */
  lemma ScratchpadReadsBack(id: seq<Byte>, temperature: int, tail: seq<Byte>)
    requires -0x8000 <= temperature < 0x8000 && |id| == 8 && |tail| == 7
    ensures var ms := ParseMsgs(EncodeMsg(ScratchpadMsg(id, temperature, tail)));
      ms.Some? && ToMsgs(ms.value) == [ReadOut(1, temperature)]
  {
    var m := ScratchpadMsg(id, temperature, tail);
    ScratchpadCmdsReadBack(temperature, tail);
    MsgInFront(m, []);
    assert EncodeMsg(m) + [] == EncodeMsg(m);
    assert ToMsgs([m]) == [ToMsg(m)];
  }

  /** The reply to a read, byte by byte: a slave command with a write and a read of nine bytes. */
  lemma ScratchpadBytes(id: seq<Byte>, temperature: int, tail: seq<Byte>)
    requires -0x8000 <= temperature < 0x8000 && |id| == 8 && |tail| == 7
    ensures var t := if temperature < 0 then temperature + 0x1_0000 else temperature;
      EncodeMsg(ScratchpadMsg(id, temperature, tail))
      == [5, 0, 18, 0] + id + [1, 0, 1, 0, 0xbe] + [0, 0, 9, 0, t % 256, t / 256] + tail
  {
    var t := if temperature < 0 then temperature + 0x1_0000 else temperature;
    assert temperature % 0x1_0000 == t;
    assert ToLe16(18) == [18, 0] && ToLe16(1) == [1, 0] && ToLe16(9) == [9, 0];
  }

  /** Messages of any other kind than a slave command change nothing, whatever their bytes. */
  lemma OtherKindBytesIgnored(m: Machine, seq32: nat, ms: seq<RawMsg>)
    requires forall i :: 0 <= i < |ms| ==> ms[i].kind != 5
    ensures Apply(m, Reply(seq32, ToMsgs(ms))) == m
  {
    NoSlaveCmds(ms);
    OtherKindsIgnored(m, seq32, ToMsgs(ms));
  }

  lemma {:induction false} NoSlaveCmds(ms: seq<RawMsg>)
    requires forall i :: 0 <= i < |ms| ==> ms[i].kind != 5
    ensures forall i :: 0 <= i < |ToMsgs(ms)| ==> !ToMsgs(ms)[i].slaveCmd
  {
    if ms != [] {
      NoSlaveCmds(ms[1..]);
    }
  }
}
