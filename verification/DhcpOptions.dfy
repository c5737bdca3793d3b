/**
 DHCP options (RFC 2132): a loop over code, length and data that keeps, of each option the client
 knows, the last occurrence. Addresses are kept as the number their four wire bytes spell; the byte
 swaps of ntohl and htonl around them cancel out.
 */
module DhcpOptions {
  import opened Inet
  import opened Wrappers

  const SUBNET_MASK: Byte := 1
  const ROUTER: Byte := 3
  const DOMAIN_NAME_SERVER: Byte := 6
  const LEASE_TIME: Byte := 51
  const MESSAGE_TYPE: Byte := 53
  const SERVER_IDENTIFIER: Byte := 54
  const RENEWAL_TIME: Byte := 58
  const REBINDING_TIME: Byte := 59
  const REQUESTED_ADDRESS: Byte := 50
  const END: Byte := 255

  datatype Options = Options(
    messageType: Option<nat>,
    subnetMask: Option<nat>,
    gateway: Option<nat>,
    dns: Option<nat>,
    leaseTime: Option<nat>,
    renewalTime: Option<nat>,
    rebindingTime: Option<nat>,
    server: Option<nat>)

  const NO_OPTIONS: Options := Options(None, None, None, None, None, None, None, None)

  function Be32(b: seq<Byte>): (v: nat)
    requires 4 <= |b|
    ensures v < UINT32
  {
    ((b[0] as int * 256 + b[1] as int) * 256 + b[2] as int) * 256 + b[3] as int
  }

  function ToBe32(v: nat): (b: seq<Byte>)
    requires v < UINT32
    ensures |b| == 4
  {
    [v / 0x100_0000, v / 0x1_0000 % 0x100, v / 0x100 % 0x100, v % 0x100]
  }

  lemma Be32RoundTrip(v: nat)
    requires v < UINT32
    ensures Be32(ToBe32(v)) == v
  {
    var a, b, c := v / 0x100, v / 0x1_0000, v / 0x100_0000;
    assert a / 0x100 == b && b / 0x100 == c;
  }

  function UnpackU8(data: seq<Byte>): Option<nat> {
    if |data| == 1 then Some(data[0] as int) else None
  }

  function UnpackU32(data: seq<Byte>): Option<nat> {
    if |data| == 4 then Some(Be32(data)) else None
  }

  /** Of a list of name servers the first one counts. */
  function UnpackDns(data: seq<Byte>): Option<nat> {
    UnpackU32(if |data| > 4 then data[..4] else data)
  }

  /** The options after one more, `None` when its length is wrong; unknown codes are skipped. */
  function UnpackOption(o: Options, code: Byte, data: seq<Byte>): Option<Options> {
    if code == SUBNET_MASK then
      var v := UnpackU32(data); if v.None? then None else Some(o.(subnetMask := v))
    else if code == ROUTER then
      var v := UnpackU32(data); if v.None? then None else Some(o.(gateway := v))
    else if code == DOMAIN_NAME_SERVER then
      var v := UnpackDns(data); if v.None? then None else Some(o.(dns := v))
    else if code == MESSAGE_TYPE then
      var v := UnpackU8(data); if v.None? then None else Some(o.(messageType := v))
    else if code == LEASE_TIME then
      var v := UnpackU32(data); if v.None? then None else Some(o.(leaseTime := v))
    else if code == RENEWAL_TIME then
      var v := UnpackU32(data); if v.None? then None else Some(o.(renewalTime := v))
    else if code == REBINDING_TIME then
      var v := UnpackU32(data); if v.None? then None else Some(o.(rebindingTime := v))
    else if code == SERVER_IDENTIFIER then
      var v := UnpackU32(data); if v.None? then None else Some(o.(server := v))
    else Some(o)
  }

  /** What the loop yields from `buf` on, given the options before it. */
  function Parse(buf: seq<Byte>, o: Options): Option<Options>
    decreases |buf|
  {
    if buf == [] then None
    else if buf[0] == END then Some(o)
    else if |buf| == 1 then None
    else
      var length := buf[1] as int;
      // Reading an item of size zero reports no item read.
      if length == 0 || |buf| < 2 + length then None
      else
        var next := UnpackOption(o, buf[0], buf[2..2 + length]);
        if next.None? then None else Parse(buf[2 + length..], next.value)
  }

  /** What the loop has to do at a position. */
  lemma ParseAt(buf: seq<Byte>, pos: nat, o: Options)
    requires pos <= |buf|
    ensures Parse(buf[pos..], o) ==
      if pos == |buf| then None
      else if buf[pos] == END then Some(o)
      else if pos + 1 == |buf| then None
      else
        var data, length := pos + 2, buf[pos + 1] as int;
        if length == 0 || |buf| - data < length then None
        else
          var next := UnpackOption(o, buf[pos], buf[data..data + length]);
          if next.None? then None else Parse(buf[data + length..], next.value)
  {
    if pos + 2 <= |buf| && pos + 2 + buf[pos + 1] as int <= |buf| {
      var length := buf[pos + 1] as int;
      assert buf[pos..][2..2 + length] == buf[pos + 2..pos + 2 + length];
      assert buf[pos..][2 + length..] == buf[pos + 2 + length..];
    }
  }

  /** Stores one option, unless its length is wrong. */
  method UnpackInto(o: Options, code: Byte, data: seq<Byte>) returns (ok: bool, after: Options)
    ensures UnpackOption(o, code, data) == if ok then Some(after) else None
  {
    var unpacked := UnpackOption(o, code, data);
    ok := unpacked.Some?;
    after := if ok then unpacked.value else o;
  }

  /** One round of the loop: one more option, or the result. */
  method UnpackNext(buf: seq<Byte>, at: nat, o: Options)
    returns (more: bool, r: Option<Options>, next: nat, after: Options)
    requires at <= |buf|
    ensures more ==> at < next <= |buf|
    ensures Parse(buf[at..], o) == if more then Parse(buf[next..], after) else r
  {
    ParseAt(buf, at, o);
    more, r, next, after := false, None, at, o;
    if next == |buf| {
      return;
    }
    var code := buf[next];
    next := next + 1;
    if code == END {
      r := Some(o);
      return;
    }
    if next == |buf| {
      return;
    }
    var length := buf[next] as int;
    next := next + 1;
    if length == 0 || |buf| - next < length {
      return;
    }
    var data := buf[next..next + length];
    next := next + length;
    more, after := UnpackInto(o, code, data);
  }

  method UnpackAllOptions(buf: seq<Byte>) returns (r: Option<Options>)
    ensures r == Parse(buf, NO_OPTIONS)
  {
    var o, pos := NO_OPTIONS, 0;
    var more := true;
    r := None;
    assert buf[0..] == buf;
    while more
      invariant 0 <= pos && (more ==> pos <= |buf|)
      invariant Parse(buf, NO_OPTIONS) == if more then Parse(buf[pos..], o) else r
      decreases more, |buf| - pos
    {
      more, r, pos, o := UnpackNext(buf, pos, o);
    }
  }

  // ---------------------------------------------------------------- the encoded list

  datatype Tlv = Tlv(code: Byte, data: seq<Byte>)

  predicate Encodable(t: Tlv) {
    t.code != END && 1 <= |t.data| <= 255
  }

  predicate AllEncodable(list: seq<Tlv>) {
    forall i :: 0 <= i < |list| ==> Encodable(list[i])
  }

  function Encode(t: Tlv): seq<Byte>
    requires Encodable(t)
  {
    [t.code, |t.data|] + t.data
  }

  function EncodeAll(list: seq<Tlv>): seq<Byte>
    requires AllEncodable(list)
  {
    if list == [] then [] else Encode(list[0]) + EncodeAll(list[1..])
  }

  function Fold(list: seq<Tlv>, o: Options): Option<Options> {
    if list == [] then Some(o)
    else
      var next := UnpackOption(o, list[0].code, list[0].data);
      if next.None? then None else Fold(list[1..], next.value)
  }

  lemma ParseOne(t: Tlv, rest: seq<Byte>, o: Options)
    requires Encodable(t)
    ensures Parse(Encode(t) + rest, o) ==
      var next := UnpackOption(o, t.code, t.data);
      if next.None? then None else Parse(rest, next.value)
  {
    var buf := Encode(t) + rest;
    assert buf[2..2 + |t.data|] == t.data;
    assert buf[2 + |t.data|..] == rest;
  }

  /** Parsing an encoded list folds over it; what follows the end marker does not matter. */
  lemma {:induction false} ParseIsFold(list: seq<Tlv>, rest: seq<Byte>, o: Options)
    requires AllEncodable(list)
    ensures Parse(EncodeAll(list) + [END] + rest, o) == Fold(list, o)
    decreases |list|
  {
    if list == [] {
      assert (EncodeAll(list) + [END] + rest)[0] == END;
    } else {
      var tail := EncodeAll(list[1..]) + [END] + rest;
      assert EncodeAll(list) + [END] + rest == Encode(list[0]) + tail;
      ParseOne(list[0], tail, o);
      var next := UnpackOption(o, list[0].code, list[0].data);
      if next.Some? {
        ParseIsFold(list[1..], rest, next.value);
      }
    }
  }

  /** Whatever parses is an encoded list up to an end marker. */
  lemma {:induction false} ParsedIsEncoded(buf: seq<Byte>, o: Options)
    returns (list: seq<Tlv>, rest: seq<Byte>)
    requires Parse(buf, o).Some?
    ensures AllEncodable(list) && buf == EncodeAll(list) + [END] + rest
    decreases |buf|
  {
    if buf[0] == END {
      list, rest := [], buf[1..];
    } else {
      var length := buf[1] as int;
      var t := Tlv(buf[0], buf[2..2 + length]);
      var next := UnpackOption(o, buf[0], buf[2..2 + length]).value;
      var tail;
      tail, rest := ParsedIsEncoded(buf[2 + length..], next);
      list := [t] + tail;
      assert list[1..] == tail;
      assert buf == Encode(t) + buf[2 + length..];
    }
  }

  /** The parser accepts exactly the encodings of option lists, with the result of the fold. */
  lemma ParseExactly(buf: seq<Byte>, r: Options)
    ensures Parse(buf, NO_OPTIONS) == Some(r) <==>
      exists list, rest :: AllEncodable(list) && buf == EncodeAll(list) + [END] + rest
        && Fold(list, NO_OPTIONS) == Some(r)
  {
    if Parse(buf, NO_OPTIONS) == Some(r) {
      var list, rest := ParsedIsEncoded(buf, NO_OPTIONS);
      ParseIsFold(list, rest, NO_OPTIONS);
    }
    forall list, rest | AllEncodable(list) && buf == EncodeAll(list) + [END] + rest
      ensures Parse(buf, NO_OPTIONS) == Fold(list, NO_OPTIONS)
    {
      ParseIsFold(list, rest, NO_OPTIONS);
    }
  }

  // ---------------------------------------------------------------- last occurrence wins

  /** The field an option code is kept in; `None` for a code the client does not know. */
  function Field(o: Options, code: Byte): Option<nat> {
    if code == SUBNET_MASK then o.subnetMask
    else if code == ROUTER then o.gateway
    else if code == DOMAIN_NAME_SERVER then o.dns
    else if code == MESSAGE_TYPE then o.messageType
    else if code == LEASE_TIME then o.leaseTime
    else if code == RENEWAL_TIME then o.renewalTime
    else if code == REBINDING_TIME then o.rebindingTime
    else if code == SERVER_IDENTIFIER then o.server
    else None
  }

  predicate Known(code: Byte) {
    code in {SUBNET_MASK, ROUTER, DOMAIN_NAME_SERVER, MESSAGE_TYPE, LEASE_TIME, RENEWAL_TIME,
             REBINDING_TIME, SERVER_IDENTIFIER}
  }

  /** The value of one option's data, `None` when its length is wrong. */
  function ValueOf(t: Tlv): Option<nat> {
    if t.code == MESSAGE_TYPE then UnpackU8(t.data)
    else if t.code == DOMAIN_NAME_SERVER then UnpackDns(t.data)
    else UnpackU32(t.data)
  }

  predicate GoodLength(t: Tlv) {
    Known(t.code) ==> ValueOf(t).Some?
  }

  /** The value of the last option with the given code. */
  function LastOf(list: seq<Tlv>, code: Byte): Option<nat> {
    if list == [] then None
    else
      var later := LastOf(list[1..], code);
      if later.Some? then later else if list[0].code == code then ValueOf(list[0]) else None
  }

  lemma OneOption(o: Options, t: Tlv, code: Byte)
    requires Known(code)
    ensures UnpackOption(o, t.code, t.data).Some? <==> GoodLength(t)
    ensures GoodLength(t) ==>
      Field(UnpackOption(o, t.code, t.data).value, code)
      == if t.code == code then ValueOf(t) else Field(o, code)
  {
  }

  lemma {:induction false} FoldKeepsLast(list: seq<Tlv>, o: Options, code: Byte)
    requires Known(code)
    ensures Fold(list, o).Some? <==> forall i :: 0 <= i < |list| ==> GoodLength(list[i])
    ensures Fold(list, o).Some? ==>
      Field(Fold(list, o).value, code)
      == if LastOf(list, code).Some? then LastOf(list, code) else Field(o, code)
    decreases |list|
  {
    if list != [] {
      OneOption(o, list[0], code);
      if GoodLength(list[0]) {
        FoldKeepsLast(list[1..], UnpackOption(o, list[0].code, list[0].data).value, code);
        assert forall i :: 0 < i < |list| ==> list[i] == list[1..][i - 1];
      }
    }
  }

  /**
   On any bytes the loop either fails or yields, for each known option, the value of its last
   occurrence before the end marker; it fails on a list exactly when a known option has a wrong
   length.
   */
  lemma LastOccurrenceWins(list: seq<Tlv>, rest: seq<Byte>, code: Byte)
    requires AllEncodable(list) && Known(code)
    ensures var r := Parse(EncodeAll(list) + [END] + rest, NO_OPTIONS);
      && (r.Some? <==> forall i :: 0 <= i < |list| ==> GoodLength(list[i]))
      && (r.Some? ==> Field(r.value, code) == LastOf(list, code))
  {
    ParseIsFold(list, rest, NO_OPTIONS);
    FoldKeepsLast(list, NO_OPTIONS, code);
  }

  /** The options the client knows, by their numbers in RFC 2132, and the lengths they must have. */
  lemma LengthsByCode(t: Tlv)
    ensures GoodLength(t) <==>
      && (t.code in {1, 3, 51, 54, 58, 59} ==> |t.data| == 4)
      && (t.code == 6 ==> |t.data| >= 4)
      && (t.code == 53 ==> |t.data| == 1)
  {
  }

  /** Their values: big-endian numbers, and of several name servers the first. */
  lemma ValuesByCode(t: Tlv)
    requires GoodLength(t)
    ensures t.code == 53 ==> ValueOf(t) == Some(t.data[0] as int)
    ensures t.code in {1, 3, 6, 51, 54, 58, 59} ==>
      ValueOf(t) == Some(0x100_0000 * t.data[0] as int + 0x1_0000 * t.data[1] as int
                         + 0x100 * t.data[2] as int + t.data[3] as int)
  {
    LengthsByCode(t);
  }
}
