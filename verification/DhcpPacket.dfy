/** Building and checking DHCP packets in byte buffers. */
module DhcpPacket {
  import opened Inet
  import opened DhcpOptions
  import opened Wrappers

  const OPTIONS_OFFSET: nat := 240

  // ---------------------------------------------------------------- IP header

  predicate IsIpValid(buf: seq<Byte>) {
    && |buf| >= 20
    && Checksum(buf[..20]) == 0
    && buf[0] == 0x45
    && buf[9] == 17
    && buf[16] == buf[17] == buf[18] == buf[19] == 255
  }

  /** The fields of the header, all but its checksum. */
  method PackIpFields(buf: array<Byte>, size: nat)
    requires 20 <= buf.Length
    modifies buf
    ensures buf[0] == 0x45 && buf[5] == 0x11 && buf[8] == 255 && buf[9] == 17
    ensures 256 * buf[2] as int + buf[3] as int == size % 0x1_0000
    ensures buf[16] == buf[17] == buf[18] == buf[19] == 255
    ensures buf[10] == old(buf[10]) && buf[11] == old(buf[11])
    ensures forall i :: 20 <= i < buf.Length ==> buf[i] == old(buf[i])
  {
    buf[0] := 0x45;
    PackSize(buf, size);
    buf[5] := 0x11;
    buf[8] := 255;
    buf[9] := 17;
    PackBroadcastAddress(buf);
  }

  method PackSize(buf: array<Byte>, size: nat)
    requires 20 <= buf.Length
    modifies buf
    ensures 256 * buf[2] as int + buf[3] as int == size % 0x1_0000
    ensures forall i :: 0 <= i < buf.Length && i != 2 && i != 3 ==> buf[i] == old(buf[i])
  {
    TwoBytes(size);
    buf[2] := size / 256 % 256;
    buf[3] := size % 256;
  }

  lemma TwoBytes(size: nat)
    ensures 256 * (size / 256 % 256) + size % 256 == size % 0x1_0000
  {
  }

  method PackBroadcastAddress(buf: array<Byte>)
    requires 20 <= buf.Length
    modifies buf
    ensures buf[16] == buf[17] == buf[18] == buf[19] == 255
    ensures forall i :: 0 <= i < buf.Length && !(16 <= i < 20) ==> buf[i] == old(buf[i])
  {
    buf[16] := 255;
    buf[17] := 255;
    buf[18] := 255;
    buf[19] := 255;
  }

  /** The checksum of the first 20 bytes, as the accumulating code computes it. */
  method HeaderChecksum(buf: array<Byte>) returns (sum: nat)
    requires 20 <= buf.Length
    ensures sum == Checksum(buf[..20])
  {
    var acc := ChecksumAcc(0, buf[..20]);
    sum := ChecksumEnd(acc);
  }

  /** Every header built over a zero checksum field, whatever else it holds, passes the check. */
  method PackIpHeader(buf: array<Byte>, size: nat)
    requires 20 <= buf.Length && buf[10] == 0 && buf[11] == 0
    modifies buf
    ensures IsIpValid(buf[..])
    ensures 256 * buf[2] as int + buf[3] as int == size % 0x1_0000
    ensures buf[5] == 0x11 && buf[8] == 255
    ensures forall i :: 20 <= i < buf.Length ==> buf[i] == old(buf[i])
  {
    PackIpFields(buf, size);
    var checksum := HeaderChecksum(buf);
    ghost var before := buf[..20];
    StoredChecksumVerifies(before, 10);
    buf[10] := checksum / 256;
    buf[11] := checksum % 256;
    assert buf[..20] == Store16(before, 10, checksum);
    assert buf[..][..20] == buf[..20];
  }

  // ---------------------------------------------------------------- DHCP message

  method PackDhcpFixed(buf: array<Byte>, base: nat, mac: seq<Byte>, messageType: Byte)
    requires base + 243 <= buf.Length && |mac| == 6
    modifies buf
    ensures buf[base] == 1 && buf[base + 1] == 1 && buf[base + 2] == 6
    ensures buf[base + 4..base + 8] == [0x32, 0x49, 0x36, 0x78]
    ensures buf[base + 10] == 0x80 && buf[base + 11] == 0
    ensures buf[base + 28..base + 34] == mac
    ensures buf[base + 236..base + 243] == [0x63, 0x82, 0x53, 0x63, MESSAGE_TYPE, 1, messageType]
    ensures forall i :: 0 <= i < buf.Length && (i < base || base + 243 <= i) ==> buf[i] == old(buf[i])
  {
    PackKind(buf, base);
    PackBytes(buf, base + 28, mac);
    PackCookie(buf, base + 236, messageType);
  }

  method PackKind(buf: array<Byte>, base: nat)
    requires base + 12 <= buf.Length
    modifies buf
    ensures buf[base] == 1 && buf[base + 1] == 1 && buf[base + 2] == 6
    ensures buf[base + 4..base + 8] == [0x32, 0x49, 0x36, 0x78]
    ensures buf[base + 10] == 0x80 && buf[base + 11] == 0
    ensures forall i :: 0 <= i < buf.Length && (i < base || base + 12 <= i) ==> buf[i] == old(buf[i])
  {
    buf[base] := 1;
    buf[base + 1] := 1;
    buf[base + 2] := 6;
    buf[base + 4] := 0x32;
    buf[base + 5] := 0x49;
    buf[base + 6] := 0x36;
    buf[base + 7] := 0x78;
    buf[base + 10] := 0x80;
    buf[base + 11] := 0;
  }

  method PackBytes(buf: array<Byte>, at: nat, bytes: seq<Byte>)
    requires at + |bytes| <= buf.Length
    modifies buf
    ensures buf[at..at + |bytes|] == bytes
    ensures forall i :: 0 <= i < buf.Length && (i < at || at + |bytes| <= i) ==> buf[i] == old(buf[i])
  {
    forall k | at <= k < at + |bytes| {
      buf[k] := bytes[k - at];
    }
  }

  /** The magic cookie and the first option. */
  method PackCookie(buf: array<Byte>, at: nat, messageType: Byte)
    requires at + 7 <= buf.Length
    modifies buf
    ensures buf[at..at + 7] == [0x63, 0x82, 0x53, 0x63, MESSAGE_TYPE, 1, messageType]
    ensures forall i :: 0 <= i < buf.Length && (i < at || at + 7 <= i) ==> buf[i] == old(buf[i])
  {
    buf[at] := 0x63;
    buf[at + 1] := 0x82;
    buf[at + 2] := 0x53;
    buf[at + 3] := 0x63;
    buf[at + 4] := MESSAGE_TYPE;
    buf[at + 5] := 1;
    buf[at + 6] := messageType;
  }

  /** The options of a REQUEST after the message type. */
  function RequestOptions(server: nat, address: nat, lease: nat): seq<Tlv>
    requires server < UINT32 && address < UINT32 && lease < UINT32
  {
    [Tlv(SERVER_IDENTIFIER, ToBe32(server)), Tlv(REQUESTED_ADDRESS, ToBe32(address)),
     Tlv(LEASE_TIME, ToBe32(lease))]
  }

  method Write32(buf: array<Byte>, at: nat, v: nat)
    requires at + 4 <= buf.Length && v < UINT32
    modifies buf
    ensures buf[at..at + 4] == ToBe32(v)
    ensures forall i :: 0 <= i < buf.Length && (i < at || at + 4 <= i) ==> buf[i] == old(buf[i])
  {
    buf[at] := v / 0x100_0000;
    buf[at + 1] := v / 0x1_0000 % 0x100;
    buf[at + 2] := v / 0x100 % 0x100;
    buf[at + 3] := v % 0x100;
  }

  method WriteOption(buf: array<Byte>, at: nat, code: Byte, v: nat)
    requires at + 6 <= buf.Length && v < UINT32
    modifies buf
    ensures buf[at..at + 6] == [code, 4] + ToBe32(v)
    ensures forall i :: 0 <= i < buf.Length && (i < at || at + 6 <= i) ==> buf[i] == old(buf[i])
  {
    buf[at] := code;
    buf[at + 1] := 4;
    Write32(buf, at + 2, v);
  }

  lemma EncodedRequest(server: nat, address: nat, lease: nat)
    requires server < UINT32 && address < UINT32 && lease < UINT32
    ensures AllEncodable(RequestOptions(server, address, lease))
    ensures EncodeAll(RequestOptions(server, address, lease))
      == [SERVER_IDENTIFIER, 4] + ToBe32(server) + ([REQUESTED_ADDRESS, 4] + ToBe32(address))
         + ([LEASE_TIME, 4] + ToBe32(lease))
  {
    var l := RequestOptions(server, address, lease);
    assert l[1..] == [l[1], l[2]] && [l[1], l[2]][1..] == [l[2]] && [l[2]][1..] == [];
    assert EncodeAll([l[2]]) == Encode(l[2]);
    assert EncodeAll([l[1], l[2]]) == Encode(l[1]) + Encode(l[2]);
  }

  method PackDhcpRequest(buf: array<Byte>, base: nat, server: nat, address: nat, lease: nat)
    requires base + 19 <= buf.Length && server < UINT32 && address < UINT32 && lease < UINT32
    modifies buf
    ensures AllEncodable(RequestOptions(server, address, lease))
    ensures buf[base..base + 19] == EncodeAll(RequestOptions(server, address, lease)) + [END]
    ensures forall i :: 0 <= i < buf.Length && (i < base || base + 19 <= i) ==> buf[i] == old(buf[i])
  {
    WriteOption(buf, base, SERVER_IDENTIFIER, server);
    ghost var a := buf[base..base + 6];
    WriteOption(buf, base + 6, REQUESTED_ADDRESS, address);
    ghost var b := buf[base + 6..base + 12];
    assert buf[base..base + 6] == a;
    WriteOption(buf, base + 12, LEASE_TIME, lease);
    ghost var c := buf[base + 12..base + 18];
    assert buf[base..base + 6] == a && buf[base + 6..base + 12] == b;
    buf[base + 18] := END;
    assert buf[base..base + 6] == a && buf[base + 6..base + 12] == b && buf[base + 12..base + 18] == c;
    assert buf[base..base + 19] == a + b + c + [END];
    EncodedRequest(server, address, lease);
  }

  lemma RequestFolds(server: nat, address: nat, lease: nat, o: Options)
    requires server < UINT32 && address < UINT32 && lease < UINT32
    ensures Fold(RequestOptions(server, address, lease), o)
      == Some(o.(server := Some(server), leaseTime := Some(lease)))
  {
    var l := RequestOptions(server, address, lease);
    Be32RoundTrip(server);
    Be32RoundTrip(lease);
    var o1 := o.(server := Some(server));
    assert l[1..] == [l[1], l[2]] && [l[1], l[2]][1..] == [l[2]] && [l[2]][1..] == [];
    assert UnpackOption(o, l[0].code, l[0].data) == Some(o1);
    assert UnpackOption(o1, l[1].code, l[1].data) == Some(o1);
    assert Fold([l[2]], o1) == Some(o1.(leaseTime := Some(lease)));
    assert Fold([l[1], l[2]], o1) == Fold([l[2]], o1);
  }

  /** What the parser makes of the options of a REQUEST: they come back for all values. */
  lemma RequestParses(server: nat, address: nat, lease: nat, rest: seq<Byte>)
    requires server < UINT32 && address < UINT32 && lease < UINT32
    requires AllEncodable(RequestOptions(server, address, lease))
    ensures Parse([MESSAGE_TYPE, 1, 3] + EncodeAll(RequestOptions(server, address, lease)) + [END] + rest,
                  NO_OPTIONS)
      == Some(NO_OPTIONS.(messageType := Some(3), server := Some(server), leaseTime := Some(lease)))
  {
    var l := RequestOptions(server, address, lease);
    var t := Tlv(MESSAGE_TYPE, [3]);
    var tail := EncodeAll(l) + [END] + rest;
    assert [MESSAGE_TYPE, 1, 3] + EncodeAll(l) + [END] + rest == Encode(t) + tail;
    ParseOne(t, tail, NO_OPTIONS);
    ParseIsFold(l, rest, NO_OPTIONS.(messageType := Some(3)));
    RequestFolds(server, address, lease, NO_OPTIONS.(messageType := Some(3)));
  }

  /** A whole REQUEST message, as sent to the server: its fixed part and its options read back. */
  method BuildRequest(mac: seq<Byte>, server: nat, address: nat, lease: nat) returns (packet: seq<Byte>)
    requires |mac| == 6 && server < UINT32 && address < UINT32 && lease < UINT32
    ensures |packet| == 576 && packet[28..34] == mac
    ensures packet[0] == 1 && packet[1] == 1 && packet[2] == 6 && packet[10] == 0x80
    ensures packet[236..240] == [0x63, 0x82, 0x53, 0x63]
    ensures packet[240..262] == [53, 1, 3] + ([54, 4] + ToBe32(server)
      + ([50, 4] + ToBe32(address) + ([51, 4] + ToBe32(lease) + [255])))
    ensures forall i :: 262 <= i < 576 ==> packet[i] == 0
    ensures Parse(packet[OPTIONS_OFFSET..], NO_OPTIONS)
      == Some(NO_OPTIONS.(messageType := Some(3), server := Some(server), leaseTime := Some(lease)))
  {
    var buf := new Byte[576](_ => 0);
    PackDhcpFixed(buf, 0, mac, 3);
    ghost var fixed := buf[236..243];
    ghost var sender := buf[28..34];
    PackDhcpRequest(buf, 243, server, address, lease);
    packet := buf[..];
    assert packet[236..243] == fixed && packet[28..34] == sender;
    ghost var body := packet[243..262];
    assert packet[236..240] == fixed[..4] && packet[240..243] == fixed[4..];
    assert fixed[4..] == [MESSAGE_TYPE, 1, 3];
    assert packet[OPTIONS_OFFSET..] == packet[240..243] + body + packet[262..];
    RequestParses(server, address, lease, packet[262..]);
    RequestOptionBytes(server, address, lease);
    assert packet[240..262] == packet[240..243] + body;
    ghost var enc := EncodeAll(RequestOptions(server, address, lease));
    assert [MESSAGE_TYPE, 1, 3] + body == [MESSAGE_TYPE, 1, 3] + enc + [END];
  }

  // ---------------------------------------------------------------- received packets

  /** The lease fields an OFFER carries. `time` is the 32-bit option value. */
  datatype Offer = Offer(address: nat, server: nat, subnetMask: nat, gateway: nat, dns: nat, time: nat)

  /** What a received packet means to the client. */
  datatype Packet = Nothing | OfferPacket(offer: Offer) | Ack | Nak

  predicate IsUdpValid(buf: seq<Byte>)
    requires |buf| >= 20
  {
    && |buf| >= 28
    && buf[20] == 0 && buf[21] == 67
    && buf[22] == 0 && buf[23] == 68
  }

  /** An OFFER counts only with a server, a lease of at least a second, a mask, a router and a DNS. */
  predicate CompleteOffer(o: Options) {
    && o.server.Some? && o.leaseTime.Some? && o.leaseTime.value >= 1
    && o.subnetMask.Some? && o.gateway.Some? && o.dns.Some?
  }

  function UnpackMessage(o: Options, yourAddress: nat): Packet {
    if o.messageType == Some(2) then
      if CompleteOffer(o) then
        OfferPacket(Offer(yourAddress, o.server.value, o.subnetMask.value, o.gateway.value,
                          o.dns.value, o.leaseTime.value))
      else Nothing
    else if o.messageType == Some(5) then Ack
    else if o.messageType == Some(6) then Nak
    else Nothing
  }

  /** The DHCP message proper, without IP and UDP headers. */
  function UnpackDhcp(mac: seq<Byte>, buf: seq<Byte>): Packet
    requires |mac| == 6
  {
    if |buf| <= OPTIONS_OFFSET then Nothing
    else if buf[0] != 2 || buf[1] != 1 then Nothing
    else if buf[28..34] != mac then Nothing
    else if buf[236..240] != [0x63, 0x82, 0x53, 0x63] then Nothing
    else
      var o := Parse(buf[OPTIONS_OFFSET..], NO_OPTIONS);
      if o.None? || o.value.messageType.None? then Nothing
      else UnpackMessage(o.value, Be32(buf[16..20]))
  }

  function UnpackPacket(packetSocket: bool, mac: seq<Byte>, buf: seq<Byte>): Packet
    requires |mac| == 6
  {
    if packetSocket then
      if IsIpValid(buf) && IsUdpValid(buf) then UnpackDhcp(mac, buf[28..]) else Nothing
    else UnpackDhcp(mac, buf)
  }

  /** The fixed fields of a reply to this client. */
  predicate ReplyHeader(mac: seq<Byte>, buf: seq<Byte>)
    requires |mac| == 6 && OPTIONS_OFFSET < |buf|
  {
    && buf[0] == 2 && buf[1] == 1 && buf[28..34] == mac
    && buf[236..240] == [0x63, 0x82, 0x53, 0x63]
  }

  /** An option list that makes the OFFER `o`, with any other options around the mandatory ones. */
  predicate OfferList(list: seq<Tlv>, o: Offer) {
    && AllEncodable(list)
    && (forall i :: 0 <= i < |list| ==> GoodLength(list[i]))
    && LastOf(list, MESSAGE_TYPE) == Some(2)
    && LastOf(list, SERVER_IDENTIFIER) == Some(o.server)
    && LastOf(list, SUBNET_MASK) == Some(o.subnetMask)
    && LastOf(list, ROUTER) == Some(o.gateway)
    && LastOf(list, DOMAIN_NAME_SERVER) == Some(o.dns)
    && LastOf(list, LEASE_TIME) == Some(o.time) && 1 <= o.time
  }

  lemma ListDecides(buf: seq<Byte>, list: seq<Tlv>, rest: seq<Byte>, o: Offer)
    requires AllEncodable(list) && buf == EncodeAll(list) + [END] + rest
    ensures OfferList(list, o) <==>
      var r := Parse(buf, NO_OPTIONS);
      r.Some? && UnpackMessage(r.value, o.address) == OfferPacket(o)
  {
    LastOccurrenceWins(list, rest, MESSAGE_TYPE);
    LastOccurrenceWins(list, rest, SERVER_IDENTIFIER);
    LastOccurrenceWins(list, rest, SUBNET_MASK);
    LastOccurrenceWins(list, rest, ROUTER);
    LastOccurrenceWins(list, rest, DOMAIN_NAME_SERVER);
    LastOccurrenceWins(list, rest, LEASE_TIME);
  }

  /**
   A message of any bytes is an OFFER exactly when it is long enough, its header is right and its
   options encode a list in which all known options have the right length, the message type is 2 and
   the five mandatory options are there; the record has the values of their last occurrences.
   */
  lemma OfferExactly(mac: seq<Byte>, buf: seq<Byte>, o: Offer)
    requires |mac| == 6
    ensures UnpackDhcp(mac, buf) == OfferPacket(o) <==>
      && OPTIONS_OFFSET < |buf| && ReplyHeader(mac, buf) && o.address == Be32(buf[16..20])
      && exists list, rest ::
           buf[OPTIONS_OFFSET..] == EncodedTo(list) + rest && OfferList(list, o)
  {
    if OPTIONS_OFFSET < |buf| {
      var options := buf[OPTIONS_OFFSET..];
      if UnpackDhcp(mac, buf) == OfferPacket(o) {
        var list, rest := ParsedIsEncoded(options, NO_OPTIONS);
        ListDecides(options, list, rest, o);
        assert options == EncodedTo(list) + rest;
      }
      forall list, rest | options == EncodedTo(list) + rest && OfferList(list, o)
        ensures Parse(options, NO_OPTIONS).Some?
          && UnpackMessage(Parse(options, NO_OPTIONS).value, o.address) == OfferPacket(o)
      {
        ListDecides(options, list, rest, o);
      }
    }
  }

  /** The bytes of an option list with its end marker; empty for a list that has no encoding. */
  function EncodedTo(list: seq<Tlv>): seq<Byte> {
    if AllEncodable(list) then EncodeAll(list) + [END] else []
  }

  /** An accepted OFFER has a 32-bit lease time of at least one second. */
  lemma OfferBounds(packetSocket: bool, mac: seq<Byte>, buf: seq<Byte>)
    requires |mac| == 6 && UnpackPacket(packetSocket, mac, buf).OfferPacket?
    ensures 1 <= UnpackPacket(packetSocket, mac, buf).offer.time < UINT32
  {
    var m := if packetSocket then buf[28..] else buf;
    var options := m[OPTIONS_OFFSET..];
    var list, rest := ParsedIsEncoded(options, NO_OPTIONS);
    ParseIsFold(list, rest, NO_OPTIONS);
    FoldKeepsLast(list, NO_OPTIONS, LEASE_TIME);
    LastLeaseBounded(list);
  }

  lemma {:induction false} LastLeaseBounded(list: seq<Tlv>)
    ensures LastOf(list, LEASE_TIME).Some? ==> LastOf(list, LEASE_TIME).value < UINT32
  {
    if list != [] {
      LastLeaseBounded(list[1..]);
    }
  }

  // ---------------------------------------------------------------- packets a server can send

  function Zeros(n: nat): seq<Byte> {
    seq(n, _ => 0)
  }

  /** An IP header with any time to live and no checksum yet. */
  function BareHeader(ttl: Byte): (h: seq<Byte>)
    ensures |h| == 20 && h[0] == 0x45 && h[9] == 17 && h[16] == h[17] == h[18] == h[19] == 255
    ensures h[10] == 0 && h[11] == 0
  {
    [0x45] + Zeros(7) + [ttl, 17] + Zeros(6) + [255, 255, 255, 255]
  }

  function StoredHeader(ttl: Byte): (h: seq<Byte>)
    ensures |h| == 20 && h[0] == 0x45 && h[9] == 17 && h[16] == h[17] == h[18] == h[19] == 255
    ensures Checksum(h) == 0
  {
    StoredChecksumVerifies(BareHeader(ttl), 10);
    Store16(BareHeader(ttl), 10, Checksum(BareHeader(ttl)))
  }

  const PORTS: seq<Byte> := [0, 67, 0, 68, 0, 0, 0, 0]

  /** IP and UDP headers of a broadcast from the server port to the client port. */
  function ServerHeaders(ttl: Byte): (h: seq<Byte>)
    ensures |h| == 28
  {
    StoredHeader(ttl) + PORTS
  }

  /** The fixed part of a reply that offers `address`. */
  function ReplyFixed(mac: seq<Byte>, address: nat): (f: seq<Byte>)
    requires |mac| == 6 && address < UINT32
    ensures |f| == OPTIONS_OFFSET
    ensures f[0] == 2 && f[1] == 1 && f[16..20] == ToBe32(address) && f[28..34] == mac
    ensures f[236..240] == [0x63, 0x82, 0x53, 0x63]
  {
    [2, 1] + Zeros(14) + ToBe32(address) + Zeros(8) + mac + Zeros(202) + [0x63, 0x82, 0x53, 0x63]
  }

  /** What a server sends to a client that has an address: the bare message over UDP. */
  function ServerMessage(mac: seq<Byte>, address: nat, list: seq<Tlv>): seq<Byte>
    requires |mac| == 6 && address < UINT32
  {
    ReplyFixed(mac, address) + EncodedTo(list)
  }

  /** What it broadcasts to one that has none. */
  function ServerPacket(mac: seq<Byte>, address: nat, list: seq<Tlv>): seq<Byte>
    requires |mac| == 6 && address < UINT32
  {
    ServerHeaders(64) + ServerMessage(mac, address, list)
  }

  lemma HeadersAreValid(ttl: Byte, rest: seq<Byte>)
    ensures IsIpValid(ServerHeaders(ttl) + rest) && IsUdpValid(ServerHeaders(ttl) + rest)
    ensures (ServerHeaders(ttl) + rest)[28..] == rest
  {
    var h, buf := StoredHeader(ttl), ServerHeaders(ttl) + rest;
    assert buf == h + (PORTS + rest);
    assert buf[..20] == h;
    assert forall i :: 0 <= i < 8 ==> buf[20 + i] == PORTS[i];
  }

  lemma HeadersAreTaken(mac: seq<Byte>, ttl: Byte, m: seq<Byte>)
    requires |mac| == 6
    ensures UnpackPacket(true, mac, ServerHeaders(ttl) + m) == UnpackDhcp(mac, m)
  {
    HeadersAreValid(ttl, m);
  }

  lemma ReplyParts(mac: seq<Byte>, address: nat, tail: seq<Byte>)
    requires |mac| == 6 && address < UINT32 && tail != []
    ensures var m := ReplyFixed(mac, address) + tail;
      && ReplyHeader(mac, m) && Be32(m[16..20]) == address && m[OPTIONS_OFFSET..] == tail
  {
    var fixed := ReplyFixed(mac, address);
    var m := fixed + tail;
    assert m[28..34] == fixed[28..34] && m[236..240] == fixed[236..240] && m[16..20] == fixed[16..20];
    Be32RoundTrip(address);
  }

  lemma ReplyIsUnpacked(mac: seq<Byte>, address: nat, list: seq<Tlv>)
    requires |mac| == 6 && address < UINT32 && AllEncodable(list)
    requires Fold(list, NO_OPTIONS).Some? && Fold(list, NO_OPTIONS).value.messageType.Some?
    ensures UnpackPacket(true, mac, ServerPacket(mac, address, list))
      == UnpackPacket(false, mac, ServerMessage(mac, address, list))
      == UnpackMessage(Fold(list, NO_OPTIONS).value, address)
  {
    var tail := EncodedTo(list);
    HeadersAreTaken(mac, 64, ReplyFixed(mac, address) + tail);
    ReplyParts(mac, address, tail);
    assert tail == EncodeAll(list) + [END] + [];
    ParseIsFold(list, [], NO_OPTIONS);
    ReplyIsAccepted(mac, ReplyFixed(mac, address) + tail, Fold(list, NO_OPTIONS).value);
  }

  lemma ReplyIsAccepted(mac: seq<Byte>, m: seq<Byte>, o: Options)
    requires |mac| == 6 && OPTIONS_OFFSET < |m| && ReplyHeader(mac, m)
    requires Parse(m[OPTIONS_OFFSET..], NO_OPTIONS) == Some(o) && o.messageType.Some?
    ensures UnpackDhcp(mac, m) == UnpackMessage(o, Be32(m[16..20]))
  {
  }

  /** An OFFER with 32-bit fields and a lease of at least a second. */
  predicate Sendable(o: Offer) {
    && o.address < UINT32 && o.server < UINT32 && o.subnetMask < UINT32 && o.gateway < UINT32
    && o.dns < UINT32 && 1 <= o.time < UINT32
  }

  function OfferOptions(o: Offer): seq<Tlv>
    requires Sendable(o)
  {
    [Tlv(MESSAGE_TYPE, [2]), Tlv(SERVER_IDENTIFIER, ToBe32(o.server)),
     Tlv(SUBNET_MASK, ToBe32(o.subnetMask)), Tlv(ROUTER, ToBe32(o.gateway)),
     Tlv(DOMAIN_NAME_SERVER, ToBe32(o.dns)), Tlv(LEASE_TIME, ToBe32(o.time))]
  }

  lemma FoldOne(t: Tlv, rest: seq<Tlv>, o: Options)
    ensures Fold([t] + rest, o)
      == if UnpackOption(o, t.code, t.data).None? then None
         else Fold(rest, UnpackOption(o, t.code, t.data).value)
  {
    assert ([t] + rest)[1..] == rest;
  }

  lemma Unpack32(o: Options, v: nat)
    requires v < UINT32
    ensures UnpackOption(o, SERVER_IDENTIFIER, ToBe32(v)) == Some(o.(server := Some(v)))
    ensures UnpackOption(o, SUBNET_MASK, ToBe32(v)) == Some(o.(subnetMask := Some(v)))
    ensures UnpackOption(o, ROUTER, ToBe32(v)) == Some(o.(gateway := Some(v)))
    ensures UnpackOption(o, DOMAIN_NAME_SERVER, ToBe32(v)) == Some(o.(dns := Some(v)))
    ensures UnpackOption(o, LEASE_TIME, ToBe32(v)) == Some(o.(leaseTime := Some(v)))
  {
    Be32RoundTrip(v);
  }

  lemma LaterOptionsFold(o: Offer, before: Options)
    requires Sendable(o)
    ensures Fold(OfferOptions(o)[3..], before)
      == Some(before.(gateway := Some(o.gateway), dns := Some(o.dns), leaseTime := Some(o.time)))
  {
    var l := OfferOptions(o);
    var gateway := before.(gateway := Some(o.gateway));
    var dns := gateway.(dns := Some(o.dns));
    Unpack32(before, o.gateway);
    Unpack32(gateway, o.dns);
    Unpack32(dns, o.time);
    FoldOne(l[5], [], dns);
    FoldOne(l[4], [l[5]] + [], gateway);
    FoldOne(l[3], [l[4]] + ([l[5]] + []), before);
    assert [l[3]] + ([l[4]] + ([l[5]] + [])) == l[3..];
  }

  lemma OfferOptionsFold(o: Offer)
    requires Sendable(o)
    ensures Fold(OfferOptions(o), NO_OPTIONS) == Some(Options(Some(2), Some(o.subnetMask),
      Some(o.gateway), Some(o.dns), Some(o.time), None, None, Some(o.server)))
  {
    var l := OfferOptions(o);
    var offer := NO_OPTIONS.(messageType := Some(2));
    var server := offer.(server := Some(o.server));
    Unpack32(offer, o.server);
    Unpack32(server, o.subnetMask);
    LaterOptionsFold(o, server.(subnetMask := Some(o.subnetMask)));
    FoldOne(l[2], l[3..], server);
    FoldOne(l[1], [l[2]] + l[3..], offer);
    FoldOne(l[0], [l[1]] + ([l[2]] + l[3..]), NO_OPTIONS);
    assert [l[0]] + ([l[1]] + ([l[2]] + l[3..])) == l;
  }

  /** Every OFFER a server can mean is received for some packet, on either socket. */
  lemma OfferIsReceived(mac: seq<Byte>, o: Offer)
    requires |mac| == 6 && Sendable(o)
    ensures UnpackPacket(true, mac, ServerPacket(mac, o.address, OfferOptions(o))) == OfferPacket(o)
    ensures UnpackPacket(false, mac, ServerMessage(mac, o.address, OfferOptions(o))) == OfferPacket(o)
  {
    OfferOptionsFold(o);
    ReplyIsUnpacked(mac, o.address, OfferOptions(o));
  }

  lemma TypeAloneIsReceived(mac: seq<Byte>, messageType: Byte)
    requires |mac| == 6
    ensures var l := [Tlv(MESSAGE_TYPE, [messageType])];
      UnpackPacket(true, mac, ServerPacket(mac, 0, l))
      == UnpackPacket(false, mac, ServerMessage(mac, 0, l))
      == UnpackMessage(NO_OPTIONS.(messageType := Some(messageType as int)), 0)
  {
    var l := [Tlv(MESSAGE_TYPE, [messageType])];
    FoldOne(l[0], [], NO_OPTIONS);
    assert [l[0]] + [] == l;
    ReplyIsUnpacked(mac, 0, l);
  }

  lemma AckIsReceived(mac: seq<Byte>)
    requires |mac| == 6
    ensures UnpackPacket(true, mac, ServerPacket(mac, 0, [Tlv(MESSAGE_TYPE, [5])])) == Ack
    ensures UnpackPacket(false, mac, ServerMessage(mac, 0, [Tlv(MESSAGE_TYPE, [5])])) == Ack
  {
    TypeAloneIsReceived(mac, 5);
  }

  lemma NakIsReceived(mac: seq<Byte>)
    requires |mac| == 6
    ensures UnpackPacket(true, mac, ServerPacket(mac, 0, [Tlv(MESSAGE_TYPE, [6])])) == Nak
    ensures UnpackPacket(false, mac, ServerMessage(mac, 0, [Tlv(MESSAGE_TYPE, [6])])) == Nak
  {
    TypeAloneIsReceived(mac, 6);
  }

  /** The option bytes of that OFFER, code by code. */
  lemma OfferOptionBytes(o: Offer)
    requires Sendable(o)
    ensures EncodedTo(OfferOptions(o)) == [53, 1, 2] + ([54, 4] + ToBe32(o.server)
      + ([1, 4] + ToBe32(o.subnetMask) + ([3, 4] + ToBe32(o.gateway) + ([6, 4] + ToBe32(o.dns)
      + ([51, 4] + ToBe32(o.time) + [255])))))
  {
    var l := OfferOptions(o);
    EncodeFront(l[5], []);
    EncodeFront(l[4], [l[5]] + []);
    EncodeFront(l[3], [l[4]] + ([l[5]] + []));
    EncodeFront(l[2], [l[3]] + ([l[4]] + ([l[5]] + [])));
    EncodeFront(l[1], [l[2]] + ([l[3]] + ([l[4]] + ([l[5]] + []))));
    EncodeFront(l[0], [l[1]] + ([l[2]] + ([l[3]] + ([l[4]] + ([l[5]] + [])))));
    assert [l[0]] + ([l[1]] + ([l[2]] + ([l[3]] + ([l[4]] + ([l[5]] + []))))) == l;
  }

  lemma EncodeFront(t: Tlv, rest: seq<Tlv>)
    requires Encodable(t) && AllEncodable(rest)
    ensures AllEncodable([t] + rest)
    ensures EncodedTo([t] + rest) == [t.code, |t.data|] + t.data + EncodedTo(rest)
  {
    assert ([t] + rest)[1..] == rest;
    assert forall i :: 0 < i < |[t] + rest| ==> ([t] + rest)[i] == rest[i - 1];
  }

  /** The option bytes of a REQUEST after its message type: server, address and lease time. */
  lemma RequestOptionBytes(server: nat, address: nat, lease: nat)
    requires server < UINT32 && address < UINT32 && lease < UINT32
    ensures EncodedTo(RequestOptions(server, address, lease))
      == [54, 4] + ToBe32(server) + ([50, 4] + ToBe32(address) + ([51, 4] + ToBe32(lease) + [255]))
  {
    var l := RequestOptions(server, address, lease);
    EncodeFront(l[2], []);
    EncodeFront(l[1], [l[2]] + []);
    EncodeFront(l[0], [l[1]] + ([l[2]] + []));
    assert [l[0]] + ([l[1]] + ([l[2]] + [])) == l;
  }

  // ---------------------------------------------------------------- what is dropped

  /**
   On the packet socket a packet counts exactly with a right IP header checksum, as RFC 1071 defines it,
   an IP version 4 header without options, the protocol UDP, the broadcast address and the two ports;
   what counts is the message behind the headers. Any other packet is dropped.
   */
  lemma HeadersDecide(mac: seq<Byte>, buf: seq<Byte>)
    requires |mac| == 6
    ensures UnpackPacket(true, mac, buf) ==
      if && 28 <= |buf| && Reference(buf[..20]) == 0 && buf[0] == 0x45 && buf[9] == 17
         && buf[16..20] == [255, 255, 255, 255] && buf[20..24] == [0, 67, 0, 68]
      then UnpackPacket(false, mac, buf[28..]) else Nothing
  {
    if 28 <= |buf| {
      ChecksumIsReference(buf[..20]);
      assert buf[16..20] == [buf[16], buf[17], buf[18], buf[19]];
      assert buf[20..24] == [buf[20], buf[21], buf[22], buf[23]];
    }
  }

  /** An option list for a message of the given type, with any other options around it. */
  predicate TypeList(list: seq<Tlv>, messageType: nat) {
    && AllEncodable(list)
    && (forall i :: 0 <= i < |list| ==> GoodLength(list[i]))
    && LastOf(list, MESSAGE_TYPE) == Some(messageType)
  }

  lemma TypeDecides(buf: seq<Byte>, list: seq<Tlv>, rest: seq<Byte>, messageType: nat)
    requires AllEncodable(list) && buf == EncodeAll(list) + [END] + rest
    ensures TypeList(list, messageType) <==>
      Parse(buf, NO_OPTIONS).Some? && Parse(buf, NO_OPTIONS).value.messageType == Some(messageType)
  {
    LastOccurrenceWins(list, rest, MESSAGE_TYPE);
  }

  /** A message of any bytes is an ACK exactly with the right header and the type 5, a NAK with 6. */
  lemma AckNakExactly(mac: seq<Byte>, buf: seq<Byte>, messageType: nat)
    requires |mac| == 6 && messageType in {5, 6}
    ensures UnpackDhcp(mac, buf) == (if messageType == 5 then Ack else Nak) <==>
      && OPTIONS_OFFSET < |buf| && ReplyHeader(mac, buf)
      && exists list, rest ::
           buf[OPTIONS_OFFSET..] == EncodedTo(list) + rest && TypeList(list, messageType)
  {
    if OPTIONS_OFFSET < |buf| {
      var options := buf[OPTIONS_OFFSET..];
      if UnpackDhcp(mac, buf) == (if messageType == 5 then Ack else Nak) {
        var list, rest := ParsedIsEncoded(options, NO_OPTIONS);
        TypeDecides(options, list, rest, messageType);
        assert options == EncodedTo(list) + rest;
      }
      forall list, rest | options == EncodedTo(list) + rest && TypeList(list, messageType)
        ensures Parse(options, NO_OPTIONS).Some?
          && Parse(options, NO_OPTIONS).value.messageType == Some(messageType)
      {
        TypeDecides(options, list, rest, messageType);
      }
    }
  }
}
