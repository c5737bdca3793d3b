/**
 The DHCP client's state machine (section 4.4 of RFC 2131). One step is one round of the poll loop:
 the environment chooses the bytes received, which armed timers expired and how the socket calls
 fare. Timer calls with a valid argument succeed.
 */
module DhcpSpec {
  import opened Inet
  import opened DhcpOptions
  import opened DhcpPacket
  import opened Wrappers

  datatype Phase = Init | Selecting | Requesting | Bound | Renewing

  datatype TimerId = InitTimer | ResponseTimer | RenewalTimer | RebindingTimer

  /** What the client did and learned, for stating properties of whole runs. */
  datatype Action =
    | Offered(offer: Offer)
    | Discovered
    | Requested(address: nat)
    | Configured(address: nat, subnetMask: nat, gateway: nat)
    | Reset

  /**
   The lease fields are meaningless until a first OFFER; `lease` is a signed 32-bit integer. `armed` maps
   each armed timer to the seconds it was set to.
   */
  datatype Client = Client(
    phase: Phase,
    address: nat,
    server: nat,
    subnetMask: nat,
    gateway: nat,
    dns: nat,
    lease: int,
    renewal: int,
    rebinding: int,
    packetSocket: bool,
    armed: map<TimerId, int>,
    trace: seq<Action>)

  /** `received` is what a read of the socket returned; the results are those of the socket calls. */
  datatype Env = Env(
    received: Option<seq<Byte>>,
    expired: set<TimerId>,
    sendOk: bool,
    udpSocketOk: bool,
    packetSocketOk: bool)

  /** Conversion of a 32-bit option value to the signed field it is stored in. */
  function ToInt32(v: nat): int {
    if v % UINT32 < 0x8000_0000 then v % UINT32 else v % UINT32 - UINT32
  }

  /** Division of C: the quotient is rounded toward zero. */
  function Half(v: int): int {
    if v >= 0 then v / 2 else -(-v / 2)
  }

  /** Setting a timer to zero disarms it; a negative time is refused and changes nothing. */
  function SetTimer(armed: map<TimerId, int>, t: TimerId, seconds: int): map<TimerId, int> {
    if seconds > 0 then armed[t := seconds] else if seconds == 0 then armed - {t} else armed
  }

  function AcceptOffer(c: Client, o: Offer): Client {
    var lease := ToInt32(o.time);
    c.(address := o.address, server := o.server, subnetMask := o.subnetMask, gateway := o.gateway,
       dns := o.dns, lease := lease, renewal := Half(lease), rebinding := Half(lease) + 10,
       trace := c.trace + [Offered(o)])
  }

  function EnterInit(c: Client, env: Env): Client {
    c.(phase := Init,
       armed := SetTimer(c.armed - {ResponseTimer, RebindingTimer}, InitTimer, 10),
       packetSocket := env.packetSocketOk || c.packetSocket,
       trace := c.trace + [Reset])
  }

  function Configure(c: Client): Client {
    var armed := SetTimer(SetTimer(c.armed - {ResponseTimer}, RenewalTimer, c.renewal),
                          RebindingTimer, c.rebinding);
    c.(phase := Bound, armed := armed,
       trace := c.trace + [Configured(c.address, c.subnetMask, c.gateway)])
  }

  function EnterBound(c: Client, env: Env): Client {
    if env.udpSocketOk then Configure(c).(packetSocket := false) else EnterInit(Configure(c), env)
  }

  /** A REQUEST that was sent completely arms the response timer; otherwise the client starts over. */
  function SendRequest(c: Client, env: Env, next: Phase): Client {
    if env.sendOk then
      c.(phase := next, armed := SetTimer(c.armed, ResponseTimer, 5), trace := c.trace + [Requested(c.address)])
    else EnterInit(c, env)
  }

  function Discover(c: Client, env: Env): Client {
    if env.sendOk then
      c.(phase := Selecting, armed := SetTimer(c.armed, ResponseTimer, 5), trace := c.trace + [Discovered])
    else c.(armed := SetTimer(c.armed, InitTimer, 10))
  }

  function ProcessEvents(c: Client, p: Packet, env: Env): Client {
    match c.phase
    case Init =>
      if InitTimer in env.expired then Discover(c, env) else c
    case Selecting =>
      if p.OfferPacket? then SendRequest(c, env, Requesting)
      else if ResponseTimer in env.expired then EnterInit(c, env)
      else c
    case Requesting =>
      if p.Ack? then EnterBound(c, env)
      else if p.Nak? || ResponseTimer in env.expired then EnterInit(c, env)
      else c
    case Bound =>
      if RenewalTimer in env.expired then SendRequest(c, env, Renewing) else c
    case Renewing =>
      if p.Ack? then EnterBound(c, env)
      else if p.Nak? || ResponseTimer in env.expired || RebindingTimer in env.expired then
        EnterInit(c, env)
      else c
  }

  function Received(c: Client, mac: seq<Byte>, env: Env): Packet
    requires |mac| == 6
  {
    if env.received.None? then Nothing else UnpackPacket(c.packetSocket, mac, env.received.value)
  }

  /** Packets are parsed in every phase; an expired timer is read, which disarms it. */
  function UpdateEvents(c: Client, p: Packet, env: Env): Client {
    var c' := if p.OfferPacket? then AcceptOffer(c, p.offer) else c;
    c'.(armed := c'.armed - env.expired)
  }

  function Round(c: Client, mac: seq<Byte>, env: Env): Client
    requires |mac| == 6
  {
    var p := Received(c, mac, env);
    ProcessEvents(UpdateEvents(c, p, env), p, env)
  }

  /** Only an armed timer expires. */
  predicate Possible(c: Client, env: Env) {
    env.expired <= c.armed.Keys
  }

  /** Started: in INIT with the init timer about to expire. The lease fields are arbitrary. */
  predicate Started(c: Client) {
    c.phase == Init && c.armed == map[InitTimer := 0] && c.packetSocket && c.trace == []
  }

  predicate Runs(c: Client, mac: seq<Byte>, envs: seq<Env>)
    requires |mac| == 6
    decreases |envs|
  {
    envs == [] || (Possible(c, envs[0]) && Runs(Round(c, mac, envs[0]), mac, envs[1..]))
  }

  function RunOf(c: Client, mac: seq<Byte>, envs: seq<Env>): Client
    requires |mac| == 6
    decreases |envs|
  {
    if envs == [] then c else RunOf(Round(c, mac, envs[0]), mac, envs[1..])
  }

  // ---------------------------------------------------------------- lease times

  /** The lease times with which a bound client wakes up again. */
  predicate Usable(time: nat) {
    2 <= time < 0x8000_0000
  }

  /** The renewal comes at half of a usable lease time, rounded down. */
  lemma RenewalIsHalf(time: nat)
    requires Usable(time)
    ensures 2 * Half(ToInt32(time)) <= time < 2 * Half(ToInt32(time)) + 2
  {
  }

  lemma RenewalPositiveExactly(time: nat)
    requires 1 <= time < UINT32
    ensures Half(ToInt32(time)) > 0 <==> Usable(time)
  {
  }

  // ---------------------------------------------------------------- what a trace says

  /**
   What is remembered of a trace: the last OFFER, whether one came since the last reset, the
   address in the last REQUEST since the last reset, whether an OFFER came after it, and whether the
   interface was configured since the last reset.
   */
  datatype Summary = Summary(
    last: Option<Offer>, current: bool, requested: Option<nat>, newer: bool, configured: bool)

  function Note(s: Summary, a: Action): Summary {
    match a
    case Offered(offer) => s.(last := Some(offer), current := true, newer := true)
    case Requested(address) => s.(requested := Some(address), newer := false)
    case Reset => s.(current := false, requested := None, configured := false)
    case Discovered => s
    case Configured(_, _, _) => s.(configured := true)
  }

  function Summarize(trace: seq<Action>): Summary {
    if trace == [] then Summary(None, false, None, false, false)
    else Note(Summarize(trace[..|trace| - 1]), trace[|trace| - 1])
  }

  lemma SummarizeOneMore(trace: seq<Action>, a: Action)
    ensures Summarize(trace + [a]) == Note(Summarize(trace), a)
  {
    assert (trace + [a])[..|trace|] == trace;
  }

  /** All lease fields come from one and the same OFFER. */
  predicate Holds(c: Client, o: Offer) {
    && c.address == o.address && c.server == o.server && c.subnetMask == o.subnetMask
    && c.gateway == o.gateway && c.dns == o.dns && c.lease == ToInt32(o.time)
    && c.renewal == Half(ToInt32(o.time)) && c.rebinding == Half(ToInt32(o.time)) + 10
  }

  predicate Provenance(c: Client) {
    var s := Summarize(c.trace);
    && (s.last.Some? ==> Holds(c, s.last.value) && 1 <= s.last.value.time < UINT32)
    && (s.current ==> s.last.Some?)
    && (s.configured <==> c.phase in {Bound, Renewing})
    && (c.phase in {Requesting, Bound, Renewing} ==>
          s.current && s.requested.Some? && (!s.newer ==> s.requested.value == c.address))
  }

  /**
   A configured interface has the address, mask and router of the last OFFER, which came since the
   last reset, and so did a REQUEST; unless a newer OFFER replaced it, its address is configured.
   */
  predicate Justified(before: seq<Action>, a: Action)
    requires a.Configured?
  {
    var s := Summarize(before);
    && s.current && s.last.Some? && s.requested.Some?
    && a == Configured(s.last.value.address, s.last.value.subnetMask, s.last.value.gateway)
    && (!s.newer ==> a.address == s.requested.value)
  }

  predicate AllJustified(trace: seq<Action>) {
    forall k {:trigger Justified(trace[..k], trace[k])} ::
      0 <= k < |trace| && trace[k].Configured? ==> Justified(trace[..k], trace[k])
  }

  lemma JustifiedOneMore(trace: seq<Action>, a: Action)
    requires AllJustified(trace) && (a.Configured? ==> Justified(trace, a))
    ensures AllJustified(trace + [a])
  {
    forall k | 0 <= k < |trace + [a]| && (trace + [a])[k].Configured?
      ensures Justified((trace + [a])[..k], (trace + [a])[k])
    {
      assert (trace + [a])[..k] == trace[..k];
      assert trace[..|trace|] == trace;
      assert k < |trace| ==> Justified(trace[..k], trace[k]);
    }
  }

  predicate Inv(c: Client) {
    Provenance(c) && AllJustified(c.trace)
  }

  lemma ResetKeeps(c: Client, env: Env)
    requires Inv(c)
    ensures Inv(EnterInit(c, env))
  {
    SummarizeOneMore(c.trace, Reset);
    JustifiedOneMore(c.trace, Reset);
  }

  lemma OfferKeeps(c: Client, o: Offer)
    requires Inv(c) && 1 <= o.time < UINT32
    ensures Inv(AcceptOffer(c, o)) && Summarize(AcceptOffer(c, o).trace).current
  {
    SummarizeOneMore(c.trace, Offered(o));
    JustifiedOneMore(c.trace, Offered(o));
  }

  lemma BoundKeeps(c: Client, env: Env)
    requires Inv(c) && c.phase in {Requesting, Renewing}
    ensures Inv(EnterBound(c, env))
  {
    ConfiguredKeeps(c);
    if !env.udpSocketOk {
      ResetKeeps(Configure(c), env);
    }
  }

  lemma ConfiguredKeeps(c: Client)
    requires Inv(c) && c.phase in {Requesting, Renewing}
    ensures Inv(Configure(c)) && Inv(Configure(c).(packetSocket := false))
  {
    var a := Configured(c.address, c.subnetMask, c.gateway);
    SummarizeOneMore(c.trace, a);
    JustifiedOneMore(c.trace, a);
  }

  lemma RequestKeeps(c: Client, env: Env, next: Phase)
    requires Inv(c) && Summarize(c.trace).current
    requires if next == Renewing then c.phase == Bound else c.phase == Selecting && next == Requesting
    ensures Inv(SendRequest(c, env, next))
  {
    var a := Requested(c.address);
    SummarizeOneMore(c.trace, a);
    JustifiedOneMore(c.trace, a);
    ResetKeeps(c, env);
  }

  lemma DiscoverKeeps(c: Client, env: Env)
    requires Inv(c) && c.phase == Init
    ensures Inv(Discover(c, env))
  {
    if env.sendOk {
      SummarizeOneMore(c.trace, Discovered);
      JustifiedOneMore(c.trace, Discovered);
    } else {
      TimersKeep(c, SetTimer(c.armed, InitTimer, 10));
    }
  }

  lemma TimersKeep(c: Client, armed: map<TimerId, int>)
    requires Inv(c)
    ensures Inv(c.(armed := armed))
  {
  }

  lemma ProcessKeeps(c: Client, p: Packet, env: Env)
    requires Inv(c) && (p.OfferPacket? ==> Summarize(c.trace).current)
    ensures Inv(ProcessEvents(c, p, env))
  {
    ResetKeeps(c, env);
    match c.phase
    case Init => DiscoverKeeps(c, env);
    case Selecting =>
      if p.OfferPacket? {
        RequestKeeps(c, env, Requesting);
      }
    case Requesting => BoundKeeps(c, env);
    case Bound => RequestKeeps(c, env, Renewing);
    case Renewing => BoundKeeps(c, env);
  }

  lemma UpdateKeeps(c: Client, mac: seq<Byte>, env: Env)
    requires |mac| == 6 && Inv(c)
    ensures var p := Received(c, mac, env); var c' := UpdateEvents(c, p, env);
      Inv(c') && (p.OfferPacket? ==> Summarize(c'.trace).current)
  {
    var p := Received(c, mac, env);
    if p.OfferPacket? {
      OfferBounds(c.packetSocket, mac, env.received.value);
      OfferKeeps(c, p.offer);
    }
  }

  lemma RoundKeeps(c: Client, mac: seq<Byte>, env: Env)
    requires |mac| == 6 && Inv(c)
    ensures Inv(Round(c, mac, env))
  {
    var p := Received(c, mac, env);
    UpdateKeeps(c, mac, env);
    ProcessKeeps(UpdateEvents(c, p, env), p, env);
  }

  lemma {:induction false} RunKeeps(c: Client, mac: seq<Byte>, envs: seq<Env>)
    requires |mac| == 6 && Inv(c)
    ensures Inv(RunOf(c, mac, envs))
    decreases |envs|
  {
    if envs != [] {
      RoundKeeps(c, mac, envs[0]);
      RunKeeps(Round(c, mac, envs[0]), mac, envs[1..]);
    }
  }

  /**
   Lease provenance over every run: from the first OFFER on, all lease fields are those of the last
   complete OFFER, and whenever the interface was configured, an OFFER since the last reset and a
   REQUEST justified it.
   */
  lemma LeaseProvenance(c: Client, mac: seq<Byte>, envs: seq<Env>)
    requires |mac| == 6 && Started(c)
    ensures var r := RunOf(c, mac, envs);
      && (Summarize(r.trace).last.Some? ==> Holds(r, Summarize(r.trace).last.value))
      && AllJustified(r.trace)
  {
    RunKeeps(c, mac, envs);
  }

  /**
   The configured address is the one requested since the last reset exactly when no OFFER came after
   that REQUEST or the last one that did carries the same address.
   */
  lemma ConfiguredAsRequestedExactly(c: Client, mac: seq<Byte>, envs: seq<Env>, k: nat)
    requires |mac| == 6 && Started(c)
    requires k < |RunOf(c, mac, envs).trace| && RunOf(c, mac, envs).trace[k].Configured?
    ensures var t := RunOf(c, mac, envs).trace; var s := Summarize(t[..k]);
      && s.requested.Some? && s.last.Some?
      && (t[k].address == s.requested.value
          <==> !s.newer || s.last.value.address == s.requested.value)
  {
    RunKeeps(c, mac, envs);
    var t := RunOf(c, mac, envs).trace;
    assert Justified(t[..k], t[k]);
  }

  // ---------------------------------------------------------------- concrete rounds

  /** All socket calls succeed and one timer expires. */
  function Expire(t: TimerId): Env {
    Env(None, {t}, true, true, true)
  }

  /** A packet is received; `udpSocketOk` tells whether a UDP socket can be had. */
  function Receive(packet: seq<Byte>, udpSocketOk: bool): Env {
    Env(Some(packet), {}, true, udpSocketOk, true)
  }

  function OfferEnv(mac: seq<Byte>, o: Offer): Env
    requires |mac| == 6 && Sendable(o)
  {
    Receive(ServerPacket(mac, o.address, OfferOptions(o)), true)
  }

  function AckEnv(mac: seq<Byte>, udpSocketOk: bool): Env
    requires |mac| == 6
  {
    Receive(ServerPacket(mac, 0, [Tlv(MESSAGE_TYPE, [5])]), udpSocketOk)
  }

  lemma RoundsReceive(c: Client, mac: seq<Byte>, o: Offer, udpSocketOk: bool)
    requires |mac| == 6 && c.packetSocket && Sendable(o)
    ensures Received(c, mac, OfferEnv(mac, o)) == OfferPacket(o)
    ensures Received(c, mac, AckEnv(mac, udpSocketOk)) == Ack
  {
    OfferIsReceived(mac, o);
    AckIsReceived(mac);
  }

  lemma OneMoreRound(c: Client, mac: seq<Byte>, env: Env, rest: seq<Env>)
    requires |mac| == 6
    ensures RunOf(c, mac, [env] + rest) == RunOf(Round(c, mac, env), mac, rest)
    ensures Runs(c, mac, [env] + rest) <==> Possible(c, env) && Runs(Round(c, mac, env), mac, rest)
  {
    assert ([env] + rest)[1..] == rest;
  }

  lemma DiscoverRound(c: Client, mac: seq<Byte>)
    requires |mac| == 6 && c.phase == Init
    ensures Round(c, mac, Expire(InitTimer))
      == c.(phase := Selecting, armed := (c.armed - {InitTimer})[ResponseTimer := 5],
            trace := c.trace + [Discovered])
  {
  }

  lemma OfferRound(c: Client, mac: seq<Byte>, o: Offer, e: Env)
    requires |mac| == 6 && c.phase == Selecting && c.packetSocket
    requires Received(c, mac, e) == OfferPacket(o) && e.expired == {} && e.sendOk
    ensures var r := Round(c, mac, e);
      && r.phase == Requesting && r.packetSocket && Holds(r, o) && r.armed == c.armed[ResponseTimer := 5]
      && r.trace == c.trace + [Offered(o)] + [Requested(o.address)]
  {
  }

  /** From INIT with its timer armed to REQUESTING with the lease of an OFFER. */
  lemma RequestRounds(c: Client, mac: seq<Byte>, o: Offer, e: Env, rest: seq<Env>) returns (r: Client)
    requires |mac| == 6 && c.phase == Init && InitTimer in c.armed && c.packetSocket
    requires Received(c, mac, e) == OfferPacket(o) && e.expired == {} && e.sendOk
    ensures r.phase == Requesting && r.packetSocket && Holds(r, o)
    ensures r.armed == (c.armed - {InitTimer})[ResponseTimer := 5]
    ensures r.trace == c.trace + [Discovered, Offered(o), Requested(o.address)]
    ensures RunOf(c, mac, [Expire(InitTimer)] + ([e] + rest)) == RunOf(r, mac, rest)
    ensures Runs(c, mac, [Expire(InitTimer)] + ([e] + rest)) <==> Runs(r, mac, rest)
  {
    var s := Round(c, mac, Expire(InitTimer));
    DiscoverRound(c, mac);
    OfferRound(s, mac, o, e);
    r := Round(s, mac, e);
    OneMoreRound(c, mac, Expire(InitTimer), [e] + rest);
    OneMoreRound(s, mac, e, rest);
  }

  lemma AckKeepsLease(r: Client, mac: seq<Byte>, e: Env, o: Offer)
    requires |mac| == 6 && Received(r, mac, e) == Ack && Holds(r, o)
    ensures Holds(Round(r, mac, e), o)
  {
  }

  lemma Acknowledged(r: Client, mac: seq<Byte>, o: Offer) returns (s: Client)
    requires |mac| == 6 && r.phase == Requesting && r.packetSocket && Holds(r, o) && Sendable(o)
    ensures Runs(r, mac, [AckEnv(mac, true)] + []) && RunOf(r, mac, [AckEnv(mac, true)] + []) == s
    ensures s.phase == Bound && Holds(s, o)
    ensures s.trace == r.trace + [Configured(o.address, o.subnetMask, o.gateway)]
  {
    var e := AckEnv(mac, true);
    RoundsReceive(r, mac, o, true);
    AckRound(r, mac, e);
    AckKeepsLease(r, mac, e, o);
    OneMoreRound(r, mac, e, []);
    s := Round(r, mac, e);
  }

  /** The four packets of a whole transaction configure exactly the lease that was offered. */
  lemma TransactionConfigures(c: Client, mac: seq<Byte>, o: Offer) returns (s: Client)
    requires |mac| == 6 && Started(c) && Sendable(o)
    ensures var envs := [Expire(InitTimer)] + ([OfferEnv(mac, o)] + ([AckEnv(mac, true)] + []));
      Runs(c, mac, envs) && RunOf(c, mac, envs) == s
    ensures s.phase == Bound && Holds(s, o)
    ensures s.trace == c.trace + [Discovered, Offered(o), Requested(o.address)]
      + [Configured(o.address, o.subnetMask, o.gateway)]
  {
    RoundsReceive(c, mac, o, true);
    var r := RequestRounds(c, mac, o, OfferEnv(mac, o), [AckEnv(mac, true)] + []);
    s := Acknowledged(r, mac, o);
  }

  lemma SecondOfferRuns(c: Client, mac: seq<Byte>, a: Offer, b: Offer) returns (envs: seq<Env>, s: Client)
    requires |mac| == 6 && Started(c) && Sendable(a) && Sendable(b)
    ensures Runs(c, mac, envs) && RunOf(c, mac, envs) == s && s.phase == Bound
    ensures s.trace == c.trace + [Discovered, Offered(a), Requested(a.address)] + [Offered(b)]
      + [Configured(b.address, b.subnetMask, b.gateway)]
  {
    var rest := [OfferEnv(mac, b)] + ([AckEnv(mac, true)] + []);
    envs := [Expire(InitTimer)] + ([OfferEnv(mac, a)] + rest);
    RoundsReceive(c, mac, a, true);
    var r := RequestRounds(c, mac, a, OfferEnv(mac, a), rest);
    s := ReplacedAndBound(r, mac, b);
  }

  /**
   The address requested is not always the one configured: OFFERs are parsed in every phase, and one
   that comes between the REQUEST and the ACK replaces the record.
   */
  lemma SecondOfferIsConfigured(c: Client, mac: seq<Byte>, a: Offer, b: Offer) returns (envs: seq<Env>)
    requires |mac| == 6 && Started(c) && Sendable(a) && Sendable(b)
    ensures Runs(c, mac, envs)
    ensures RunOf(c, mac, envs).phase == Bound
    ensures RunOf(c, mac, envs).trace
      == [Discovered, Offered(a), Requested(a.address), Offered(b),
          Configured(b.address, b.subnetMask, b.gateway)]
  {
    var s;
    envs, s := SecondOfferRuns(c, mac, a, b);
    assert s.trace == [Discovered, Offered(a), Requested(a.address)] + [Offered(b)]
      + [Configured(b.address, b.subnetMask, b.gateway)];
  }

  lemma OfferWhileRequesting(r: Client, mac: seq<Byte>, b: Offer, e: Env)
    requires |mac| == 6 && r.phase == Requesting && Received(r, mac, e) == OfferPacket(b) && e.expired == {}
    ensures Round(r, mac, e) == AcceptOffer(r, b)
  {
  }

  lemma TwoRounds(c: Client, mac: seq<Byte>, e: Env, m: Client, f: Env)
    requires |mac| == 6 && Possible(c, e) && Round(c, mac, e) == m && Possible(m, f)
    ensures Runs(c, mac, [e] + ([f] + [])) && RunOf(c, mac, [e] + ([f] + [])) == Round(m, mac, f)
  {
    OneMoreRound(c, mac, e, [f] + []);
    OneMoreRound(m, mac, f, []);
  }

  /** In REQUESTING: another OFFER, then the ACK. */
  lemma ReplacedAndBound(r: Client, mac: seq<Byte>, b: Offer) returns (s: Client)
    requires |mac| == 6 && r.phase == Requesting && r.packetSocket && Sendable(b)
    ensures var rest := [OfferEnv(mac, b)] + ([AckEnv(mac, true)] + []);
      Runs(r, mac, rest) && RunOf(r, mac, rest) == s
    ensures s.phase == Bound
    ensures s.trace == r.trace + [Offered(b)] + [Configured(b.address, b.subnetMask, b.gateway)]
  {
    var m := AcceptOffer(r, b);
    RoundsReceive(r, mac, b, true);
    RoundsReceive(m, mac, b, true);
    OfferWhileRequesting(r, mac, b, OfferEnv(mac, b));
    AckRound(m, mac, AckEnv(mac, true));
    TwoRounds(r, mac, OfferEnv(mac, b), m, AckEnv(mac, true));
    s := Round(m, mac, AckEnv(mac, true));
  }

  /**
   Over every run: the interface has been configured since the last reset exactly while the client is in
   BOUND or RENEWING.
   */
  lemma ConfiguredExactlyWhileBound(c: Client, mac: seq<Byte>, envs: seq<Env>)
    requires |mac| == 6 && Started(c)
    ensures var r := RunOf(c, mac, envs);
      Summarize(r.trace).configured <==> r.phase in {Bound, Renewing}
  {
    RunKeeps(c, mac, envs);
  }

  /** BOUND is entered only on an ACK in REQUESTING or RENEWING, by configuring the interface. */
  lemma BoundOnlyOnAck(c: Client, mac: seq<Byte>, env: Env)
    requires |mac| == 6 && c.phase != Bound && Round(c, mac, env).phase == Bound
    ensures c.phase in {Requesting, Renewing} && Received(c, mac, env) == Ack
    ensures Round(c, mac, env).trace == c.trace + [Configured(c.address, c.subnetMask, c.gateway)]
  {
  }

  /** The client waits for a packet that this round did not bring. */
  predicate Disappointed(c: Client, p: Packet) {
    (c.phase == Selecting && !p.OfferPacket?) || (c.phase in {Requesting, Renewing} && !p.Ack?)
  }

  /**
   A round starts the client over, and only then, when a REQUEST could not be sent, when no UDP socket
   could be had on an ACK, on a NAK to a REQUEST, or when the response timer, or in RENEWING the
   rebinding timer, expired without the packet waited for.
   */
  lemma StartsOverExactly(c: Client, mac: seq<Byte>, env: Env)
    requires |mac| == 6
    ensures var p := Received(c, mac, env); var r := Round(c, mac, env);
      r.trace != [] && r.trace[|r.trace| - 1] == Reset && |r.trace| > |c.trace| <==>
      || (c.phase == Selecting && p.OfferPacket? && !env.sendOk)
      || (c.phase == Bound && RenewalTimer in env.expired && !env.sendOk)
      || (c.phase in {Requesting, Renewing} && p.Ack? && !env.udpSocketOk)
      || (c.phase in {Requesting, Renewing} && p.Nak?)
      || (Disappointed(c, p) && ResponseTimer in env.expired)
      || (Disappointed(c, p) && c.phase == Renewing && RebindingTimer in env.expired)
    ensures Round(c, mac, env).phase == Init && c.phase != Init ==>
      Round(c, mac, env).trace[|Round(c, mac, env).trace| - 1] == Reset
  {
    RoundExtends(c, mac, env);
  }

  // ---------------------------------------------------------------- never stuck

  /** The timer that gets the client out of its phase when no packet comes. */
  function Awaited(phase: Phase): TimerId {
    match phase
    case Init => InitTimer
    case Selecting => ResponseTimer
    case Requesting => ResponseTimer
    case Bound => RenewalTimer
    case Renewing => ResponseTimer
  }

  predicate Waiting(c: Client) {
    Awaited(c.phase) in c.armed
  }

  predicate OffersUsable(trace: seq<Action>) {
    forall i :: 0 <= i < |trace| && trace[i].Offered? ==> Usable(trace[i].offer.time)
  }

  lemma {:induction false} LastIsInTrace(trace: seq<Action>)
    ensures Summarize(trace).last.Some? ==> Offered(Summarize(trace).last.value) in trace
  {
    if trace != [] {
      LastIsInTrace(trace[..|trace| - 1]);
    }
  }

  lemma RenewalIsPositive(c: Client)
    requires Inv(c) && c.phase in {Requesting, Renewing} && OffersUsable(c.trace)
    ensures c.renewal > 0
  {
    LastIsInTrace(c.trace);
    RenewalPositiveExactly(Summarize(c.trace).last.value.time);
  }

  lemma RoundExtends(c: Client, mac: seq<Byte>, env: Env)
    requires |mac| == 6
    ensures var p := Received(c, mac, env);
      c.trace <= UpdateEvents(c, p, env).trace <= Round(c, mac, env).trace
  {
  }

  /** Whatever happens in a round, the phase it ends in has its timer armed. */
  lemma ProcessWaits(c: Client, p: Packet, env: Env)
    requires Awaited(c.phase) in c.armed.Keys + env.expired
    requires c.phase in {Requesting, Renewing} ==> c.renewal > 0
    ensures Waiting(ProcessEvents(c, p, env))
  {
  }

  lemma RoundWaits(c: Client, mac: seq<Byte>, env: Env)
    requires |mac| == 6 && Inv(c) && Waiting(c) && Possible(c, env)
    requires OffersUsable(Round(c, mac, env).trace)
    ensures Waiting(Round(c, mac, env))
  {
    var p := Received(c, mac, env);
    var c' := UpdateEvents(c, p, env);
    RoundExtends(c, mac, env);
    assert forall i :: 0 <= i < |c'.trace| ==> c'.trace[i] == Round(c, mac, env).trace[i];
    UpdateKeeps(c, mac, env);
    if c'.phase in {Requesting, Renewing} {
      RenewalIsPositive(c');
    }
    ProcessWaits(c', p, env);
  }

  lemma {:induction false} RunExtends(c: Client, mac: seq<Byte>, envs: seq<Env>)
    requires |mac| == 6
    ensures c.trace <= RunOf(c, mac, envs).trace
    decreases |envs|
  {
    if envs != [] {
      RoundExtends(c, mac, envs[0]);
      RunExtends(Round(c, mac, envs[0]), mac, envs[1..]);
    }
  }

  lemma {:induction false} RunWaits(c: Client, mac: seq<Byte>, envs: seq<Env>)
    requires |mac| == 6 && Inv(c) && Waiting(c) && Runs(c, mac, envs)
    requires OffersUsable(RunOf(c, mac, envs).trace)
    ensures Waiting(RunOf(c, mac, envs))
    decreases |envs|
  {
    if envs != [] {
      var c' := Round(c, mac, envs[0]);
      RunExtends(c', mac, envs[1..]);
      assert forall i :: 0 <= i < |c'.trace| ==> c'.trace[i] == RunOf(c, mac, envs).trace[i];
      RoundWaits(c, mac, envs[0]);
      RoundKeeps(c, mac, envs[0]);
      RunWaits(c', mac, envs[1..]);
    }
  }

  /**
   In every run in which all OFFERs have a usable lease time, whatever packets arrive and however
   the socket calls fare, the client has armed the timer it waits on.
   */
  lemma NeverStuck(c: Client, mac: seq<Byte>, envs: seq<Env>)
    requires |mac| == 6 && Started(c) && Runs(c, mac, envs)
    requires OffersUsable(RunOf(c, mac, envs).trace)
    ensures Waiting(RunOf(c, mac, envs))
  {
    RunWaits(c, mac, envs);
  }

  // ---------------------------------------------------------------- the next DISCOVER

  /** No packet comes and the awaited timer expires. */
  predicate Quiet(c: Client, env: Env) {
    env.received.None? && env.expired == {Awaited(c.phase)}
  }

  predicate QuietRun(c: Client, mac: seq<Byte>, envs: seq<Env>)
    requires |mac| == 6
    decreases |envs|
  {
    envs == [] || (Quiet(c, envs[0]) && QuietRun(Round(c, mac, envs[0]), mac, envs[1..]))
  }

  /** Quiet rounds until a DISCOVER is sent, if that does not fail. */
  function Distance(phase: Phase): nat {
    match phase
    case Init => 1
    case Bound => 3
    case _ => 2
  }

  lemma QuietStep(c: Client, mac: seq<Byte>, env: Env)
    requires |mac| == 6 && Waiting(c) && Quiet(c, env)
    ensures Waiting(Round(c, mac, env))
    ensures c.phase == Init && env.sendOk ==>
      Round(c, mac, env).trace == c.trace + [Discovered] && Round(c, mac, env).phase == Selecting
    ensures c.phase == Init && !env.sendOk ==> Round(c, mac, env).phase == Init
    ensures c.phase != Init ==> Distance(Round(c, mac, env).phase) < Distance(c.phase)
  {
  }

  /** The last round of a run sent a DISCOVER. */
  predicate Discovers(c: Client, mac: seq<Byte>, envs: seq<Env>)
    requires |mac| == 6
  {
    var r := RunOf(c, mac, envs);
    r.phase == Selecting && r.trace != [] && r.trace[|r.trace| - 1] == Discovered
  }

  /**
   Without packets the client gets to INIT after at most one expiry of an awaited timer, from BOUND two,
   and the first time sending works from then on a DISCOVER goes out; every one of the expiries
   is possible.
   */
  lemma {:induction false} QuietLeadsToDiscover(c: Client, mac: seq<Byte>, envs: seq<Env>)
    returns (n: nat)
    requires |mac| == 6 && Waiting(c) && QuietRun(c, mac, envs)
    requires Distance(c.phase) <= |envs| && envs[|envs| - 1].sendOk
    ensures 1 <= n <= |envs| && Runs(c, mac, envs[..n]) && Discovers(c, mac, envs[..n])
    ensures forall i :: Distance(c.phase) - 1 <= i < n - 1 ==> !envs[i].sendOk
    decreases |envs|
  {
    QuietStep(c, mac, envs[0]);
    var c' := Round(c, mac, envs[0]);
    if c.phase == Init && envs[0].sendOk {
      n := 1;
      assert envs[..1][1..] == [];
      assert RunOf(c, mac, envs[..1]) == RunOf(c', mac, []);
    } else {
      var k := QuietLeadsToDiscover(c', mac, envs[1..]);
      n := k + 1;
      assert envs[..n][1..] == envs[1..][..k];
      assert forall i :: 1 <= i < n - 1 ==> envs[i] == envs[1..][i - 1];
    }
  }

  // ---------------------------------------------------------------- the exact boundary

  /** A bound client whose renewal timer is not armed never leaves BOUND nor sends anything again. */
  lemma {:induction false} BoundForever(c: Client, mac: seq<Byte>, envs: seq<Env>)
    requires |mac| == 6 && c.phase == Bound && RenewalTimer !in c.armed && Runs(c, mac, envs)
    ensures var r := RunOf(c, mac, envs);
      && r.phase == Bound && c.trace <= r.trace
      && forall i :: |c.trace| <= i < |r.trace| ==> r.trace[i].Offered?
    decreases |envs|
  {
    if envs != [] {
      var c' := Round(c, mac, envs[0]);
      RoundExtends(c, mac, envs[0]);
      BoundForever(c', mac, envs[1..]);
      assert forall i :: |c.trace| <= i < |c'.trace| ==> RunOf(c, mac, envs).trace[i] == c'.trace[i];
    }
  }

  /** The lease times whose renewal interval, as a signed number, is negative. */
  predicate Refused(time: nat) {
    0x8000_0000 <= time < UINT32 - 1
  }

  lemma RenewalNegativeExactly(time: nat)
    requires 1 <= time < UINT32
    ensures Half(ToInt32(time)) < 0 <==> Refused(time)
  {
  }

  /**
   The exact boundary, in every run. On an ACK that takes the client to BOUND it will wake up again if
   and only if the lease time of the last OFFER is 2 to 2^31 - 1 seconds, or its renewal interval is
   negative, so that setting the renewal timer is refused, and that timer was still armed from
   before. Otherwise nothing ever gets it out of BOUND.
   */
  lemma WakesExactly(c: Client, mac: seq<Byte>, envs: seq<Env>, env: Env, later: seq<Env>)
    requires |mac| == 6 && Started(c) && Runs(c, mac, envs)
    requires var r := RunOf(c, mac, envs);
      r.phase in {Requesting, Renewing} && Received(r, mac, env) == Ack
    requires Possible(RunOf(c, mac, envs), env) && env.udpSocketOk
    requires Runs(Round(RunOf(c, mac, envs), mac, env), mac, later)
    ensures var r := RunOf(c, mac, envs); var b := Round(r, mac, env);
      && b.phase == Bound && Summarize(r.trace).last.Some?
      && (Waiting(b) <==> var time := Summarize(r.trace).last.value.time;
            Usable(time) || (Refused(time) && RenewalTimer in r.armed - env.expired))
      && (!Waiting(b) ==> RunOf(b, mac, later).phase == Bound)
  {
    var r := RunOf(c, mac, envs);
    var b := Round(r, mac, env);
    RunKeeps(c, mac, envs);
    var time := Summarize(r.trace).last.value.time;
    RenewalPositiveExactly(time);
    RenewalNegativeExactly(time);
    if RenewalTimer !in b.armed {
      BoundForever(b, mac, later);
    }
  }

  /** Outside BOUND no renewal is pending, as long as the UDP socket can be set up. */
  predicate NoStrayRenewal(c: Client) {
    RenewalTimer in c.armed ==> c.phase == Bound
  }

  lemma RoundNoStray(c: Client, mac: seq<Byte>, env: Env)
    requires |mac| == 6 && NoStrayRenewal(c) && Possible(c, env) && env.udpSocketOk
    ensures NoStrayRenewal(Round(c, mac, env))
  {
  }

  lemma {:induction false} RunNoStray(c: Client, mac: seq<Byte>, envs: seq<Env>)
    requires |mac| == 6 && NoStrayRenewal(c) && Runs(c, mac, envs)
    requires forall i :: 0 <= i < |envs| ==> envs[i].udpSocketOk
    ensures NoStrayRenewal(RunOf(c, mac, envs))
    decreases |envs|
  {
    if envs != [] {
      RoundNoStray(c, mac, envs[0]);
      RunNoStray(Round(c, mac, envs[0]), mac, envs[1..]);
    }
  }

  /** Where no UDP socket ever fails, the lease time alone decides. */
  lemma WakesExactlyOnUsableLease(c: Client, mac: seq<Byte>, envs: seq<Env>, env: Env)
    requires |mac| == 6 && Started(c) && Runs(c, mac, envs)
    requires forall i :: 0 <= i < |envs| ==> envs[i].udpSocketOk
    requires var r := RunOf(c, mac, envs);
      r.phase in {Requesting, Renewing} && Received(r, mac, env) == Ack
    requires Possible(RunOf(c, mac, envs), env) && env.udpSocketOk
    ensures var r := RunOf(c, mac, envs);
      && Summarize(r.trace).last.Some?
      && (Waiting(Round(r, mac, env)) <==> Usable(Summarize(r.trace).last.value.time))
  {
    RunNoStray(c, mac, envs);
    WakesExactly(c, mac, envs, env, []);
  }

  /** A round without a UDP socket: back to INIT, but with the renewal timer armed. */
  lemma NoSocketRound(c: Client, mac: seq<Byte>, e: Env)
    requires |mac| == 6 && c.phase == Requesting && c.packetSocket && c.renewal > 0
    requires Received(c, mac, e) == Ack && e.expired == {} && !e.udpSocketOk
    ensures var i := Round(c, mac, e);
      i.phase == Init && i.packetSocket && InitTimer in i.armed && RenewalTimer in i.armed
  {
  }

  /** A round that enters BOUND with a renewal interval that is refused. */
  lemma RefusedRound(c: Client, mac: seq<Byte>, e: Env, o: Offer)
    requires |mac| == 6 && c.phase == Requesting && c.renewal < 0 && RenewalTimer in c.armed && Holds(c, o)
    requires Received(c, mac, e) == Ack && e.expired == {} && e.udpSocketOk
    ensures var b := Round(c, mac, e); b.phase == Bound && Waiting(b) && Holds(b, o)
  {
  }

  /**
   After a failed UDP socket the renewal timer of the lease before stays armed, and wakes the client
   although the new lease has no renewal of its own.
   */
  lemma StrayRenewalWakes(c: Client, mac: seq<Byte>, a: Offer, b: Offer) returns (envs: seq<Env>)
    requires |mac| == 6 && Started(c) && Sendable(a) && Sendable(b)
    requires Usable(a.time) && Refused(b.time)
    ensures Runs(c, mac, envs)
    ensures RunOf(c, mac, envs).phase == Bound && Waiting(RunOf(c, mac, envs))
    ensures Holds(RunOf(c, mac, envs), b) && !Usable(b.time)
  {
    RoundsReceive(c, mac, a, false);
    RoundsReceive(c, mac, b, true);
    RenewalPositiveExactly(a.time);
    RenewalNegativeExactly(b.time);
    envs := StrayRounds(c, mac, a, b, OfferEnv(mac, a), AckEnv(mac, false), OfferEnv(mac, b),
                        AckEnv(mac, true));
  }

  lemma StrayRounds(c: Client, mac: seq<Byte>, a: Offer, b: Offer, ea: Env, no: Env, eb: Env, ok: Env)
    returns (envs: seq<Env>)
    requires |mac| == 6 && c.phase == Init && InitTimer in c.armed && c.packetSocket
    requires Half(ToInt32(a.time)) > 0 && Half(ToInt32(b.time)) < 0
    requires Received(c, mac, ea) == OfferPacket(a) && Received(c, mac, eb) == OfferPacket(b)
    requires Received(c, mac, no) == Received(c, mac, ok) == Ack && !no.udpSocketOk && ok.udpSocketOk
    requires ea.expired == eb.expired == no.expired == ok.expired == {} && ea.sendOk && eb.sendOk
    ensures Runs(c, mac, envs)
    ensures RunOf(c, mac, envs).phase == Bound && Waiting(RunOf(c, mac, envs))
    ensures Holds(RunOf(c, mac, envs), b)
  {
    var rest := [ok] + [];
    var second := [Expire(InitTimer)] + ([eb] + rest);
    var first := [no] + second;
    envs := [Expire(InitTimer)] + ([ea] + first);
    var r := RequestRounds(c, mac, a, ea, first);
    NoSocketRound(r, mac, no);
    var i := Round(r, mac, no);
    OneMoreRound(r, mac, no, second);
    var r' := RequestRounds(i, mac, b, eb, rest);
    RefusedRound(r', mac, ok, b);
    OneMoreRound(r', mac, ok, []);
  }

  // ---------------------------------------------------------------- which socket

  /** A client with a lease reads the UDP socket. */
  predicate OnUdp(c: Client) {
    c.phase in {Bound, Renewing} ==> !c.packetSocket
  }

  /** One without reads the packet socket. */
  predicate OnPacket(c: Client) {
    c.phase !in {Bound, Renewing} ==> c.packetSocket
  }

  lemma RoundOnUdp(c: Client, mac: seq<Byte>, env: Env)
    requires |mac| == 6 && OnUdp(c)
    ensures OnUdp(Round(c, mac, env))
    ensures env.packetSocketOk && OnPacket(c) ==> OnPacket(Round(c, mac, env))
  {
  }

  lemma {:induction false} RunOnUdp(c: Client, mac: seq<Byte>, envs: seq<Env>)
    requires |mac| == 6 && OnUdp(c)
    ensures OnUdp(RunOf(c, mac, envs))
    ensures OnPacket(c) && (forall i :: 0 <= i < |envs| ==> envs[i].packetSocketOk) ==>
      OnPacket(RunOf(c, mac, envs))
    decreases |envs|
  {
    if envs != [] {
      RoundOnUdp(c, mac, envs[0]);
      RunOnUdp(Round(c, mac, envs[0]), mac, envs[1..]);
    }
  }

  /**
   Over every run: in BOUND and RENEWING the client reads messages without IP and UDP headers, and, as
   long as packet sockets can be had, in all other phases packets with them.
   */
  lemma SocketByPhase(c: Client, mac: seq<Byte>, envs: seq<Env>)
    requires |mac| == 6 && Started(c)
    ensures var r := RunOf(c, mac, envs);
      && (r.phase in {Bound, Renewing} ==> !r.packetSocket)
      && ((forall i :: 0 <= i < |envs| ==> envs[i].packetSocketOk) ==>
            (r.phase in {Bound, Renewing} <==> !r.packetSocket))
  {
    RunOnUdp(c, mac, envs);
  }

  /** An ACK over UDP. */
  function UdpAckEnv(mac: seq<Byte>): Env
    requires |mac| == 6
  {
    Receive(ServerMessage(mac, 0, [Tlv(MESSAGE_TYPE, [5])]), true)
  }

  lemma RenewRound(b: Client, mac: seq<Byte>)
    requires |mac| == 6 && b.phase == Bound
    ensures var r := Round(b, mac, Expire(RenewalTimer));
      && r.phase == Renewing && r.packetSocket == b.packetSocket && r.renewal == b.renewal
      && r.rebinding == b.rebinding && r.trace == b.trace + [Requested(b.address)]
      && r.address == b.address && r.subnetMask == b.subnetMask && r.gateway == b.gateway
      && r.armed == (b.armed - {RenewalTimer})[ResponseTimer := 5]
  {
  }

  lemma AckRound(r: Client, mac: seq<Byte>, e: Env)
    requires |mac| == 6 && r.phase in {Requesting, Renewing} && Received(r, mac, e) == Ack
    requires e.udpSocketOk && e.expired == {}
    ensures var b := Round(r, mac, e);
      && b.phase == Bound && !b.packetSocket
      && b.trace == r.trace + [Configured(r.address, r.subnetMask, r.gateway)]
      && b.armed == SetTimer(SetTimer(r.armed - {ResponseTimer}, RenewalTimer, r.renewal),
                             RebindingTimer, r.rebinding)
  {
  }

  /**
   A renewal, in every run: the renewal timer of a bound client expires, its REQUEST goes out, and the
   ACK that comes over UDP binds it again with its lease configured anew.
   */
  lemma RenewalIsAcknowledged(c: Client, mac: seq<Byte>, envs: seq<Env>)
    requires |mac| == 6 && Started(c) && Runs(c, mac, envs)
    requires RunOf(c, mac, envs).phase == Bound && RenewalTimer in RunOf(c, mac, envs).armed
    ensures var b := RunOf(c, mac, envs); var rounds := [Expire(RenewalTimer)] + ([UdpAckEnv(mac)] + []);
      && Runs(b, mac, rounds) && RunOf(b, mac, rounds).phase == Bound
      && RunOf(b, mac, rounds).trace
           == b.trace + [Requested(b.address)] + [Configured(b.address, b.subnetMask, b.gateway)]
  {
    var b := RunOf(c, mac, envs);
    SocketByPhase(c, mac, envs);
    RenewRound(b, mac);
    var r := Round(b, mac, Expire(RenewalTimer));
    AckIsReceived(mac);
    AckRound(r, mac, UdpAckEnv(mac));
    OneMoreRound(b, mac, Expire(RenewalTimer), [UdpAckEnv(mac)] + []);
    OneMoreRound(r, mac, UdpAckEnv(mac), []);
  }

  // ---------------------------------------------------------------- which timers, and how long

  /** Timers are armed only where they are waited for, with the seconds of the source. */
  predicate TimersFit(c: Client) {
    && (InitTimer in c.armed ==> c.phase == Init && c.armed[InitTimer] in {0, 10})
    && (ResponseTimer in c.armed ==>
          c.phase in {Selecting, Requesting, Renewing} && c.armed[ResponseTimer] == 5)
    && (RebindingTimer in c.armed ==> c.phase in {Bound, Renewing})
  }

  lemma RoundTimersFit(c: Client, mac: seq<Byte>, env: Env)
    requires |mac| == 6 && TimersFit(c)
    ensures TimersFit(Round(c, mac, env))
  {
    ProcessTimersFit(UpdateEvents(c, Received(c, mac, env), env), Received(c, mac, env), env);
  }

  lemma ProcessTimersFit(c: Client, p: Packet, env: Env)
    requires TimersFit(c) && (InitTimer in env.expired ==> InitTimer !in c.armed)
    ensures TimersFit(ProcessEvents(c, p, env))
  {
    InitTimersFit(c, env);
    match c.phase
    case Requesting => InitTimersFit(Configure(c), env);
    case Renewing => InitTimersFit(Configure(c), env);
    case _ =>
  }

  lemma InitTimersFit(c: Client, env: Env)
    ensures TimersFit(EnterInit(c, env))
  {
  }

  /**
   Over every run only the renewal timer can be armed where it is not waited for; the response timer is
   always set to 5 seconds and the init timer, after the first time, to 10.
   */
  lemma {:induction false} RunTimersFit(c: Client, mac: seq<Byte>, envs: seq<Env>)
    requires |mac| == 6 && TimersFit(c)
    ensures TimersFit(RunOf(c, mac, envs))
    decreases |envs|
  {
    if envs != [] {
      RoundTimersFit(c, mac, envs[0]);
      RunTimersFit(Round(c, mac, envs[0]), mac, envs[1..]);
    }
  }

  /**
   On an ACK, in every run, the renewal timer is set to half of a usable lease time of the last OFFER,
   and the rebinding timer to ten seconds more.
   */
  lemma BoundTimers(c: Client, mac: seq<Byte>, envs: seq<Env>, env: Env)
    requires |mac| == 6 && Started(c) && Runs(c, mac, envs)
    requires var r := RunOf(c, mac, envs);
      r.phase in {Requesting, Renewing} && Received(r, mac, env) == Ack
    requires env.udpSocketOk && env.expired == {}
    ensures var r := RunOf(c, mac, envs); var b := Round(r, mac, env);
      && Summarize(r.trace).last.Some?
      && var time := Summarize(r.trace).last.value.time;
        Usable(time) ==>
          && RenewalTimer in b.armed && RebindingTimer in b.armed
          && 2 * b.armed[RenewalTimer] <= time < 2 * b.armed[RenewalTimer] + 2
          && b.armed[RebindingTimer] == b.armed[RenewalTimer] + 10
  {
    var r := RunOf(c, mac, envs);
    RunKeeps(c, mac, envs);
    AckRound(r, mac, env);
    var time := Summarize(r.trace).last.value.time;
    if Usable(time) {
      RenewalIsHalf(time);
      RenewalPositiveExactly(time);
    }
  }

  // ---------------------------------------------------------------- offers

  /** An OFFER is recorded, with all of its fields, exactly when the packet is that OFFER, in every phase. */
  lemma OfferRecordedExactly(c: Client, mac: seq<Byte>, env: Env, o: Offer)
    requires |mac| == 6
    ensures var t := Round(c, mac, env).trace;
      && (|c.trace| < |t| && t[|c.trace|] == Offered(o) <==> Received(c, mac, env) == OfferPacket(o))
      && (forall i :: |c.trace| < i < |t| ==> !t[i].Offered?)
    ensures Received(c, mac, env) == OfferPacket(o) ==> Holds(Round(c, mac, env), o)
    ensures !Received(c, mac, env).OfferPacket? ==> SameLease(c, Round(c, mac, env))
  {
    var p := Received(c, mac, env);
    var c' := UpdateEvents(c, p, env);
    ProcessAddsNoOffer(c', p, env);
    assert p == OfferPacket(o) ==> Holds(c', o);
  }

  predicate SameLease(c: Client, r: Client) {
    r == c.(phase := r.phase, packetSocket := r.packetSocket, armed := r.armed, trace := r.trace)
  }

  lemma ProcessAddsNoOffer(c: Client, p: Packet, env: Env)
    ensures var r := ProcessEvents(c, p, env);
      && SameLease(c, r) && c.trace <= r.trace
      && forall i :: |c.trace| <= i < |r.trace| ==> !r.trace[i].Offered?
  {
  }
}
