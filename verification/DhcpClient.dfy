/** The client object whose fields a poll round updates in place. */
module DhcpClient {
  import opened Inet
  import opened DhcpPacket
  import opened DhcpSpec

  class ClientObject {
    const mac: seq<Byte>
    var phase: Phase
    var packet: Packet
    var address: nat
    var server: nat
    var subnetMask: nat
    var gateway: nat
    var dns: nat
    var lease: int
    var renewal: int
    var rebinding: int
    var packetSocket: bool
    /** The timers that are armed with the seconds they were set to, and those whose expiry was read in this round. */
    var armed: map<TimerId, int>
    var expired: set<TimerId>
    ghost var trace: seq<Action>

    ghost function View(): Client
      reads this
    {
      Client(phase, address, server, subnetMask, gateway, dns, lease, renewal, rebinding,
             packetSocket, armed, trace)
    }

    ghost predicate Valid()
      reads this
    {
      |mac| == 6 && DhcpSpec.Inv(View()) && OnUdp(View()) && TimersFit(View())
    }

    /** Started with a packet socket; the init timer expires right away. */
    constructor (mac: seq<Byte>)
      requires |mac| == 6
      ensures Valid() && Started(View()) && this.mac == mac
    {
      this.mac := mac;
      phase, packet := Phase.Init, Nothing;
      address, server, subnetMask, gateway, dns := 0, 0, 0, 0, 0;
      lease, renewal, rebinding := 0, 0, 0;
      packetSocket, armed, expired := true, map[InitTimer := 0], {};
      trace := [];
    }

    /** The renewal comes at half the lease, the rebinding ten seconds later. */
    method StoreTimes(time: nat)
      modifies this`lease, this`renewal, this`rebinding
      ensures lease == ToInt32(time)
      ensures renewal == Half(ToInt32(time)) && rebinding == Half(ToInt32(time)) + 10
    {
      lease := ToInt32(time);
      renewal := Half(lease);
      rebinding := Half(lease) + 10;
    }

    method UnpackOffer(o: Offer)
      modifies this
      ensures View() == AcceptOffer(old(View()), o)
      ensures packet == OfferPacket(o) && expired == old(expired)
    {
      address := o.address;
      server := o.server;
      subnetMask := o.subnetMask;
      gateway := o.gateway;
      dns := o.dns;
      StoreTimes(o.time);
      packet := OfferPacket(o);
      trace := trace + [Offered(o)];
    }

    method Update(env: Env)
      requires |mac| == 6
      modifies this
      ensures packet == Received(old(View()), mac, env) && expired == env.expired
      ensures View() == UpdateEvents(old(View()), packet, env)
    {
      packet := Nothing;
      if env.received.Some? {
        packet := UnpackPacket(packetSocket, mac, env.received.value);
        if packet.OfferPacket? {
          UnpackOffer(packet.offer);
        }
      }
      expired := env.expired;
      armed := armed - expired;
    }

    method Set(t: TimerId, seconds: int)
      modifies this`armed
      ensures armed == SetTimer(old(armed), t, seconds)
    {
      if seconds > 0 {
        armed := armed[t := seconds];
      } else if seconds == 0 {
        armed := armed - {t};
      }
    }

    method Reinit(env: Env)
      modifies this
      ensures View() == EnterInit(old(View()), env)
    {
      Set(ResponseTimer, 0);
      Set(RebindingTimer, 0);
      Set(InitTimer, 10);
      if env.packetSocketOk {
        packetSocket := true;
      }
      phase := Phase.Init;
      trace := trace + [Reset];
    }

    method BecomeBound(env: Env)
      modifies this
      ensures View() == EnterBound(old(View()), env)
    {
      Set(ResponseTimer, 0);
      Set(RenewalTimer, renewal);
      Set(RebindingTimer, rebinding);
      trace := trace + [Configured(address, subnetMask, gateway)];
      phase := Bound;
      if env.udpSocketOk {
        packetSocket := false;
      } else {
        Reinit(env);
      }
    }

    method Request(env: Env, next: Phase)
      modifies this
      ensures View() == DhcpSpec.SendRequest(old(View()), env, next)
    {
      if env.sendOk {
        trace := trace + [Requested(address)];
        Set(ResponseTimer, 5);
        phase := next;
      } else {
        Reinit(env);
      }
    }

    method BroadcastDiscover(env: Env)
      modifies this
      ensures View() == Discover(old(View()), env)
    {
      if env.sendOk {
        trace := trace + [Discovered];
        Set(ResponseTimer, 5);
        phase := Selecting;
      } else {
        Set(InitTimer, 10);
      }
    }

    method Process(env: Env)
      requires expired == env.expired
      modifies this
      ensures View() == ProcessEvents(old(View()), old(packet), env)
    {
      match phase
      case Init =>
        if InitTimer in expired {
          BroadcastDiscover(env);
        }
      case Selecting =>
        if packet.OfferPacket? {
          Request(env, Requesting);
        } else if ResponseTimer in expired {
          Reinit(env);
        }
      case Requesting =>
        if packet.Ack? {
          BecomeBound(env);
        } else if packet.Nak? {
          Reinit(env);
        } else if ResponseTimer in expired {
          Reinit(env);
        }
      case Bound =>
        if RenewalTimer in expired {
          Request(env, Renewing);
        }
      case Renewing =>
        if packet.Ack? {
          BecomeBound(env);
        } else if packet.Nak? {
          Reinit(env);
        } else if ResponseTimer in expired {
          Reinit(env);
        } else if RebindingTimer in expired {
          Reinit(env);
        }
    }

    /** One round of the poll loop. */
    method Poll(env: Env)
      requires Valid() && Possible(View(), env)
      modifies this
      ensures Valid() && View() == Round(old(View()), mac, env)
      ensures old(trace) <= trace && AllJustified(trace)
      ensures old(Waiting(View())) && OffersUsable(trace) ==> Waiting(View())
    {
      RoundKeeps(View(), mac, env);
      RoundOnUdp(View(), mac, env);
      RoundTimersFit(View(), mac, env);
      RoundExtends(View(), mac, env);
      if Waiting(View()) && OffersUsable(Round(View(), mac, env).trace) {
        RoundWaits(View(), mac, env);
      }
      Update(env);
      Process(env);
    }
  }
}
