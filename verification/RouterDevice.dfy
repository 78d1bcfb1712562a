/** The running router: the program's variables, updated in place, against the state machine. */
module RouterDevice {
  import opened Options
  import opened Bytes
  import opened OnesComplement
  import opened InternetChecksum
  import opened Headers
  import opened Routes
  import opened PacketQueue
  import opened Router
  import opened RouterRuns

  const ARP_MAX_SIZE: nat := 20

  /** The variable `m` of `main`: one buffer, reused for every packet. */
  class PacketBuffer {
    var len: int
    var interface: int
    const payload: array<Byte>

    constructor ()
      ensures fresh(payload) && payload.Length == MAX_LEN
    {
      len, interface := 0, 0;
      payload := new Byte[MAX_LEN](_ => 0);
    }

    /** A copy of the packet. */
    function Value(): Packet
      requires payload.Length == MAX_LEN
      reads this, payload
    {
      Packet(len, payload[..], interface)
    }

    /** What `get_packet` leaves in the buffer. */
    method Fill(p: Packet)
      requires payload.Length == MAX_LEN
      modifies this, payload
      ensures Value() == p
    {
      Write(payload, 0, p.payload);
      assert Put(old(payload[..]), 0, p.payload) == p.payload;
      len, interface := p.len, p.interface;
    }
  }

  class Device {
    const cfg: Config
    /** The address of packet buffers, which decides how their headers are aligned. */
    const address: nat
    var arpTable: seq<ArpEntry>
    var arpMax: nat
    const waiting: Queue<Packet>
    var sent: seq<Output>
    var crashed: bool

    ghost function Abs(): State
      reads this, waiting
    {
      State(arpTable, waiting.contents, sent, crashed)
    }

    ghost predicate Valid()
      reads this, waiting, waiting.repr
    {
      waiting.Valid() && |arpTable| <= arpMax && Inv(cfg, Abs())
    }

    constructor (cfg: Config, address: nat)
      ensures Valid() && Abs() == INITIAL && this.cfg == cfg
      ensures fresh(waiting) && waiting.repr == {}
    {
      this.cfg, this.address := cfg, address;
      arpTable, arpMax := [], ARP_MAX_SIZE;
      sent, crashed := [], false;
      waiting := new Queue();
    }

    // ----- ARP -----

    method LookupArp(ip: Ip4) returns (r: Option<Mac>)
      ensures r == SearchArp(arpTable, ip)
    {
      var i := 0;
      while i < |arpTable|
        invariant i <= |arpTable| && SearchArp(arpTable[i..], ip) == SearchArp(arpTable, ip)
      {
        if arpTable[i].ip == ip {
          return Some(arpTable[i].mac);
        }
        assert arpTable[i..][1..] == arpTable[i + 1..];
        i := i + 1;
      }
      r := None;
    }

    method AddArpEntry(ip: Ip4, mac: Mac)
      requires |arpTable| <= arpMax
      modifies `arpTable, `arpMax
      ensures arpTable == old(arpTable) + [ArpEntry(ip, mac)]
      ensures arpMax == if |old(arpTable)| == old(arpMax) then old(arpMax) + 1 else old(arpMax)
    {
      if |arpTable| == arpMax {
        arpMax := arpMax + 1;
      }
      arpTable := arpTable + [ArpEntry(ip, mac)];
    }

    method SendPacket(kind: Kind, len: int, payload: array<Byte>, interface: int)
      requires payload.Length == MAX_LEN
      modifies `sent
      ensures sent == old(sent) + [Output(kind, Packet(len, payload[..], interface))]
    {
      sent := sent + [Output(kind, Packet(len, payload[..], interface))];
    }

    method ArpRequester(route: Route)
      modifies `sent
      ensures sent == old(sent) + [Output(ArpRequest, ArpRequestPacket(cfg, route))]
    {
      hide SetArp, SetEther;
      var payload := ZeroBuffer();
      var mac := cfg.mac(route.interface);
      EthHdrSetter(cfg.host, payload, BROADCAST, mac, ETHERTYPE_ARP);
      ArpHdrSetter(cfg.host, payload, ARPOP_REQUEST, Zeros(6), route.nextHop, mac, cfg.ip(route.interface));
      SendPacket(ArpRequest, HEADERS_LEN, payload, route.interface);
    }

    method ArpReplier(m: PacketBuffer)
      requires m.payload.Length == MAX_LEN
      modifies `sent
      ensures sent == old(sent) + [Answer(cfg, m.Value(), ArpReply)]
    {
      hide SetArp, SetEther;
      var payload := ZeroBuffer();
      var mac, sender := cfg.mac(m.interface), m.payload[22..28];
      EthHdrSetter(cfg.host, payload, sender, mac, ETHERTYPE_ARP);
      ArpHdrSetter(cfg.host, payload, ARPOP_REPLY, sender, m.payload[28..32], mac, m.payload[38..42]);
      SendPacket(ArpReply, HEADERS_LEN, payload, m.interface);
      assert ArpReplyPacket(cfg, m.Value()).payload == payload[..];
    }

    /** The body of the loop of `search_queue`: the first packet is sent, or put back behind the others. */
    method ServeFirst()
      requires waiting.Valid() && waiting.contents != [] && AllRoutable(cfg, waiting.contents)
      modifies `sent, waiting, waiting.repr
      ensures waiting.Valid() && fresh(waiting.repr - old(waiting.repr))
      ensures AllRoutable(cfg, old(waiting.contents)) && Routable(cfg, old(waiting.contents)[0].payload)
      ensures var w := old(waiting.contents);
              match Resolved(cfg, arpTable, w[0].payload)
              case Some(mac) =>
                waiting.contents == w[1..] && sent == old(sent) + [Output(Forward, Release(cfg, w[0], mac))]
              case None => waiting.contents == w[1..] + [w[0]] && sent == old(sent)
    {
      hide BestRoute, Put, RouteOf, Routable, SearchArp;
      assert Routable(cfg, waiting.contents[0].payload);
      var crt := waiting.Dequeue();
      var route := LookupRoute(crt);
      var existing := LookupArp(route.nextHop);
      match existing {
        case Some(mac) =>
          crt := crt.(payload := Put(Put(crt.payload, 0, mac), 6, cfg.mac(route.interface)));
          sent := sent + [Output(Forward, crt)];
        case None =>
          waiting.Enqueue(crt);
      }
    }

    /** `n` iterations of the loop of `search_queue`. */
    method SearchQueue(n: nat)
      requires waiting.Valid() && AllRoutable(cfg, waiting.contents)
      modifies `sent, waiting, waiting.repr
      ensures waiting.Valid() && fresh(waiting.repr - old(waiting.repr))
      ensures (waiting.contents, sent) == Iterate(cfg, arpTable, n, old(waiting.contents), old(sent))
    {
      hide Iterate, Release, Resolved, Routable, AllRoutable;
      var i := 0;
      var empty := waiting.Empty();
      while i < n && !empty
        invariant i <= n && waiting.Valid() && (empty <==> waiting.contents == [])
        invariant AllRoutable(cfg, waiting.contents)
        invariant fresh(waiting.repr - old(waiting.repr))
        invariant Iterate(cfg, arpTable, n - i, waiting.contents, sent)
                  == Iterate(cfg, arpTable, n, old(waiting.contents), old(sent))
      {
        IterateOnce(cfg, arpTable, n - i, waiting.contents, sent);
        ServeFirst();
        empty := waiting.Empty();
        i := i + 1;
      }
      IterateNothing(cfg, arpTable, waiting.contents, sent);
    }

    /** The route of a packet, dereferenced unchecked in `search_queue`. */
    method LookupRoute(p: Packet) returns (r: Route)
      requires Routable(cfg, p.payload)
      ensures r == RouteOf(cfg, p.payload)
    {
      var found := GetBestRoute(cfg.rtable, Destination(cfg, p.payload));
      FoundMatches(cfg.rtable, Destination(cfg, p.payload), 0, Minus1(|cfg.rtable|), -1);
      r := cfg.rtable[found.index];
    }

    /** An answer for the router: the address is learnt and the queue gone through once. */
    method LearnAddress(ip: Ip4, mac: Mac)
      requires Valid()
      modifies this, waiting, waiting.repr
      ensures Valid() && fresh(waiting.repr - old(waiting.repr))
      ensures Abs() == Learn(cfg, old(Abs()), ArpEntry(ip, mac))
    {
      hide WaitsRightly, Held, Released, Iterate, SearchArp, Routable;
      ghost var st, e := Abs(), ArpEntry(ip, mac);
      HeldWaitsRightly(cfg, st, e);
      AddArpEntry(ip, mac);
      OnePass(cfg, st.arp + [e], st.waiting, st.sent);
      var n := waiting.Size();
      SearchQueue(n);
    }

    method ArpHandler(m: PacketBuffer)
      requires Valid() && !crashed && m.payload.Length == MAX_LEN
      requires EtherType(m.payload[..]) == ETHERTYPE_ARP
      modifies this, waiting, waiting.repr
      ensures Valid() && fresh(waiting.repr - old(waiting.repr))
      ensures Abs() == Step(cfg, old(Abs()), m.Value())
    {
      hide WaitsRightly, Learn, ArpReplyPacket, Verifies, BestRoute;
      var op := ReadNet16(cfg.host, m.payload, 20);
      if op == ARPOP_REQUEST {
        ArpReplier(m);
      } else if op == ARPOP_REPLY {
        if m.payload[38..42] == cfg.ip(m.interface) {
          LearnAddress(m.payload[28..32], m.payload[22..28]);
        }
      }
    }

    // ----- IPv4 -----

    method SendIcmp(m: PacketBuffer, kind: Byte)
      requires m.payload.Length == MAX_LEN
      requires kind == ICMP_UNREACH || kind == ICMP_TIME_EXCEEDED || kind == ICMP_ECHOREPLY
      modifies `sent
      ensures sent == old(sent) + [Answer(cfg, m.Value(), IcmpKind(kind))]
    {
      hide SetIpReply, SetIcmpReply, SetEther;
      var payload := ZeroBuffer();
      EthHdrSetter(cfg.host, payload, m.payload[6..12], cfg.mac(m.interface), ETHERTYPE_IP);
      IpHdrSetter(cfg.host, address, payload, m.payload, cfg.ip(m.interface));
      IcmpHdrSetter(cfg.host, address, payload, m.payload, kind);
      SendPacket(IcmpKind(kind), HEADERS_LEN, payload, m.interface);
    }

    /** `icmp_handler`: an echo request for the interface it came in on is answered. */
    method IcmpHandler(m: PacketBuffer) returns (replied: bool)
      requires m.payload.Length == MAX_LEN && EtherType(m.payload[..]) == ETHERTYPE_IP
      modifies `sent
      ensures replied <==> Classify(cfg, m.Value()).Echo?
      ensures sent == if replied then old(sent) + [Answer(cfg, m.Value(), EchoReply)] else old(sent)
    {
      hide Verifies, BestRoute, IcmpPacket, Destination;
      replied := false;
      if m.payload[23] == IPPROTO_ICMP && m.payload[34] == ICMP_ECHO && m.payload[30..34] == cfg.ip(m.interface) {
        SendIcmp(m, ICMP_ECHOREPLY);
        replied := true;
      }
    }

    /** `is_garbage`: a bad checksum or too few hops left. */
    method IsGarbage(m: PacketBuffer) returns (garbage: bool)
      requires m.payload.Length == MAX_LEN
      requires EtherType(m.payload[..]) == ETHERTYPE_IP && !Classify(cfg, m.Value()).Echo?
      modifies `sent
      ensures garbage <==> Classify(cfg, m.Value()).BadChecksum? || Classify(cfg, m.Value()).Expired?
      ensures sent ==
              if Classify(cfg, m.Value()).Expired? then old(sent) + [Answer(cfg, m.Value(), TimeExceeded)]
              else old(sent)
    {
      hide BestRoute, IcmpPacket, Destination, Checksum, Total, Finish, Swap16;
      var check := IpChecksum(cfg.host, m.payload, address, 14, 20);
      assert m.payload[14..14 + 20] == IpHeader(m.payload[..]);
      ZeroEitherWay(cfg.host, Checksum(IpHeader(m.payload[..])));
      if check != 0 {
        return true;
      }
      if m.payload[22] < 2 {
        SendIcmp(m, ICMP_TIME_EXCEEDED);
        return true;
      }
      garbage := false;
    }

    /** The IPv4 branch of the main loop. */
    method IpHandler(m: PacketBuffer)
      requires Valid() && !crashed && m.payload.Length == MAX_LEN
      requires EtherType(m.payload[..]) == ETHERTYPE_IP
      modifies this, waiting, waiting.repr, m, m.payload
      ensures Valid() && fresh(waiting.repr - old(waiting.repr))
      ensures Abs() == Step(cfg, old(Abs()), old(m.Value()))
    {
      hide Classify, WaitsRightly, Answer, Learn, Aged, SetEther, SearchArp, ArpRequestPacket;
      ghost var p, st := m.Value(), Abs();
      StepKeepsInv(cfg, st, p);
      var replied := IcmpHandler(m);
      if replied {
        return;
      }
      var garbage := IsGarbage(m);
      if garbage {
        return;
      }
      var found := GetBestRoute(cfg.rtable, Load32(cfg.host, m.payload[30..34]));
      ForwardingFates(cfg, p);
      match found {
        case OutOfBounds =>
          crashed := true;
        case Nothing =>
          SendIcmp(m, ICMP_UNREACH);
        case Found(index) =>
          ForwardPacket(m, cfg.rtable[index]);
      }
    }

    /** The rest of the IPv4 branch, once a route is found. */
    method ForwardPacket(m: PacketBuffer, route: Route)
      requires Valid() && m.payload.Length == MAX_LEN && Inv(cfg, Dispatch(cfg, Abs(), m.Value(), route))
      modifies `sent, waiting, waiting.repr, m, m.payload
      ensures Valid() && fresh(waiting.repr - old(waiting.repr))
      ensures Abs() == Dispatch(cfg, old(Abs()), old(m.Value()), route)
    {
      hide Inv, Aged, SetEther, SearchArp, ArpRequestPacket;
      IncrementalChecksum(cfg.host, m.payload);
      var entry := LookupArp(route.nextHop);
      match entry {
        case None =>
          ArpRequester(route);
          var saved := Packet(m.len, m.payload[..], route.interface);
          waiting.Enqueue(saved);
        case Some(mac) =>
          EthHdrSetter(cfg.host, m.payload, mac, cfg.mac(route.interface), ETHERTYPE_IP);
          m.interface := route.interface;
          SendPacket(Forward, m.len, m.payload, m.interface);
      }
    }

    // ----- the main loop -----

    method Receive(m: PacketBuffer)
      requires Valid() && m.payload.Length == MAX_LEN
      modifies this, waiting, waiting.repr, m, m.payload
      ensures Valid() && fresh(waiting.repr - old(waiting.repr))
      ensures Abs() == Step(cfg, old(Abs()), old(m.Value()))
    {
      hide WaitsRightly, Answer, Learn, Dispatch, Verifies, BestRoute;
      if crashed {
        return;
      }
      var kind := ReadNet16(cfg.host, m.payload, 12);
      if kind == ETHERTYPE_IP {
        IpHandler(m);
      } else if kind == ETHERTYPE_ARP {
        ArpHandler(m);
      }
    }

    /** The main loop on a finite sequence of packets. */
    method Serve(es: seq<Packet>, m: PacketBuffer)
      requires Valid() && Abs() == INITIAL && m.payload.Length == MAX_LEN
      modifies this, waiting, waiting.repr, m, m.payload
      ensures Valid() && Abs() == Run(cfg, es)
    {
      hide Step, Inv;
      for i := 0 to |es|
        invariant waiting.Valid() && |arpTable| <= arpMax && Inv(cfg, Abs())
        invariant Abs() == Run(cfg, es[..i])
        invariant fresh(waiting.repr - old(waiting.repr))
      {
        m.Fill(es[i]);
        Receive(m);
        RunLast(cfg, es[..i + 1]);
        assert es[..i + 1][..i] == es[..i];
      }
      assert es[..|es|] == es;
    }
  }

  /** The routing fates of a packet that is neither answered nor thrown away. */
  lemma ForwardingFates(cfg: Config, p: Packet)
    requires EtherType(p.payload) == ETHERTYPE_IP
    requires var f := Classify(cfg, p); !f.Echo? && !f.BadChecksum? && !f.Expired?
    ensures match BestRoute(cfg.rtable, Destination(cfg, p.payload))
            case OutOfBounds => Classify(cfg, p) == Crash
            case Nothing => Classify(cfg, p) == Unroutable
            case Found(i) => i < |cfg.rtable| && Classify(cfg, p) == Accepted(cfg.rtable[i])
  {
    FoundMatches(cfg.rtable, Destination(cfg, p.payload), 0, Minus1(|cfg.rtable|), -1);
  }

  lemma ZeroEitherWay(host: Host, v: Word16)
    ensures Htons(host, v) == 0 <==> v == 0
  {
  }

  /** The log's name for an ICMP type that the router sends. */
  function IcmpKind(icmpType: Byte): Kind {
    if icmpType == ICMP_ECHOREPLY then EchoReply
    else if icmpType == ICMP_TIME_EXCEEDED then TimeExceeded
    else Unreachable
  }

  lemma IterateNothing(cfg: Config, arp: seq<ArpEntry>, w: seq<Packet>, sent: seq<Output>)
    requires AllRoutable(cfg, w)
    ensures Iterate(cfg, arp, 0, w, sent) == (w, sent)
    ensures forall n: nat :: w == [] ==> Iterate(cfg, arp, n, w, sent) == (w, sent)
  {
  }

  method ZeroBuffer() returns (payload: array<Byte>)
    ensures fresh(payload) && payload.Length == MAX_LEN && payload[..] == Zeros(MAX_LEN)
  {
    payload := new Byte[MAX_LEN](_ => 0);
  }
}
