/** The router as a state machine: what one received packet does to the ARP table, the queue of
    packets waiting for a MAC address, and the log of packets sent. */
module Router {
  import opened Options
  import opened Bytes
  import opened OnesComplement
  import opened Headers
  import opened Routes

  /** A packet by value: what a buffer held when it was queued or sent. */
  datatype Packet = Packet(len: int, payload: Buffer, interface: int)

  datatype ArpEntry = ArpEntry(ip: Ip4, mac: Mac)

  /** What does not change while the router runs: the host, the sorted routing table, and the
      addresses of its interfaces. */
  datatype Config = Config(host: Host, rtable: Table, mac: int -> Mac, ip: int -> Ip4)

  datatype Kind = EchoReply | TimeExceeded | Unreachable | ArpRequest | ArpReply | Forward

  /** A sent packet, and which part of the program sent it. */
  datatype Output = Output(kind: Kind, packet: Packet)

  /** `crashed`: a route lookup has read outside the table. */
  datatype State = State(arp: seq<ArpEntry>, waiting: seq<Packet>, sent: seq<Output>, crashed: bool)

  const INITIAL: State := State([], [], [], false)

  // ----- lookups -----

  /** The destination as the number the route lookup compares. */
  function Destination(cfg: Config, b: Buffer): Word32 {
    Load32(cfg.host, DestIp(b))
  }

  predicate Routable(cfg: Config, b: Buffer) {
    BestRoute(cfg.rtable, Destination(cfg, b)).Found?
  }

  function RouteOf(cfg: Config, b: Buffer): Route
    requires Routable(cfg, b)
  {
    FoundMatches(cfg.rtable, Destination(cfg, b), 0, Minus1(|cfg.rtable|), -1);
    cfg.rtable[BestRoute(cfg.rtable, Destination(cfg, b)).index]
  }

  /** `search_arp`: the first entry for the address. */
  function SearchArp(arp: seq<ArpEntry>, ip: Ip4): Option<Mac> {
    if arp == [] then None
    else if arp[0].ip == ip then Some(arp[0].mac)
    else SearchArp(arp[1..], ip)
  }

  /** An answer already known is never replaced, as later entries come behind it. */
  lemma {:induction false} SearchArpAppend(arp: seq<ArpEntry>, e: ArpEntry, ip: Ip4)
    ensures SearchArp(arp + [e], ip) ==
            if SearchArp(arp, ip).Some? then SearchArp(arp, ip) else if e.ip == ip then Some(e.mac) else None
  {
    if arp == [] {
      assert (arp + [e])[1..] == [];
    } else {
      assert (arp + [e])[1..] == arp[1..] + [e];
      SearchArpAppend(arp[1..], e, ip);
    }
  }

  /** The MAC address a packet is waiting for, once it is known. */
  function Resolved(cfg: Config, arp: seq<ArpEntry>, b: Buffer): Option<Mac>
    requires Routable(cfg, b)
  {
    SearchArp(arp, RouteOf(cfg, b).nextHop)
  }

  // ----- what becomes of a received packet -----

  datatype Fate =
    | Echo | BadChecksum | Expired | Unroutable | Crash
    | Accepted(route: Route)
    | ArpAsk | ArpAnswer | Ignored

  /** The branch the main loop takes.  An echo request to the router is answered before the
      checksum is looked at.  None of it depends on the state. */
  function Classify(cfg: Config, p: Packet): Fate {
    var b := p.payload;
    if EtherType(b) == ETHERTYPE_IP then
      if Protocol(b) == IPPROTO_ICMP && IcmpType(b) == ICMP_ECHO && DestIp(b) == cfg.ip(p.interface) then Echo
      else if !Verifies(b) then BadChecksum
      else if Ttl(b) < 2 then Expired
      else match BestRoute(cfg.rtable, Destination(cfg, b))
        case Nothing => Unroutable
        case OutOfBounds => Crash
        case Found(_) => Accepted(RouteOf(cfg, b))
    else if EtherType(b) == ETHERTYPE_ARP then
      if ArpOp(b) == ARPOP_REQUEST then ArpAsk
      else if ArpOp(b) == ARPOP_REPLY && ArpTargetIp(b) == cfg.ip(p.interface) then ArpAnswer
      else Ignored
    else Ignored
  }

  // ----- the packets sent -----

  const HEADERS_LEN: int := 42

  const BROADCAST: Mac := [0xFF, 0xFF, 0xFF, 0xFF, 0xFF, 0xFF]

  /** `send_icmp` */
  function IcmpPacket(cfg: Config, p: Packet, kind: Byte): Packet {
    Packet(HEADERS_LEN, Reply(p.payload, kind, cfg.mac(p.interface), cfg.ip(p.interface)), p.interface)
  }

  /** `arp_requester` */
  function ArpRequestPacket(cfg: Config, r: Route): Packet {
    var mac := cfg.mac(r.interface);
    Packet(HEADERS_LEN,
           SetArp(SetEther(Zeros(MAX_LEN), BROADCAST, mac, ETHERTYPE_ARP),
                  ARPOP_REQUEST, Zeros(6), r.nextHop, mac, cfg.ip(r.interface)),
           r.interface)
  }

  /** `arp_replier`: any request is answered, with the address it asked for. */
  function ArpReplyPacket(cfg: Config, p: Packet): Packet {
    var mac, sender := cfg.mac(p.interface), ArpSenderMac(p.payload);
    Packet(HEADERS_LEN,
           SetArp(SetEther(Zeros(MAX_LEN), sender, mac, ETHERTYPE_ARP),
                  ARPOP_REPLY, sender, ArpSenderIp(p.payload), mac, ArpTargetIp(p.payload)),
           p.interface)
  }

  /** What the direct path of the main loop sends. */
  function Direct(cfg: Config, p: Packet, r: Route, mac: Mac): Packet {
    Packet(p.len, SetEther(Aged(p.payload), mac, cfg.mac(r.interface), ETHERTYPE_IP), r.interface)
  }

  /** The copy put into the waiting queue. */
  function Queued(p: Packet, r: Route): Packet {
    Packet(p.len, Aged(p.payload), r.interface)
  }

  /** What `search_queue` sends for a waiting packet. */
  function Release(cfg: Config, q: Packet, mac: Mac): Packet
    requires Routable(cfg, q.payload)
  {
    q.(payload := Put(Put(q.payload, 0, mac), 6, cfg.mac(RouteOf(cfg, q.payload).interface)))
  }

  /** Nothing the router does to a forwarded packet changes where it goes. */
  lemma QueuedRoute(cfg: Config, p: Packet, r: Route)
    ensures Destination(cfg, Queued(p, r).payload) == Destination(cfg, p.payload)
    ensures EtherType(Queued(p, r).payload) == EtherType(p.payload)
  {
    AgedElsewhere(p.payload);
  }

  lemma DirectRoute(cfg: Config, p: Packet, r: Route, mac: Mac)
    ensures Destination(cfg, Direct(cfg, p, r, mac).payload) == Destination(cfg, p.payload)
  {
    AgedElsewhere(p.payload);
    EtherElsewhere(Aged(p.payload), mac, cfg.mac(r.interface), ETHERTYPE_IP);
    assert DestIp(Direct(cfg, p, r, mac).payload) == DestIp(Aged(p.payload));
  }

  /** Deferred forwarding is immediate forwarding: the packet released from the queue is byte
      for byte the one the direct path would send with the same MAC address. */
  lemma ReleaseIsDirect(cfg: Config, p: Packet, mac: Mac)
    requires Classify(cfg, p).Accepted?
    ensures var r := Classify(cfg, p).route;
            Routable(cfg, Queued(p, r).payload) && RouteOf(cfg, Queued(p, r).payload) == r
            && Release(cfg, Queued(p, r), mac) == Direct(cfg, p, r, mac)
  {
    hide Aged, Put, BestRoute, SetEther, Destination, Verifies;
    var r := Classify(cfg, p).route;
    QueuedRoute(cfg, p, r);
    SameEther(Aged(p.payload), mac, cfg.mac(r.interface));
  }

  /** Overwriting the two MAC addresses of an IPv4 frame writes its whole Ethernet header. */
  lemma SameEther(b: Buffer, dest: Mac, source: Mac)
    requires EtherType(b) == ETHERTYPE_IP
    ensures Put(Put(b, 0, dest), 6, source) == SetEther(b, dest, source, ETHERTYPE_IP)
  {
    PutAdjacent(b, 0, dest, source);
    var kind := Net16(ETHERTYPE_IP);
    SplitByte(b[12], b[13]);
    assert kind == b[12..14];
    assert Put(b, 0, dest + source) == Put(b, 0, dest + source + kind);
  }

  /** A forwarded packet differs from the received one in its Ethernet header, its TTL, one
      less, and its checksum, and in nothing else. */
  lemma DirectChanges(cfg: Config, p: Packet, mac: Mac)
    requires Classify(cfg, p).Accepted?
    ensures var r := Classify(cfg, p).route; var d := Direct(cfg, p, r, mac);
            && d.len == p.len && d.interface == r.interface
            && d.payload[..6] == mac && EtherSource(d.payload) == cfg.mac(r.interface)
            && Ttl(d.payload) == Ttl(p.payload) - 1 && Verifies(d.payload)
            && forall i :: 14 <= i < MAX_LEN && i != 22 && i != 24 && i != 25 ==> d.payload[i] == p.payload[i]
  {
    hide Put, BestRoute, SetEther, Destination, Checksum, Aged;
    var r := Classify(cfg, p).route;
    AgedVerifies(p.payload);
    AgedElsewhere(p.payload);
    EtherElsewhere(Aged(p.payload), mac, cfg.mac(r.interface), ETHERTYPE_IP);
    assert IpHeader(Direct(cfg, p, r, mac).payload) == IpHeader(Aged(p.payload));
  }

  /** ARP between two such routers: the request one of them sends is answered by the other, the
      answer is for the one that asked, and what that one learns from it is the other's MAC
      address under the next hop it asked for. */
  lemma ArpHandshake(a: Config, r: Route, b: Config, q: Packet, p: Packet)
    requires q.payload == ArpRequestPacket(a, r).payload
    requires p.payload == ArpReplyPacket(b, q).payload && p.interface == r.interface
    ensures Classify(b, q).ArpAsk? && Classify(a, p).ArpAnswer?
    ensures ArpSenderIp(p.payload) == r.nextHop && ArpSenderMac(p.payload) == b.mac(q.interface)
    ensures q.payload[..6] == BROADCAST && p.payload[..6] == a.mac(r.interface)
  {
    hide SetArp, SetEther, EtherType, ArpOp, ArpSenderMac, ArpSenderIp, ArpTargetIp;
    var mac := a.mac(r.interface);
    var blank: Buffer := Zeros(MAX_LEN);
    EtherElsewhere(blank, BROADCAST, mac, ETHERTYPE_ARP);
    ArpRoundTrip(SetEther(blank, BROADCAST, mac, ETHERTYPE_ARP),
                 ARPOP_REQUEST, Zeros(6), r.nextHop, mac, a.ip(r.interface));
    SameFront(q.payload, SetEther(blank, BROADCAST, mac, ETHERTYPE_ARP));
    var sender, other := ArpSenderMac(q.payload), b.mac(q.interface);
    EtherElsewhere(blank, sender, other, ETHERTYPE_ARP);
    ArpRoundTrip(SetEther(blank, sender, other, ETHERTYPE_ARP),
                 ARPOP_REPLY, sender, ArpSenderIp(q.payload), other, ArpTargetIp(q.payload));
    SameFront(p.payload, SetEther(blank, sender, other, ETHERTYPE_ARP));
  }

  lemma SameFront(x: Buffer, y: Buffer)
    requires x[..14] == y[..14]
    ensures EtherType(x) == EtherType(y) && x[..6] == y[..6]
  {
    assert x[12] == x[..14][12] && x[13] == x[..14][13] && y[12] == y[..14][12] && y[13] == y[..14][13];
    assert x[..6] == x[..14][..6] && y[..6] == y[..14][..6];
  }

  // ----- the waiting queue -----

  ghost predicate AllRoutable(cfg: Config, w: seq<Packet>) {
    forall i :: 0 <= i < |w| ==> Routable(cfg, w[i].payload)
  }

  /** The packets of `w` whose next hop is known, as they are sent. */
  function Released(cfg: Config, arp: seq<ArpEntry>, w: seq<Packet>): seq<Output>
    requires AllRoutable(cfg, w)
  {
    if w == [] then []
    else
      var n := |w| - 1;
      Released(cfg, arp, w[..n]) +
      match Resolved(cfg, arp, w[n].payload)
      case Some(mac) => [Output(Forward, Release(cfg, w[n], mac))]
      case None => []
  }

  /** The others. */
  function Held(cfg: Config, arp: seq<ArpEntry>, w: seq<Packet>): (h: seq<Packet>)
    requires AllRoutable(cfg, w)
    ensures forall i :: 0 <= i < |h| ==>
              h[i] in w && Routable(cfg, h[i].payload) && Resolved(cfg, arp, h[i].payload).None?
  {
    if w == [] then []
    else
      var n := |w| - 1;
      Held(cfg, arp, w[..n]) + if Resolved(cfg, arp, w[n].payload).Some? then [] else [w[n]]
  }

  /** `n` iterations of the loop in `search_queue`, each of which dequeues a packet and either
      sends it or puts it back at the end of the same queue. */
  function Iterate(cfg: Config, arp: seq<ArpEntry>, n: nat, w: seq<Packet>, sent: seq<Output>)
    : (r: (seq<Packet>, seq<Output>))
    requires AllRoutable(cfg, w)
    ensures AllRoutable(cfg, r.0)
  {
    if n == 0 || w == [] then (w, sent)
    else
      match Resolved(cfg, arp, w[0].payload)
      case Some(mac) => Iterate(cfg, arp, n - 1, w[1..], sent + [Output(Forward, Release(cfg, w[0], mac))])
      case None => Iterate(cfg, arp, n - 1, w[1..] + [w[0]], sent)
  }

  lemma IterateOnce(cfg: Config, arp: seq<ArpEntry>, n: nat, w: seq<Packet>, sent: seq<Output>)
    requires AllRoutable(cfg, w) && n > 0 && w != []
    ensures Routable(cfg, w[0].payload) && AllRoutable(cfg, w[1..]) && AllRoutable(cfg, w[1..] + [w[0]])
    ensures Iterate(cfg, arp, n, w, sent) ==
            match Resolved(cfg, arp, w[0].payload)
            case Some(mac) => Iterate(cfg, arp, n - 1, w[1..], sent + [Output(Forward, Release(cfg, w[0], mac))])
            case None => Iterate(cfg, arp, n - 1, w[1..] + [w[0]], sent)
  {
    hide Release, Resolved, Routable;
  }

  lemma NextInPass(cfg: Config, arp: seq<ArpEntry>, w: seq<Packet>, done: nat)
    requires AllRoutable(cfg, w) && done < |w|
    ensures Routable(cfg, w[done].payload)
    ensures var mac := Resolved(cfg, arp, w[done].payload);
            && Held(cfg, arp, w[..done + 1]) == Held(cfg, arp, w[..done]) + (if mac.Some? then [] else [w[done]])
            && Released(cfg, arp, w[..done + 1]) ==
               Released(cfg, arp, w[..done]) +
               if mac.Some? then [Output(Forward, Release(cfg, w[done], mac.value))] else []
  {
    hide Release, Resolved, Routable;
    assert w[..done + 1][..done] == w[..done];
  }

  lemma {:induction false} IterateOver(
      cfg: Config, arp: seq<ArpEntry>, w: seq<Packet>, done: nat, sent: seq<Output>,
      queue: seq<Packet>, log: seq<Output>)
    requires AllRoutable(cfg, w) && done <= |w|
    requires queue == w[done..] + Held(cfg, arp, w[..done]) && log == sent + Released(cfg, arp, w[..done])
    ensures AllRoutable(cfg, queue)
    ensures Iterate(cfg, arp, |w| - done, queue, log) == (Held(cfg, arp, w), sent + Released(cfg, arp, w))
    decreases |w| - done
  {
    hide Release, Resolved, Routable, Held, Released, Iterate;
    var held := Held(cfg, arp, w[..done]);
    if done == |w| {
      assert w[..done] == w && queue == held;
      IterateNone(cfg, arp, 0, queue, log);
    } else {
      assert queue[0] == w[done] && queue[1..] == w[done + 1..] + held;
      NextInPass(cfg, arp, w, done);
      var held' := Held(cfg, arp, w[..done + 1]);
      IterateOver(cfg, arp, w, done + 1, sent, w[done + 1..] + held', sent + Released(cfg, arp, w[..done + 1]));
      IterateOnce(cfg, arp, |w| - done, queue, log);
      match Resolved(cfg, arp, w[done].payload)
      case Some(mac) =>
        assert Held(cfg, arp, w[..done + 1]) == held;
        assert log + [Output(Forward, Release(cfg, w[done], mac))] == sent + Released(cfg, arp, w[..done + 1]);
      case None =>
        assert queue[1..] + [w[done]] == w[done + 1..] + Held(cfg, arp, w[..done + 1]);
        assert log == sent + Released(cfg, arp, w[..done + 1]);
    }
  }

  lemma IterateNone(cfg: Config, arp: seq<ArpEntry>, n: nat, w: seq<Packet>, sent: seq<Output>)
    requires AllRoutable(cfg, w) && (n == 0 || w == [])
    ensures Iterate(cfg, arp, n, w, sent) == (w, sent)
  {
  }

  /** One pass over the queue sends exactly the packets whose next hop is known, in order, and
      keeps exactly the others, in order. */
  lemma OnePass(cfg: Config, arp: seq<ArpEntry>, w: seq<Packet>, sent: seq<Output>)
    requires AllRoutable(cfg, w)
    ensures Iterate(cfg, arp, |w|, w, sent) == (Held(cfg, arp, w), sent + Released(cfg, arp, w))
  {
    assert w[0..] + Held(cfg, arp, w[..0]) == w;
    assert sent + Released(cfg, arp, w[..0]) == sent;
    IterateOver(cfg, arp, w, 0, sent, w, sent);
  }

  lemma {:induction false} HeldFirst(cfg: Config, arp: seq<ArpEntry>, w: seq<Packet>)
    requires AllRoutable(cfg, w) && w != []
    ensures Routable(cfg, w[0].payload)
    ensures Held(cfg, arp, w) ==
            (if Resolved(cfg, arp, w[0].payload).Some? then [] else [w[0]]) + Held(cfg, arp, w[1..])
  {
    hide Resolved, Routable;
    var n := |w| - 1;
    if n > 0 {
      HeldFirst(cfg, arp, w[..n]);
      assert w[..n][1..] == w[1..][..n - 1];
    } else {
      assert w[..n] == [] && w[1..] == [];
    }
  }

  lemma HeldLast(cfg: Config, arp: seq<ArpEntry>, w: seq<Packet>, q: Packet)
    requires AllRoutable(cfg, w + [q])
    ensures AllRoutable(cfg, w) && Routable(cfg, q.payload)
    ensures Held(cfg, arp, w + [q]) ==
            Held(cfg, arp, w) + if Resolved(cfg, arp, q.payload).Some? then [] else [q]
  {
    hide Resolved, Routable;
    assert (w + [q])[|w|] == q && (w + [q])[..|w|] == w;
    assert forall i :: 0 <= i < |w| ==> (w + [q])[i] == w[i];
  }

  /** The number of packets that cannot be sent never changes, however long the loop runs. */
  lemma {:induction false} StuckInvariant(cfg: Config, arp: seq<ArpEntry>, n: nat, w: seq<Packet>, sent: seq<Output>)
    requires AllRoutable(cfg, w)
    ensures |Held(cfg, arp, Iterate(cfg, arp, n, w, sent).0)| == |Held(cfg, arp, w)|
  {
    hide Release, Resolved, Routable, Held, Iterate;
    if n == 0 || w == [] {
      IterateNone(cfg, arp, n, w, sent);
    } else {
      IterateOnce(cfg, arp, n, w, sent);
      HeldFirst(cfg, arp, w);
      match Resolved(cfg, arp, w[0].payload)
      case Some(mac) =>
        StuckInvariant(cfg, arp, n - 1, w[1..], sent + [Output(Forward, Release(cfg, w[0], mac))]);
      case None =>
        StuckInvariant(cfg, arp, n - 1, w[1..] + [w[0]], sent);
        HeldLast(cfg, arp, w[1..], w[0]);
    }
  }

  lemma {:induction false} HeldNothing(cfg: Config, arp: seq<ArpEntry>, w: seq<Packet>)
    requires AllRoutable(cfg, w)
    ensures Held(cfg, arp, w) == [] <==> forall i :: 0 <= i < |w| ==> Resolved(cfg, arp, w[i].payload).Some?
  {
    hide Resolved, Routable;
    if w != [] {
      HeldNothing(cfg, arp, w[..|w| - 1]);
    }
  }

  /** As written, the loop of `search_queue` ends if and only if every waiting packet can be sent. */
  lemma LoopEndsIff(cfg: Config, arp: seq<ArpEntry>, w: seq<Packet>, sent: seq<Output>, held: seq<Packet>)
    requires AllRoutable(cfg, w) && held == Held(cfg, arp, w)
    ensures (exists n: nat :: Iterate(cfg, arp, n, w, sent).0 == []) <==> held == []
  {
    hide Iterate, Resolved, Routable;
    OnePass(cfg, arp, w, sent);
    if held != [] {
      forall n: nat
        ensures Iterate(cfg, arp, n, w, sent).0 != []
      {
        StuckInvariant(cfg, arp, n, w, sent);
      }
    }
  }

  lemma {:induction false} IterateSum(
      cfg: Config, arp: seq<ArpEntry>, m: nat, n: nat, w: seq<Packet>, sent: seq<Output>,
      v: seq<Packet>, log: seq<Output>)
    requires AllRoutable(cfg, w) && (v, log) == Iterate(cfg, arp, m, w, sent)
    ensures Iterate(cfg, arp, m + n, w, sent) == Iterate(cfg, arp, n, v, log)
  {
    hide Release, Resolved, Routable, Iterate;
    if m == 0 || w == [] {
      IterateNone(cfg, arp, m, w, sent);
      if w == [] {
        IterateNone(cfg, arp, m + n, w, sent);
        IterateNone(cfg, arp, n, w, sent);
      }
    } else {
      IterateOnce(cfg, arp, m, w, sent);
      IterateOnce(cfg, arp, m + n, w, sent);
      match Resolved(cfg, arp, w[0].payload)
      case Some(mac) =>
        IterateSum(cfg, arp, m - 1, n, w[1..], sent + [Output(Forward, Release(cfg, w[0], mac))], v, log);
      case None => IterateSum(cfg, arp, m - 1, n, w[1..] + [w[0]], sent, v, log);
    }
  }

  lemma {:induction false} NothingToSend(cfg: Config, arp: seq<ArpEntry>, n: nat, w: seq<Packet>, sent: seq<Output>)
    requires AllRoutable(cfg, w) && forall i :: 0 <= i < |w| ==> Resolved(cfg, arp, w[i].payload).None?
    ensures Iterate(cfg, arp, n, w, sent).1 == sent
  {
    hide Release, Resolved, Routable;
    if n > 0 && w != [] {
      NothingToSend(cfg, arp, n - 1, w[1..] + [w[0]], sent);
    }
  }

  /** However long the loop goes on after one pass, it sends nothing more: a pass is all that
      the loop as written ever does, whether or not it ends. */
  lemma AfterThePass(cfg: Config, arp: seq<ArpEntry>, w: seq<Packet>, sent: seq<Output>, more: nat)
    requires AllRoutable(cfg, w)
    ensures Iterate(cfg, arp, |w| + more, w, sent).1 == sent + Released(cfg, arp, w)
  {
    hide Iterate, Resolved, Routable, Released;
    OnePass(cfg, arp, w, sent);
    IterateSum(cfg, arp, |w|, more, w, sent, Held(cfg, arp, w), sent + Released(cfg, arp, w));
    NothingToSend(cfg, arp, more, Held(cfg, arp, w), sent + Released(cfg, arp, w));
  }

  // ----- one step -----

  /** A packet that may wait: it can be routed without looking, its header is valid with a hop
      left, and its next hop is unknown. */
  predicate WaitsRightly(cfg: Config, arp: seq<ArpEntry>, q: Packet) {
    && Routable(cfg, q.payload)
    && q.interface == RouteOf(cfg, q.payload).interface
    && EtherType(q.payload) == ETHERTYPE_IP && Verifies(q.payload) && Ttl(q.payload) >= 1
    && Resolved(cfg, arp, q.payload).None?
  }

  ghost predicate Inv(cfg: Config, st: State) {
    forall i :: 0 <= i < |st.waiting| ==> WaitsRightly(cfg, st.arp, st.waiting[i])
  }

  function Answer(cfg: Config, p: Packet, kind: Kind): Output {
    Output(kind,
           match kind
           case EchoReply => IcmpPacket(cfg, p, ICMP_ECHOREPLY)
           case TimeExceeded => IcmpPacket(cfg, p, ICMP_TIME_EXCEEDED)
           case Unreachable => IcmpPacket(cfg, p, ICMP_UNREACH)
           case _ => ArpReplyPacket(cfg, p))
  }

  function Send(st: State, o: Output): State {
    st.(sent := st.sent + [o])
  }

  /** The body of the main loop, with one pass over the queue for `search_queue`. */
  function Step(cfg: Config, st: State, p: Packet): State
    requires Inv(cfg, st)
  {
    if st.crashed then st
    else
      match Classify(cfg, p)
      case Echo => Send(st, Answer(cfg, p, EchoReply))
      case BadChecksum => st
      case Expired => Send(st, Answer(cfg, p, TimeExceeded))
      case Unroutable => Send(st, Answer(cfg, p, Unreachable))
      case Crash => st.(crashed := true)
      case Accepted(r) => Dispatch(cfg, st, p, r)
      case ArpAsk => Send(st, Answer(cfg, p, ArpReply))
      case ArpAnswer => Learn(cfg, st, ArpEntry(ArpSenderIp(p.payload), ArpSenderMac(p.payload)))
      case Ignored => st
  }

  function Dispatch(cfg: Config, st: State, p: Packet, r: Route): State {
    match SearchArp(st.arp, r.nextHop)
    case Some(mac) => Send(st, Output(Forward, Direct(cfg, p, r, mac)))
    case None => Send(st, Output(ArpRequest, ArpRequestPacket(cfg, r))).(waiting := st.waiting + [Queued(p, r)])
  }

  function Learn(cfg: Config, st: State, e: ArpEntry): State
    requires AllRoutable(cfg, st.waiting)
  {
    var arp := st.arp + [e];
    st.(arp := arp, waiting := Held(cfg, arp, st.waiting), sent := st.sent + Released(cfg, arp, st.waiting))
  }

  /** Every received packet keeps the invariant of the waiting queue. */
  lemma StepKeepsInv(cfg: Config, st: State, p: Packet)
    requires Inv(cfg, st)
    ensures Inv(cfg, Step(cfg, st, p))
  {
    hide Aged, BestRoute, Destination, Verifies, Direct, Reply, ArpRequestPacket, ArpReplyPacket;
    hide SearchArp, Routable, Resolved, RouteOf;
    match Classify(cfg, p)
    case Accepted(r) =>
      QueuedWaitsRightly(cfg, st.arp, p);
    case ArpAnswer =>
      HeldWaitsRightly(cfg, st, ArpEntry(ArpSenderIp(p.payload), ArpSenderMac(p.payload)));
    case _ =>
  }

  lemma QueuedWaitsRightly(cfg: Config, arp: seq<ArpEntry>, p: Packet)
    requires Classify(cfg, p).Accepted?
    ensures var r := Classify(cfg, p).route; SearchArp(arp, r.nextHop).None? ==> WaitsRightly(cfg, arp, Queued(p, r))
  {
    hide Aged, BestRoute, Destination, SearchArp;
    var r := Classify(cfg, p).route;
    ReleaseIsDirect(cfg, p, Zeros(6));
    QueuedRoute(cfg, p, r);
    AgedVerifies(p.payload);
    AgedElsewhere(p.payload);
  }

  lemma HeldWaitsRightly(cfg: Config, st: State, e: ArpEntry)
    requires Inv(cfg, st)
    ensures AllRoutable(cfg, st.waiting) && Inv(cfg, Learn(cfg, st, e))
  {
    hide Routable, Resolved, RouteOf, EtherType, Verifies, Ttl;
    var arp := st.arp + [e];
    var h := Held(cfg, arp, st.waiting);
    forall i | 0 <= i < |h|
      ensures WaitsRightly(cfg, arp, h[i])
    {
      var j :| 0 <= j < |st.waiting| && st.waiting[j] == h[i];
      assert WaitsRightly(cfg, st.arp, st.waiting[j]);
    }
  }
}
