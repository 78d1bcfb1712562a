/** The router read from the bytes: what each received packet has sent, and what is learnt from it,
    in terms of offsets and literal values instead of the names of fields. */
module RouterBytes {
  import opened Options
  import opened Bytes
  import opened OnesComplement
  import opened Headers
  import opened Routes
  import opened Router
  import opened RouterRuns

  // ----- the tests -----

  /** An ICMP echo request for the interface on which it came. */
  predicate EchoForUs(cfg: Config, p: Packet) {
    var b := p.payload;
    b[12..14] == [8, 0] && b[23] == 1 && b[34] == 8 && b[30..34] == cfg.ip(p.interface)
  }

  predicate ValidIp(p: Packet) {
    p.payload[12..14] == [8, 0] && Checksum(p.payload[14..34]) == 0
  }

  /** The four bytes of an address as the number that the host compares. */
  function AddressNumber(host: Host, a: Ip4): int {
    match host
    case BigEndian => 0x100_0000 * a[0] as int + 0x1_0000 * a[1] as int + 0x100 * a[2] as int + a[3] as int
    case LittleEndian => 0x100_0000 * a[3] as int + 0x1_0000 * a[2] as int + 0x100 * a[1] as int + a[0] as int
  }

  /** The lookup is made with all four bytes of the destination. */
  lemma DestinationBytes(cfg: Config, b: Buffer)
    ensures Destination(cfg, b) == AddressNumber(cfg.host, b[30..34])
  {
    assert b[30..34] == [b[30], b[31], b[32], b[33]];
    DecodeFour(cfg.host, b[30], b[31], b[32], b[33]);
  }

  lemma TypeBytes(b: Buffer)
    ensures b[12..14] == [8, 0] <==> EtherType(b) == ETHERTYPE_IP
    ensures b[12..14] == [8, 6] <==> EtherType(b) == ETHERTYPE_ARP
    ensures b[20..22] == [0, 1] <==> ArpOp(b) == ARPOP_REQUEST
    ensures b[20..22] == [0, 2] <==> ArpOp(b) == ARPOP_REPLY
  {
    assert b[12..14] == [b[12], b[13]] && b[20..22] == [b[20], b[21]];
  }

  // ----- the packets sent -----

  /** An ICMP answer to `p`: back to where it came from, on the same interface, from the
      interface's addresses, with its fragment field and TTL, and both checksums valid. */
  ghost predicate IsIcmpAnswer(cfg: Config, p: Packet, kind: Byte, o: Packet) {
    var b, q := p.payload, o.payload;
    && o.interface == p.interface && o.len == 42
    && q[..6] == b[6..12] && q[6..12] == cfg.mac(p.interface) && q[12..14] == [8, 0]
    && q[14] == 0x45 && q[15] == 0 && q[16] == 0 && q[17] == 28 && q[18] == 5 && q[19] == 0x39
    && q[20..22] == b[20..22] && q[22] == b[22] && q[23] == 1
    && Checksum(q[14..34]) == 0
    && q[26..30] == cfg.ip(p.interface) && q[30..34] == b[26..30]
    && q[34] == kind && q[35] == 0 && Checksum(q[34..42]) == 0
    && q[38..42] == if kind == 0 then b[38..42] else [0, 0, 0, 0]
  }

  lemma IcmpPacketBytes(cfg: Config, p: Packet, kind: Byte)
    ensures IsIcmpAnswer(cfg, p, kind, IcmpPacket(cfg, p, kind))
  {
    hide Reply, Checksum;
    ReplyVerifies(p.payload, kind, cfg.mac(p.interface), cfg.ip(p.interface));
    ReplyContents(p.payload, kind, cfg.mac(p.interface), cfg.ip(p.interface));
    ReplyService(p.payload, kind, cfg.mac(p.interface), cfg.ip(p.interface));
    var q := IcmpPacket(cfg, p, kind).payload;
    TypeBytes(q);
    SmallNumbers(q);
  }

  lemma SmallNumbers(q: Buffer)
    requires Be16(q[16], q[17]) == 28 && Be16(q[18], q[19]) == 1337
    ensures q[16] == 0 && q[17] == 28 && q[18] == 5 && q[19] == 0x39
  {
  }

  /** An Ethernet frame of 42 bytes with an ARP header for IPv4 over Ethernet. */
  ghost predicate IsArp(o: Packet, interface: int, op: Byte, toMac: Mac, fromMac: Mac,
                        senderIp: Ip4, targetMac: Mac, targetIp: Ip4) {
    var q := o.payload;
    && o.interface == interface && o.len == 42
    && q[..6] == toMac && q[6..12] == fromMac && q[12..14] == [8, 6]
    && q[14..22] == [0, 1, 8, 0, 6, 4, 0, op]
    && q[22..28] == fromMac && q[28..32] == senderIp && q[32..38] == targetMac && q[38..42] == targetIp
  }

  lemma ArpPacketBytes(o: Packet, interface: int, op: Byte, toMac: Mac, fromMac: Mac,
                       senderIp: Ip4, targetMac: Mac, targetIp: Ip4)
    requires o == Packet(HEADERS_LEN,
                         SetArp(SetEther(Zeros(MAX_LEN), toMac, fromMac, ETHERTYPE_ARP),
                                op, targetMac, targetIp, fromMac, senderIp),
                         interface)
    ensures IsArp(o, interface, op, toMac, fromMac, senderIp, targetMac, targetIp)
  {
    hide SetEther, SetArp;
    var e: Buffer := SetEther(Zeros(MAX_LEN), toMac, fromMac, ETHERTYPE_ARP);
    EtherElsewhere(Zeros(MAX_LEN), toMac, fromMac, ETHERTYPE_ARP);
    ArpRoundTrip(e, op, targetMac, targetIp, fromMac, senderIp);
    ArpFront(e, op, targetMac, targetIp, fromMac, senderIp);
    SameFront(o.payload, e);
    TypeBytes(o.payload);
    assert o.payload[6..12] == o.payload[..14][6..12] == e[..14][6..12] == EtherSource(e);
  }

  lemma ArpFront(b: Buffer, op: Byte, targetMac: Mac, targetIp: Ip4, senderMac: Mac, senderIp: Ip4)
    ensures SetArp(b, op, targetMac, targetIp, senderMac, senderIp)[14..22] == [0, 1, 8, 0, 6, 4, 0, op]
  {
  }

  /** Each kind of answer, with the ICMP type that goes with it.  An ARP answer gives the address that
      was asked for. */
  ghost predicate IsAnswer(cfg: Config, p: Packet, kind: Kind, o: Packet) {
    match kind
    case EchoReply => IsIcmpAnswer(cfg, p, 0, o)
    case TimeExceeded => IsIcmpAnswer(cfg, p, 11, o)
    case Unreachable => IsIcmpAnswer(cfg, p, 3, o)
    case _ =>
      var b := p.payload;
      IsArp(o, p.interface, 2, b[22..28], cfg.mac(p.interface), b[38..42], b[22..28], b[28..32])
  }

  lemma AnswerBytes(cfg: Config, p: Packet)
    ensures IsAnswer(cfg, p, EchoReply, Answer(cfg, p, EchoReply).packet)
    ensures IsAnswer(cfg, p, TimeExceeded, Answer(cfg, p, TimeExceeded).packet)
    ensures IsAnswer(cfg, p, Unreachable, Answer(cfg, p, Unreachable).packet)
    ensures IsAnswer(cfg, p, ArpReply, Answer(cfg, p, ArpReply).packet)
  {
    hide IsIcmpAnswer, IsArp, IcmpPacket, SetArp, SetEther;
    var b := p.payload;
    IcmpPacketBytes(cfg, p, 0);
    IcmpPacketBytes(cfg, p, 11);
    IcmpPacketBytes(cfg, p, 3);
    ArpPacketBytes(Answer(cfg, p, ArpReply).packet, p.interface, 2, b[22..28], cfg.mac(p.interface), b[38..42],
                   b[22..28], b[28..32]);
  }

  /** And the request it makes, to all stations on the interface of the route. */
  lemma RequestBytes(cfg: Config, r: Route)
    ensures IsArp(ArpRequestPacket(cfg, r), r.interface, 1, BROADCAST, cfg.mac(r.interface), cfg.ip(r.interface),
                  Zeros(6), r.nextHop)
    ensures forall i :: 0 <= i < 6 ==> BROADCAST[i] == 255 && Zeros(6)[i] == 0
  {
    hide IsArp, SetArp, SetEther;
    ArpPacketBytes(ArpRequestPacket(cfg, r), r.interface, 1, BROADCAST, cfg.mac(r.interface), cfg.ip(r.interface),
                   Zeros(6), r.nextHop);
  }

  // ----- one step -----

  ghost predicate Sends(st: State, st': State, kind: Kind, o: Packet) {
    st' == st.(sent := st.sent + [Output(kind, o)])
  }

  /** One answer of this kind is sent, and nothing else changes. */
  ghost predicate Replies(cfg: Config, p: Packet, st: State, st': State, kind: Kind) {
    exists o :: IsAnswer(cfg, p, kind, o) && Sends(st, st', kind, o)
  }

  /** An echo request for the router is answered whatever its checksum and TTL. */
  lemma EchoAnswered(cfg: Config, st: State, p: Packet)
    requires Inv(cfg, st) && !st.crashed && EchoForUs(cfg, p)
    ensures Replies(cfg, p, st, Step(cfg, st, p), EchoReply)
  {
    hide IcmpPacket, IsAnswer, BestRoute, Destination, Verifies, Inv;
    TypeBytes(p.payload);
    AnswerBytes(cfg, p);
    assert Sends(st, Step(cfg, st, p), EchoReply, Answer(cfg, p, EchoReply).packet);
  }

  /** Any other IPv4 packet with a header that does not verify is dropped without a word, whatever
      its TTL. */
  lemma CorruptDropped(cfg: Config, st: State, p: Packet)
    requires Inv(cfg, st) && p.payload[12..14] == [8, 0] && !EchoForUs(cfg, p)
    requires Checksum(p.payload[14..34]) != 0
    ensures Step(cfg, st, p) == st
  {
    hide BestRoute, Destination, Inv, Checksum;
    TypeBytes(p.payload);
  }

  /** One that verifies, but has no hop left, is reported. */
  lemma ExpiredReported(cfg: Config, st: State, p: Packet)
    requires Inv(cfg, st) && !st.crashed && ValidIp(p) && !EchoForUs(cfg, p) && p.payload[22] < 2
    ensures Replies(cfg, p, st, Step(cfg, st, p), TimeExceeded)
  {
    hide IcmpPacket, IsAnswer, BestRoute, Destination, Inv, Checksum;
    TypeBytes(p.payload);
    AnswerBytes(cfg, p);
    assert Sends(st, Step(cfg, st, p), TimeExceeded, Answer(cfg, p, TimeExceeded).packet);
  }

  /** The packet is for somebody else, verifies and has a hop left. */
  predicate ToForward(cfg: Config, p: Packet) {
    ValidIp(p) && !EchoForUs(cfg, p) && p.payload[22] >= 2
  }

  lemma UnroutableReported(cfg: Config, st: State, p: Packet, dest: Word32)
    requires Inv(cfg, st) && !st.crashed && ToForward(cfg, p)
    requires dest == AddressNumber(cfg.host, p.payload[30..34]) && BestRoute(cfg.rtable, dest) == Nothing
    ensures Replies(cfg, p, st, Step(cfg, st, p), Unreachable)
  {
    hide IcmpPacket, IsAnswer, BestRoute, Destination, Inv, Checksum, AddressNumber;
    TypeBytes(p.payload);
    DestinationBytes(cfg, p.payload);
    AnswerBytes(cfg, p);
    assert Sends(st, Step(cfg, st, p), Unreachable, Answer(cfg, p, Unreachable).packet);
  }

  /** Exactly such packets are accepted for forwarding, on the route that is found for the number
      that all four bytes of the destination denote on the host; and exactly such crash it. */
  lemma AcceptedExactly(cfg: Config, p: Packet)
    ensures var dest := AddressNumber(cfg.host, p.payload[30..34]);
            && 0 <= dest < 0x1_0000_0000
            && (Classify(cfg, p).Crash? <==> ToForward(cfg, p) && BestRoute(cfg.rtable, dest) == OutOfBounds)
            && (Classify(cfg, p).Accepted? <==> ToForward(cfg, p) && BestRoute(cfg.rtable, dest).Found?)
            && (Classify(cfg, p).Accepted? ==>
                  var i := BestRoute(cfg.rtable, dest).index;
                  i < |cfg.rtable| && Classify(cfg, p).route == cfg.rtable[i])
  {
    hide Search, Destination, Checksum, AddressNumber;
    TypeBytes(p.payload);
    DestinationBytes(cfg, p.payload);
    FoundMatches(cfg.rtable, Destination(cfg, p.payload), 0, Minus1(|cfg.rtable|), -1);
  }

  /** A packet on its way whose next hop is known goes out at once: with the hop's MAC address, from
      the interface of the route, one hop older, and otherwise as it came. */
  lemma KnownHopForwarded(cfg: Config, st: State, p: Packet, mac: Mac)
    requires Inv(cfg, st) && !st.crashed && Classify(cfg, p).Accepted?
    requires SearchArp(st.arp, Classify(cfg, p).route.nextHop) == Some(mac)
    ensures var r := Classify(cfg, p).route;
            exists o :: Sends(st, Step(cfg, st, p), Forward, o)
                        && o.interface == r.interface && o.len == p.len
                        && o.payload[..6] == mac && o.payload[6..12] == cfg.mac(r.interface)
                        && o.payload[12..14] == [8, 0]
                        && o.payload[22] == p.payload[22] - 1 && Checksum(o.payload[14..34]) == 0
                        && forall i :: 14 <= i < 1600 && i != 22 && i != 24 && i != 25 ==> o.payload[i] == p.payload[i]
  {
    hide Classify, Inv, Direct, Checksum, SearchArp;
    var d := Direct(cfg, p, Classify(cfg, p).route, mac);
    DirectChanges(cfg, p, mac);
    DirectType(cfg, p, mac);
    assert Sends(st, Step(cfg, st, p), Forward, d);
  }

  lemma DirectType(cfg: Config, p: Packet, mac: Mac)
    requires Classify(cfg, p).Accepted?
    ensures Direct(cfg, p, Classify(cfg, p).route, mac).payload[12..14] == [8, 0]
  {
    hide Classify, Aged, SetEther;
    var r := Classify(cfg, p).route;
    EtherElsewhere(Aged(p.payload), mac, cfg.mac(r.interface), ETHERTYPE_IP);
    TypeBytes(Direct(cfg, p, r, mac).payload);
  }

  /** One whose next hop is unknown waits, one hop older and otherwise as it came, with the interface of
      the route; and the hop is asked for there. */
  lemma UnknownHopAsked(cfg: Config, st: State, p: Packet)
    requires Inv(cfg, st) && !st.crashed && Classify(cfg, p).Accepted?
    requires SearchArp(st.arp, Classify(cfg, p).route.nextHop).None?
    ensures var r := Classify(cfg, p).route;
            exists o, q ::
              && Step(cfg, st, p) == st.(sent := st.sent + [Output(ArpRequest, o)], waiting := st.waiting + [q])
              && IsArp(o, r.interface, 1, BROADCAST, cfg.mac(r.interface), cfg.ip(r.interface), Zeros(6), r.nextHop)
              && q.interface == r.interface && q.len == p.len
              && q.payload[22] == p.payload[22] - 1 && Checksum(q.payload[14..34]) == 0
              && forall i :: 0 <= i < 1600 && i != 22 && i != 24 && i != 25 ==> q.payload[i] == p.payload[i]
  {
    hide Inv, Aged, BestRoute, Destination, Checksum, SearchArp, ArpRequestPacket, IsArp;
    var r := Classify(cfg, p).route;
    RequestBytes(cfg, r);
    AgedVerifies(p.payload);
    AgedElsewhere(p.payload);
    assert Step(cfg, st, p) == st.(sent := st.sent + [Output(ArpRequest, ArpRequestPacket(cfg, r))],
                                   waiting := st.waiting + [Queued(p, r)]);
  }

  /** Every ARP request is answered with the address it asks for. */
  lemma ArpRequestAnswered(cfg: Config, st: State, p: Packet)
    requires Inv(cfg, st) && !st.crashed && p.payload[12..14] == [8, 6] && p.payload[20..22] == [0, 1]
    ensures Replies(cfg, p, st, Step(cfg, st, p), ArpReply)
  {
    hide ArpReplyPacket, IcmpPacket, IsAnswer, Inv, Verifies, BestRoute, Destination;
    TypeBytes(p.payload);
    AnswerBytes(cfg, p);
    assert Sends(st, Step(cfg, st, p), ArpReply, Answer(cfg, p, ArpReply).packet);
  }

  /** An ARP answer about `ip` that is for the interface on which it came. */
  predicate AnswersFor(cfg: Config, p: Packet, ip: Ip4) {
    var b := p.payload;
    b[12..14] == [8, 6] && b[20..22] == [0, 2] && b[38..42] == cfg.ip(p.interface) && b[28..32] == ip
  }

  /** All other packets that are not IPv4 change nothing. */
  lemma OthersIgnored(cfg: Config, st: State, p: Packet)
    requires Inv(cfg, st) && p.payload[12..14] != [8, 0]
    requires !(p.payload[12..14] == [8, 6] && p.payload[20..22] == [0, 1])
    requires !AnswersFor(cfg, p, p.payload[28..32])
    ensures Step(cfg, st, p) == st
  {
    hide Inv, Verifies, BestRoute, Destination;
    TypeBytes(p.payload);
  }

  // ----- what is known -----

  /** What the first answer about `ip` among the packets says. */
  function FirstAnswer(cfg: Config, es: seq<Packet>, ip: Ip4): Option<Mac> {
    if es == [] then None
    else
      var n := |es| - 1;
      if FirstAnswer(cfg, es[..n], ip).Some? then FirstAnswer(cfg, es[..n], ip)
      else if AnswersFor(cfg, es[n], ip) then Some(es[n].payload[22..28])
      else None
  }

  /** Over every run: the MAC address under which an address is known is the one in the first answer
      that was received about it, and without an answer it is unknown. */
  lemma {:induction false} KnownIsFirstAnswer(cfg: Config, es: seq<Packet>, ip: Ip4)
    ensures SearchArp(Run(cfg, es).arp, ip) == FirstAnswer(cfg, Handled(cfg, es), ip)
  {
    hide *;
    if es == [] {
      NothingKnown(cfg, ip);
    } else {
      var n := |es| - 1;
      KnownIsFirstAnswer(cfg, es[..n], ip);
      LastStep(cfg, es);
      var before, p := Run(cfg, es[..n]), es[n];
      if before.crashed || Classify(cfg, p).Crash? {
        CrashKeepsArp(before);
      } else {
        StepLearns(cfg, before, p, ip);
        FirstAnswerOne(cfg, es[..n], p, ip);
      }
    }
  }

  lemma NothingKnown(cfg: Config, ip: Ip4)
    ensures SearchArp(Run(cfg, []).arp, ip) == FirstAnswer(cfg, Handled(cfg, []), ip)
  {
  }

  lemma CrashKeepsArp(st: State)
    ensures st.(crashed := true).arp == st.arp
  {
  }

  lemma FirstAnswerOne(cfg: Config, es: seq<Packet>, p: Packet, ip: Ip4)
    ensures FirstAnswer(cfg, es + [p], ip) ==
            if FirstAnswer(cfg, es, ip).Some? then FirstAnswer(cfg, es, ip)
            else if AnswersFor(cfg, p, ip) then Some(p.payload[22..28])
            else None
  {
    assert (es + [p])[..|es|] == es;
  }

  lemma StepLearns(cfg: Config, st: State, p: Packet, ip: Ip4)
    requires Inv(cfg, st) && !st.crashed
    ensures SearchArp(Step(cfg, st, p).arp, ip) ==
            if SearchArp(st.arp, ip).Some? then SearchArp(st.arp, ip)
            else if AnswersFor(cfg, p, ip) then Some(p.payload[22..28])
            else None
  {
    hide Inv, Held, Released, SearchArp, Verifies, BestRoute, Destination, Direct, ArpRequestPacket;
    TypeBytes(p.payload);
    SearchArpAppend(st.arp, ArpEntry(ArpSenderIp(p.payload), ArpSenderMac(p.payload)), ip);
  }

  /** So the theorem on flows speaks of received bytes: while no answer about a next hop has come,
      everything accepted for it waits; and once one has come, everything has been sent to the MAC
      address in the first. */
  lemma FlowOfAnswers(cfg: Config, hop: Ip4, es: seq<Packet>)
    ensures var st, a := Run(cfg, es), AcceptedFor(cfg, hop, Handled(cfg, es));
            match FirstAnswer(cfg, Handled(cfg, es), hop)
            case None => ForwardedFor(cfg, hop, st.sent) == [] && WaitingFor(cfg, hop, st.waiting) == QueuedAll(cfg, a)
            case Some(mac) =>
              ForwardedFor(cfg, hop, st.sent) == DirectAll(cfg, mac, a) && WaitingFor(cfg, hop, st.waiting) == []
  {
    hide Run, Handled, AcceptedFor, ForwardedFor, WaitingFor, DirectAll, QueuedAll, FirstAnswer, SearchArp;
    Flow(cfg, hop, es);
    KnownIsFirstAnswer(cfg, es, hop);
  }
}
