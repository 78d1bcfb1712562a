/** An ARP answer on which the queue loop never ends. */
module RouterExamples {
  import opened Options
  import opened Bytes
  import opened OnesComplement
  import opened Headers
  import opened Routes
  import opened Router
  import opened RouterRuns

  /** If two packets for different next hops are received first, no ARP answer ends the loop. */
  lemma TwoHops(cfg: Config, p: Packet, q: Packet, a: Packet)
    requires Classify(cfg, p).Accepted? && Classify(cfg, q).Accepted? && Classify(cfg, a).ArpAnswer?
    requires Classify(cfg, p).route.nextHop != Classify(cfg, q).route.nextHop
    ensures var st := Run(cfg, [p, q]);
            var arp := st.arp + [ArpEntry(ArpSenderIp(a.payload), ArpSenderMac(a.payload))];
            !st.crashed && AllRoutable(cfg, st.waiting)
            && forall n: nat :: Iterate(cfg, arp, n, st.waiting, st.sent).0 != []
  {
    hide Classify, Inv, Run, Iterate, Routable, RouteOf, Direct, ArpRequestPacket, Queued, AllRoutable;
    var r, s := Classify(cfg, p).route, Classify(cfg, q).route;
    ReleaseIsDirect(cfg, p, Zeros(6));
    ReleaseIsDirect(cfg, q, Zeros(6));
    FirstTwo(cfg, p, q);
    AnswerEndsLoopIff(cfg, [p, q], a);
    var st := Run(cfg, [p, q]);
    assert st.waiting == [Queued(p, r), Queued(q, s)];
    assert st.waiting[0] == Queued(p, r) && st.waiting[1] == Queued(q, s);
  }

  lemma FirstTwo(cfg: Config, p: Packet, q: Packet)
    requires Classify(cfg, p).Accepted? && Classify(cfg, q).Accepted?
    ensures var st := Run(cfg, [p, q]);
            !st.crashed && st.waiting == [Queued(p, Classify(cfg, p).route), Queued(q, Classify(cfg, q).route)]
  {
    hide Classify, Inv, Run, Direct, ArpRequestPacket, Queued;
    assert [p][..0] == [] && [p, q][..1] == [p];
    RunLast(cfg, [p]);
    RunLast(cfg, [p, q]);
    RunOfNothing(cfg);
  }

  lemma RunOfNothing(cfg: Config)
    ensures Run(cfg, []) == INITIAL
  {
  }

  /** An IPv4 packet with two hops left. */
  lemma Datagram(dest: Ip4) returns (d: Buffer)
    ensures EtherType(d) == ETHERTYPE_IP && Verifies(d) && Ttl(d) == 2 && Protocol(d) == 0 && DestIp(d) == dest
  {
    hide Put, Checksum, Net16;
    var b := Put(Put(Put(Zeros(MAX_LEN), 12, Net16(ETHERTYPE_IP)), 22, [2]), 30, dest);
    StampVerifies(b, 14, 34, 5);
    d := Stamp(b, 14, 34, 24);
    assert forall i :: 0 <= i < 4 ==> DestIp(d)[i] == dest[i];
  }

  /** An ARP answer for `ip` about `hop`. */
  lemma AnswerAbout(ip: Ip4, hop: Ip4) returns (b: Buffer)
    ensures EtherType(b) == ETHERTYPE_ARP && ArpOp(b) == ARPOP_REPLY
    ensures ArpTargetIp(b) == ip && ArpSenderIp(b) == hop
  {
    hide SetArp, SetEther, EtherType, ArpOp, ArpSenderIp, ArpTargetIp;
    var e := SetEther(Zeros(MAX_LEN), Zeros(6), Zeros(6), ETHERTYPE_ARP);
    EtherElsewhere(Zeros(MAX_LEN), Zeros(6), Zeros(6), ETHERTYPE_ARP);
    ArpRoundTrip(e, ARPOP_REPLY, Zeros(6), ip, Zeros(6), hop);
    b := SetArp(e, ARPOP_REPLY, Zeros(6), ip, Zeros(6), hop);
    SameFront(b, e);
  }

  /** Routes to three hosts; the first entry only keeps the search within the table. */
  predicate ThreeHosts(t: Table) {
    && |t| == 3 && t[0].prefix == 3 && t[1].prefix == 2 && t[2].prefix == 1
    && forall i :: 0 <= i < 3 ==> t[i].mask == UINT_MAX
  }

  lemma HostRoute(t: Table, k: Word32)
    requires ThreeHosts(t) && 1 <= k <= 2
    ensures BestRoute(t, k) == Found(3 - k)
  {
    hide And, Search;
    AllOnes(k);
    SearchOnce(t, k, 0, 2, -1);
    if k == 2 {
      SearchOnce(t, k, 0, 0, 1);
      SearchDone(t, k, 1, 0, 1);
    } else {
      SearchOnce(t, k, 2, 2, -1);
      SearchDone(t, k, 2, 1, 2);
    }
  }

  /** A packet for k.0.0.0, as a little-endian host with such a table sees it. */
  lemma Forwarded(cfg: Config, k: Byte) returns (p: Packet)
    requires cfg.host == LittleEndian && ThreeHosts(cfg.rtable) && 1 <= k <= 2
    ensures Classify(cfg, p) == Accepted(cfg.rtable[3 - k])
  {
    hide EtherType, Verifies, Ttl, Protocol, DestIp, IcmpType, BestRoute;
    var d := Datagram([k, 0, 0, 0]);
    p := Packet(34, d, 0);
    HostRoute(cfg.rtable, k);
    DecodeFour(LittleEndian, k, 0, 0, 0);
    assert Destination(cfg, d) == k;
  }

  /** Packets for both hosts wait, the answer for one of them comes, and the program never gets out
      of the loop. */
  lemma LoopForever() returns (cfg: Config, p: Packet, q: Packet, a: Packet)
    ensures var st := Run(cfg, [p, q]);
            var e := ArpEntry(ArpSenderIp(a.payload), ArpSenderMac(a.payload));
            && !st.crashed && Classify(cfg, a).ArpAnswer? && AllRoutable(cfg, st.waiting)
            && |st.waiting| == 2 && RouteOf(cfg, st.waiting[0].payload).nextHop == e.ip
            && forall n: nat :: Iterate(cfg, st.arp + [e], n, st.waiting, st.sent).0 != []
  {
    hide Run, Iterate, Inv, RouteOf, Routable, Queued, Verifies, EtherType, ArpOp, ArpTargetIp;
    var t := [Route(3, [10, 0, 0, 3], UINT_MAX, 0),
              Route(2, [10, 0, 0, 2], UINT_MAX, 1),
              Route(1, [10, 0, 0, 1], UINT_MAX, 1)];
    cfg := Config(LittleEndian, t, _ => Zeros(6), _ => [10, 0, 0, 9]);
    p := Forwarded(cfg, 2);
    q := Forwarded(cfg, 1);
    var b := AnswerAbout([10, 0, 0, 9], [10, 0, 0, 2]);
    a := Packet(HEADERS_LEN, b, 1);
    assert Classify(cfg, a).ArpAnswer?;
    hide Classify;
    TwoHops(cfg, p, q, a);
    FirstTwo(cfg, p, q);
    ReleaseIsDirect(cfg, p, Zeros(6));
  }
}
