/** A packet on its way through any number of such routers. */
module Hops {
  import opened Bytes
  import opened Headers
  import opened Routes
  import opened Router

  /** `ps[i + 1]` is what arrives behind the router `cfgs[i]` after it has forwarded `ps[i]` to
      the MAC address `macs[i]`: the links keep the IP header.  Routers may occur repeatedly. */
  ghost predicate IsPath(cfgs: seq<Config>, macs: seq<Mac>, ps: seq<Packet>) {
    && |macs| == |cfgs| && |ps| == |cfgs| + 1
    && forall i :: 0 <= i < |cfgs| ==> IsHop(cfgs[i], macs[i], ps[i], ps[i + 1])
  }

  ghost predicate IsHop(cfg: Config, mac: Mac, p: Packet, q: Packet) {
    && Classify(cfg, p).Accepted?
    && IpHeader(q.payload) == IpHeader(Direct(cfg, p, Classify(cfg, p).route, mac).payload)
  }

  lemma OneHop(cfg: Config, mac: Mac, p: Packet, q: Packet)
    requires IsHop(cfg, mac, p, q)
    ensures Ttl(p.payload) >= 2 && Ttl(q.payload) == Ttl(p.payload) - 1
    ensures Verifies(q.payload) && DestIp(q.payload) == DestIp(p.payload)
  {
    var d := Direct(cfg, p, Classify(cfg, p).route, mac);
    assert Ttl(p.payload) >= 2;
    DirectChanges(cfg, p, mac);
    hide Classify, Direct, Verifies;
    SameHeader(q.payload, d.payload);
    assert DestIp(d.payload) == DestIp(p.payload);
  }

  lemma StartsValid(cfg: Config, mac: Mac, p: Packet, q: Packet)
    requires IsHop(cfg, mac, p, q)
    ensures Verifies(p.payload)
  {
    hide Verifies, Direct;
  }

  lemma SameHeader(a: Buffer, b: Buffer)
    requires IpHeader(a) == IpHeader(b)
    ensures Ttl(a) == Ttl(b) && DestIp(a) == DestIp(b) && (Verifies(a) <==> Verifies(b))
  {
    assert a[22] == IpHeader(a)[8] && b[22] == IpHeader(b)[8];
    assert DestIp(a) == IpHeader(a)[16..] && DestIp(b) == IpHeader(b)[16..];
  }

  /** At every router on the way the TTL has gone down by one per hop, the header checksum of a
      packet that started out valid is valid, and the destination is unchanged. */
  lemma {:induction false} AlongThePath(cfgs: seq<Config>, macs: seq<Mac>, ps: seq<Packet>, i: nat)
    requires IsPath(cfgs, macs, ps) && i <= |cfgs| && Verifies(ps[0].payload)
    ensures Ttl(ps[i].payload) == Ttl(ps[0].payload) - i
    ensures Verifies(ps[i].payload) && DestIp(ps[i].payload) == DestIp(ps[0].payload)
    ensures forall cfg: Config :: !Classify(cfg, ps[i]).BadChecksum?
  {
    hide Classify, Verifies, DestIp, Ttl, IsHop;
    if i > 0 {
      AlongThePath(cfgs, macs, ps, i - 1);
      OneHop(cfgs[i - 1], macs[i - 1], ps[i - 1], ps[i]);
    }
    forall cfg: Config
      ensures !Classify(cfg, ps[i]).BadChecksum?
    {
      ValidIsNotBad(cfg, ps[i]);
    }
  }

  lemma ValidIsNotBad(cfg: Config, p: Packet)
    requires Verifies(p.payload)
    ensures !Classify(cfg, p).BadChecksum?
  {
    hide Verifies;
  }

  /** A packet with TTL t is forwarded at most t - 1 times, through whatever tables and loops. */
  lemma HopLimit(cfgs: seq<Config>, macs: seq<Mac>, ps: seq<Packet>)
    requires IsPath(cfgs, macs, ps)
    ensures |cfgs| <= if Ttl(ps[0].payload) >= 1 then Ttl(ps[0].payload) - 1 else 0
  {
    if |cfgs| > 0 {
      var n := |cfgs| - 1;
      OneHop(cfgs[0], macs[0], ps[0], ps[1]);
      StartsValid(cfgs[0], macs[0], ps[0], ps[1]);
      AlongThePath(cfgs, macs, ps, n);
      OneHop(cfgs[n], macs[n], ps[n], ps[n + 1]);
    }
  }

  // ----- answers to answers -----

  /** A time-exceeded answer keeps the TTL it complains of, so any such router that gets it
      answers it the same way. */
  lemma AnswerIsExpired(a: Config, p: Packet, b: Config, q: Packet)
    requires Classify(a, p).Expired? && q.payload == IcmpPacket(a, p, ICMP_TIME_EXCEEDED).payload
    ensures Classify(b, q).Expired?
  {
    hide BestRoute, Destination, Verifies, Reply, EtherType, IcmpType, Ttl, Protocol;
    ReplyVerifies(p.payload, ICMP_TIME_EXCEEDED, a.mac(p.interface), a.ip(p.interface));
    ReplyContents(p.payload, ICMP_TIME_EXCEEDED, a.mac(p.interface), a.ip(p.interface));
  }

  /** `ps[i + 1]` is what the time-exceeded answer of `cfgs[i]` to `ps[i]` is to the next router. */
  ghost predicate IsVolley(cfgs: seq<Config>, ps: seq<Packet>) {
    && |ps| == |cfgs| + 1
    && forall i :: 0 <= i < |cfgs| ==> ps[i + 1].payload == IcmpPacket(cfgs[i], ps[i], ICMP_TIME_EXCEEDED).payload
  }

  /** An exchange of time-exceeded answers never ends by itself: however many have gone back and
      forth, the next router, in whatever state it is, sends one more. */
  lemma {:induction false} VolleyGoesOn(cfgs: seq<Config>, ps: seq<Packet>, cfg: Config, st: State)
    requires IsVolley(cfgs, ps) && |cfgs| > 0 && Classify(cfgs[0], ps[0]).Expired?
    requires Inv(cfg, st) && !st.crashed
    ensures var last := ps[|cfgs|];
            && Classify(cfg, last).Expired?
            && Step(cfg, st, last).sent ==
               st.sent + [Output(TimeExceeded, IcmpPacket(cfg, last, ICMP_TIME_EXCEEDED))]
  {
    hide Classify, IcmpPacket, Inv, Verifies;
    var n := |cfgs| - 1;
    if n > 0 {
      var front, before := cfgs[..n], ps[..n + 1];
      InitialHolds(cfgs[n]);
      VolleyGoesOn(front, before, cfgs[n], INITIAL);
      assert before[n] == ps[n];
    }
    AnswerIsExpired(cfgs[n], ps[n], cfg, ps[n + 1]);
  }

  lemma InitialHolds(cfg: Config)
    ensures Inv(cfg, INITIAL) && !INITIAL.crashed
  {
  }
}
