/** The router over whole runs: what has been sent, to whom, and in which order, as a function
    of the packets received. */
module RouterRuns {
  import opened Options
  import opened Bytes
  import opened Headers
  import opened Routes
  import opened Router

  /** The state after receiving `es`, from the start.  In every reachable state a waiting packet has
      a route, a valid header with a hop left, and no known MAC address. */
  function Run(cfg: Config, es: seq<Packet>): (st: State)
    ensures Inv(cfg, st)
  {
    if es == [] then INITIAL
    else
      var before := Run(cfg, es[..|es| - 1]);
      StepKeepsInv(cfg, before, es[|es| - 1]);
      Step(cfg, before, es[|es| - 1])
  }

  /** The packets received before the first one whose route lookup leaves the table. */
  function Handled(cfg: Config, es: seq<Packet>): (h: seq<Packet>)
    ensures h <= es
    ensures forall i :: 0 <= i < |h| ==> !Classify(cfg, h[i]).Crash?
    ensures |h| < |es| ==> Classify(cfg, es[|h|]).Crash?
  {
    if es == [] then []
    else
      var n := |es| - 1;
      var h := Handled(cfg, es[..n]);
      if |h| < n || Classify(cfg, es[n]).Crash? then h else es
  }

  /** The router is dead exactly when some packet was left unhandled. */
  lemma {:induction false} CrashedIff(cfg: Config, es: seq<Packet>)
    ensures Run(cfg, es).crashed <==> |Handled(cfg, es)| < |es|
  {
    hide Classify, Inv;
    if es != [] {
      CrashedIff(cfg, es[..|es| - 1]);
      StepCrashes(cfg, Run(cfg, es[..|es| - 1]), es[|es| - 1]);
    }
  }

  lemma StepCrashes(cfg: Config, st: State, p: Packet)
    requires Inv(cfg, st)
    ensures Step(cfg, st, p).crashed <==> st.crashed || Classify(cfg, p).Crash?
    ensures st.crashed || Classify(cfg, p).Crash? ==> Step(cfg, st, p) == st.(crashed := true)
  {
    hide Classify, Inv;
  }

  /** How a run of at least one packet ends: either the last packet was handled like all the
      others, or the router was or is now dead. */
  lemma LastStep(cfg: Config, es: seq<Packet>)
    requires es != []
    ensures var n := |es| - 1; var before, p := Run(cfg, es[..n]), es[n];
            if before.crashed || Classify(cfg, p).Crash? then
              Run(cfg, es) == before.(crashed := true) && Handled(cfg, es) == Handled(cfg, es[..n])
            else
              Inv(cfg, before) && Run(cfg, es) == Step(cfg, before, p)
              && Handled(cfg, es) == es[..n] + [p] && Handled(cfg, es[..n]) == es[..n]
  {
    hide *;
    var n := |es| - 1;
    RunLast(cfg, es);
    HandledLast(cfg, es);
    CrashedIff(cfg, es[..n]);
    StepCrashes(cfg, Run(cfg, es[..n]), es[n]);
    WholePrefix(Handled(cfg, es[..n]), es[..n]);
    SplitLast(es);
  }

  lemma WholePrefix(h: seq<Packet>, s: seq<Packet>)
    requires h <= s
    ensures |h| == |s| ==> h == s
  {
  }

  lemma SplitLast(es: seq<Packet>)
    requires es != []
    ensures es == es[..|es| - 1] + [es[|es| - 1]]
  {
  }

  lemma RunLast(cfg: Config, es: seq<Packet>)
    requires es != []
    ensures Inv(cfg, Run(cfg, es[..|es| - 1])) && Run(cfg, es) == Step(cfg, Run(cfg, es[..|es| - 1]), es[|es| - 1])
  {
    hide Inv, Step;
  }

  lemma HandledLast(cfg: Config, es: seq<Packet>)
    requires es != []
    ensures var n := |es| - 1; var h := Handled(cfg, es[..n]);
            if |h| < n || Classify(cfg, es[n]).Crash? then Handled(cfg, es) == h
            else Handled(cfg, es) == es && |h| == n
  {
    hide Classify;
  }

  /** After a crash the router is as the handled packets left it. */
  lemma {:induction false} RunIsHandled(cfg: Config, es: seq<Packet>)
    ensures Run(cfg, es) == Run(cfg, Handled(cfg, es)).(crashed := |Handled(cfg, es)| < |es|)
  {
    hide Classify, Step, Inv;
    if es != [] {
      var n := |es| - 1;
      RunIsHandled(cfg, es[..n]);
      CrashedIff(cfg, es);
      LastStep(cfg, es);
      assert es[..n] + [es[n]] == es;
    }
  }

  // ----- what holds in every reachable state -----

  /** The first answer for an address is kept for the rest of the run. */
  lemma {:induction false} AnswersStay(cfg: Config, es: seq<Packet>, more: seq<Packet>, ip: Ip4)
    requires SearchArp(Run(cfg, es).arp, ip).Some?
    ensures SearchArp(Run(cfg, es + more).arp, ip) == SearchArp(Run(cfg, es).arp, ip)
  {
    hide *;
    if more == [] {
      assert es + more == es;
    } else {
      var n := |more| - 1;
      AnswersStay(cfg, es, more[..n], ip);
      LastOfMore(es, more);
      RunLast(cfg, es + more);
      StepKeepsAnswers(cfg, Run(cfg, es + more[..n]), more[n], ip);
    }
  }

  lemma LastOfMore(es: seq<Packet>, more: seq<Packet>)
    requires more != []
    ensures var all := es + more;
            all[..|all| - 1] == es + more[..|more| - 1] && all[|all| - 1] == more[|more| - 1]
  {
  }

  lemma StepKeepsAnswers(cfg: Config, st: State, p: Packet, ip: Ip4)
    requires Inv(cfg, st) && SearchArp(st.arp, ip).Some?
    ensures SearchArp(Step(cfg, st, p).arp, ip) == SearchArp(st.arp, ip)
  {
    hide Classify, SearchArp, Inv, Held, Released;
    SearchArpAppend(st.arp, ArpEntry(ArpSenderIp(p.payload), ArpSenderMac(p.payload)), ip);
  }

  /** In every reachable state, and for every ARP answer received in it, the loop of
      `search_queue` as written ends if and only if all packets that wait, wait for the address
      that answers. */
  lemma AnswerEndsLoopIff(cfg: Config, es: seq<Packet>, p: Packet)
    requires !Run(cfg, es).crashed && Classify(cfg, p).ArpAnswer?
    ensures var st := Run(cfg, es); var arp := st.arp + [ArpEntry(ArpSenderIp(p.payload), ArpSenderMac(p.payload))];
            && AllRoutable(cfg, st.waiting)
            && ((exists n: nat :: Iterate(cfg, arp, n, st.waiting, st.sent).0 == []) <==>
                forall i :: 0 <= i < |st.waiting| ==>
                  RouteOf(cfg, st.waiting[i].payload).nextHop == ArpSenderIp(p.payload))
  {
    hide Classify, Run, Iterate, Held, Released, Routable, RouteOf, EtherType, Verifies, Ttl, SearchArp;
    var st := Run(cfg, es);
    var e := ArpEntry(ArpSenderIp(p.payload), ArpSenderMac(p.payload));
    var arp := st.arp + [e];
    HeldWaitsRightly(cfg, st, e);
    LoopEndsIff(cfg, arp, st.waiting, st.sent, Held(cfg, arp, st.waiting));
    HeldNothing(cfg, arp, st.waiting);
    forall i | 0 <= i < |st.waiting|
      ensures Resolved(cfg, arp, st.waiting[i].payload).Some? <==>
              RouteOf(cfg, st.waiting[i].payload).nextHop == ArpSenderIp(p.payload)
    {
      assert WaitsRightly(cfg, st.arp, st.waiting[i]);
      SearchArpAppend(st.arp, e, RouteOf(cfg, st.waiting[i].payload).nextHop);
    }
  }

  /** The packet gets as far as the route lookup. */
  predicate LookedUp(cfg: Config, p: Packet) {
    var b := p.payload;
    EtherType(b) == ETHERTYPE_IP && Verifies(b) && Ttl(b) >= 2
    && !(Protocol(b) == IPPROTO_ICMP && IcmpType(b) == ICMP_ECHO && DestIp(b) == cfg.ip(p.interface))
  }

  /** On any table, the packets that make the lookup leave it are exactly the forwardable ones whose
      masked destination is at or above the prefix of every entry on the way of a binary search for
      position 0. */
  lemma CrashExactly(cfg: Config, p: Packet)
    ensures var t, dest := cfg.rtable, Destination(cfg, p.payload);
            Classify(cfg, p).Crash? <==>
            LookedUp(cfg, p) && forall j :: 0 <= j < |t| && OnPath(0, 0, |t| - 1, j) ==> AtOrBelow(t[j], dest)
  {
    hide Verifies, BestRoute, Destination, OnPath, AtOrBelow;
    LeavesTableIff(cfg.rtable, Destination(cfg, p.payload));
  }

  /** On a sorted table whose masks are ones followed by zeros, these are the ones with a destination
      that is not below the first prefix. */
  lemma CrashOnPrefixTable(cfg: Config, p: Packet)
    requires Sorted(cfg.rtable) && PrefixTable(cfg.rtable)
    ensures Classify(cfg, p).Crash? <==>
            LookedUp(cfg, p) && (|cfg.rtable| == 0 || cfg.rtable[0].prefix <= Destination(cfg, p.payload))
  {
    hide Verifies, BestRoute, Destination, Sorted, PrefixTable;
    OutOfBoundsExactly(cfg.rtable, Destination(cfg, p.payload));
  }

  // ----- the flow to one next hop -----

  /** The received packets that the router undertakes to forward to `hop`. */
  function AcceptedFor(cfg: Config, hop: Ip4, es: seq<Packet>): (a: seq<Packet>)
    ensures AllAccepted(cfg, a)
    ensures forall i :: 0 <= i < |a| ==> Classify(cfg, a[i]).route.nextHop == hop
  {
    if es == [] then []
    else
      var n := |es| - 1;
      AcceptedFor(cfg, hop, es[..n]) +
      match Classify(cfg, es[n])
      case Accepted(r) => if r.nextHop == hop then [es[n]] else []
      case _ => []
  }

  ghost predicate AllAccepted(cfg: Config, a: seq<Packet>) {
    forall i :: 0 <= i < |a| ==> Classify(cfg, a[i]).Accepted?
  }

  /** All of them as they would leave if the MAC address of the next hop had always been known. */
  function DirectAll(cfg: Config, mac: Mac, a: seq<Packet>): seq<Packet>
    requires AllAccepted(cfg, a)
  {
    seq(|a|, i requires 0 <= i < |a| => Direct(cfg, a[i], Classify(cfg, a[i]).route, mac))
  }

  /** All of them as they wait. */
  function QueuedAll(cfg: Config, a: seq<Packet>): seq<Packet>
    requires AllAccepted(cfg, a)
  {
    seq(|a|, i requires 0 <= i < |a| => Queued(a[i], Classify(cfg, a[i]).route))
  }

  predicate GoesTo(cfg: Config, hop: Ip4, b: Buffer) {
    Routable(cfg, b) && RouteOf(cfg, b).nextHop == hop
  }

  /** The packets of a queue bound for `hop`. */
  function WaitingFor(cfg: Config, hop: Ip4, w: seq<Packet>): (v: seq<Packet>)
    ensures AllRoutable(cfg, v)
  {
    if w == [] then []
    else
      var n := |w| - 1;
      WaitingFor(cfg, hop, w[..n]) + if GoesTo(cfg, hop, w[n].payload) then [w[n]] else []
  }

  /** The forwarded packets among those sent that are bound for `hop`. */
  function ForwardedFor(cfg: Config, hop: Ip4, sent: seq<Output>): seq<Packet> {
    if sent == [] then []
    else
      var n := |sent| - 1;
      ForwardedFor(cfg, hop, sent[..n]) +
      if sent[n].kind == Forward && GoesTo(cfg, hop, sent[n].packet.payload) then [sent[n].packet] else []
  }

  /** What is claimed of one next hop: while its MAC address is unknown everything accepted for it
      waits, in order; once it is known everything has been sent to it, in order, as if the
      address had been known from the start. */
  ghost predicate FlowHolds(cfg: Config, hop: Ip4, st: State, a: seq<Packet>)
    requires AllAccepted(cfg, a)
  {
    match SearchArp(st.arp, hop)
    case None => ForwardedFor(cfg, hop, st.sent) == [] && WaitingFor(cfg, hop, st.waiting) == QueuedAll(cfg, a)
    case Some(mac) =>
      ForwardedFor(cfg, hop, st.sent) == DirectAll(cfg, mac, a) && WaitingFor(cfg, hop, st.waiting) == []
  }

  lemma {:induction false} ForwardedAppend(cfg: Config, hop: Ip4, s: seq<Output>, t: seq<Output>)
    ensures ForwardedFor(cfg, hop, s + t) == ForwardedFor(cfg, hop, s) + ForwardedFor(cfg, hop, t)
  {
    hide GoesTo;
    if t == [] {
      assert s + t == s;
    } else {
      var n := |t| - 1;
      assert (s + t)[..|s + t| - 1] == s + t[..n];
      ForwardedAppend(cfg, hop, s, t[..n]);
    }
  }

  lemma ForwardedOne(cfg: Config, hop: Ip4, s: seq<Output>, o: Output)
    ensures ForwardedFor(cfg, hop, s + [o]) ==
            ForwardedFor(cfg, hop, s) +
            if o.kind == Forward && GoesTo(cfg, hop, o.packet.payload) then [o.packet] else []
  {
    assert (s + [o])[..|s|] == s;
  }

  lemma WaitingOne(cfg: Config, hop: Ip4, w: seq<Packet>, q: Packet)
    ensures WaitingFor(cfg, hop, w + [q]) == WaitingFor(cfg, hop, w) + if GoesTo(cfg, hop, q.payload) then [q] else []
  {
    assert (w + [q])[..|w|] == w;
  }

  /** The packets of a flow, all released with the same MAC address. */
  function ReleaseAll(cfg: Config, w: seq<Packet>, mac: Mac): seq<Packet>
    requires AllRoutable(cfg, w)
  {
    seq(|w|, i requires 0 <= i < |w| => Release(cfg, w[i], mac))
  }

  lemma PassLast(cfg: Config, arp: seq<ArpEntry>, w: seq<Packet>)
    requires AllRoutable(cfg, w) && w != []
    ensures var n := |w| - 1; AllRoutable(cfg, w[..n]) && Routable(cfg, w[n].payload)
    ensures var n := |w| - 1;
            match Resolved(cfg, arp, w[n].payload)
            case Some(mac) =>
              && Released(cfg, arp, w) == Released(cfg, arp, w[..n]) + [Output(Forward, Release(cfg, w[n], mac))]
              && Held(cfg, arp, w) == Held(cfg, arp, w[..n])
            case None =>
              && Released(cfg, arp, w) == Released(cfg, arp, w[..n])
              && Held(cfg, arp, w) == Held(cfg, arp, w[..n]) + [w[n]]
  {
    hide Resolved, Routable, Release;
  }

  /** While its MAC address is unknown a pass over the queue leaves the flow to a hop alone. */
  lemma {:induction false} PassKeepsFlow(cfg: Config, arp: seq<ArpEntry>, hop: Ip4, w: seq<Packet>)
    requires AllRoutable(cfg, w) && SearchArp(arp, hop).None?
    ensures WaitingFor(cfg, hop, Held(cfg, arp, w)) == WaitingFor(cfg, hop, w)
    ensures ForwardedFor(cfg, hop, Released(cfg, arp, w)) == []
  {
    hide Routable, RouteOf, Release, SearchArp, Released, Held, ForwardedFor;
    if w == [] {
      NothingToPass(cfg, arp, hop);
    } else {
      var n := |w| - 1;
      PassLast(cfg, arp, w);
      PassKeepsFlow(cfg, arp, hop, w[..n]);
      match Resolved(cfg, arp, w[n].payload)
      case Some(mac) =>
        ReleaseRoute(cfg, w[n], mac);
        ForwardedOne(cfg, hop, Released(cfg, arp, w[..n]), Output(Forward, Release(cfg, w[n], mac)));
      case None =>
        WaitingOne(cfg, hop, Held(cfg, arp, w[..n]), w[n]);
    }
  }

  lemma NothingToPass(cfg: Config, arp: seq<ArpEntry>, hop: Ip4)
    ensures Held(cfg, arp, []) == [] && ForwardedFor(cfg, hop, Released(cfg, arp, [])) == []
  {
  }

  /** Once it is known, a pass sends the whole flow. */
  lemma {:induction false} PassSendsFlow(cfg: Config, arp: seq<ArpEntry>, hop: Ip4, w: seq<Packet>)
    requires AllRoutable(cfg, w) && SearchArp(arp, hop).Some?
    ensures WaitingFor(cfg, hop, Held(cfg, arp, w)) == []
    ensures AllRoutable(cfg, WaitingFor(cfg, hop, w))
    ensures ForwardedFor(cfg, hop, Released(cfg, arp, w))
            == ReleaseAll(cfg, WaitingFor(cfg, hop, w), SearchArp(arp, hop).value)
  {
    hide Routable, RouteOf, Release, SearchArp, Released, Held, ForwardedFor;
    if w == [] {
      NothingToPass(cfg, arp, hop);
    } else {
      var n := |w| - 1;
      PassLast(cfg, arp, w);
      PassSendsFlow(cfg, arp, hop, w[..n]);
      match Resolved(cfg, arp, w[n].payload)
      case Some(mac) =>
        ReleaseRoute(cfg, w[n], mac);
        ForwardedOne(cfg, hop, Released(cfg, arp, w[..n]), Output(Forward, Release(cfg, w[n], mac)));
      case None =>
        WaitingOne(cfg, hop, Held(cfg, arp, w[..n]), w[n]);
    }
  }

  lemma ReleaseRoute(cfg: Config, q: Packet, mac: Mac)
    requires Routable(cfg, q.payload)
    ensures Routable(cfg, Release(cfg, q, mac).payload)
    ensures RouteOf(cfg, Release(cfg, q, mac).payload) == RouteOf(cfg, q.payload)
  {
    assert DestIp(Release(cfg, q, mac).payload) == DestIp(q.payload);
  }

  lemma AcceptedOne(cfg: Config, hop: Ip4, es: seq<Packet>, p: Packet)
    ensures var a := AcceptedFor(cfg, hop, es);
            AcceptedFor(cfg, hop, es + [p]) ==
            if Classify(cfg, p).Accepted? && Classify(cfg, p).route.nextHop == hop then a + [p] else a
  {
    hide Classify;
    assert (es + [p])[..|es|] == es;
  }

  lemma AcceptedRoute(cfg: Config, p: Packet, mac: Mac, hop: Ip4)
    requires Classify(cfg, p).Accepted?
    ensures var r := Classify(cfg, p).route;
            GoesTo(cfg, hop, Queued(p, r).payload) <==> r.nextHop == hop
    ensures var r := Classify(cfg, p).route;
            GoesTo(cfg, hop, Direct(cfg, p, r, mac).payload) <==> r.nextHop == hop
  {
    hide Aged, SetEther, Verifies;
    var r := Classify(cfg, p).route;
    QueuedRoute(cfg, p, r);
    DirectRoute(cfg, p, r, mac);
  }

  lemma FlowStepSent(cfg: Config, hop: Ip4, st: State, a: seq<Packet>, p: Packet, mac: Mac)
    requires AllAccepted(cfg, a) && FlowHolds(cfg, hop, st, a)
    requires Classify(cfg, p).Accepted? && SearchArp(st.arp, Classify(cfg, p).route.nextHop) == Some(mac)
    ensures var r := Classify(cfg, p).route; var a' := if r.nextHop == hop then a + [p] else a;
            AllAccepted(cfg, a') && FlowHolds(cfg, hop, Send(st, Output(Forward, Direct(cfg, p, r, mac))), a')
  {
    hide Classify, GoesTo, Direct, Queued, SearchArp, ForwardedFor, WaitingFor;
    var r := Classify(cfg, p).route;
    AcceptedRoute(cfg, p, mac, hop);
    ForwardedOne(cfg, hop, st.sent, Output(Forward, Direct(cfg, p, r, mac)));
    if r.nextHop == hop {
      assert DirectAll(cfg, mac, a + [p]) == DirectAll(cfg, mac, a) + [Direct(cfg, p, r, mac)];
    }
  }

  lemma FlowStepQueued(cfg: Config, hop: Ip4, st: State, a: seq<Packet>, p: Packet, o: Output)
    requires AllAccepted(cfg, a) && FlowHolds(cfg, hop, st, a) && o.kind != Forward
    requires Classify(cfg, p).Accepted? && SearchArp(st.arp, Classify(cfg, p).route.nextHop).None?
    ensures var r := Classify(cfg, p).route; var a' := if r.nextHop == hop then a + [p] else a;
            AllAccepted(cfg, a') && FlowHolds(cfg, hop, Send(st, o).(waiting := st.waiting + [Queued(p, r)]), a')
  {
    hide Classify, GoesTo, Direct, Queued, SearchArp, ForwardedFor, WaitingFor;
    var r := Classify(cfg, p).route;
    AcceptedRoute(cfg, p, Zeros(6), hop);
    ForwardedOne(cfg, hop, st.sent, o);
    WaitingOne(cfg, hop, st.waiting, Queued(p, r));
    if r.nextHop == hop {
      assert QueuedAll(cfg, a + [p]) == QueuedAll(cfg, a) + [Queued(p, r)];
    }
  }

  lemma FlowStepAccepted(cfg: Config, hop: Ip4, st: State, a: seq<Packet>, p: Packet)
    requires AllAccepted(cfg, a) && FlowHolds(cfg, hop, st, a) && Classify(cfg, p).Accepted?
    ensures var r := Classify(cfg, p).route; var a' := if r.nextHop == hop then a + [p] else a;
            AllAccepted(cfg, a') && FlowHolds(cfg, hop, Dispatch(cfg, st, p, r), a')
  {
    hide Classify, FlowHolds, AllAccepted, Direct, Queued, SearchArp, ArpRequestPacket;
    var r := Classify(cfg, p).route;
    match SearchArp(st.arp, r.nextHop)
    case Some(mac) => FlowStepSent(cfg, hop, st, a, p, mac);
    case None => FlowStepQueued(cfg, hop, st, a, p, Output(ArpRequest, ArpRequestPacket(cfg, r)));
  }

  lemma FlowStepLearn(cfg: Config, hop: Ip4, st: State, a: seq<Packet>, e: ArpEntry)
    requires AllAccepted(cfg, a) && FlowHolds(cfg, hop, st, a) && AllRoutable(cfg, st.waiting)
    ensures FlowHolds(cfg, hop, Learn(cfg, st, e), a)
  {
    hide Classify, GoesTo, Queued, Direct, SearchArp, Release, Routable;
    var arp := st.arp + [e];
    SearchArpAppend(st.arp, e, hop);
    ForwardedAppend(cfg, hop, st.sent, Released(cfg, arp, st.waiting));
    if SearchArp(arp, hop).None? {
      PassKeepsFlow(cfg, arp, hop, st.waiting);
    } else {
      PassSendsFlow(cfg, arp, hop, st.waiting);
      var forwarded := ReleaseAll(cfg, WaitingFor(cfg, hop, st.waiting), SearchArp(arp, hop).value);
      if SearchArp(st.arp, hop).None? {
        forall i | 0 <= i < |a|
          ensures forwarded[i] == Direct(cfg, a[i], Classify(cfg, a[i]).route, e.mac)
        {
          assert WaitingFor(cfg, hop, st.waiting)[i] == QueuedAll(cfg, a)[i];
          ReleaseIsDirect(cfg, a[i], e.mac);
        }
        assert forwarded == DirectAll(cfg, e.mac, a);
      } else {
        assert forwarded == [];
      }
    }
  }

  lemma FlowStepOther(cfg: Config, hop: Ip4, st: State, a: seq<Packet>, o: Output)
    requires AllAccepted(cfg, a) && FlowHolds(cfg, hop, st, a) && o.kind != Forward
    ensures FlowHolds(cfg, hop, Send(st, o), a)
  {
    ForwardedOne(cfg, hop, st.sent, o);
  }

  /** The theorem on flows.  In every run and for every next hop: nothing accepted is lost,
      duplicated or reordered, and what waited leaves byte for byte as if it never had. */
  lemma {:induction false} Flow(cfg: Config, hop: Ip4, es: seq<Packet>)
    ensures FlowHolds(cfg, hop, Run(cfg, es), AcceptedFor(cfg, hop, Handled(cfg, es)))
  {
    hide *;
    if es == [] {
      FlowInitially(cfg, hop);
    } else {
      var n := |es| - 1;
      Flow(cfg, hop, es[..n]);
      LastStep(cfg, es);
      var before, a := Run(cfg, es[..n]), AcceptedFor(cfg, hop, Handled(cfg, es[..n]));
      if before.crashed || Classify(cfg, es[n]).Crash? {
        FlowUnlessCrashed(cfg, hop, before, a);
      } else {
        AcceptedOne(cfg, hop, es[..n], es[n]);
        FlowStep(cfg, hop, before, a, es[n]);
      }
    }
  }

  lemma FlowInitially(cfg: Config, hop: Ip4)
    ensures FlowHolds(cfg, hop, Run(cfg, []), AcceptedFor(cfg, hop, Handled(cfg, [])))
  {
  }

  lemma FlowUnlessCrashed(cfg: Config, hop: Ip4, st: State, a: seq<Packet>)
    requires AllAccepted(cfg, a) && FlowHolds(cfg, hop, st, a)
    ensures FlowHolds(cfg, hop, st.(crashed := true), a)
  {
  }

  lemma FlowStep(cfg: Config, hop: Ip4, st: State, a: seq<Packet>, p: Packet)
    requires Inv(cfg, st) && !st.crashed && AllAccepted(cfg, a) && FlowHolds(cfg, hop, st, a)
    requires !Classify(cfg, p).Crash?
    ensures var a' := if Classify(cfg, p).Accepted? && Classify(cfg, p).route.nextHop == hop then a + [p] else a;
            AllAccepted(cfg, a') && FlowHolds(cfg, hop, Step(cfg, st, p), a')
  {
    hide Classify, FlowHolds, Dispatch, Learn, Answer;
    match Classify(cfg, p)
    case Accepted(r) =>
      FlowStepAccepted(cfg, hop, st, a, p);
    case ArpAnswer =>
      HeldWaitsRightly(cfg, st, ArpEntry(ArpSenderIp(p.payload), ArpSenderMac(p.payload)));
      FlowStepLearn(cfg, hop, st, a, ArpEntry(ArpSenderIp(p.payload), ArpSenderMac(p.payload)));
    case Echo =>
      AnswerKind(cfg, p, EchoReply);
      FlowStepOther(cfg, hop, st, a, Answer(cfg, p, EchoReply));
    case Expired =>
      AnswerKind(cfg, p, TimeExceeded);
      FlowStepOther(cfg, hop, st, a, Answer(cfg, p, TimeExceeded));
    case Unroutable =>
      AnswerKind(cfg, p, Unreachable);
      FlowStepOther(cfg, hop, st, a, Answer(cfg, p, Unreachable));
    case ArpAsk =>
      AnswerKind(cfg, p, ArpReply);
      FlowStepOther(cfg, hop, st, a, Answer(cfg, p, ArpReply));
    case _ =>
  }

  lemma AnswerKind(cfg: Config, p: Packet, kind: Kind)
    ensures Answer(cfg, p, kind).kind == kind
  {
  }

  // ----- the ARP requests -----

  /** The requests for the MAC address of `hop` among the packets sent. */
  function RequestsFor(hop: Ip4, sent: seq<Output>): seq<Packet> {
    if sent == [] then []
    else
      var n := |sent| - 1;
      RequestsFor(hop, sent[..n])
      + if sent[n].kind == ArpRequest && ArpTargetIp(sent[n].packet.payload) == hop then [sent[n].packet] else []
  }

  /** One request for each of the packets. */
  function RequestAll(cfg: Config, a: seq<Packet>): seq<Packet>
    requires AllAccepted(cfg, a)
  {
    seq(|a|, i requires 0 <= i < |a| => ArpRequestPacket(cfg, Classify(cfg, a[i]).route))
  }

  lemma RequestOne(hop: Ip4, s: seq<Output>, o: Output)
    ensures RequestsFor(hop, s + [o]) ==
            RequestsFor(hop, s) +
            if o.kind == ArpRequest && ArpTargetIp(o.packet.payload) == hop then [o.packet] else []
  {
    assert (s + [o])[..|s|] == s;
  }

  lemma RequestTarget(cfg: Config, r: Route)
    ensures ArpTargetIp(ArpRequestPacket(cfg, r).payload) == r.nextHop
  {
    hide SetArp, SetEther, ArpTargetIp;
    var mac := cfg.mac(r.interface);
    ArpRoundTrip(SetEther(Zeros(MAX_LEN), BROADCAST, mac, ETHERTYPE_ARP),
                 ARPOP_REQUEST, Zeros(6), r.nextHop, mac, cfg.ip(r.interface));
  }

  lemma {:induction false} ReleasedRequestsNothing(
      cfg: Config, arp: seq<ArpEntry>, hop: Ip4, s: seq<Output>, w: seq<Packet>)
    requires AllRoutable(cfg, w)
    ensures RequestsFor(hop, s + Released(cfg, arp, w)) == RequestsFor(hop, s)
  {
    hide Release, Resolved, Routable, ArpTargetIp;
    if w == [] {
      assert s + [] == s;
    } else {
      var n := |w| - 1;
      ReleasedRequestsNothing(cfg, arp, hop, s, w[..n]);
      PassLast(cfg, arp, w);
      match Resolved(cfg, arp, w[n].payload)
      case Some(mac) =>
        var o := Output(Forward, Release(cfg, w[n], mac));
        RequestOne(hop, s + Released(cfg, arp, w[..n]), o);
        assert s + Released(cfg, arp, w) == s + Released(cfg, arp, w[..n]) + [o];
      case None =>
    }
  }

  /** A step asks for `hop` exactly when it accepts a packet for it while its MAC address is unknown. */
  lemma RequestStep(cfg: Config, hop: Ip4, st: State, p: Packet)
    requires Inv(cfg, st) && !st.crashed
    ensures RequestsFor(hop, Step(cfg, st, p).sent) ==
            if Classify(cfg, p).Accepted? && Classify(cfg, p).route.nextHop == hop && SearchArp(st.arp, hop).None?
            then RequestsFor(hop, st.sent) + [ArpRequestPacket(cfg, Classify(cfg, p).route)]
            else RequestsFor(hop, st.sent)
  {
    hide Classify, Answer, ArpRequestPacket, SearchArp, Direct, Queued, Held, Released, RequestsFor, ArpTargetIp;
    match Classify(cfg, p)
    case Accepted(r) =>
      RequestTarget(cfg, r);
      match SearchArp(st.arp, r.nextHop) {
        case Some(mac) => RequestOne(hop, st.sent, Output(Forward, Direct(cfg, p, r, mac)));
        case None => RequestOne(hop, st.sent, Output(ArpRequest, ArpRequestPacket(cfg, r)));
      }
    case ArpAnswer =>
      var e := ArpEntry(ArpSenderIp(p.payload), ArpSenderMac(p.payload));
      HeldWaitsRightly(cfg, st, e);
      ReleasedRequestsNothing(cfg, st.arp + [e], hop, st.sent, st.waiting);
    case Echo => AnswerAsksNothing(cfg, hop, st, p, EchoReply);
    case Expired => AnswerAsksNothing(cfg, hop, st, p, TimeExceeded);
    case Unroutable => AnswerAsksNothing(cfg, hop, st, p, Unreachable);
    case ArpAsk => AnswerAsksNothing(cfg, hop, st, p, ArpReply);
    case _ =>
  }

  lemma AnswerAsksNothing(cfg: Config, hop: Ip4, st: State, p: Packet, kind: Kind)
    requires kind != ArpRequest
    ensures RequestsFor(hop, Send(st, Answer(cfg, p, kind)).sent) == RequestsFor(hop, st.sent)
  {
    hide RequestsFor, ArpTargetIp;
    AnswerKind(cfg, p, kind);
    RequestOne(hop, st.sent, Answer(cfg, p, kind));
  }

  /** In every run, as long as the MAC address of a next hop is unknown, exactly one request for
      it has been sent per packet accepted for it. */
  lemma {:induction false} Requests(cfg: Config, hop: Ip4, es: seq<Packet>)
    requires SearchArp(Run(cfg, es).arp, hop).None?
    ensures RequestsFor(hop, Run(cfg, es).sent) == RequestAll(cfg, AcceptedFor(cfg, hop, Handled(cfg, es)))
  {
    hide *;
    if es == [] {
      NoRequests(cfg, hop);
    } else {
      var n := |es| - 1;
      LastStep(cfg, es);
      UnknownBefore(cfg, hop, es);
      Requests(cfg, hop, es[..n]);
      var before, p := Run(cfg, es[..n]), es[n];
      if !(before.crashed || Classify(cfg, p).Crash?) {
        RequestStep(cfg, hop, before, p);
        AcceptedOne(cfg, hop, es[..n], p);
        if Classify(cfg, p).Accepted? {
          RequestAllOne(cfg, hop, es[..n], p);
        }
      }
    }
  }

  lemma NoRequests(cfg: Config, hop: Ip4)
    ensures RequestsFor(hop, Run(cfg, []).sent) == RequestAll(cfg, AcceptedFor(cfg, hop, Handled(cfg, [])))
  {
  }

  lemma RequestAllOne(cfg: Config, hop: Ip4, es: seq<Packet>, p: Packet)
    requires Classify(cfg, p).Accepted?
    ensures var a := AcceptedFor(cfg, hop, es);
            AllAccepted(cfg, a + [p])
            && RequestAll(cfg, a + [p]) == RequestAll(cfg, a) + [ArpRequestPacket(cfg, Classify(cfg, p).route)]
  {
    hide Classify, ArpRequestPacket, AcceptedFor;
  }

  lemma UnknownBefore(cfg: Config, hop: Ip4, es: seq<Packet>)
    requires es != [] && SearchArp(Run(cfg, es).arp, hop).None?
    ensures SearchArp(Run(cfg, es[..|es| - 1]).arp, hop).None?
  {
    hide Run, SearchArp;
    var n := |es| - 1;
    assert es[..n] + [es[n]] == es;
    if SearchArp(Run(cfg, es[..n]).arp, hop).Some? {
      AnswersStay(cfg, es[..n], [es[n]], hop);
    }
  }

  /** Once it is known, nobody asks for it any more. */
  lemma {:induction false} AskedNoMore(cfg: Config, hop: Ip4, es: seq<Packet>, more: seq<Packet>)
    requires SearchArp(Run(cfg, es).arp, hop).Some?
    ensures RequestsFor(hop, Run(cfg, es + more).sent) == RequestsFor(hop, Run(cfg, es).sent)
  {
    hide Classify, Run, Handled, Step, Inv, SearchArp, RequestsFor, ArpRequestPacket;
    if more == [] {
      assert es + more == es;
    } else {
      var n := |more| - 1;
      AskedNoMore(cfg, hop, es, more[..n]);
      AnswersStay(cfg, es, more[..n], hop);
      LastOfMore(es, more);
      LastStep(cfg, es + more);
      var before := Run(cfg, es + more[..n]);
      if !(before.crashed || Classify(cfg, more[n]).Crash?) {
        RequestStep(cfg, hop, before, more[n]);
      }
    }
  }

  // ----- the answers -----

  /** The kind of answer a received packet calls for, if any. */
  function AnswerDue(cfg: Config, p: Packet): Option<Kind> {
    match Classify(cfg, p)
    case Echo => Some(EchoReply)
    case Expired => Some(TimeExceeded)
    case Unroutable => Some(Unreachable)
    case ArpAsk => Some(ArpReply)
    case _ => None
  }

  /** The answers due to `es`, in order. */
  function AnswersDue(cfg: Config, es: seq<Packet>): seq<Output> {
    if es == [] then []
    else
      var n := |es| - 1;
      AnswersDue(cfg, es[..n]) +
      match AnswerDue(cfg, es[n])
      case Some(kind) => [Answer(cfg, es[n], kind)]
      case None => []
  }

  /** The answers among the packets sent. */
  function AnswersSent(sent: seq<Output>): seq<Output> {
    if sent == [] then []
    else
      var n := |sent| - 1;
      AnswersSent(sent[..n]) + if sent[n].kind in {Forward, ArpRequest} then [] else [sent[n]]
  }

  lemma AnswersOne(s: seq<Output>, o: Output)
    ensures AnswersSent(s + [o]) == AnswersSent(s) + if o.kind in {Forward, ArpRequest} then [] else [o]
  {
    assert (s + [o])[..|s|] == s;
  }

  lemma {:induction false} ReleasedAnswersNothing(cfg: Config, arp: seq<ArpEntry>, s: seq<Output>, w: seq<Packet>)
    requires AllRoutable(cfg, w)
    ensures AnswersSent(s + Released(cfg, arp, w)) == AnswersSent(s)
  {
    hide Release, Resolved, Routable;
    if w == [] {
      assert s + [] == s;
    } else {
      var n := |w| - 1;
      ReleasedAnswersNothing(cfg, arp, s, w[..n]);
      match Resolved(cfg, arp, w[n].payload)
      case Some(mac) =>
        var o := Output(Forward, Release(cfg, w[n], mac));
        AnswersOne(s + Released(cfg, arp, w[..n]), o);
        assert s + Released(cfg, arp, w) == s + Released(cfg, arp, w[..n]) + [o];
      case None =>
        assert Released(cfg, arp, w) == Released(cfg, arp, w[..n]);
    }
  }

  lemma AnswersStep(cfg: Config, st: State, p: Packet)
    requires Inv(cfg, st) && !st.crashed
    ensures AnswersSent(Step(cfg, st, p).sent) ==
            AnswersSent(st.sent) + match AnswerDue(cfg, p) { case Some(kind) => [Answer(cfg, p, kind)] case None => [] }
  {
    hide Classify, Answer, ArpRequestPacket, SearchArp, Direct, Queued, Held, Released, AnswersSent;
    match Classify(cfg, p)
    case Accepted(r) =>
      match SearchArp(st.arp, r.nextHop) {
        case Some(mac) => AnswersOne(st.sent, Output(Forward, Direct(cfg, p, r, mac)));
        case None => AnswersOne(st.sent, Output(ArpRequest, ArpRequestPacket(cfg, r)));
      }
    case ArpAnswer =>
      var e := ArpEntry(ArpSenderIp(p.payload), ArpSenderMac(p.payload));
      HeldWaitsRightly(cfg, st, e);
      ReleasedAnswersNothing(cfg, st.arp + [e], st.sent, st.waiting);
    case Echo => AnswerGiven(cfg, st, p, EchoReply);
    case Expired => AnswerGiven(cfg, st, p, TimeExceeded);
    case Unroutable => AnswerGiven(cfg, st, p, Unreachable);
    case ArpAsk => AnswerGiven(cfg, st, p, ArpReply);
    case _ =>
  }

  lemma AnswerGiven(cfg: Config, st: State, p: Packet, kind: Kind)
    requires kind != Forward && kind != ArpRequest
    ensures AnswersSent(Send(st, Answer(cfg, p, kind)).sent) == AnswersSent(st.sent) + [Answer(cfg, p, kind)]
  {
    AnswerKind(cfg, p, kind);
    AnswersOne(st.sent, Answer(cfg, p, kind));
  }

  /** In every run the answers sent are exactly the answers due, in order. */
  lemma {:induction false} Answers(cfg: Config, es: seq<Packet>)
    ensures AnswersSent(Run(cfg, es).sent) == AnswersDue(cfg, Handled(cfg, es))
  {
    hide Classify, Step, Inv, Answer, AnswerDue;
    if es != [] {
      var n := |es| - 1;
      Answers(cfg, es[..n]);
      LastStep(cfg, es);
      if !(Run(cfg, es[..n]).crashed || Classify(cfg, es[n]).Crash?) {
        AnswersStep(cfg, Run(cfg, es[..n]), es[n]);
        assert (es[..n] + [es[n]])[..n] == es[..n];
      }
    }
  }

  // ----- conservation -----

  function Count(sent: seq<Output>, kind: Kind): nat {
    if sent == [] then 0 else Count(sent[..|sent| - 1], kind) + if sent[|sent| - 1].kind == kind then 1 else 0
  }

  function IpReceived(es: seq<Packet>): nat {
    if es == [] then 0
    else IpReceived(es[..|es| - 1]) + if EtherType(es[|es| - 1].payload) == ETHERTYPE_IP then 1 else 0
  }

  function BadChecksums(cfg: Config, es: seq<Packet>): nat {
    if es == [] then 0
    else BadChecksums(cfg, es[..|es| - 1]) + if Classify(cfg, es[|es| - 1]).BadChecksum? then 1 else 0
  }

  lemma CountOne(s: seq<Output>, o: Output, kind: Kind)
    ensures Count(s + [o], kind) == Count(s, kind) + if o.kind == kind then 1 else 0
  {
    assert (s + [o])[..|s|] == s;
  }

  /** A pass over the queue moves packets from the queue to the log. */
  lemma {:induction false} PassConserves(cfg: Config, arp: seq<ArpEntry>, s: seq<Output>, w: seq<Packet>, kind: Kind)
    requires AllRoutable(cfg, w)
    ensures Count(s + Released(cfg, arp, w), kind) + (if kind == Forward then |Held(cfg, arp, w)| else 0)
            == Count(s, kind) + if kind == Forward then |w| else 0
  {
    hide Release, Resolved, Routable;
    if w == [] {
      assert s + [] == s;
    } else {
      var n := |w| - 1;
      PassConserves(cfg, arp, s, w[..n], kind);
      match Resolved(cfg, arp, w[n].payload)
      case Some(mac) =>
        var o := Output(Forward, Release(cfg, w[n], mac));
        CountOne(s + Released(cfg, arp, w[..n]), o, kind);
        assert s + Released(cfg, arp, w) == s + Released(cfg, arp, w[..n]) + [o];
      case None =>
        assert Released(cfg, arp, w) == Released(cfg, arp, w[..n]);
    }
  }

  /** The IPv4 packets of which the router has disposed, or which still wait. */
  function Accounted(cfg: Config, st: State, handled: seq<Packet>): nat {
    Count(st.sent, EchoReply) + Count(st.sent, TimeExceeded) + Count(st.sent, Unreachable)
    + Count(st.sent, Forward) + |st.waiting| + BadChecksums(cfg, handled)
  }

  lemma SendCounts(cfg: Config, st: State, o: Output, h: seq<Packet>)
    ensures Accounted(cfg, Send(st, o), h) ==
            Accounted(cfg, st, h) + if o.kind in {EchoReply, TimeExceeded, Unreachable, Forward} then 1 else 0
  {
    CountOne(st.sent, o, EchoReply);
    CountOne(st.sent, o, TimeExceeded);
    CountOne(st.sent, o, Unreachable);
    CountOne(st.sent, o, Forward);
  }

  lemma LearnCounts(cfg: Config, st: State, e: ArpEntry, h: seq<Packet>)
    requires AllRoutable(cfg, st.waiting)
    ensures Accounted(cfg, Learn(cfg, st, e), h) == Accounted(cfg, st, h)
  {
    hide Routable, Held, Released;
    PassConserves(cfg, st.arp + [e], st.sent, st.waiting, EchoReply);
    PassConserves(cfg, st.arp + [e], st.sent, st.waiting, TimeExceeded);
    PassConserves(cfg, st.arp + [e], st.sent, st.waiting, Unreachable);
    PassConserves(cfg, st.arp + [e], st.sent, st.waiting, Forward);
  }

  lemma StepCounts(cfg: Config, st: State, p: Packet, h: seq<Packet>)
    requires Inv(cfg, st) && !st.crashed && !Classify(cfg, p).Crash?
    ensures Accounted(cfg, Step(cfg, st, p), h + [p]) ==
            Accounted(cfg, st, h) + if EtherType(p.payload) == ETHERTYPE_IP then 1 else 0
  {
    assert (h + [p])[..|h|] == h;
    IpFates(cfg, p);
    hide Classify, Count, IcmpPacket, ArpReplyPacket, ArpRequestPacket;
    hide SearchArp, Direct, Queued, Held, Released, EtherType;
    match Classify(cfg, p)
    case Accepted(r) =>
      match SearchArp(st.arp, r.nextHop) {
        case Some(mac) => SendCounts(cfg, st, Output(Forward, Direct(cfg, p, r, mac)), h);
        case None => SendCounts(cfg, st, Output(ArpRequest, ArpRequestPacket(cfg, r)), h);
      }
    case ArpAnswer =>
      var e := ArpEntry(ArpSenderIp(p.payload), ArpSenderMac(p.payload));
      HeldWaitsRightly(cfg, st, e);
      LearnCounts(cfg, st, e, h);
    case Echo => SendCounts(cfg, st, Answer(cfg, p, EchoReply), h);
    case Expired => SendCounts(cfg, st, Answer(cfg, p, TimeExceeded), h);
    case Unroutable => SendCounts(cfg, st, Answer(cfg, p, Unreachable), h);
    case ArpAsk => SendCounts(cfg, st, Answer(cfg, p, ArpReply), h);
    case _ =>
  }

  lemma IpFates(cfg: Config, p: Packet)
    ensures EtherType(p.payload) == ETHERTYPE_IP <==>
            match Classify(cfg, p) { case ArpAsk => false case ArpAnswer => false case Ignored => false case _ => true }
  {
    hide Verifies, BestRoute, Destination;
  }

  /** Conservation: in every run each IPv4 packet handled is echo-answered, dropped for its
      checksum, reported as expired or unreachable, forwarded, or still waiting. */
  lemma {:induction false} Conservation(cfg: Config, es: seq<Packet>)
    ensures Accounted(cfg, Run(cfg, es), Handled(cfg, es)) == IpReceived(Handled(cfg, es))
  {
    hide *;
    if es == [] {
      NothingAccounted(cfg);
    } else {
      var n := |es| - 1;
      Conservation(cfg, es[..n]);
      LastStep(cfg, es);
      if Run(cfg, es[..n]).crashed || Classify(cfg, es[n]).Crash? {
        CrashCounts(cfg, Run(cfg, es[..n]), Handled(cfg, es[..n]));
      } else {
        StepCounts(cfg, Run(cfg, es[..n]), es[n], es[..n]);
        ReceivedOne(es[..n], es[n]);
      }
    }
  }

  lemma ReceivedOne(es: seq<Packet>, p: Packet)
    ensures IpReceived(es + [p]) == IpReceived(es) + if EtherType(p.payload) == ETHERTYPE_IP then 1 else 0
  {
    assert (es + [p])[..|es|] == es;
  }

  lemma NothingAccounted(cfg: Config)
    ensures Accounted(cfg, Run(cfg, []), Handled(cfg, [])) == IpReceived(Handled(cfg, []))
  {
  }

  lemma CrashCounts(cfg: Config, st: State, h: seq<Packet>)
    ensures Accounted(cfg, st.(crashed := true), h) == Accounted(cfg, st, h)
  {
  }
}
