/** Two runs in which a subscription is older than its client's connection. */
module PubSubExamples {
  import opened Options
  import opened PubSub
  import opened PubSubHistory
  import opened PubSubRuns

  /** The server is alive; those in `online` are connected, those in `sub` subscribed to the topic
      on the sockets they are mapped to, and `open` are the open descriptors. */
  ghost predicate At(
      s: Sockets, es: seq<Event>, t: Topic, online: map<Id, int>, sub: map<Id, int>, open: set<int>)
    requires s.Ok()
  {
    var (st, h) := Run(s, es);
    && !st.dead && Opened(s, h) == open
    && (forall id :: Online(h, id) == if id in online then Some(online[id]) else None)
    && (forall id :: IsSub(h, id, t) <==> id in sub)
    && (forall id :: id in sub ==> SubSocket(h, id, t) == Some(sub[id]))
  }

  lemma AtStart(s: Sockets, t: Topic)
    requires s.Ok()
    ensures At(s, [], t, map[], map[], s.Base())
  {
  }

  /** One act further. */
  lemma Next(s: Sockets, es: seq<Event>, e: Event, a: Act, t: Topic, online: map<Id, int>, sub: map<Id, int>,
             open: set<int>)
    requires s.Ok() && At(s, es, t, online, sub, open)
    requires Run(s, es + [e]).1 == Run(s, es).1 + [a] && !Run(s, es + [e]).0.dead
    requires a.Asked? ==> a.topic == t && a.id in online && a.id !in sub
    requires a.Left? ==> a.id in online
    requires !a.Dropped? && !a.Leaked?
    ensures At(s, es + [e], t,
               if a.Joined? then online[a.id := a.fd] else if a.Left? then online - {a.id} else online,
               if a.Asked? then sub[a.id := online[a.id]] else sub,
               if a.Joined? then open + {a.fd} else if a.Left? then open - {online[a.id]} else open)
  {
    hide Run, Online, Opened, IsSub, HasSf, SubSocket, Known, Inv, WellFormed, Reflects;
    var h := Run(s, es).1;
    OpenedNext(s, h, a);
    forall id
      ensures Online(h + [a], id) ==
              if a.Joined? && a.id == id then Some(a.fd) else if a.Left? && a.id == id then None else Online(h, id)
      ensures IsSub(h + [a], id, t) == (IsSub(h, id, t) || (a.Asked? && a.id == id))
      ensures SubSocket(h + [a], id, t) == if a.Asked? && a.id == id then Online(h, id) else SubSocket(h, id, t)
    {
      OnlineNext(h, a, id);
      SubNext(h, a, id, t);
    }
  }

  lemma Joins(s: Sockets, es: seq<Event>, t: Topic, online: map<Id, int>, sub: map<Id, int>, open: set<int>,
              id: Id, fd: int)
    requires s.Ok() && At(s, es, t, online, sub, open) && id !in online && fd > 0 && fd !in open
    ensures At(s, es + [Accept(fd, Some(id))], t, online[id := fd], sub, open + {fd})
  {
    hide Run, Inv, SfAre, SubscribersAre, MissedAre, Online, Opened, IsSub, SubSocket, WellFormed;
    RunNext(s, es, Accept(fd, Some(id)));
    Next(s, es, Accept(fd, Some(id)), Joined(id, fd), t, online, sub, open);
  }

  lemma IsOwner(s: Sockets, es: seq<Event>, t: Topic, online: map<Id, int>, sub: map<Id, int>, open: set<int>, id: Id)
    requires s.Ok() && At(s, es, t, online, sub, open) && id in online
    ensures var st := Run(s, es).0;
            online[id] in st.readFds && online[id] !in s.Base() && Owner(s, st, online[id]) == id && id in st.connected
  {
    hide Run, Inv, SfAre, SubscribersAre, MissedAre, Online, Opened, IsSub, SubSocket, WellFormed;
    OwnerUnique(s, Run(s, es).0, online[id], id);
  }

  lemma Subscribes(s: Sockets, es: seq<Event>, t: Topic, online: map<Id, int>, sub: map<Id, int>, open: set<int>,
                   id: Id, sf: bool)
    requires s.Ok() && At(s, es, t, online, sub, open) && id in online && id !in sub
    ensures At(s, es + [FromClient(online[id], Some(Request(1, t, sf)))], t, online, sub[id := online[id]], open)
  {
    hide Run, Inv, Reflects, Online, Opened, IsSub, SubSocket, WellFormed;
    IsOwner(s, es, t, online, sub, open, id);
    var e := FromClient(online[id], Some(Request(1, t, sf)));
    RunNext(s, es, e);
    Next(s, es, e, Asked(id, t, sf), t, online, sub, open);
  }

  lemma Leaves(s: Sockets, es: seq<Event>, t: Topic, online: map<Id, int>, sub: map<Id, int>, open: set<int>, id: Id)
    requires s.Ok() && At(s, es, t, online, sub, open) && id in online
    ensures At(s, es + [FromClient(online[id], None)], t, online - {id}, sub, open - {online[id]})
  {
    hide Run, Inv, Reflects, Online, Opened, IsSub, SubSocket, WellFormed;
    IsOwner(s, es, t, online, sub, open, id);
    RunNext(s, es, FromClient(online[id], None));
    Next(s, es, FromClient(online[id], None), Left(id), t, online, sub, open);
  }

  /** The listening sockets that the program opens: it opens the one for TCP twice, as 3 and 5, so
      the first client gets descriptor 6. */
  const LISTENING: Sockets := Sockets(5, 4)

  /** `a` subscribes on descriptor 6 and leaves; `b` is given 6, and then `a` comes back on 7. */
  function Returned(t: Topic): seq<Event> {
    [Accept(6, Some("a")), FromClient(6, Some(Request(1, t, true))), FromClient(6, None),
     Accept(6, Some("b")), Accept(7, Some("a"))]
  }

  lemma AfterReturn(t: Topic)
    ensures At(LISTENING, Returned(t), t, map["b" := 6, "a" := 7], map["a" := 6], {0, 4, 5, 6, 7})
  {
    hide At;
    var s, base := LISTENING, LISTENING.Base();
    AtStart(s, t);
    var es: seq<Event>, sub: map<Id, int> := [], map["a" := 6];
    Joins(s, es, t, map[], map[], base, "a", 6);
    es := es + [Accept(6, Some("a"))];
    Subscribes(s, es, t, map["a" := 6], map[], base + {6}, "a", true);
    es := es + [FromClient(6, Some(Request(1, t, true)))];
    Leaves(s, es, t, map["a" := 6], sub, base + {6}, "a");
    es := es + [FromClient(6, None)];
    assert map["a" := 6] - {"a"} == map[] && base + {6} - {6} == base;
    Joins(s, es, t, map[], sub, base, "b", 6);
    es := es + [Accept(6, Some("b"))];
    Joins(s, es, t, map["b" := 6], sub, base + {6}, "a", 7);
    assert es + [Accept(7, Some("a"))] == Returned(t);
    assert base + {6} + {7} == {0, 4, 5, 6, 7};
  }

  lemma NobodyBefore(s: Sockets, h: seq<Act>, id: Id, t: Topic)
    requires forall b :: !Misaddressed(s, h, b, t)
    ensures BeforeTheExit(s, h, id, t)
  {
  }

  /** The message for `a` now goes to `b`. */
  lemma StaleSocket(m: Message)
    ensures var es := Returned(m.topic);
            var (st, h) := Run(LISTENING, es); var st' := Publish(st, m);
            && !st'.dead && st'.out == st.out + [Fanout(m, map["a" := 6])]
            && Online(h, "a") == Some(7) && Online(h, "b") == Some(6)
  {
    hide Run, Online, Opened, IsSub, SubSocket, Reflects, Publish, BeforeTheExit;
    var s, t, es := LISTENING, m.topic, Returned(m.topic);
    AfterReturn(t);
    var (st, h) := Run(s, es);
    assert forall id :: !Misaddressed(s, h, id, t);
    NobodyBefore(s, h, "a", t);
    SubscribedIsKnown(s, es, "a", t);
    TargetsAre(s, st, h, m, "a");
    PublicationOfRun(s, es, m);
    var out := Publish(st, m).out;
    assert out[|st.out|].targets == map["a" := 6];
    assert out == out[..|st.out|] + [out[|st.out|]];
  }

  /** And when `b` leaves as well, the next message on the topic ends the server, although `a` is
      connected, and nothing brings it back. */
  lemma FatalReturn(m: Message, more: seq<Event>)
    ensures var es := Returned(m.topic) + [FromClient(6, None)];
            && !Run(LISTENING, es).0.dead && Online(Run(LISTENING, es).1, "a") == Some(7)
            && Run(LISTENING, es + [Udp(m)] + more).0.dead
  {
    hide Run, Online, Opened, IsSub, SubSocket, Reflects, Publish;
    var s, t := LISTENING, m.topic;
    AfterReturn(t);
    Leaves(s, Returned(t), t, map["b" := 6, "a" := 7], map["a" := 6], {0, 4, 5, 6, 7}, "b");
    var es := Returned(t) + [FromClient(6, None)];
    assert Misaddressed(s, Run(s, es).1, "a", t);
    PublicationKillsIff(s, es, m);
    RunNext(s, es, Udp(m));
    StaysDead(s, es + [Udp(m)], more);
  }
}
