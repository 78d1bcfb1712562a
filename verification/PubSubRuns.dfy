/** The server over whole runs: when it exits on a publication, and what it sends until then. */
module PubSubRuns {
  import opened Options
  import opened PubSub
  import opened PubSubHistory

  /** The state and the history after the events `es`; events that cannot happen do not.  The
      publication on which the server exits, if there is one, is not part of the history. */
  ghost function Run(s: Sockets, es: seq<Event>): (r: (State, seq<Act>))
    requires s.Ok()
    ensures Inv(s, r.0) && WellFormed(r.1)
    ensures !r.0.dead ==> Reflects(s, r.1, r.0)
  {
    if es == [] then
      InitialInv(s);
      (Initial(s), [])
    else
      var (st, h) := Run(s, es[..|es| - 1]);
      var e := es[|es| - 1];
      if !Enabled(s, st, e) then (st, h)
      else
        StepKeepsInv(s, st, e);
        if Step(s, st, e).dead then (Step(s, st, e), h)
        else
          StepReflects(s, st, e, h);
          ActInTurn(s, st, e, h);
          WellFormedNext(h, ActOf(s, st, e));
          (Step(s, st, e), h + [ActOf(s, st, e)])
  }

  /** One more event. */
  lemma RunNext(s: Sockets, es: seq<Event>, e: Event)
    requires s.Ok()
    ensures var (st, h) := Run(s, es);
            Run(s, es + [e]) ==
            if !Enabled(s, st, e) then (st, h)
            else if Step(s, st, e).dead then (Step(s, st, e), h)
            else (Step(s, st, e), h + [ActOf(s, st, e)])
  {
    hide Inv, Reflects, WellFormed, Step, ActOf, Enabled;
    assert (es + [e])[..|es|] == es;
  }

  // ----- the exit -----

  /** The subscribers to whom the message cannot be sent are the misaddressed ones of the history. */
  lemma FailingAre(s: Sockets, st: State, h: seq<Act>, t: Topic, id: Id)
    requires Inv(s, st) && Reflects(s, h, st)
    ensures Misaddressed(s, h, id, t) <==> t in st.topics && id in Failing(st, st.topics[t])
  {
    hide SocketsAgree, SfAre, MissedAre, Online, IsSub, SubSocket, Known, Opened;
  }

  /** In every reachable state a publication ends the server if and only if some client is there
      and subscribed to the topic, but the socket on which it subscribed has been closed. */
  lemma PublicationKillsIff(s: Sockets, es: seq<Event>, m: Message)
    requires s.Ok() && !Run(s, es).0.dead
    ensures Publish(Run(s, es).0, m).dead <==> exists id :: Misaddressed(s, Run(s, es).1, id, m.topic)
  {
    hide Run, Inv, Reflects, Misaddressed;
    var (st, h) := Run(s, es);
    if id :| Misaddressed(s, h, id, m.topic) {
      FailingAre(s, st, h, m.topic, id);
    }
    if Publish(st, m).dead {
      var id :| id in Failing(st, st.topics[m.topic]);
      FailingAre(s, st, h, m.topic, id);
    }
  }

  /** The `k`-th event is a publication for a misaddressed client. */
  ghost predicate Fatal(s: Sockets, es: seq<Event>, k: nat)
    requires s.Ok() && k < |es|
  {
    es[k].Udp? && exists id :: Misaddressed(s, Run(s, es[..k]).1, id, es[k].msg.topic)
  }

  /** Nothing but a publication ends the server. */
  lemma OnlyPublicationsKill(s: Sockets, st: State, e: Event)
    requires Inv(s, st) && Enabled(s, st, e)
    ensures Step(s, st, e).dead ==> e.Udp? && Step(s, st, e) == Publish(st, e.msg)
  {
    hide Inv, Publish;
  }

  lemma DyingEvent(s: Sockets, es: seq<Event>)
    requires s.Ok() && es != [] && Run(s, es).0.dead
    ensures var n := |es| - 1; var (st, h) := Run(s, es[..n]);
            && Run(s, es).1 == h
            && if st.dead then Run(s, es).0 == st else Fatal(s, es, n) && Run(s, es).0 == Publish(st, es[n].msg)
  {
    hide Run, Inv, Reflects, Misaddressed, Publish, Step;
    var n := |es| - 1;
    var st := Run(s, es[..n]).0;
    assert es[..n] + [es[n]] == es;
    RunNext(s, es[..n], es[n]);
    if !st.dead {
      OnlyPublicationsKill(s, st, es[n]);
      PublicationKillsIff(s, es[..n], es[n].msg);
    }
  }

  /** The events up to the one on which the server exits. */
  ghost function Survived(s: Sockets, es: seq<Event>): seq<Event>
    requires s.Ok()
  {
    if es == [] || !Run(s, es).0.dead then es else Survived(s, es[..|es| - 1])
  }

  /** Those are all events if the server is alive.  If not, the next one is fatal, and the state is
      and stays as that one left it. */
  lemma {:induction false} SurvivedExactly(s: Sockets, es: seq<Event>)
    requires s.Ok()
    ensures var r := Survived(s, es);
            && r <= es && !Run(s, r).0.dead && Run(s, r).1 == Run(s, es).1
            && if Run(s, es).0.dead
               then |r| < |es| && Fatal(s, es, |r|) && Run(s, es).0 == Publish(Run(s, r).0, es[|r|].msg)
               else r == es
  {
    hide Run, Inv, Reflects, WellFormed, Publish, Misaddressed;
    var r := Survived(s, es);
    if es == [] {
      NothingKills(s);
    } else if Run(s, es).0.dead {
      var n := |es| - 1;
      DyingEvent(s, es);
      SurvivedExactly(s, es[..n]);
      assert es[..n][..|r|] == es[..|r|];
    }
  }

  lemma NothingKills(s: Sockets)
    requires s.Ok()
    ensures !Run(s, []).0.dead
  {
  }

  /** Over every run: the server has exited if and only if some publication came while a client
      that was there held a subscription on its topic with a closed socket. */
  lemma DeadIff(s: Sockets, es: seq<Event>)
    requires s.Ok()
    ensures Run(s, es).0.dead <==> exists k: nat :: k < |es| && Fatal(s, es, k)
  {
    hide Run, Fatal, Survived, Inv, Reflects, WellFormed, Publish, Misaddressed;
    if k: nat :| k < |es| && Fatal(s, es, k) {
      FatalEnds(s, es, k);
      assert es == es[..k + 1] + es[k + 1..];
      StaysDead(s, es[..k + 1], es[k + 1..]);
    }
    if Run(s, es).0.dead {
      SurvivedExactly(s, es);
    }
  }

  lemma FatalEnds(s: Sockets, es: seq<Event>, k: nat)
    requires s.Ok() && k < |es| && Fatal(s, es, k)
    ensures Run(s, es[..k + 1]).0.dead
  {
    hide Inv, Reflects, Misaddressed, Publish;
    assert es[..k + 1] == es[..k] + [es[k]];
    RunNext(s, es[..k], es[k]);
    if !Run(s, es[..k]).0.dead {
      PublicationKillsIff(s, es[..k], es[k].msg);
    }
  }

  /** After its exit nothing happens to the server. */
  lemma {:induction false} StaysDead(s: Sockets, es: seq<Event>, more: seq<Event>)
    requires s.Ok() && Run(s, es).0.dead
    ensures Run(s, es + more) == Run(s, es)
  {
    hide Inv, Reflects, Step;
    if more == [] {
      assert es + more == es;
    } else {
      var n := |more| - 1;
      StaysDead(s, es, more[..n]);
      assert es + more == es + more[..n] + [more[n]];
      RunNext(s, es + more[..n], more[n]);
    }
  }

  lemma OnlineIsOpen(s: Sockets, st: State, h: seq<Act>, id: Id)
    requires Inv(s, st) && Reflects(s, h, st) && Online(h, id).Some?
    ensures Online(h, id).value in Opened(s, h)
  {
    hide SfAre, SubscribersAre, MissedAre, Online, Opened;
  }

  /** A client that is on the socket on which it subscribed is not misaddressed: the server can
      only be ended by a subscription that is older than its client's connection. */
  lemma SameSocketIsSafe(s: Sockets, es: seq<Event>, id: Id, t: Topic)
    requires s.Ok() && !Run(s, es).0.dead && SubSocket(Run(s, es).1, id, t) == Online(Run(s, es).1, id)
    ensures !Misaddressed(s, Run(s, es).1, id, t)
  {
    hide Run, Inv, Reflects, Online, SubSocket, Opened, IsSub;
    var (st, h) := Run(s, es);
    if Online(h, id).Some? {
      OnlineIsOpen(s, st, h, id);
    }
  }

  // ----- subscriptions -----

  /** In every reachable state a client is in a topic's map exactly when its last request on the
      topic was to subscribe, whether or not it is connected; and the topic is in its SF vector
      exactly when it once asked for it with SF and was not told that it already was subscribed. */
  lemma SubscriptionsOfRun(s: Sockets, es: seq<Event>, id: Id, t: Topic)
    requires s.Ok() && !Run(s, es).0.dead
    ensures var (st, h) := Run(s, es);
            && ((t in st.topics && id in st.topics[t]) <==> IsSub(h, id, t))
            && (((id in st.connected && t in st.connected[id].sf) || (id in st.saved && t in st.saved[id].sf))
                <==> HasSf(h, id, t))
  {
    hide Run, Inv, MissedAre, ConnectedAre, IsSub, HasSf, Opened;
    var (st, h) := Run(s, es);
  }

  // ----- coming back -----

  /** Each of the messages is sent on the descriptor, in order, and nothing else is. */
  ghost predicate IsSentTo(fd: int, ms: seq<Message>, out: seq<Output>, out': seq<Output>) {
    && |out'| == |out| + |ms| && out'[..|out|] == out
    && forall i :: 0 <= i < |ms| ==> out'[|out| + i] == Delivery(fd, ms[i])
  }

  /** In every run a client that connects is sent exactly what it has missed, in order, and from
      then on has missed nothing. */
  lemma ReconnectDelivers(s: Sockets, es: seq<Event>, fd: int, id: Id)
    requires s.Ok() && Enabled(s, Run(s, es).0, Accept(fd, Some(id))) && Online(Run(s, es).1, id).None?
    ensures var (st, h) := Run(s, es); var st' := Step(s, st, Accept(fd, Some(id)));
            && IsSentTo(fd, Missed(h, id), st.out, st'.out)
            && id in st'.connected && st'.connected[id].socket == fd && st'.connected[id].missed == []
            && id !in st'.saved
  {
    hide Run, SocketsAgree, TopicsAgree, SfAre, SubscribersAre, Online, Missed, Max, Opened;
    var (st, h) := Run(s, es);
    if id !in st.saved {
      assert Deliveries(fd, Missed(h, id)) == [];
      assert st.out + [] == st.out;
    }
  }

  /** In every run a second client with the id of a connected one is told to exit, and nothing
      else changes. */
  lemma SecondLoginRefused(s: Sockets, es: seq<Event>, fd: int, id: Id)
    requires s.Ok() && Enabled(s, Run(s, es).0, Accept(fd, Some(id))) && Online(Run(s, es).1, id).Some?
    ensures var st := Run(s, es).0; Step(s, st, Accept(fd, Some(id))) == st.(out := st.out + [Notice(fd, EXIT)])
  {
    hide Run, Inv, SfAre, SubscribersAre, MissedAre, Online, Opened;
  }

  /** In every run the answer to a request says what the history says: whether the client was
      subscribed already, or whether anybody had heard of the topic. */
  lemma AnswerCodes(s: Sockets, es: seq<Event>, fd: int, r: Request)
    requires s.Ok() && Enabled(s, Run(s, es).0, FromClient(fd, Some(r))) && r.kind <= 1
    ensures var (st, h) := Run(s, es); var id := Owner(s, st, fd);
            && Online(h, id) == Some(fd)
            && Step(s, st, FromClient(fd, Some(r))).out == st.out + [Notice(fd,
                 if r.kind == 1 then if IsSub(h, id, r.topic) then ALREADY_SUB else SUBSCRIBED
                 else if Known(h, r.topic) then UNSUBSCRIBED else NO_TOPIC)]
  {
    hide Run, SocketsAgree, SfAre, MissedAre, Online, IsSub, Known, Opened;
    var (st, h) := Run(s, es);
    var id := Owner(s, st, fd);
    assert id in st.connected;
  }

  /** A connection without an id, a closed one and a request of any other kind send nothing; and a
      request of any other kind changes nothing at all. */
  lemma NothingSent(s: Sockets, st: State, e: Event)
    requires Inv(s, st) && Enabled(s, st, e)
    requires match e
             case Udp(m) => m.topic !in st.topics
             case Accept(_, hello) => hello.None?
             case FromClient(_, request) => request.Some? ==> request.value.kind > 1
    ensures Step(s, st, e).out == st.out
    ensures e.FromClient? && e.request.Some? ==> Step(s, st, e) == st
  {
    hide SocketsAgree, RecordsAgree, TopicsAgree;
  }

  ghost predicate IsOnline(h: seq<Act>, id: Id, fd: int) {
    Online(h, id) == Some(fd)
  }

  /** On the exit command every connected client is sent the exit code on its socket, once, and nobody
      else is sent anything. */
  lemma ExitIsSent(s: Sockets, es: seq<Event>)
    requires s.Ok() && !Run(s, es).0.dead
    ensures var (st, h) := Run(s, es); var sent := ExitNotices(ClientFds(s, st.readFds, 1, st.fdmax));
            && (forall o :: o in sent ==> o.Notice? && o.code == EXIT && exists id :: IsOnline(h, id, o.fd))
            && (forall id, fd :: IsOnline(h, id, fd) ==> Notice(fd, EXIT) in sent)
            && (forall i, j :: 0 <= i < j < |sent| ==> sent[i] != sent[j])
  {
    hide Run, Inv, SfAre, SubscribersAre, MissedAre, Online, Opened, ClientFds, ExitNotices;
    var (st, h) := Run(s, es);
    ExitOutput(s, st);
    forall o | o in ExitNotices(ClientFds(s, st.readFds, 1, st.fdmax))
      ensures o.Notice? && o.code == EXIT && exists id :: IsOnline(h, id, o.fd)
    {
      var id :| Owns(st.connected, o.fd, id);
      assert IsOnline(h, id, o.fd);
    }
    forall id, fd | IsOnline(h, id, fd)
      ensures Owns(st.connected, fd, id)
    {
    }
  }

  /** The store-and-forward theorem, over every run: a client that left and comes back is sent
      what was published meanwhile on the topics it wanted. */
  lemma AwayAndBack(s: Sockets, es: seq<Event>, h: seq<Act>, id: Id, acts: seq<Act>, fd: int)
    requires s.Ok() && Enabled(s, Run(s, es).0, Accept(fd, Some(id)))
    requires Run(s, es).1 == h + [Left(id)] + acts
    requires forall i :: 0 <= i < |acts| && acts[i].Joined? ==> acts[i].id != id
    ensures var st := Run(s, es).0;
            IsSentTo(fd, PublishedFor(h, id, acts), st.out, Step(s, st, Accept(fd, Some(id))).out)
  {
    hide Run, Step, Missed, PublishedFor, IsSentTo, Inv, Reflects, Enabled;
    AwayUnchanged(h, id, acts, "");
    MissedWhileAway(h, id, acts);
    ReconnectDelivers(s, es, fd, id);
  }

  // ----- publications to those who are there -----

  /** Visited before `send` fails: no misaddressed client precedes it, or is it. */
  ghost predicate BeforeTheExit(s: Sockets, h: seq<Act>, id: Id, t: Topic) {
    forall b :: Misaddressed(s, h, b, t) ==> Precedes(id, b)
  }

  lemma TargetsAre(s: Sockets, st: State, h: seq<Act>, m: Message, id: Id)
    requires Inv(s, st) && !st.dead && Reflects(s, h, st) && Known(h, m.topic)
    ensures var out := Publish(st, m).out;
            && |out| == |st.out| + 1 && out[..|st.out|] == st.out
            && out[|st.out|].Fanout? && out[|st.out|].msg == m
            && var targets := out[|st.out|].targets;
            && (id in targets <==> IsSub(h, id, m.topic) && Online(h, id).Some? && BeforeTheExit(s, h, id, m.topic))
            && (id in targets ==> Some(targets[id]) == SubSocket(h, id, m.topic) && targets[id] in Opened(s, h))
  {
    hide Inv, SfAre, MissedAre, IsSub, Online, SubSocket, Known, Opened, Misaddressed, Precedes, Publish, IsLeast;
    var subscribers := st.topics[m.topic];
    PublishEffects(s, st, m, id);
    forall b
      ensures Misaddressed(s, h, b, m.topic) <==> b in Failing(st, subscribers)
    {
      FailingAre(s, st, h, m.topic, b);
    }
    ReachedByLeast(st, subscribers, id);
  }

  lemma ReachedByLeast(st: State, subscribers: ClientMap, id: Id)
    ensures var failing := Failing(st, subscribers);
            (forall b :: b in failing ==> Precedes(id, b)) <==>
            (forall first :: IsLeast(failing, first) ==> Precedes(id, first))
  {
    hide Precedes;
    var failing := Failing(st, subscribers);
    if failing != {} {
      LeastExists(failing);
      var first :| IsLeast(failing, first);
      forall b | b in failing && Precedes(id, first)
        ensures Precedes(id, b)
      {
        if b != first {
          PrecedesTransitive(id, first, b);
        }
      }
    }
  }

  /** In every run a publication is sent to exactly the subscribers that are connected, each on the
      socket it held when it subscribed, up to the first, in the order of ids, whose socket has been
      closed.  On that one the server exits. */
  lemma PublicationOfRun(s: Sockets, es: seq<Event>, m: Message)
    requires s.Ok() && !Run(s, es).0.dead && Known(Run(s, es).1, m.topic)
    ensures var (st, h) := Run(s, es); var st' := Publish(st, m);
            && |st'.out| == |st.out| + 1 && st'.out[|st.out|].Fanout?
            && (st'.dead <==> exists id :: Misaddressed(s, h, id, m.topic))
            && var targets := st'.out[|st.out|].targets;
            forall id ::
              && (id in targets <==>
                  IsSub(h, id, m.topic) && Online(h, id).Some? && BeforeTheExit(s, h, id, m.topic))
              && (id in targets ==> Some(targets[id]) == SubSocket(h, id, m.topic) && targets[id] in Opened(s, h))
  {
    hide Run, Publish, Inv, Reflects, IsSub, Online, SubSocket, Known, Opened, Misaddressed, BeforeTheExit;
    var (st, h) := Run(s, es);
    PublicationKillsIff(s, es, m);
    TargetsAre(s, st, h, m, "");
    forall id
      ensures var targets := Publish(st, m).out[|st.out|].targets;
              && (id in targets <==>
                  IsSub(h, id, m.topic) && Online(h, id).Some? && BeforeTheExit(s, h, id, m.topic))
              && (id in targets ==> Some(targets[id]) == SubSocket(h, id, m.topic) && targets[id] in Opened(s, h))
    {
      TargetsAre(s, st, h, m, id);
    }
  }

  /** Over every run: a publication reaches a subscriber on its current socket if and only if it
      is on the descriptor on which it was when it subscribed, and no client before it, in the
      order of ids, makes the server exit. */
  lemma CurrentSocket(
      s: Sockets, es: seq<Event>, m: Message, h: seq<Act>, id: Id, sf: bool, acts: seq<Act>)
    requires s.Ok() && !Run(s, es).0.dead
    requires Run(s, es).1 == h + [Asked(id, m.topic, sf)] + acts && !IsSub(h, id, m.topic)
    requires forall i :: 0 <= i < |acts| ==> acts[i] != Dropped(id, m.topic)
    ensures var (st, all) := Run(s, es);
            var targets := Publish(st, m).out[|st.out|..];
            && |targets| == 1 && targets[0].Fanout?
            && (id in targets[0].targets && Some(targets[0].targets[id]) == Online(all, id) <==>
                Online(all, id) == Online(h, id) && BeforeTheExit(s, all, id, m.topic))
  {
    hide Run, Publish, Inv, Reflects, IsSub, Online, SubSocket, Known, Opened, Misaddressed, BeforeTheExit;
    var all := Run(s, es).1;
    SocketSinceAsked(h, id, m.topic, sf, acts);
    SubscribedIsKnown(s, es, id, m.topic);
    PublicationOfRun(s, es, m);
  }

  /** The message is for this client, goes to descriptor `fd`, and is sent before any exit. */
  ghost predicate Aimed(s: Sockets, h: seq<Act>, id: Id, t: Topic, fd: int) {
    && IsSub(h, id, t) && Online(h, id).Some? && SubSocket(h, id, t) == Some(fd)
    && BeforeTheExit(s, h, id, t)
  }

  /** Those whose copy of one publication is sent on descriptor `fd`; each is one copy. */
  function CopiesOn(targets: map<Id, int>, fd: int): set<Id> {
    set id | id in targets && targets[id] == fd
  }

  function TargetsFor(st: State, m: Message): map<Id, int> {
    if m.topic in st.topics then TargetsOf(st.topics[m.topic], Reached(st, st.topics[m.topic]) * st.connected.Keys)
    else map[]
  }

  lemma TargetsAreSent(st: State, m: Message)
    ensures Publish(st, m).out ==
            st.out + if m.topic in st.topics then [Fanout(m, TargetsFor(st, m))] else []
  {
  }

  /** What arrives: in every run a publication puts on a descriptor one copy for each subscriber that
      is connected, held that descriptor when it subscribed, and is reached before the exit. */
  lemma ArrivesOn(s: Sockets, es: seq<Event>, m: Message, fd: int)
    requires s.Ok() && !Run(s, es).0.dead
    ensures var (st, h) := Run(s, es);
            forall id :: id in CopiesOn(TargetsFor(st, m), fd) <==> Aimed(s, h, id, m.topic, fd)
  {
    hide Run, Inv, Reflects, IsSub, Online, SubSocket, Known, Opened, Misaddressed, BeforeTheExit;
    hide TargetsFor;
    var (st, h) := Run(s, es);
    TargetsAreSent(st, m);
    forall id
      ensures id in CopiesOn(TargetsFor(st, m), fd) <==> Aimed(s, h, id, m.topic, fd)
    {
      if Known(h, m.topic) {
        KnownTopic(s, st, h, m.topic);
        TargetsAre(s, st, h, m, id);
      } else {
        KnownTopic(s, st, h, m.topic);
        NoTargets(st, m);
        if IsSub(h, id, m.topic) {
          SubscribedIsKnown(s, es, id, m.topic);
        }
      }
    }
  }

  lemma NoTargets(st: State, m: Message)
    requires m.topic !in st.topics
    ensures TargetsFor(st, m) == map[]
  {
  }

  lemma KnownTopic(s: Sockets, st: State, h: seq<Act>, t: Topic)
    requires Reflects(s, h, st)
    ensures t in st.topics <==> Known(h, t)
  {
    hide ConnectedAre, SfAre, MissedAre, Known, IsSub, SubSocket, Opened;
  }

  /** So a connected client gets its own copy if and only if it is aimed at the client's present
      descriptor; no copy, or several, if and only if none, or those of two, are aimed there; and
      somebody else's if and only if one of those is. */
  lemma ClientGets(s: Sockets, es: seq<Event>, m: Message, id: Id)
    requires s.Ok() && !Run(s, es).0.dead && Online(Run(s, es).1, id).Some?
    ensures var (st, h) := Run(s, es); var fd, t := Online(h, id).value, m.topic;
            var copies := CopiesOn(TargetsFor(st, m), fd);
            && (id in copies <==> Aimed(s, h, id, t, fd))
            && (|copies| == 0 <==> forall a :: !Aimed(s, h, a, t, fd))
            && (|copies| >= 2 <==> exists a, b :: a != b && Aimed(s, h, a, t, fd) && Aimed(s, h, b, t, fd))
            && ((exists a :: a in copies && a != id) <==> exists a :: a != id && Aimed(s, h, a, t, fd))
  {
    hide Run, Aimed, CopiesOn, TargetsFor, Online;
    var (st, h) := Run(s, es);
    var fd := Online(h, id).value;
    ArrivesOn(s, es, m, fd);
    Counted(CopiesOn(TargetsFor(st, m), fd));
  }

  lemma Counted(ids: set<Id>)
    ensures |ids| == 0 <==> forall a :: a !in ids
    ensures |ids| >= 2 <==> exists a, b :: a != b && a in ids && b in ids
  {
    if ids != {} {
      var a :| a in ids;
      if |ids| >= 2 {
        assert |ids - {a}| >= 1;
        var b :| b in ids - {a};
        assert a != b && a in ids && b in ids;
      }
      forall b, c | b != c && b in ids && c in ids
        ensures |ids| >= 2
      {
        assert {b, c} <= ids;
        Within({b, c}, ids);
      }
    }
  }

  lemma Within(x: set<Id>, y: set<Id>)
    requires x <= y
    ensures |x| <= |y|
  {
    assert y == x + (y - x);
  }

  /** If every connected subscriber is on the socket on which it subscribed, the publication does what
      it should: the server lives, each of them gets its one copy, and nobody else gets any. */
  lemma FreshDelivery(s: Sockets, es: seq<Event>, m: Message, id: Id)
    requires s.Ok() && !Run(s, es).0.dead && Online(Run(s, es).1, id).Some?
    requires forall a :: IsSub(Run(s, es).1, a, m.topic) && Online(Run(s, es).1, a).Some? ==>
               SubSocket(Run(s, es).1, a, m.topic) == Online(Run(s, es).1, a)
    ensures var (st, h) := Run(s, es);
            && !Publish(st, m).dead
            && CopiesOn(TargetsFor(st, m), Online(h, id).value) == if IsSub(h, id, m.topic) then {id} else {}
  {
    hide Run, Inv, Reflects, IsSub, Online, SubSocket, Opened, Publish, CopiesOn, TargetsFor;
    var (st, h) := Run(s, es);
    forall a
      ensures !Misaddressed(s, h, a, m.topic)
    {
      if Misaddressed(s, h, a, m.topic) {
        SameSocketIsSafe(s, es, a, m.topic);
      }
    }
    PublicationKillsIff(s, es, m);
    ArrivesOn(s, es, m, Online(h, id).value);
    forall a | Online(h, a) == Online(h, id)
      ensures a == id
    {
      OneOnSocket(s, st, h, a, id);
    }
  }

  lemma OneOnSocket(s: Sockets, st: State, h: seq<Act>, a: Id, b: Id)
    requires Inv(s, st) && Reflects(s, h, st) && Online(h, a).Some? && Online(h, a) == Online(h, b)
    ensures a == b
  {
    hide RecordsAgree, TopicsAgree, SfAre, SubscribersAre, MissedAre, Online, Opened;
  }

  lemma SubscribedIsKnown(s: Sockets, es: seq<Event>, id: Id, t: Topic)
    requires s.Ok() && !Run(s, es).0.dead && IsSub(Run(s, es).1, id, t)
    ensures Known(Run(s, es).1, t)
  {
    hide Run, Inv, ConnectedAre, SfAre, MissedAre, IsSub, SubSocket, Known, Opened;
  }

  // ----- exactly once, in order -----

  function DeliveredMessages(out: seq<Output>): seq<Message> {
    if out == [] then []
    else (if out[0].Delivery? then [out[0].msg] else []) + DeliveredMessages(out[1..])
  }

  /** The messages for the client among the outputs of one act. */
  function NewFor(id: Id, a: Act, out: seq<Output>): seq<Message> {
    match a
    case Joined(i, _) => if i == id then DeliveredMessages(out) else []
    case Published(_) => if out != [] && out[0].Fanout? && id in out[0].targets then [out[0].msg] else []
    case _ => []
  }

  function NewOutput(st: State, st': State): seq<Output> {
    if |st.out| <= |st'.out| then st'.out[|st.out|..] else []
  }

  /** All messages the server has sent for the client in a run. */
  ghost function SentFor(s: Sockets, es: seq<Event>, id: Id): seq<Message>
    requires s.Ok()
  {
    if es == [] then []
    else
      var n := |es| - 1;
      var st := Run(s, es[..n]).0;
      SentFor(s, es[..n], id) +
      if Enabled(s, st, es[n]) then NewFor(id, ActOf(s, st, es[n]), NewOutput(st, Step(s, st, es[n]))) else []
  }

  lemma {:induction false} DeliveriesDeliver(fd: int, ms: seq<Message>)
    ensures DeliveredMessages(Deliveries(fd, ms)) == ms
  {
    if ms != [] {
      assert Deliveries(fd, ms)[1..] == Deliveries(fd, ms[1..]);
      DeliveriesDeliver(fd, ms[1..]);
    }
  }

  /** What a step sends for a client, in terms of the history. */
  lemma NewForStep(s: Sockets, st: State, e: Event, h: seq<Act>, id: Id)
    requires Inv(s, st) && Enabled(s, st, e) && Reflects(s, h, st)
    ensures var a := ActOf(s, st, e);
            NewFor(id, a, NewOutput(st, Step(s, st, e))) ==
            if a.Joined? && a.id == id then Missed(h, id)
            else if a.Published? && IsSub(h, id, a.msg.topic) && Online(h, id).Some?
                    && BeforeTheExit(s, h, id, a.msg.topic) then [a.msg]
            else []
  {
    hide SocketsAgree, SfAre, Online, IsSub, HasSf, SubSocket, Known, Missed, StoreFor, Max, Opened;
    hide DeliveredMessages, BeforeTheExit, Misaddressed;
    if e.Udp? {
      if e.msg.topic in st.topics {
        hide Publish, TargetsOf;
        TargetsAre(s, st, h, e.msg, id);
      }
    } else if e.Accept? && e.hello == Some(id) && id !in st.connected {
      DeliveriesDeliver(e.fd, Missed(h, id));
      assert NewOutput(st, Step(s, st, e)) == Deliveries(e.fd, Missed(h, id));
    }
  }

  lemma OnlineMissesNothing(s: Sockets, st: State, h: seq<Act>, id: Id)
    requires Inv(s, st) && Reflects(s, h, st) && Online(h, id).Some?
    ensures Missed(h, id) == []
  {
    hide SocketsAgree, SfAre, SubscribersAre, Online, Missed, Opened;
  }

  /** The exactly-once theorem, over every run and for every client: what the server has sent for
      it until its exit, if it has exited, followed by what it still kept for it, is what was
      published to it, each message once and in the order of publication, whatever the client's
      comings and goings. */
  lemma ExactlyOnce(s: Sockets, es: seq<Event>, id: Id)
    requires s.Ok()
    ensures var h := Run(s, es).1;
            SentFor(s, Survived(s, es), id) + Missed(h, id) == PublishedTo(h, id)
  {
    hide *;
    SurvivedExactly(s, es);
    ExactlyOnceAlive(s, Survived(s, es), id);
  }

  lemma {:induction false} ExactlyOnceAlive(s: Sockets, es: seq<Event>, id: Id)
    requires s.Ok() && !Run(s, es).0.dead
    ensures SentFor(s, es, id) + Missed(Run(s, es).1, id) == PublishedTo(Run(s, es).1, id)
  {
    hide *;
    if es == [] {
      SentForNothing(s, id);
    } else {
      var n := |es| - 1;
      var (st, h) := Run(s, es[..n]);
      AliveBefore(s, es);
      ExactlyOnceAlive(s, es[..n], id);
      if Enabled(s, st, es[n]) {
        SentForNext(s, es, id);
        ExactlyOnceStep(s, es[..n], es[n], id);
      } else {
        SentForSkip(s, es, id);
      }
    }
  }

  lemma AliveBefore(s: Sockets, es: seq<Event>)
    requires s.Ok() && es != [] && !Run(s, es).0.dead
    ensures var n := |es| - 1; var st := Run(s, es[..n]).0;
            !st.dead && (Enabled(s, st, es[n]) ==> !Step(s, st, es[n]).dead)
  {
    hide Inv, Reflects, WellFormed, Step, ActOf;
  }

  lemma SentForNothing(s: Sockets, id: Id)
    requires s.Ok()
    ensures SentFor(s, [], id) + Missed(Run(s, []).1, id) == PublishedTo(Run(s, []).1, id)
  {
  }

  lemma SentForSkip(s: Sockets, es: seq<Event>, id: Id)
    requires s.Ok() && es != [] && !Enabled(s, Run(s, es[..|es| - 1]).0, es[|es| - 1])
    ensures Run(s, es).1 == Run(s, es[..|es| - 1]).1 && SentFor(s, es, id) == SentFor(s, es[..|es| - 1], id)
  {
    hide Inv, Reflects, WellFormed, Step, ActOf, NewFor, Enabled;
  }

  lemma SentForNext(s: Sockets, es: seq<Event>, id: Id)
    requires s.Ok() && es != [] && Enabled(s, Run(s, es[..|es| - 1]).0, es[|es| - 1])
    ensures var (st, h) := Run(s, es[..|es| - 1]); var e := es[|es| - 1];
            && Run(s, es).1 == (if Step(s, st, e).dead then h else h + [ActOf(s, st, e)])
            && SentFor(s, es, id) ==
               SentFor(s, es[..|es| - 1], id) + NewFor(id, ActOf(s, st, e), NewOutput(st, Step(s, st, e)))
  {
    hide Inv, Reflects, WellFormed, Step, ActOf, NewFor, Enabled;
  }

  lemma ExactlyOnceStep(s: Sockets, es: seq<Event>, e: Event, id: Id)
    requires s.Ok() && Enabled(s, Run(s, es).0, e) && !Step(s, Run(s, es).0, e).dead
    requires SentFor(s, es, id) + Missed(Run(s, es).1, id) == PublishedTo(Run(s, es).1, id)
    ensures var (st, h) := Run(s, es); var a := ActOf(s, st, e);
            SentFor(s, es, id) + NewFor(id, a, NewOutput(st, Step(s, st, e))) + Missed(h + [a], id)
            == PublishedTo(h + [a], id)
  {
    hide Run, Inv, Reflects, Online, IsSub, HasSf, Missed, PublishedTo, NewFor, SentFor, Misaddressed, Publish;
    var (st, h) := Run(s, es);
    var a := ActOf(s, st, e);
    NewForStep(s, st, e, h, id);
    MissedNext(h, a, id);
    PublishedToNext(h, a, id);
    ActInTurn(s, st, e, h);
    if e.Udp? {
      PublicationKillsIff(s, es, e.msg);
    }
    if Online(h, id).Some? {
      OnlineMissesNothing(s, st, h, id);
    }
  }

  /** In the publication on which the server exits, the last message goes to the subscribers
      before the misaddressed one, and to nobody else. */
  lemma LastWords(s: Sockets, es: seq<Event>, m: Message, id: Id)
    requires s.Ok() && !Run(s, es).0.dead
    ensures var h := Run(s, es).1;
            SentFor(s, es + [Udp(m)], id) == SentFor(s, es, id) +
              if IsSub(h, id, m.topic) && Online(h, id).Some? && BeforeTheExit(s, h, id, m.topic) then [m] else []
  {
    hide Run, Inv, Reflects, Online, IsSub, NewFor, BeforeTheExit, Publish;
    var (st, h) := Run(s, es);
    assert (es + [Udp(m)])[..|es|] == es;
    NewForStep(s, st, Udp(m), h, id);
  }
}
