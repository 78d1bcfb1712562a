/** The server's maps and open descriptors as functions of the history of what clients did, and
    what the history says of a client's subscriptions and missed messages. */
module PubSubHistory {
  import opened Options
  import opened PubSub

  /** What an event amounts to, seen from outside: who did what. */
  datatype Act =
    | Joined(id: Id, fd: int)
    | Left(id: Id)
    | Asked(id: Id, topic: Topic, sf: bool)
    | Dropped(id: Id, topic: Topic)
    | Published(msg: Message)
    | Leaked(fd: int)
    | Silent

  ghost function ActOf(s: Sockets, st: State, e: Event): Act
    requires Inv(s, st) && Enabled(s, st, e)
  {
    match e
    case Udp(m) => Published(m)
    case Accept(fd, None) => Leaked(fd)
    case Accept(fd, Some(id)) => if id in st.connected then Silent else Joined(id, fd)
    case FromClient(fd, None) => Left(Owner(s, st, fd))
    case FromClient(fd, Some(r)) =>
      if r.kind == 0 then Dropped(Owner(s, st, fd), r.topic)
      else if r.kind == 1 then Asked(Owner(s, st, fd), r.topic, r.sf)
      else Silent
  }

  // ----- history alone -----

  /** The socket on which the client is connected, if it is. */
  function Online(h: seq<Act>, id: Id): Option<int> {
    if h == [] then None
    else
      var n := |h| - 1;
      match h[n]
      case Joined(i, fd) => if i == id then Some(fd) else Online(h[..n], id)
      case Left(i) => if i == id then None else Online(h[..n], id)
      case _ => Online(h[..n], id)
  }

  /** The client's last request on the topic was to subscribe. */
  predicate IsSub(h: seq<Act>, id: Id, t: Topic) {
    if h == [] then false
    else
      var n := |h| - 1;
      match h[n]
      case Asked(i, u, _) => (i == id && u == t) || IsSub(h[..n], id, t)
      case Dropped(i, u) => !(i == id && u == t) && IsSub(h[..n], id, t)
      case _ => IsSub(h[..n], id, t)
  }

  /** The client has at some time asked for the topic with SF while not subscribed to it. */
  predicate HasSf(h: seq<Act>, id: Id, t: Topic) {
    if h == [] then false
    else
      var n := |h| - 1;
      match h[n]
      case Asked(i, u, sf) => (i == id && u == t && sf && !IsSub(h[..n], id, t)) || HasSf(h[..n], id, t)
      case _ => HasSf(h[..n], id, t)
  }

  /** The socket the client was connected on when its present subscription began. */
  function SubSocket(h: seq<Act>, id: Id, t: Topic): Option<int> {
    if h == [] then None
    else
      var n := |h| - 1;
      match h[n]
      case Asked(i, u, _) =>
        if i == id && u == t && !IsSub(h[..n], id, t) then Online(h[..n], id) else SubSocket(h[..n], id, t)
      case _ => SubSocket(h[..n], id, t)
  }

  /** Somebody has asked for the topic or published on it. */
  predicate Known(h: seq<Act>, t: Topic) {
    if h == [] then false
    else
      var n := |h| - 1;
      match h[n]
      case Asked(_, u, _) => u == t || Known(h[..n], t)
      case Published(m) => m.topic == t || Known(h[..n], t)
      case _ => Known(h[..n], t)
  }

  /** The client wants the topic's messages kept while it is away. */
  predicate Wants(h: seq<Act>, id: Id, t: Topic) {
    IsSub(h, id, t) && HasSf(h, id, t)
  }

  /** What the client has missed: the messages published since it left, on topics it wanted. */
  function Missed(h: seq<Act>, id: Id): seq<Message> {
    if h == [] then []
    else
      var n := |h| - 1;
      match h[n]
      case Joined(i, _) => if i == id then [] else Missed(h[..n], id)
      case Left(i) => if i == id then [] else Missed(h[..n], id)
      case Published(m) =>
        Missed(h[..n], id) + if Online(h[..n], id).None? && Wants(h[..n], id, m.topic) then [m] else []
      case _ => Missed(h[..n], id)
  }

  /** The open descriptors: `accept` opens one, and a client that leaves has its own closed. */
  function Opened(s: Sockets, h: seq<Act>): set<int> {
    if h == [] then s.Base()
    else
      var n := |h| - 1;
      match h[n]
      case Joined(_, fd) => Opened(s, h[..n]) + {fd}
      case Leaked(fd) => Opened(s, h[..n]) + {fd}
      case Left(id) => Opened(s, h[..n]) - (if Online(h[..n], id).Some? then {Online(h[..n], id).value} else {})
      case _ => Opened(s, h[..n])
  }

  /** The client is there and subscribed, but the socket it had when it subscribed is closed. */
  ghost predicate Misaddressed(s: Sockets, h: seq<Act>, id: Id, t: Topic) {
    && IsSub(h, id, t) && Online(h, id).Some?
    && SubSocket(h, id, t).Some? && SubSocket(h, id, t).value !in Opened(s, h)
  }

  // ----- the maps are functions of the history -----

  ghost predicate ConnectedAre(h: seq<Act>, connected: ClientMap) {
    && (forall id :: id in connected <==> Online(h, id).Some?)
    && (forall id :: id in connected ==> connected[id].socket == Online(h, id).value)
  }

  /** A record, connected or saved, holds the SF topics of its client; without a record there are none. */
  ghost predicate SfAre(h: seq<Act>, connected: ClientMap, saved: ClientMap) {
    && (forall id, t :: id in connected ==> (t in connected[id].sf <==> HasSf(h, id, t)))
    && (forall id, t :: id in saved ==> (t in saved[id].sf <==> HasSf(h, id, t)))
    && (forall id, t :: id !in connected && id !in saved ==> !HasSf(h, id, t))
  }

  ghost predicate SubscribersAre(h: seq<Act>, topics: map<Topic, ClientMap>) {
    && (forall t :: t in topics <==> Known(h, t))
    && (forall t, id :: t in topics ==> (id in topics[t] <==> IsSub(h, id, t)))
    && (forall t, id :: t !in topics ==> !IsSub(h, id, t))
    && (forall t, id :: t in topics && id in topics[t] ==> Some(topics[t][id].socket) == SubSocket(h, id, t))
  }

  ghost predicate MissedAre(h: seq<Act>, connected: ClientMap, saved: ClientMap) {
    && (forall id :: id in saved ==> saved[id].missed == Missed(h, id))
    && (forall id :: id !in saved ==> Missed(h, id) == [])
  }

  ghost predicate Reflects(s: Sockets, h: seq<Act>, st: State) {
    && st.OpenFds() == Opened(s, h)
    && ConnectedAre(h, st.connected)
    && SfAre(h, st.connected, st.saved)
    && SubscribersAre(h, st.topics)
    && MissedAre(h, st.connected, st.saved)
  }

  // How the history functions go on from `h` to `h + [a]`.

  lemma OnlineNext(h: seq<Act>, a: Act, id: Id)
    ensures Online(h + [a], id) ==
            if a.Joined? && a.id == id then Some(a.fd) else if a.Left? && a.id == id then None else Online(h, id)
  {
    assert (h + [a])[..|h|] == h;
  }

  lemma SubNext(h: seq<Act>, a: Act, id: Id, t: Topic)
    ensures IsSub(h + [a], id, t) ==
            if a.Asked? && a.id == id && a.topic == t then true
            else if a.Dropped? && a.id == id && a.topic == t then false
            else IsSub(h, id, t)
    ensures HasSf(h + [a], id, t) ==
            (HasSf(h, id, t) || (a.Asked? && a.id == id && a.topic == t && a.sf && !IsSub(h, id, t)))
    ensures SubSocket(h + [a], id, t) ==
            if a.Asked? && a.id == id && a.topic == t && !IsSub(h, id, t) then Online(h, id) else SubSocket(h, id, t)
    ensures Known(h + [a], t) == (Known(h, t) || (a.Asked? && a.topic == t) || (a.Published? && a.msg.topic == t))
  {
    assert (h + [a])[..|h|] == h;
  }

  lemma OpenedNext(s: Sockets, h: seq<Act>, a: Act)
    ensures Opened(s, h + [a]) ==
            if a.Joined? || a.Leaked? then Opened(s, h) + {a.fd}
            else if a.Left? && Online(h, a.id).Some? then Opened(s, h) - {Online(h, a.id).value}
            else Opened(s, h)
  {
    assert (h + [a])[..|h|] == h;
  }

  lemma MissedNext(h: seq<Act>, a: Act, id: Id)
    ensures Missed(h + [a], id) ==
            if (a.Joined? || a.Left?) && a.id == id then []
            else if a.Published? && Online(h, id).None? && Wants(h, id, a.msg.topic) then Missed(h, id) + [a.msg]
            else Missed(h, id)
  {
    assert (h + [a])[..|h|] == h;
  }

  // ----- every step keeps the reflection -----

  lemma StepOpened(s: Sockets, st: State, e: Event, h: seq<Act>)
    requires Inv(s, st) && Enabled(s, st, e) && Reflects(s, h, st)
    ensures Step(s, st, e).OpenFds() == Opened(s, h + [ActOf(s, st, e)])
  {
    hide SocketsAgree, TopicsAgree, SfAre, SubscribersAre, MissedAre, Online, Opened, Max, StoreFor, TargetsOf;
    OpenedNext(s, h, ActOf(s, st, e));
  }

  lemma StepConnected(s: Sockets, st: State, e: Event, h: seq<Act>)
    requires Inv(s, st) && Enabled(s, st, e) && Reflects(s, h, st)
    ensures ConnectedAre(h + [ActOf(s, st, e)], Step(s, st, e).connected)
  {
    hide Inv, SfAre, SubscribersAre, MissedAre, Online, StoreFor, TargetsOf, Deliveries, Max;
    var a, st' := ActOf(s, st, e), Step(s, st, e);
    forall id
      ensures id in st'.connected <==> Online(h + [a], id).Some?
      ensures id in st'.connected ==> st'.connected[id].socket == Online(h + [a], id).value
    {
      OnlineNext(h, a, id);
    }
  }

  lemma PublishTopics(st: State, m: Message)
    ensures Publish(st, m).topics == if m.topic in st.topics then st.topics else st.topics[m.topic := map[]]
  {
  }

  /** The topics' maps after a step, in terms of who did what. */
  lemma StepTopics(s: Sockets, st: State, e: Event, t: Topic, id: Id)
    requires Inv(s, st) && Enabled(s, st, e)
    ensures var a, was, now := ActOf(s, st, e), st.topics, Step(s, st, e).topics;
            var asked := a.Asked? && a.id == id && a.topic == t;
            var dropped := a.Dropped? && a.id == id && a.topic == t;
            var isSub := t in was && id in was[t];
            && (t in now <==> t in was || (a.Asked? && a.topic == t) || (a.Published? && a.msg.topic == t))
            && (t in now && id in now[t] <==> asked || (!dropped && isSub))
            && (t in now && id in now[t] && isSub ==> now[t][id] == was[t][id])
            && (asked ==> id in st.connected && (!isSub ==> now[t][id] == st.connected[id]))
  {
    hide SocketsAgree, RecordsAgree, TopicsAgree, Publish, Connect, Disconnect, Max;
    if e.Udp? {
      PublishTopics(st, e.msg);
    } else if e.Accept? && e.hello.Some? {
      ConnectTopics(st, e.fd, e.hello.value);
    } else if e.FromClient? && e.request.None? {
      DisconnectTopics(st, e.fd, Owner(s, st, e.fd));
    }
  }

  lemma ConnectTopics(st: State, fd: int, id: Id)
    ensures Connect(st, fd, id).topics == st.topics
  {
  }

  lemma DisconnectTopics(st: State, fd: int, id: Id)
    requires id in st.connected
    ensures Disconnect(st, fd, id).topics == st.topics
  {
  }

  lemma StepSubscribers(s: Sockets, st: State, e: Event, h: seq<Act>)
    requires Inv(s, st) && Enabled(s, st, e) && Reflects(s, h, st)
    ensures SubscribersAre(h + [ActOf(s, st, e)], Step(s, st, e).topics)
  {
    hide Inv, Enabled, Step, ActOf, SfAre, MissedAre, Online, IsSub, HasSf, SubSocket, Known, Opened;
    var a, st' := ActOf(s, st, e), Step(s, st, e);
    forall t
      ensures t in st'.topics <==> Known(h + [a], t)
    {
      StepTopics(s, st, e, t, "");
      SubNext(h, a, "", t);
    }
    forall t, id
      ensures t in st'.topics ==> (id in st'.topics[t] <==> IsSub(h + [a], id, t))
      ensures t !in st'.topics ==> !IsSub(h + [a], id, t)
      ensures t in st'.topics && id in st'.topics[t] ==> Some(st'.topics[t][id].socket) == SubSocket(h + [a], id, t)
    {
      StepTopics(s, st, e, t, id);
      SubNext(h, a, id, t);
    }
  }

  /** Acts other than a subscription leave the SF topics alone, and so do the maps. */
  lemma SfUnchanged(h: seq<Act>, a: Act, st: State, connected: ClientMap, saved: ClientMap)
    requires SfAre(h, st.connected, st.saved) && !a.Asked?
    requires forall id :: id in connected ==>
               if id in st.connected then connected[id].sf == st.connected[id].sf
               else if id in st.saved then connected[id].sf == st.saved[id].sf
               else connected[id].sf == []
    requires forall id :: id in saved ==>
               || (id in st.saved && saved[id].sf == st.saved[id].sf)
               || (id in st.connected && saved[id].sf == st.connected[id].sf)
    requires forall id :: id in st.connected && id !in connected && id !in saved ==> st.connected[id].sf == []
    requires forall id :: id in st.saved && id !in connected ==> id in saved
    ensures SfAre(h + [a], connected, saved)
  {
    hide IsSub, HasSf, SubSocket, Known, Online;
    forall id, t
      ensures HasSf(h + [a], id, t) <==> HasSf(h, id, t)
    {
      SubNext(h, a, id, t);
    }
  }

  lemma SfAfterSubscribe(s: Sockets, st: State, fd: int, id: Id, r: Request, h: seq<Act>)
    requires Inv(s, st) && Reflects(s, h, st) && id in st.connected && r.kind == 1
    ensures var st' := Subscribe(st, fd, id, r.topic, r.sf);
            SfAre(h + [Asked(id, r.topic, r.sf)], st'.connected, st'.saved)
  {
    hide SocketsAgree, TopicsAgree, MissedAre, Opened, Online, IsSub, HasSf, SubSocket, Known;
    var a, connected := Asked(id, r.topic, r.sf), Subscribe(st, fd, id, r.topic, r.sf).connected;
    forall i, t
      ensures i in connected ==> (t in connected[i].sf <==> HasSf(h + [a], i, t))
      ensures i in st.saved ==> (t in st.saved[i].sf <==> HasSf(h + [a], i, t))
      ensures i !in connected && i !in st.saved ==> !HasSf(h + [a], i, t)
    {
      SubNext(h, a, i, t);
    }
  }

  lemma SfAfterConnect(s: Sockets, st: State, fd: int, id: Id, h: seq<Act>)
    requires Inv(s, st) && SfAre(h, st.connected, st.saved) && id !in st.connected
    ensures SfAre(h + [Joined(id, fd)], Connect(st, fd, id).connected, Connect(st, fd, id).saved)
  {
    hide SocketsAgree, TopicsAgree, SfAre, Deliveries, Max;
    SfUnchanged(h, Joined(id, fd), st, Connect(st, fd, id).connected, Connect(st, fd, id).saved);
  }

  lemma SfAfterDisconnect(s: Sockets, st: State, fd: int, id: Id, h: seq<Act>)
    requires Inv(s, st) && SfAre(h, st.connected, st.saved) && id in st.connected
    ensures SfAre(h + [Left(id)], Disconnect(st, fd, id).connected, Disconnect(st, fd, id).saved)
  {
    hide SocketsAgree, TopicsAgree, SfAre;
    SfUnchanged(h, Left(id), st, Disconnect(st, fd, id).connected, Disconnect(st, fd, id).saved);
  }

  lemma StepSf(s: Sockets, st: State, e: Event, h: seq<Act>)
    requires Inv(s, st) && Enabled(s, st, e) && Reflects(s, h, st)
    ensures SfAre(h + [ActOf(s, st, e)], Step(s, st, e).connected, Step(s, st, e).saved)
  {
    hide Inv, ConnectedAre, MissedAre, SubscribersAre, SfAre, TargetsOf, Disconnect, Subscribe;
    var a, st' := ActOf(s, st, e), Step(s, st, e);
    if a.Asked? {
      SfAfterSubscribe(s, st, e.fd, a.id, e.request.value, h);
    } else if a.Left? {
      SfAfterDisconnect(s, st, e.fd, a.id, h);
    } else if a.Joined? {
      SfAfterConnect(s, st, e.fd, a.id, h);
    } else {
      SfUnchanged(h, a, st, st'.connected, st'.saved);
    }
  }

  lemma MissedAfterPublish(s: Sockets, st: State, m: Message, h: seq<Act>)
    requires Inv(s, st) && !st.dead && Reflects(s, h, st) && !Publish(st, m).dead
    ensures MissedAre(h + [Published(m)], Publish(st, m).connected, Publish(st, m).saved)
  {
    hide SocketsAgree, TopicsAgree, Online, IsSub, HasSf, SubSocket, Known, Missed, TargetsOf, Opened, Publish;
    if m.topic in st.topics {
      PublishAlive(st, m);
    } else {
      UnknownTopic(st, m);
    }
    forall id
      ensures id in st.saved ==>
                id in Publish(st, m).saved && Publish(st, m).saved[id].missed == Missed(h + [Published(m)], id)
      ensures id !in st.saved ==> id !in Publish(st, m).saved && Missed(h + [Published(m)], id) == []
    {
      MissedNext(h, Published(m), id);
    }
  }

  lemma UnknownTopic(st: State, m: Message)
    requires m.topic !in st.topics
    ensures Publish(st, m) == st.(topics := st.topics[m.topic := map[]])
  {
  }

  lemma StepMissed(s: Sockets, st: State, e: Event, h: seq<Act>)
    requires Inv(s, st) && Enabled(s, st, e) && Reflects(s, h, st) && !Step(s, st, e).dead
    ensures MissedAre(h + [ActOf(s, st, e)], Step(s, st, e).connected, Step(s, st, e).saved)
  {
    hide SocketsAgree, TopicsAgree, SfAre, SubscribersAre, Publish, Opened, Subscribe, Unsubscribe, Deliveries;
    hide Online, IsSub, HasSf, SubSocket, Known, Missed, Max;
    var a, st' := ActOf(s, st, e), Step(s, st, e);
    if e.Udp? {
      MissedAfterPublish(s, st, e.msg, h);
    } else {
      if e.FromClient? && e.request.Some? {
        ServeKeepsSaved(st, e.fd, Owner(s, st, e.fd), e.request.value);
      }
      forall id
        ensures id in st'.saved ==> st'.saved[id].missed == Missed(h + [a], id)
        ensures id !in st'.saved ==> Missed(h + [a], id) == []
      {
        MissedNext(h, a, id);
      }
    }
  }

  lemma ServeKeepsSaved(st: State, fd: int, id: Id, r: Request)
    requires id in st.connected
    ensures Serve(st, fd, id, r).saved == st.saved
  {
  }

  lemma StepReflects(s: Sockets, st: State, e: Event, h: seq<Act>)
    requires Inv(s, st) && Enabled(s, st, e) && Reflects(s, h, st) && !Step(s, st, e).dead
    ensures Reflects(s, h + [ActOf(s, st, e)], Step(s, st, e))
  {
    hide Inv, Step, ActOf, Enabled, ConnectedAre, SfAre, SubscribersAre, MissedAre, Opened;
    StepOpened(s, st, e, h);
    StepConnected(s, st, e, h);
    StepSubscribers(s, st, e, h);
    StepSf(s, st, e, h);
    StepMissed(s, st, e, h);
  }

  // ----- possible histories -----

  /** Only somebody who is away joins, and only somebody who is there leaves or asks for anything. */
  ghost predicate InTurn(h: seq<Act>, a: Act) {
    match a
    case Joined(id, _) => Online(h, id).None?
    case Left(id) => Online(h, id).Some?
    case Asked(id, _, _) => Online(h, id).Some?
    case Dropped(id, _) => Online(h, id).Some?
    case _ => true
  }

  ghost predicate WellFormed(h: seq<Act>) {
    forall n :: 0 <= n < |h| ==> InTurn(h[..n], h[n])
  }

  lemma ActInTurn(s: Sockets, st: State, e: Event, h: seq<Act>)
    requires Inv(s, st) && Enabled(s, st, e) && Reflects(s, h, st)
    ensures InTurn(h, ActOf(s, st, e))
  {
    hide Inv, SfAre, SubscribersAre, MissedAre, Online;
  }

  lemma WellFormedNext(h: seq<Act>, a: Act)
    requires WellFormed(h) && InTurn(h, a)
    ensures WellFormed(h + [a])
  {
    forall n | 0 <= n < |h + [a]|
      ensures InTurn((h + [a])[..n], (h + [a])[n])
    {
      assert (h + [a])[..n] == if n < |h| then h[..n] else h;
    }
  }

  // ----- being away -----

  /** The messages published in `acts` on the topics that the client wanted after `h`. */
  function PublishedFor(h: seq<Act>, id: Id, acts: seq<Act>): seq<Message> {
    if acts == [] then []
    else
      var n := |acts| - 1;
      PublishedFor(h, id, acts[..n]) +
      if acts[n].Published? && Wants(h, id, acts[n].msg.topic) then [acts[n].msg] else []
  }

  /** Nothing changes the subscriptions of a client while it is away. */
  lemma {:induction false} AwayUnchanged(h: seq<Act>, id: Id, acts: seq<Act>, t: Topic)
    requires WellFormed(h + [Left(id)] + acts) && forall i :: 0 <= i < |acts| && acts[i].Joined? ==> acts[i].id != id
    ensures Online(h + [Left(id)] + acts, id).None?
    ensures IsSub(h + [Left(id)] + acts, id, t) == IsSub(h, id, t)
    ensures HasSf(h + [Left(id)] + acts, id, t) == HasSf(h, id, t)
  {
    hide Online, IsSub, HasSf, SubSocket, Known, InTurn;
    var all := h + [Left(id)] + acts;
    if acts == [] {
      assert all == h + [Left(id)];
      OnlineNext(h, Left(id), id);
      SubNext(h, Left(id), id, t);
    } else {
      var n := |acts| - 1;
      WellFormedPrefix(h + [Left(id)], acts);
      AwayUnchanged(h, id, acts[..n], t);
      var before := h + [Left(id)] + acts[..n];
      assert all == before + [acts[n]];
      OnlineNext(before, acts[n], id);
      SubNext(before, acts[n], id, t);
      NotAsking(before, acts[n], id);
    }
  }

  lemma WellFormedPrefix(h: seq<Act>, acts: seq<Act>)
    requires WellFormed(h + acts) && acts != []
    ensures var n := |acts| - 1; WellFormed(h + acts[..n]) && InTurn(h + acts[..n], acts[n])
  {
    hide InTurn;
    var n := |acts| - 1;
    var all, before := h + acts, h + acts[..n];
    assert all[..|before|] == before && all[|before|] == acts[n];
    assert InTurn(all[..|before|], all[|before|]);
    forall k | 0 <= k < |before|
      ensures InTurn(before[..k], before[k])
    {
      assert InTurn(all[..k], all[k]);
      assert all[..k] == before[..k];
    }
  }

  lemma NotAsking(h: seq<Act>, a: Act, id: Id)
    requires InTurn(h, a) && Online(h, id).None?
    ensures (a.Asked? || a.Dropped? || a.Left?) ==> a.id != id
  {
  }

  /** What a client has missed are exactly the messages published since it left on the topics
      to which it was subscribed and which it held in its SF vector when it left, each once and
      in order. */
  lemma {:induction false} MissedWhileAway(h: seq<Act>, id: Id, acts: seq<Act>)
    requires WellFormed(h + [Left(id)] + acts) && forall i :: 0 <= i < |acts| && acts[i].Joined? ==> acts[i].id != id
    ensures Missed(h + [Left(id)] + acts, id) == PublishedFor(h, id, acts)
  {
    hide Online, IsSub, HasSf, Missed, InTurn;
    if acts == [] {
      assert h + [Left(id)] + acts == h + [Left(id)];
      MissedNext(h, Left(id), id);
    } else {
      var n := |acts| - 1;
      var before := h + [Left(id)] + acts[..n];
      WellFormedPrefix(h + [Left(id)], acts);
      MissedWhileAway(h, id, acts[..n]);
      assert h + [Left(id)] + acts == before + [acts[n]];
      MissedNext(before, acts[n], id);
      AwayUnchanged(h, id, acts[..n], if acts[n].Published? then acts[n].msg.topic else "");
      NotAsking(before, acts[n], id);
    }
  }

  // ----- all that is published to a client -----

  /** All messages the client is to get: those published on a topic while it was subscribed to
      it and either connected or holding it in its SF vector. */
  function PublishedTo(h: seq<Act>, id: Id): seq<Message> {
    if h == [] then []
    else
      var n := |h| - 1;
      PublishedTo(h[..n], id) +
      match h[n]
      case Published(m) =>
        if IsSub(h[..n], id, m.topic) && (Online(h[..n], id).Some? || HasSf(h[..n], id, m.topic)) then [m] else []
      case _ => []
  }

  lemma PublishedToNext(h: seq<Act>, a: Act, id: Id)
    ensures PublishedTo(h + [a], id) ==
            PublishedTo(h, id)
            + if a.Published? && IsSub(h, id, a.msg.topic) && (Online(h, id).Some? || HasSf(h, id, a.msg.topic))
              then [a.msg] else []
  {
    assert (h + [a])[..|h|] == h;
  }

  // ----- the socket of a subscription -----

  /** Until the client unsubscribes, publications are aimed at the socket it had when it
      subscribed, whatever its comings and goings. */
  lemma {:induction false} SocketSinceAsked(h: seq<Act>, id: Id, t: Topic, sf: bool, acts: seq<Act>)
    requires !IsSub(h, id, t) && WellFormed(h + [Asked(id, t, sf)] + acts)
    requires forall i :: 0 <= i < |acts| ==> acts[i] != Dropped(id, t)
    ensures var all := h + [Asked(id, t, sf)] + acts;
            IsSub(all, id, t) && SubSocket(all, id, t) == Online(h, id) && Online(h, id).Some?
  {
    hide Online, IsSub, SubSocket, HasSf, Known, InTurn;
    var ask := Asked(id, t, sf);
    if acts == [] {
      assert h + [ask] + acts == h + [ask];
      SubNext(h, ask, id, t);
      WellFormedPrefix(h, [ask]);
      assert h + [ask][..0] == h;
      AskerIsOnline(h, ask);
    } else {
      var n := |acts| - 1;
      var before := h + [ask] + acts[..n];
      WellFormedPrefix(h + [ask], acts);
      assert h + [ask] + acts == before + [acts[n]];
      SubNext(before, acts[n], id, t);
      SocketSinceAsked(h, id, t, sf, acts[..n]);
    }
  }

  lemma AskerIsOnline(h: seq<Act>, a: Act)
    requires InTurn(h, a) && a.Asked?
    ensures Online(h, a.id).Some?
  {
  }
}
