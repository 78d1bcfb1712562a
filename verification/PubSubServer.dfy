/** The running server: the maps, the read set and `fdmax`, updated in place. */
module PubSubServer {
  import opened Options
  import opened PubSub
  import opened PubSubRuns

  class Server {
    const sockets: Sockets
    var connected: ClientMap
    var saved: ClientMap
    var topics: map<Topic, ClientMap>
    var readFds: set<int>
    var leaked: set<int>
    var fdmax: int
    var out: seq<Output>
    var dead: bool

    ghost function Abs(): State
      reads this
    {
      State(connected, saved, topics, readFds, leaked, fdmax, out, dead)
    }

    ghost predicate Valid()
      reads this
    {
      Inv(sockets, Abs())
    }

    constructor (sockets: Sockets)
      requires sockets.Ok()
      ensures Valid() && Abs() == Initial(sockets) && this.sockets == sockets
    {
      this.sockets := sockets;
      connected, saved, topics := map[], map[], map[];
      readFds, leaked := {0, sockets.tcp, sockets.udp}, {};
      fdmax := Max(sockets.tcp, sockets.udp);
      out, dead := [], false;
      new;
      InitialInv(sockets);
    }

    /** `send_new_msg`: one pass over the topic's map, in the order of its keys, which ends with
        the program when a socket is closed. */
    method SendNewMsg(subscribers: ClientMap, m: Message)
      requires !dead && KeysAreIds(subscribers)
      modifies `saved, `out, `dead
      ensures var reached := Reached(old(Abs()), subscribers);
              && saved == StoreFor(old(saved), reached - connected.Keys, m)
              && out == old(out) + [Fanout(m, TargetsOf(subscribers, reached * connected.Keys))]
              && (dead <==> Failing(old(Abs()), subscribers) != {})
    {
      hide Progress, StoreFor, TargetsOf, Reached, Failing, Precedes, IsLeast;
      var todo := subscribers.Keys;
      var targets: map<Id, int> := map[];
      ghost var before := Abs();
      NobodyYet(before, subscribers, m);
      while todo != {} && !dead
        invariant out == old(out) && todo <= subscribers.Keys
        invariant Progress(before, subscribers, todo, m, saved, targets)
        invariant dead ==> todo != {} && exists key :: IsLeast(todo, key) && Unsendable(before, subscribers, key)
        decreases |todo|, !dead
      {
        LeastExists(todo);
        var key :| IsLeast(todo, key);
        VisitNext(before, subscribers, todo, key, m, saved, targets);
        var crt := subscribers[key];
        if crt.id in connected {
          if crt.socket !in readFds + leaked {
            dead := true;
          } else {
            targets, todo := targets[crt.id := crt.socket], todo - {key};
          }
        } else {
          if crt.id in saved {
            if m.topic in saved[crt.id].sf {
              saved := saved[crt.id := saved[crt.id].AddMissed(m)];
            }
          }
          todo := todo - {key};
        }
      }
      PassEnds(before, subscribers, todo, m, saved, targets);
      out := out + [Fanout(m, targets)];
    }

    /** The UDP branch of the main loop. */
    method OnUdp(m: Message)
      requires Valid() && !dead
      modifies this
      ensures Valid() && Abs() == Publish(old(Abs()), m)
    {
      PublishKeepsInv(sockets, Abs(), m);
      if m.topic !in topics {
        topics := topics[m.topic := map[]];
      } else {
        SendNewMsg(topics[m.topic], m);
      }
    }

    method AlreadyConnected(fd: int, id: Id) returns (b: bool)
      modifies `out
      ensures b <==> id in connected
      ensures out == if b then old(out) + [Notice(fd, EXIT)] else old(out)
    {
      if id !in connected {
        return false;
      }
      out := out + [Notice(fd, EXIT)];
      b := true;
    }

    /** `send_missed`: -1 if nothing is saved for the client, else the number of messages sent. */
    method SendMissed(id: Id, fd: int) returns (missed: int)
      modifies `connected, `saved, `out
      ensures id !in old(saved) ==>
                missed == -1 && connected == old(connected) && saved == old(saved) && out == old(out)
      ensures id in old(saved) ==> missed == |old(saved)[id].missed| && Abs() == Reconnect(old(Abs()), fd, id)
    {
      if id !in saved {
        return -1;
      }
      missed := 0;
      ghost var queue := saved[id].missed;
      while saved[id].missed != []
        invariant id in saved && 0 <= missed <= |queue|
        invariant saved == old(saved)[id := old(saved)[id].(missed := queue[missed..])]
        invariant connected == old(connected)
        invariant out == old(out) + Deliveries(fd, queue[..missed])
        decreases |saved[id].missed|
      {
        var msg := saved[id].missed[0];
        saved := saved[id := saved[id].(missed := saved[id].missed[1..])];
        out := out + [Delivery(fd, msg)];
        assert queue[missed..][1..] == queue[missed + 1..];
        assert Deliveries(fd, queue[..missed + 1]) == Deliveries(fd, queue[..missed]) + [Delivery(fd, msg)];
        missed := missed + 1;
      }
      assert queue[..missed] == queue;
      saved := saved[id := saved[id].SetClientSocket(fd)];
      connected := connected[id := saved[id]];
      saved := saved - {id};
    }

    /** The accept branch of the main loop.  A connection that sends no id is forgotten, but not
        closed. */
    method OnAccept(fd: int, hello: Option<Id>)
      requires Valid() && Enabled(sockets, Abs(), Accept(fd, hello))
      modifies this
      ensures Valid() && Abs() == Step(sockets, old(Abs()), Accept(fd, hello))
    {
      hide Inv;
      StepKeepsInv(sockets, Abs(), Accept(fd, hello));
      if hello == None {
        leaked := leaked + {fd};
        return;
      }
      var id := hello.value;
      var there := AlreadyConnected(fd, id);
      if there {
        return;
      }
      readFds := readFds + {fd};
      fdmax := Max(fdmax, fd);
      var missed := SendMissed(id, fd);
      if missed == -1 {
        connected := connected[id := Client(fd, id, [], [])];
      }
    }

    method UnsubscribeClient(fd: int, id: Id, t: Topic)
      modifies `topics, `out
      ensures Abs() == Unsubscribe(old(Abs()), fd, id, t)
    {
      if t !in topics {
        out := out + [Notice(fd, NO_TOPIC)];
        return;
      }
      topics := topics[t := topics[t] - {id}];
      out := out + [Notice(fd, UNSUBSCRIBED)];
    }

    method SubscribeClient(fd: int, id: Id, t: Topic, sf: bool)
      requires id in connected
      modifies `topics, `connected, `out
      ensures Abs() == Subscribe(old(Abs()), fd, id, t, sf)
    {
      if t !in topics {
        topics := topics[t := map[]];
      }
      if id in topics[t] {
        out := out + [Notice(fd, ALREADY_SUB)];
        return;
      }
      topics := topics[t := topics[t][id := connected[id]]];
      out := out + [Notice(fd, SUBSCRIBED)];
      if sf {
        connected := connected[id := connected[id].AddSf(t)];
      }
    }

    /** `msg_from_client` */
    method MsgFromClient(fd: int, id: Id, r: Request)
      requires id in connected
      modifies `topics, `connected, `out
      ensures Abs() == Serve(old(Abs()), fd, id, r)
    {
      if r.kind == 0 {
        UnsubscribeClient(fd, id, r.topic);
      } else if r.kind == 1 {
        SubscribeClient(fd, id, r.topic, r.sf);
      }
    }

    method ClientDisconnected(fd: int, id: Id)
      requires id in connected && id !in saved
      modifies `connected, `saved, `readFds
      ensures Abs() == Disconnect(old(Abs()), fd, id)
    {
      var client := connected[id];
      if client.sf != [] {
        saved := saved[id := client];
      }
      connected := connected - {id};
      readFds := readFds - {fd};
    }

    /** The search for the client whose socket it is; the empty id if there is none. */
    method FindOwner(fd: int) returns (id: Id)
      ensures (exists i :: Owns(connected, fd, i)) ==> Owns(connected, fd, id)
      ensures (forall i :: !Owns(connected, fd, i)) ==> id == ""
    {
      var todo := connected.Keys;
      while todo != {}
        invariant todo <= connected.Keys && forall i :: Owns(connected, fd, i) ==> i in todo
        decreases todo
      {
        id :| id in todo;
        if connected[id].socket == fd {
          assert Owns(connected, fd, id);
          return;
        }
        todo := todo - {id};
      }
      id := "";
    }

    /** The client branch of the main loop. */
    method OnClient(fd: int, request: Option<Request>)
      requires Valid() && Enabled(sockets, Abs(), FromClient(fd, request))
      modifies this
      ensures Valid() && Abs() == Step(sockets, old(Abs()), FromClient(fd, request))
    {
      hide SocketsAgree, TopicsAgree, Unsubscribe, Subscribe, Disconnect, Serve;
      ghost var owner := Owner(sockets, Abs(), fd);
      StepKeepsInv(sockets, Abs(), FromClient(fd, request));
      var id := FindOwner(fd);
      OwnerUnique(sockets, Abs(), fd, id);
      match request {
        case None => ClientDisconnected(fd, id);
        case Some(r) => MsgFromClient(fd, id, r);
      }
    }

    /** One readable socket of the main loop. */
    method Dispatch(e: Event)
      requires Valid() && Enabled(sockets, Abs(), e)
      modifies this
      ensures Valid() && Abs() == Step(sockets, old(Abs()), e)
    {
      hide Inv, Publish, Connect;
      match e {
        case Udp(m) => OnUdp(m);
        case Accept(fd, hello) => OnAccept(fd, hello);
        case FromClient(fd, request) => OnClient(fd, request);
      }
    }

    /** The main loop on a finite sequence of events, then, if the server has not exited, the exit
        command. */
    method Loop(es: seq<Event>)
      requires Valid() && Abs() == Initial(sockets)
      modifies this
      ensures var st := Run(sockets, es).0;
              Abs() == if st.dead then st
                       else st.(out := st.out + ExitNotices(ClientFds(sockets, st.readFds, 1, st.fdmax)))
    {
      assert sockets.Ok();
      hide Inv, Run, Step;
      RunOfNothing(sockets);
      for i := 0 to |es|
        invariant sockets.Ok() && Valid() && Abs() == Run(sockets, es[..i]).0
      {
        assert es[..i + 1] == es[..i] + [es[i]];
        RunNext(sockets, es[..i], es[i]);
        if Possible(es[i]) {
          Dispatch(es[i]);
        }
      }
      assert es[..|es|] == es;
      if !dead {
        CloseAll();
      }
    }

    predicate Possible(e: Event)
      reads this
      ensures Possible(e) <==> Enabled(sockets, Abs(), e)
    {
      && !dead
      && match e
         case Udp(_) => true
         case Accept(fd, _) => fd > 0 && fd !in readFds + leaked
         case FromClient(fd, _) => fd in readFds && fd !in sockets.Base()
    }

    /** `close_all`: everybody is told to exit. */
    method CloseAll()
      modifies `out
      ensures out == old(out) + ExitNotices(ClientFds(sockets, readFds, 1, fdmax))
    {
      hide ClientFds, ExitNotices;
      var i := 1;
      while i <= fdmax
        invariant out + ExitNotices(ClientFds(sockets, readFds, i, fdmax))
                  == old(out) + ExitNotices(ClientFds(sockets, readFds, 1, fdmax))
        decreases fdmax - i + 1
      {
        ExitNext(sockets, readFds, i, fdmax);
        if i in readFds {
          if i != sockets.tcp && i != sockets.udp {
            out := out + [Notice(i, EXIT)];
          }
        }
        i := i + 1;
      }
      ExitDone(sockets, readFds, i, fdmax);
    }
  }

  lemma RunOfNothing(s: Sockets)
    requires s.Ok()
    ensures Run(s, []).0 == Initial(s)
  {
  }

  /** The pass has visited all but `todo`, which come after those visited, and no `send` has failed. */
  ghost predicate Progress(
      st: State, subscribers: ClientMap, todo: set<Id>, m: Message, saved: ClientMap, targets: map<Id, int>)
  {
    var done := subscribers.Keys - todo;
    && (forall a, b :: a in done && b in todo ==> Precedes(a, b))
    && Failing(st, subscribers) <= todo
    && saved == StoreFor(st.saved, done - st.connected.Keys, m)
    && targets == TargetsOf(subscribers, done * st.connected.Keys)
  }

  lemma NobodyYet(st: State, subscribers: ClientMap, m: Message)
    ensures Progress(st, subscribers, subscribers.Keys, m, st.saved, map[])
  {
    hide Precedes;
  }

  /** The pass goes on to the next key, unless the message cannot be sent there. */
  lemma VisitNext(st: State, subscribers: ClientMap, todo: set<Id>, key: Id, m: Message, saved: ClientMap,
                  targets: map<Id, int>)
    requires todo <= subscribers.Keys && IsLeast(todo, key) && Progress(st, subscribers, todo, m, saved, targets)
    ensures key in todo
    ensures key in st.connected && !Unsendable(st, subscribers, key) ==>
              Progress(st, subscribers, todo - {key}, m, saved, targets[key := subscribers[key].socket])
    ensures key !in st.connected ==>
              Progress(st, subscribers, todo - {key}, m,
                       if key in saved && m.topic in saved[key].sf then saved[key := saved[key].AddMissed(m)]
                       else saved,
                       targets)
  {
    hide Precedes, Failing;
    assert subscribers.Keys - (todo - {key}) == (subscribers.Keys - todo) + {key};
    FailingIs(st, subscribers, key);
  }

  lemma FailingIs(st: State, subscribers: ClientMap, key: Id)
    ensures key in Failing(st, subscribers) <==> Unsendable(st, subscribers, key)
  {
  }

  /** When the pass is over, because nobody is left or because the next `send` fails, exactly those
      visited were to be reached. */
  lemma PassEnds(st: State, subscribers: ClientMap, todo: set<Id>, m: Message, saved: ClientMap,
                 targets: map<Id, int>)
    requires todo <= subscribers.Keys && Progress(st, subscribers, todo, m, saved, targets)
    requires todo == {} || exists key :: IsLeast(todo, key) && Unsendable(st, subscribers, key)
    ensures Failing(st, subscribers) != {} <==> todo != {}
    ensures Reached(st, subscribers) == subscribers.Keys - todo
    ensures var reached := Reached(st, subscribers);
            && saved == StoreFor(st.saved, reached - st.connected.Keys, m)
            && targets == TargetsOf(subscribers, reached * st.connected.Keys)
  {
    hide Precedes, Failing, StoreFor, TargetsOf;
    if key :| IsLeast(todo, key) && Unsendable(st, subscribers, key) {
      FailingIs(st, subscribers, key);
      forall x | x in todo
        ensures x !in Reached(st, subscribers)
      {
        PrecedesTotal(key, x);
      }
    }
  }

  lemma ExitNext(s: Sockets, readFds: set<int>, i: int, fdmax: int)
    requires i <= fdmax
    ensures ExitNotices(ClientFds(s, readFds, i, fdmax)) ==
            (if i in readFds && i != s.tcp && i != s.udp then [Notice(i, EXIT)] else [])
            + ExitNotices(ClientFds(s, readFds, i + 1, fdmax))
  {
  }

  lemma ExitDone(s: Sockets, readFds: set<int>, i: int, fdmax: int)
    requires i > fdmax
    ensures ExitNotices(ClientFds(s, readFds, i, fdmax)) == []
  {
  }
}
