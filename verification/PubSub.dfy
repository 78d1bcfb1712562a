/** The publish/subscribe server as a state machine over its three maps. */
module PubSub {
  import opened Options

  type Id = string

  type Topic = string

  /** `cli_msg`: a message as it is sent on to subscribers. */
  datatype Message = Message(topic: Topic, ip: nat, port: nat, kind: nat, payload: string)

  /** A client's record.  The maps hold records by value, and copies of one are independent. */
  datatype Client = Client(socket: int, id: Id, sf: seq<Topic>, missed: seq<Message>) {
    function SetClientSocket(fd: int): Client { this.(socket := fd) }

    function AddSf(t: Topic): Client { this.(sf := sf + [t]) }

    function AddMissed(m: Message): Client { this.(missed := missed + [m]) }
  }

  type ClientMap = map<Id, Client>

  datatype Code = EXIT | NO_TOPIC | SUBSCRIBED | UNSUBSCRIBED | ALREADY_SUB

  /** What is sent on sockets: one publication to a set of subscribers, each on the socket it is
      mapped to; a missed message; or an answer code. */
  datatype Output =
    | Fanout(msg: Message, targets: map<Id, int>)
    | Delivery(fd: int, msg: Message)
    | Notice(fd: int, code: Code)

  /** The listening sockets; 0 is standard input. */
  datatype Sockets = Sockets(tcp: int, udp: int) {
    predicate Ok() { 0 < tcp && 0 < udp && tcp != udp }

    function Base(): set<int> { {0, tcp, udp} }
  }

  /** `leaked` are the descriptors of connections that sent no id: never closed, never read again.
      A server that is `dead` has exited because `send` failed. */
  datatype State = State(
    connected: ClientMap,
    saved: ClientMap,
    topics: map<Topic, ClientMap>,
    readFds: set<int>,
    leaked: set<int>,
    fdmax: int,
    out: seq<Output>,
    dead: bool) {

    function OpenFds(): set<int> { readFds + leaked }
  }

  function Max(a: int, b: int): int {
    if a < b then b else a
  }

  function Initial(s: Sockets): State {
    State(map[], map[], map[], s.Base(), {}, Max(s.tcp, s.udp), [], false)
  }

  /** `from_tcp`: type 0 is unsubscribe, 1 is subscribe. */
  datatype Request = Request(kind: nat, topic: Topic, sf: bool)

  /** What the main loop finds on a readable socket.  Nothing read means that the peer has closed. */
  datatype Event =
    | Udp(msg: Message)
    | Accept(fd: int, hello: Option<Id>)
    | FromClient(fd: int, request: Option<Request>)

  /** `accept` returns a descriptor that is not open; clients are read on the sockets in the read
      set; and after its exit nothing happens to the server. */
  predicate Enabled(s: Sockets, st: State, e: Event) {
    && !st.dead
    && match e
       case Udp(_) => true
       case Accept(fd, _) => fd > 0 && fd !in st.OpenFds()
       case FromClient(fd, _) => fd in st.readFds && fd !in s.Base()
  }

  // ----- the invariant -----

  ghost predicate Owns(connected: ClientMap, fd: int, id: Id) {
    id in connected && connected[id].socket == fd
  }

  ghost predicate KeysAreIds(m: ClientMap) {
    forall id :: id in m ==> m[id].id == id
  }

  /** The connected clients' sockets are distinct, and are the read set without the listening sockets. */
  ghost predicate SocketsAgree(s: Sockets, connected: ClientMap, readFds: set<int>, fdmax: int) {
    && s.Base() <= readFds
    && (forall a, b :: a in connected && b in connected && connected[a].socket == connected[b].socket ==> a == b)
    && (forall id :: id in connected ==> connected[id].socket in readFds && connected[id].socket !in s.Base())
    && (forall fd :: fd in readFds && fd !in s.Base() ==> exists id :: Owns(connected, fd, id))
    && (forall fd :: fd in readFds ==> 0 <= fd <= fdmax)
  }

  /** Nobody is both connected and saved; connected clients miss nothing, saved ones want something. */
  ghost predicate RecordsAgree(connected: ClientMap, saved: ClientMap) {
    && connected.Keys !! saved.Keys
    && KeysAreIds(connected) && KeysAreIds(saved)
    && (forall id :: id in connected ==> connected[id].missed == [])
    && (forall id :: id in saved ==> saved[id].sf != [])
  }

  ghost predicate TopicsAgree(topics: map<Topic, ClientMap>) {
    forall t :: t in topics ==> KeysAreIds(topics[t])
  }

  ghost predicate Inv(s: Sockets, st: State) {
    && s.Ok()
    && st.readFds !! st.leaked
    && SocketsAgree(s, st.connected, st.readFds, st.fdmax)
    && RecordsAgree(st.connected, st.saved)
    && TopicsAgree(st.topics)
  }

  /** The client whose socket it is. */
  ghost function Owner(s: Sockets, st: State, fd: int): (id: Id)
    requires Inv(s, st) && fd in st.readFds && fd !in s.Base()
    ensures Owns(st.connected, fd, id)
  {
    var id :| Owns(st.connected, fd, id);
    id
  }

  /** The lookup by socket has one answer. */
  lemma OwnerUnique(s: Sockets, st: State, fd: int, id: Id)
    requires Inv(s, st) && Owns(st.connected, fd, id)
    ensures fd in st.readFds && fd !in s.Base() && Owner(s, st, fd) == id
  {
  }

  // ----- the order of a map -----

  /** `<` on strings, in which `std::map` is iterated. */
  predicate Precedes(a: Id, b: Id) {
    b != "" && (a == "" || a[0] < b[0] || (a[0] == b[0] && Precedes(a[1..], b[1..])))
  }

  lemma {:induction false} PrecedesTotal(a: Id, b: Id)
    ensures if a == b then !Precedes(a, b) else Precedes(a, b) != Precedes(b, a)
  {
    if a != "" && b != "" && a[0] == b[0] {
      PrecedesTotal(a[1..], b[1..]);
      assert a == [a[0]] + a[1..] && b == [b[0]] + b[1..];
    }
  }

  lemma {:induction false} PrecedesTransitive(a: Id, b: Id, c: Id)
    requires Precedes(a, b) && Precedes(b, c)
    ensures Precedes(a, c)
  {
    if a != "" && a[0] == b[0] == c[0] {
      PrecedesTransitive(a[1..], b[1..], c[1..]);
    }
  }

  predicate IsLeast(ids: set<Id>, id: Id) {
    id in ids && forall x :: x in ids && x != id ==> Precedes(id, x)
  }

  /** An iteration has a first element. */
  lemma {:induction false} LeastExists(ids: set<Id>)
    requires ids != {}
    ensures exists id :: IsLeast(ids, id)
  {
    var x :| x in ids;
    if ids != {x} {
      LeastExists(ids - {x});
      var y :| IsLeast(ids - {x}, y);
      PrecedesTotal(x, y);
      if Precedes(x, y) {
        forall z | z in ids && z != x
          ensures Precedes(x, z)
        {
          if z != y {
            PrecedesTransitive(x, y, z);
          }
        }
        assert IsLeast(ids, x);
      } else {
        assert IsLeast(ids, y);
      }
    } else {
      assert IsLeast(ids, x);
    }
  }

  // ----- the operations -----

  /** `send` to a subscriber fails: it is connected, and the socket in the topic's copy of its
      record is closed. */
  predicate Unsendable(st: State, subscribers: ClientMap, id: Id) {
    id in subscribers && id in st.connected && subscribers[id].socket !in st.OpenFds()
  }

  function Failing(st: State, subscribers: ClientMap): set<Id> {
    set id | id in subscribers && Unsendable(st, subscribers, id)
  }

  /** The subscribers visited before `send` fails, which is all of them if it does not. */
  function Reached(st: State, subscribers: ClientMap): set<Id> {
    set id | id in subscribers && forall b :: b in Failing(st, subscribers) ==> Precedes(id, b)
  }

  /** `send_new_msg`, and the creation of an unknown topic, which drops the message.  The first
      `send` that fails ends the server. */
  function Publish(st: State, m: Message): State {
    if m.topic !in st.topics then st.(topics := st.topics[m.topic := map[]])
    else
      var subscribers := st.topics[m.topic];
      var reached := Reached(st, subscribers);
      st.(saved := StoreFor(st.saved, reached - st.connected.Keys, m),
          out := st.out + [Fanout(m, TargetsOf(subscribers, reached * st.connected.Keys))],
          dead := Failing(st, subscribers) != {})
  }

  /** The sockets held by the subscriptions of `ids`. */
  function TargetsOf(subscribers: ClientMap, ids: set<Id>): map<Id, int> {
    map id | id in ids && id in subscribers :: subscribers[id].socket
  }

  /** The message is stored for those of `ids` that are saved with the topic in their SF vector. */
  function StoreFor(saved: ClientMap, ids: set<Id>, m: Message): ClientMap {
    map id | id in saved :: if id in ids && m.topic in saved[id].sf then saved[id].AddMissed(m) else saved[id]
  }

  function Deliveries(fd: int, ms: seq<Message>): seq<Output> {
    seq(|ms|, i requires 0 <= i < |ms| => Delivery(fd, ms[i]))
  }

  /** `send_missed`: a saved client gets what it missed and is connected again. */
  function Reconnect(st: State, fd: int, id: Id): State
    requires id in st.saved
  {
    st.(connected := st.connected[id := st.saved[id].(socket := fd, missed := [])],
        saved := st.saved - {id},
        out := st.out + Deliveries(fd, st.saved[id].missed))
  }

  function Connect(st: State, fd: int, id: Id): State {
    if id in st.connected then st.(out := st.out + [Notice(fd, EXIT)])
    else
      var widened := st.(readFds := st.readFds + {fd}, fdmax := Max(st.fdmax, fd));
      if id in st.saved then Reconnect(widened, fd, id)
      else widened.(connected := st.connected[id := Client(fd, id, [], [])])
  }

  function Unsubscribe(st: State, fd: int, id: Id, t: Topic): State {
    if t !in st.topics then st.(out := st.out + [Notice(fd, NO_TOPIC)])
    else st.(topics := st.topics[t := st.topics[t] - {id}], out := st.out + [Notice(fd, UNSUBSCRIBED)])
  }

  /** The topic's map keeps a copy of the record as it was before the SF vector grows. */
  function Subscribe(st: State, fd: int, id: Id, t: Topic, sf: bool): State
    requires id in st.connected
  {
    var subscribers := if t in st.topics then st.topics[t] else map[];
    if id in subscribers then st.(out := st.out + [Notice(fd, ALREADY_SUB)])
    else
      st.(topics := st.topics[t := subscribers[id := st.connected[id]]],
          connected := if sf then st.connected[id := st.connected[id].AddSf(t)] else st.connected,
          out := st.out + [Notice(fd, SUBSCRIBED)])
  }

  /** `client_disconnected`: only a client with a non-empty SF vector is remembered. */
  function Disconnect(st: State, fd: int, id: Id): State
    requires id in st.connected
  {
    st.(connected := st.connected - {id},
        saved := if st.connected[id].sf != [] then st.saved[id := st.connected[id]] else st.saved,
        readFds := st.readFds - {fd})
  }

  /** `msg_from_client` */
  function Serve(st: State, fd: int, id: Id, r: Request): State
    requires id in st.connected
  {
    if r.kind == 0 then Unsubscribe(st, fd, id, r.topic)
    else if r.kind == 1 then Subscribe(st, fd, id, r.topic, r.sf)
    else st
  }

  /** One pass through the dispatch of the main loop for one readable socket. */
  ghost function Step(s: Sockets, st: State, e: Event): State
    requires Inv(s, st) && Enabled(s, st, e)
  {
    match e
    case Udp(m) => Publish(st, m)
    case Accept(fd, None) => st.(leaked := st.leaked + {fd})
    case Accept(fd, Some(id)) => Connect(st, fd, id)
    case FromClient(fd, None) => Disconnect(st, fd, Owner(s, st, fd))
    case FromClient(fd, Some(r)) => Serve(st, fd, Owner(s, st, fd), r)
  }

  // ----- every step keeps the invariant -----

  lemma InitialInv(s: Sockets)
    requires s.Ok()
    ensures Inv(s, Initial(s))
  {
  }

  lemma PublishKeepsInv(s: Sockets, st: State, m: Message)
    requires Inv(s, st)
    ensures Inv(s, Publish(st, m))
  {
    hide SocketsAgree;
    assert Publish(st, m).saved.Keys == st.saved.Keys;
  }

  lemma NewSocket(s: Sockets, st: State, fd: int, c: Client)
    requires SocketsAgree(s, st.connected, st.readFds, st.fdmax) && fd > 0 && fd !in st.readFds
    requires c.id !in st.connected && c.socket == fd
    ensures SocketsAgree(s, st.connected[c.id := c], st.readFds + {fd}, Max(st.fdmax, fd))
  {
    var connected := st.connected[c.id := c];
    assert Owns(connected, fd, c.id);
    forall f | f in st.readFds && f !in s.Base()
      ensures exists x :: Owns(connected, f, x)
    {
      var x :| Owns(st.connected, f, x);
      assert Owns(connected, f, x);
    }
  }

  lemma ConnectKeepsInv(s: Sockets, st: State, fd: int, id: Id)
    requires Inv(s, st) && fd > 0 && fd !in st.OpenFds()
    ensures Inv(s, Connect(st, fd, id))
  {
    hide SocketsAgree, Max;
    if id in st.saved {
      NewSocket(s, st, fd, st.saved[id].(socket := fd, missed := []));
    } else if id !in st.connected {
      NewSocket(s, st, fd, Client(fd, id, [], []));
    }
  }

  lemma LeakKeepsInv(s: Sockets, st: State, fd: int)
    requires Inv(s, st) && fd !in st.readFds
    ensures Inv(s, st.(leaked := st.leaked + {fd}))
  {
    hide SocketsAgree, RecordsAgree, TopicsAgree;
  }

  lemma SocketGone(s: Sockets, st: State, fd: int, id: Id)
    requires SocketsAgree(s, st.connected, st.readFds, st.fdmax) && Owns(st.connected, fd, id)
    ensures SocketsAgree(s, st.connected - {id}, st.readFds - {fd}, st.fdmax)
  {
    var connected := st.connected - {id};
    forall f | f in st.readFds - {fd} && f !in s.Base()
      ensures exists x :: Owns(connected, f, x)
    {
      var x :| Owns(st.connected, f, x);
      assert Owns(connected, f, x);
    }
  }

  lemma DisconnectKeepsInv(s: Sockets, st: State, fd: int, id: Id)
    requires Inv(s, st) && Owns(st.connected, fd, id)
    ensures Inv(s, Disconnect(st, fd, id))
  {
    hide SocketsAgree;
    SocketGone(s, st, fd, id);
  }

  lemma SameSockets(s: Sockets, st: State, connected: ClientMap)
    requires SocketsAgree(s, st.connected, st.readFds, st.fdmax)
    requires connected.Keys == st.connected.Keys
    requires forall id :: id in connected ==> connected[id].socket == st.connected[id].socket
    ensures SocketsAgree(s, connected, st.readFds, st.fdmax)
  {
    forall f | f in st.readFds && f !in s.Base()
      ensures exists x :: Owns(connected, f, x)
    {
      var x :| Owns(st.connected, f, x);
      assert Owns(connected, f, x);
    }
  }

  lemma SubscribeKeepsInv(s: Sockets, st: State, fd: int, id: Id, t: Topic, sf: bool)
    requires Inv(s, st) && Owns(st.connected, fd, id)
    ensures Inv(s, Subscribe(st, fd, id, t, sf))
  {
    hide SocketsAgree;
    SameSockets(s, st, Subscribe(st, fd, id, t, sf).connected);
  }

  lemma ServeKeepsInv(s: Sockets, st: State, fd: int, id: Id, r: Request)
    requires Inv(s, st) && Owns(st.connected, fd, id)
    ensures Inv(s, Serve(st, fd, id, r))
  {
    hide SocketsAgree, RecordsAgree, Subscribe;
    if r.kind == 1 {
      SubscribeKeepsInv(s, st, fd, id, r.topic, r.sf);
    }
  }

  /** In every reachable state ids, keys, sockets and the read set agree, so the lookup by socket
      finds the one owner and no `at` fails. */
  lemma StepKeepsInv(s: Sockets, st: State, e: Event)
    requires Inv(s, st) && Enabled(s, st, e)
    ensures Inv(s, Step(s, st, e))
  {
    hide Inv, Publish, Connect, Disconnect, Serve;
    match e
    case Udp(m) => PublishKeepsInv(s, st, m);
    case Accept(fd, None) => LeakKeepsInv(s, st, fd);
    case Accept(fd, Some(id)) => ConnectKeepsInv(s, st, fd, id);
    case FromClient(fd, None) => DisconnectKeepsInv(s, st, fd, Owner(s, st, fd));
    case FromClient(fd, Some(r)) => ServeKeepsInv(s, st, fd, Owner(s, st, fd), r);
  }

  // ----- one publication -----

  /** A publish to an existing topic has exactly one effect per subscriber visited: a send, always
      on an open socket, if it is connected, a stored message if it is saved with the topic in its
      SF vector, else nothing; and none on anybody else.  Those visited are all up to the first, in
      the order of ids, whose copied socket is closed, and if there is one the server exits. */
  lemma PublishEffects(s: Sockets, st: State, m: Message, id: Id)
    requires Inv(s, st) && !st.dead && m.topic in st.topics
    ensures var st' := Publish(st, m);
            var subscribers := st.topics[m.topic]; var failing := Failing(st, subscribers);
            && st'.connected == st.connected && st'.topics == st.topics && st'.saved.Keys == st.saved.Keys
            && st'.OpenFds() == st.OpenFds()
            && |st'.out| == |st.out| + 1 && st'.out[..|st.out|] == st.out
            && st'.out[|st.out|].Fanout? && st'.out[|st.out|].msg == m
            && (st'.dead <==> exists first :: IsLeast(failing, first))
            && var targets := st'.out[|st.out|].targets;
            var visited := id in subscribers && forall first :: IsLeast(failing, first) ==> Precedes(id, first);
            && (id in targets <==> visited && id in st.connected)
            && (id in targets ==> targets[id] == subscribers[id].socket && targets[id] in st.OpenFds())
            && (id in st.saved ==>
                  st'.saved[id] ==
                  if visited && m.topic in st.saved[id].sf then st.saved[id].AddMissed(m) else st.saved[id])
            && !(id in targets && id in st.saved)
  {
    hide SocketsAgree, TopicsAgree, Precedes;
    var subscribers := st.topics[m.topic];
    var failing := Failing(st, subscribers);
    if failing != {} {
      LeastExists(failing);
    }
    if id in subscribers && forall first :: IsLeast(failing, first) ==> Precedes(id, first) {
      forall b | b in failing
        ensures Precedes(id, b)
      {
        var first :| IsLeast(failing, first);
        if b != first {
          PrecedesTransitive(id, first, b);
        }
      }
    }
    PrecedesTotal(id, id);
  }

  /** If nobody's copied socket is closed, everybody is reached. */
  lemma PublishAlive(st: State, m: Message)
    requires !Publish(st, m).dead && m.topic in st.topics
    ensures var subscribers := st.topics[m.topic];
            Publish(st, m) ==
            st.(saved := StoreFor(st.saved, subscribers.Keys - st.connected.Keys, m),
                out := st.out + [Fanout(m, TargetsOf(subscribers, subscribers.Keys * st.connected.Keys))],
                dead := false)
  {
    assert Reached(st, st.topics[m.topic]) == st.topics[m.topic].Keys;
  }

  // ----- shutting down -----

  /** The clients' descriptors from `i` to `fdmax`, in order, as `close_all` visits them. */
  function ClientFds(s: Sockets, readFds: set<int>, i: int, fdmax: int): seq<int>
    decreases fdmax - i + 1
  {
    if i > fdmax then []
    else (if i in readFds && i != s.tcp && i != s.udp then [i] else []) + ClientFds(s, readFds, i + 1, fdmax)
  }

  function ExitNotices(fds: seq<int>): seq<Output> {
    seq(|fds|, i requires 0 <= i < |fds| => Notice(fds[i], EXIT))
  }

  lemma {:induction false} ClientFdsSorted(s: Sockets, readFds: set<int>, i: int, fdmax: int)
    ensures var c := ClientFds(s, readFds, i, fdmax);
            && (forall fd :: fd in c <==> i <= fd <= fdmax && fd in readFds && fd != s.tcp && fd != s.udp)
            && (forall a, b :: 0 <= a < b < |c| ==> c[a] < c[b])
    decreases fdmax - i + 1
  {
    if i <= fdmax {
      ClientFdsSorted(s, readFds, i + 1, fdmax);
      var c, rest := ClientFds(s, readFds, i, fdmax), ClientFds(s, readFds, i + 1, fdmax);
      forall a | 0 <= a < |rest|
        ensures rest[a] > i
      {
        assert rest[a] in rest;
      }
    }
  }

  /** On exit every connected client is told so exactly once, and nobody else is. */
  lemma ExitReachesClients(s: Sockets, st: State)
    requires Inv(s, st)
    ensures var c := ClientFds(s, st.readFds, 1, st.fdmax);
            && (forall fd :: fd in c <==> exists id :: Owns(st.connected, fd, id))
            && (forall a, b :: 0 <= a < b < |c| ==> c[a] != c[b])
  {
    ClientFdsSorted(s, st.readFds, 1, st.fdmax);
    var c := ClientFds(s, st.readFds, 1, st.fdmax);
    forall fd | exists id :: Owns(st.connected, fd, id)
      ensures fd in c
    {
      var id :| Owns(st.connected, fd, id);
      assert st.connected[id].socket == fd;
      assert fd in st.readFds && fd !in s.Base();
    }
    forall fd | fd in c
      ensures exists id :: Owns(st.connected, fd, id)
    {
      assert fd in st.readFds && fd !in s.Base();
    }
  }

  /** Each is sent the exit code on its socket, and nothing else is sent. */
  lemma ExitOutput(s: Sockets, st: State)
    requires Inv(s, st)
    ensures var sent := ExitNotices(ClientFds(s, st.readFds, 1, st.fdmax));
            && (forall o :: o in sent ==> o.Notice? && o.code == EXIT && exists id :: Owns(st.connected, o.fd, id))
            && (forall id, fd :: Owns(st.connected, fd, id) ==> Notice(fd, EXIT) in sent)
            && (forall i, j :: 0 <= i < j < |sent| ==> sent[i] != sent[j])
  {
    hide Inv, ClientFds;
    ExitReachesClients(s, st);
    NoticesOf(ClientFds(s, st.readFds, 1, st.fdmax));
  }

  lemma NoticesOf(fds: seq<int>)
    ensures forall o :: o in ExitNotices(fds) ==> o.Notice? && o.code == EXIT && o.fd in fds
    ensures forall fd :: fd in fds ==> Notice(fd, EXIT) in ExitNotices(fds)
  {
    forall fd | fd in fds
      ensures Notice(fd, EXIT) in ExitNotices(fds)
    {
      var i :| 0 <= i < |fds| && fds[i] == fd;
      assert ExitNotices(fds)[i] == Notice(fd, EXIT);
    }
  }
}
