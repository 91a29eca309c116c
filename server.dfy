/** The server's bookkeeping: the connected clients, the poll entries (the
    listener first, then one per client, in the same order) and the catalogue
    from a client's name to its index. One wake-up of the poll loop accepts a
    newcomer when the listener is ready, drops the clients that disconnected
    and answers the ones that sent a message. */
module ServerEngine {
  import opened Bytes
  import opened Algorithm
  import ServerMessage
  import ClientMessage

  const POLLIN: bv16 := 0x0001

  /** A connected client as the server sees it: its socket, its name and
      whether its connection is still open. */
  datatype Session = Session(descriptor: int, name: seq<byte>, connected: bool)

  /** A pollfd: the descriptor and the events poll reported for it. */
  datatype PollFd = PollFd(fd: int, revents: bv16)

  /** A message on its way to one client. */
  datatype Outgoing = Outgoing(to: int, message: ClientMessage.Message)

  /** The names of the clients, one per client, in client order. */
  function Names(cs: seq<Session>): (names: seq<seq<byte>>)
    ensures |names| == |cs|
    ensures forall i :: 0 <= i < |cs| ==> names[i] == cs[i].name
  {
    if cs == [] then [] else [cs[0].name] + Names(cs[1..])
  }

  /** Poll entry k + 1 belongs to client k; entry 0 is the listener. */
  predicate Aligned(listener: int, cs: seq<Session>, ps: seq<PollFd>)
  {
    |ps| == |cs| + 1 && ps[0].fd == listener
    && forall i :: 0 <= i < |cs| ==> ps[i + 1].fd == cs[i].descriptor
  }

  /** The catalogue maps every client's name to its index, and holds nothing
      else. */
  predicate Catalogued(cs: seq<Session>, cat: map<seq<byte>, nat>)
  {
    (forall i :: 0 <= i < |cs| ==> cs[i].name in cat && cat[cs[i].name] == i)
    && (forall n :: n in cat ==> cat[n] < |cs| && cs[cat[n]].name == n)
  }

  /** The catalogue after client `i` is removed: its name goes, and the client
      moved into slot `i`, if any, is recorded at its new index. */
  function Repaired(cs: seq<Session>, cat: map<seq<byte>, nat>, i: nat): map<seq<byte>, nat>
    requires i < |cs|
  {
    var after := SwapPopped(cs, i);
    var trimmed := cat - {cs[i].name};
    if i < |after| then trimmed[after[i].name := i] else trimmed
  }

  /** Every client among the first `n` that poll reported ready is still
      connected. */
  ghost predicate Settled(cs: seq<Session>, ps: seq<PollFd>, n: nat)
  {
    forall i :: 0 <= i < n && i < |cs| && i + 1 < |ps| && Ready(ps[i + 1].revents) ==> cs[i].connected
  }

  /** Every message sent is a users list to a client still connected. */
  ghost predicate Answered(sent: seq<Outgoing>, cs: seq<Session>)
  {
    forall o :: o in sent ==> o.message.UsersList? && Addressed(cs, o)
  }

  /** The message goes to a client that is still connected. */
  ghost predicate Addressed(cs: seq<Session>, o: Outgoing)
  {
    exists c :: c in cs && c.connected && c.descriptor == o.to
  }

  /** Poll reported the client ready and its connection has closed: the walk
      removes it. */
  predicate Doomed(c: Session, revents: bv16)
  {
    Ready(revents) && !c.connected
  }

  /** Poll reported the client ready, it is connected, and its read returned
      a list_users request: the walk answers it. */
  predicate Asks(c: Session, revents: bv16, incoming: int -> Option<ServerMessage.Message>)
  {
    Ready(revents) && c.connected && incoming(c.descriptor) == Some(ServerMessage.ListUsers)
  }

  /** The events poll reported for the clients, entry k + 1 for client k. */
  function ClientEvents(ps: seq<PollFd>): (ev: seq<bv16>)
    requires |ps| >= 1
    ensures |ev| == |ps| - 1
    ensures forall i :: 0 <= i < |ev| ==> ev[i] == ps[i + 1].revents
  {
    seq(|ps| - 1, i requires 0 <= i < |ps| - 1 => ps[i + 1].revents)
  }

  /** Of the clients `start`, whose events were `ev`, exactly the doomed ones
      are missing from `cs`, and `cs` holds nobody else. */
  ghost predicate Pruned(start: seq<Session>, ev: seq<bv16>, cs: seq<Session>)
  {
    |ev| == |start|
    && (forall i :: 0 <= i < |start| ==> (start[i] in cs <==> !Doomed(start[i], ev[i])))
    && (forall c :: c in cs ==> c in start)
  }

  /** A users list naming every client of `after`, and only clients of
      `named`. */
  ghost predicate ListsBetween(m: ClientMessage.Message, named: seq<Session>, after: seq<Session>)
  {
    m.UsersList?
    && (forall c :: c in after ==> c.name in m.users)
    && (forall n :: n in m.users ==> exists c :: c in named && c.name == n)
  }

  /** No index occurs twice. */
  ghost predicate Distinct(s: seq<nat>)
  {
    forall a, b :: 0 <= a < b < |s| ==> s[a] != s[b]
  }

  /** Message j of `sent` answers client who[j] of `start`, which asked, with
      a users list naming every client of `after` and only clients of
      `named`. */
  ghost predicate Replies(start: seq<Session>, ev: seq<bv16>, incoming: int -> Option<ServerMessage.Message>,
                          sent: seq<Outgoing>, named: seq<Session>, after: seq<Session>, who: seq<nat>)
  {
    |who| == |sent|
    && forall j :: 0 <= j < |who| ==>
      who[j] < |start| && who[j] < |ev| && Asks(start[who[j]], ev[who[j]], incoming)
      && sent[j].to == start[who[j]].descriptor && ListsBetween(sent[j].message, named, after)
  }

  /** `sent` answers the clients of `start` that asked one to one: every
      message goes to a client that asked, no client is answered twice and
      every client that asked is answered; each list names every client of
      `after` and only clients of `named`. */
  ghost predicate Served(start: seq<Session>, ev: seq<bv16>, incoming: int -> Option<ServerMessage.Message>,
                         sent: seq<Outgoing>, named: seq<Session>, after: seq<Session>)
  {
    |ev| == |start|
    && exists who ::
      (Replies(start, ev, incoming, sent, named, after, who) && Distinct(who)
       && forall i :: 0 <= i < |start| && Asks(start[i], ev[i], incoming) ==> i in who)
  }

  /** The client `c`, beside the poll entry `p`, is one of `start` beside
      its own entry of `ps0`. */
  ghost predicate Beside(start: seq<Session>, ps0: seq<PollFd>, c: Session, p: PollFd)
  {
    exists i :: 0 <= i < |start| && i + 1 < |ps0| && c == start[i] && p == ps0[i + 1]
  }

  /** Each client of `cs` is one of `start` and still sits beside its own
      poll entry of `ps0`, events included; the listener's entry stays
      first. */
  ghost predicate Carried(start: seq<Session>, ps0: seq<PollFd>, cs: seq<Session>, ps: seq<PollFd>)
  {
    |ps0| == |start| + 1 && |ps| == |cs| + 1 && ps[0] == ps0[0]
    && forall j :: 0 <= j < |cs| ==> Beside(start, ps0, cs[j], ps[j + 1])
  }

  /** The walk's bookkeeping: client j of `cs` is client origin[j] of
      `start` and sits beside that client's poll entry of `ps0`. */
  ghost predicate Tracked(start: seq<Session>, ps0: seq<PollFd>, origin: seq<nat>, cs: seq<Session>, ps: seq<PollFd>)
  {
    |ps0| == |start| + 1 && |origin| == |cs| && |ps| == |cs| + 1 && ps[0] == ps0[0]
    && forall j :: 0 <= j < |origin| ==>
      origin[j] < |start| && cs[j] == start[origin[j]] && ps[j + 1] == ps0[origin[j] + 1]
  }

  /** Every client of `start` that is not doomed is still tracked. */
  ghost predicate Covered(start: seq<Session>, ev: seq<bv16>, origin: seq<nat>)
  {
    forall i :: 0 <= i < |start| && i < |ev| && !Doomed(start[i], ev[i]) ==> i in origin
  }

  /** The clients answered are exactly those among the first `n` tracked
      that asked. */
  ghost predicate AnsweredUpTo(start: seq<Session>, ev: seq<bv16>, origin: seq<nat>, n: nat,
                               incoming: int -> Option<ServerMessage.Message>, who: seq<nat>)
  {
    n <= |origin|
    && (forall j ::
          0 <= j < n && origin[j] < |start| && origin[j] < |ev| && Asks(start[origin[j]], ev[origin[j]], incoming)
          ==> origin[j] in who)
    && (forall a :: 0 <= a < |who| ==> Among(who[a], origin, n))
  }

  /** `x` is among the first `n` tracked. */
  ghost predicate Among(x: nat, origin: seq<nat>, n: nat)
  {
    exists j :: 0 <= j < n && j < |origin| && origin[j] == x
  }

  /** 0, 1, ..., n - 1. */
  function Indices(n: nat): (r: seq<nat>)
    ensures |r| == n && forall i :: 0 <= i < n ==> r[i] == i
  {
    if n == 0 then [] else Indices(n - 1) + [n - 1]
  }

  /** revents & POLLIN: poll reported the entry ready to read. */
  function Ready(revents: bv16): bool
  {
    revents & POLLIN != 0
  }

  /** The entries after poll() has filled in their revents. */
  function Polled(ps: seq<PollFd>, revents: seq<bv16>): (r: seq<PollFd>)
    requires |revents| == |ps|
    ensures |r| == |ps|
    ensures forall k :: 0 <= k < |ps| ==> r[k] == PollFd(ps[k].fd, revents[k])
  {
    if ps == [] then [] else [PollFd(ps[0].fd, revents[0])] + Polled(ps[1..], revents[1..])
  }

  class Server {
    const listener: int
    var clients: seq<Session>
    var pollSockets: seq<PollFd>
    var catalogue: map<seq<byte>, nat>

    ghost predicate Valid()
      reads this
    {
      Aligned(listener, clients, pollSockets) && Catalogued(clients, catalogue)
    }

    /** A server with no clients, polling its listener only. */
    constructor(listener: int)
      ensures Valid()
      ensures this.listener == listener
      ensures clients == [] && pollSockets == [PollFd(listener, 0)] && catalogue == map[]
    {
      this.listener := listener;
      clients := [];
      pollSockets := [PollFd(listener, 0)];
      catalogue := map[];
    }

    /** get_client: the client whose poll entry is at `k`. The listener's
        entry, 0, has no client: the index given for it lies before the
        first client. */
    function GetClient(k: nat): (i: int)
      reads this
      requires Valid() && k < |pollSockets|
      ensures 1 <= k ==> 0 <= i < |clients| && clients[i].descriptor == pollSockets[k].fd
      ensures k == 0 ==> i < 0
    {
      k - 1
    }

    /** list_users: the names of all clients, in client order. */
    method ListUsers() returns (usernames: seq<seq<byte>>)
      ensures |usernames| == |clients|
      ensures forall i :: 0 <= i < |clients| ==> usernames[i] == clients[i].name
    {
      usernames := [];
      var i := 0;
      while i < |clients|
        invariant 0 <= i <= |clients|
        invariant |usernames| == i
        invariant forall j :: 0 <= j < i ==> usernames[j] == clients[j].name
      {
        usernames := usernames + [clients[i].name];
        i := i + 1;
      }
    }

    /** accept: a newcomer whose name is already catalogued is turned away;
        otherwise it is appended to the clients, its poll entry to the poll
        entries, and its name is catalogued at its index. */
    method Accept(newcomer: Session)
      requires Valid()
      modifies this
      ensures Valid()
      ensures old(newcomer.name in catalogue) ==>
        clients == old(clients) && pollSockets == old(pollSockets) && catalogue == old(catalogue)
      ensures old(newcomer.name !in catalogue) ==>
        clients == old(clients) + [newcomer]
        && pollSockets == old(pollSockets) + [PollFd(newcomer.descriptor, 0)]
        && catalogue == old(catalogue)[newcomer.name := |old(clients)|]
    {
      if newcomer.name in catalogue {
        return;
      }
      AcceptKeepsCatalogued(clients, catalogue, newcomer);
      clients := clients + [newcomer];
      pollSockets := pollSockets + [PollFd(newcomer.descriptor, 0)];
      catalogue := catalogue[newcomer.name := |clients| - 1];
    }

    /** The disconnect branch of process for the entry at `k`: the name leaves
        the catalogue, the poll entry and the client are swap-popped, and the
        client moved into the vacated slot is catalogued at its new index. */
    method Remove(k: nat)
      requires Valid() && 1 <= k < |pollSockets|
      modifies this
      ensures Valid()
      ensures clients == SwapPopped(old(clients), k - 1)
      ensures pollSockets == SwapPopped(old(pollSockets), k)
      ensures catalogue == Repaired(old(clients), old(catalogue), k - 1)
      ensures catalogue.Keys == old(catalogue).Keys - {old(clients)[k - 1].name}
    {
      var i := k - 1;
      RemovalKeepsAligned(listener, clients, pollSockets, k);
      RemovalKeepsCatalogued(clients, catalogue, i);
      RepairedKeys(clients, catalogue, i);
      var trimmed := catalogue - {clients[i].name};
      var polled := SwapPop(pollSockets, k);
      var remaining := SwapPop(clients, i);
      var repaired := if i < |remaining| then trimmed[remaining[i].name := i] else trimmed;
      clients, pollSockets, catalogue := remaining, polled, repaired;
    }

    /** process_client, given what the client's read returned: a list_users
        request is answered, to that client only, with the list of names;
        broadcast and unicast are not handled yet and get no answer. */
    method Dispatch(k: nat, message: Option<ServerMessage.Message>) returns (reply: Option<Outgoing>)
      requires Valid() && 1 <= k < |pollSockets|
      ensures message == Some(ServerMessage.ListUsers) ==>
        reply == Some(Outgoing(pollSockets[k].fd, ClientMessage.UsersList(Names(clients))))
      ensures message != Some(ServerMessage.ListUsers) ==> reply == None
    {
      reply := None;
      if message == Some(ServerMessage.ListUsers) {
        var i := GetClient(k);
        var names := ListUsers();
        assert names == Names(clients);
        reply := Some(Outgoing(clients[i].descriptor, ClientMessage.UsersList(names)));
      }
    }

    /** One wake-up of process with the readiness test and the walk over the
        entries corrected: poll's `revents` are recorded, the newcomer is
        accepted when the listener is ready, and every client entry is
        visited once (see Walk). The outcome of each client's read is
        `incoming`. Of the clients there were, exactly those poll reported
        ready whose connection closed are gone; the newcomer came in exactly
        when the listener was ready and its name was free; every client that
        asked for the users list got exactly one, naming every client left
        and only clients there before or the newcomer, and nothing else was
        sent. */
    method Wake(revents: seq<bv16>, newcomer: Session, incoming: int -> Option<ServerMessage.Message>)
      returns (sent: seq<Outgoing>)
      requires Valid() && |revents| == |pollSockets|
      modifies this
      ensures Valid()
      ensures Settled(clients, pollSockets, |clients|)
      ensures forall i :: 0 <= i < |old(clients)| ==>
        (old(clients)[i] in clients <==> !Doomed(old(clients)[i], revents[i + 1]))
      ensures forall c :: c in clients ==> c in old(clients) || c == newcomer
      ensures (newcomer in clients && newcomer !in old(clients))
        <==> Ready(revents[0]) && newcomer.name !in old(catalogue)
      ensures Served(old(clients), revents[1..], incoming, sent, old(clients) + [newcomer], clients)
      ensures Answered(sent, clients)
    {
      ghost var start := clients;
      ghost var accepted := Ready(revents[0]) && newcomer.name !in catalogue;
      assert accepted ==> newcomer !in start;
      var polled := Polled(pollSockets, revents);
      pollSockets := polled;
      if Ready(pollSockets[0].revents) {
        Accept(newcomer);
      }
      AcceptedEvents(polled, revents, accepted, newcomer.descriptor);
      assert pollSockets == if accepted then polled + [PollFd(newcomer.descriptor, 0)] else polled;
      ghost var admitted, ev := clients, ClientEvents(pollSockets);
      sent := Walk(incoming);
      WakeOutcome(start, revents, newcomer, accepted, admitted, ev, clients, incoming, sent);
    }

    /** The walk over the client entries: a ready client that disconnected is
        removed and the client swapped into its slot is visited next; a ready
        connected client has its message dispatched. Afterwards exactly the
        doomed clients are gone, every client kept its own poll entry, and
        each client that asked got exactly one users list, naming every
        client left and only clients there before. */
    method Walk(incoming: int -> Option<ServerMessage.Message>) returns (sent: seq<Outgoing>)
      requires Valid()
      modifies this
      ensures Valid()
      ensures Settled(clients, pollSockets, |clients|)
      ensures Pruned(old(clients), ClientEvents(old(pollSockets)), clients)
      ensures Carried(old(clients), old(pollSockets), clients, pollSockets)
      ensures Served(old(clients), ClientEvents(old(pollSockets)), incoming, sent, old(clients), clients)
      ensures Answered(sent, clients)
    {
      ghost var start, ps0 := clients, pollSockets;
      ghost var ev := ClientEvents(pollSockets);
      ghost var origin := Indices(|clients|);
      ghost var who: seq<nat> := [];
      sent := [];
      WalkStart(start, ps0, incoming);
      var k := 1;
      while k < |pollSockets|
        invariant Valid() && 1 <= k <= |pollSockets|
        invariant Walking(start, ps0, ev, origin, clients, pollSockets, k - 1, incoming, sent, who)
        decreases |pollSockets| - k
      {
        ghost var cs, ps, origin0, sent0, who0, k0 := clients, pollSockets, origin, sent, who, k;
        var removed, reply := Visit(k, incoming);
        if removed {
          origin := SwapPopped(origin, k - 1);
        } else {
          if reply.Some? {
            sent := sent + [reply.value];
            who := who + [origin[k - 1]];
          }
          k := k + 1;
        }
        WalkStep(start, ps0, ev, incoming, origin0, cs, ps, k0, sent0, who0, removed, reply,
                 origin, clients, pollSockets, k, sent, who);
      }
      CataloguedNamesUnique(start, old(catalogue));
      WalkDone(start, ps0, ev, origin, clients, pollSockets, incoming, sent, who);
    }

    /** One entry of the walk. A ready client whose connection closed is
        removed; a ready connected client has its message dispatched, and
        its list_users request is answered with the names of all clients;
        an entry that is not ready is left alone. */
    method Visit(k: nat, incoming: int -> Option<ServerMessage.Message>) returns (removed: bool, reply: Option<Outgoing>)
      requires Valid() && 1 <= k < |pollSockets|
      modifies this
      ensures Valid()
      ensures removed <==> Doomed(old(clients)[k - 1], old(pollSockets)[k].revents)
      ensures removed ==>
        clients == SwapPopped(old(clients), k - 1) && pollSockets == SwapPopped(old(pollSockets), k)
      ensures !removed ==>
        clients == old(clients) && pollSockets == old(pollSockets) && (Ready(pollSockets[k].revents) ==> clients[k - 1].connected)
      ensures reply == if Asks(old(clients)[k - 1], old(pollSockets)[k].revents, incoming)
        then Some(Outgoing(old(clients)[k - 1].descriptor, ClientMessage.UsersList(Names(old(clients)))))
        else None
    {
      removed, reply := false, None;
      if Ready(pollSockets[k].revents) {
        var i := GetClient(k);
        if !clients[i].connected {
          Remove(k);
          removed := true;
        } else {
          reply := Dispatch(k, incoming(clients[i].descriptor));
        }
      }
    }
  }

  // ---------------------------------------------------------------------------
  // Properties

  /** The catalogue keeps names unique: no two clients share one. */
  lemma CataloguedNamesUnique(cs: seq<Session>, cat: map<seq<byte>, nat>)
    requires Catalogued(cs, cat)
    ensures forall i, j :: 0 <= i < j < |cs| ==> cs[i].name != cs[j].name
  {
    forall i, j | 0 <= i < j < |cs|
      ensures cs[i].name != cs[j].name
    {
      assert cat[cs[i].name] == i && cat[cs[j].name] == j;
    }
  }

  /** Accepting a name that is not catalogued keeps the catalogue exact. */
  lemma AcceptKeepsCatalogued(cs: seq<Session>, cat: map<seq<byte>, nat>, s: Session)
    requires Catalogued(cs, cat) && s.name !in cat
    ensures Catalogued(cs + [s], cat[s.name := |cs|])
  {
    var cs', cat' := cs + [s], cat[s.name := |cs|];
    forall i | 0 <= i < |cs'|
      ensures cs'[i].name in cat' && cat'[cs'[i].name] == i
    {
      if i < |cs| {
        assert cs'[i] == cs[i];
      }
    }
  }

  /** Swap-popping client `k - 1` and poll entry `k` keeps every remaining
      client next to its own poll entry. */
  lemma RemovalKeepsAligned(listener: int, cs: seq<Session>, ps: seq<PollFd>, k: nat)
    requires Aligned(listener, cs, ps) && 1 <= k < |ps|
    ensures Aligned(listener, SwapPopped(cs, k - 1), SwapPopped(ps, k))
  {
    var cs', ps' := SwapPopped(cs, k - 1), SwapPopped(ps, k);
    forall i | 0 <= i < |cs'|
      ensures ps'[i + 1].fd == cs'[i].descriptor
    {
      if i + 1 == k {
        assert ps'[k] == ps[|ps| - 1] && cs'[i] == cs[|cs| - 1];
      } else {
        assert ps'[i + 1] == ps[i + 1] && cs'[i] == cs[i];
      }
    }
  }

  /** The corrected repair restores the catalogue after a removal. */
  lemma RemovalKeepsCatalogued(cs: seq<Session>, cat: map<seq<byte>, nat>, i: nat)
    requires Catalogued(cs, cat) && i < |cs|
    ensures Catalogued(SwapPopped(cs, i), Repaired(cs, cat, i))
  {
    var after, cat' := SwapPopped(cs, i), Repaired(cs, cat, i);
    var last := |cs| - 1;
    forall j | 0 <= j < |after|
      ensures after[j].name in cat' && cat'[after[j].name] == j
    {
      if j != i {
        assert after[j] == cs[j];
        assert cs[j].name != cs[i].name by { assert cat[cs[j].name] == j; }
        if i < |after| {
          assert after[i] == cs[last];
          assert cs[j].name != cs[last].name by { assert cat[cs[last].name] == last; }
        }
      }
    }
    forall n | n in cat'
      ensures cat'[n] < |after| && after[cat'[n]].name == n
    {
      if i < |after| && n == after[i].name {
      } else {
        var j := cat[n];
        assert n != cs[i].name;
        assert j != i;
        if i < |after| {
          assert after[i] == cs[last];
          assert j != last;
        }
        assert after[j] == cs[j];
      }
    }
  }

  /** The repaired catalogue has lost exactly the removed name. */
  lemma RepairedKeys(cs: seq<Session>, cat: map<seq<byte>, nat>, i: nat)
    requires Catalogued(cs, cat) && i < |cs|
    ensures Repaired(cs, cat, i).Keys == cat.Keys - {cs[i].name}
  {
    var after := SwapPopped(cs, i);
    if i < |after| {
      var last := |cs| - 1;
      assert after[i] == cs[last];
      assert cat[cs[last].name] == last;
    }
  }

  /** Swap-popping entry `k` leaves the entries before it where they were. */
  lemma RemovalKeepsSettled(cs: seq<Session>, ps: seq<PollFd>, k: nat)
    requires |ps| == |cs| + 1 && 1 <= k < |ps| && Settled(cs, ps, k - 1)
    ensures Settled(SwapPopped(cs, k - 1), SwapPopped(ps, k), k - 1)
  {
    var cs', ps' := SwapPopped(cs, k - 1), SwapPopped(ps, k);
    forall i | 0 <= i < k - 1 && i < |cs'| && i + 1 < |ps'| && Ready(ps'[i + 1].revents)
      ensures cs'[i].connected
    {
      assert ps'[i + 1] == ps[i + 1] && cs'[i] == cs[i];
    }
  }

  /** Removing the disconnected client at `k - 1` keeps the entries before it
      settled and every message addressed. */
  lemma RemovalStep(cs: seq<Session>, ps: seq<PollFd>, k: nat, sent: seq<Outgoing>)
    requires |ps| == |cs| + 1 && 1 <= k < |ps| && !cs[k - 1].connected
    requires Settled(cs, ps, k - 1) && Answered(sent, cs)
    ensures Settled(SwapPopped(cs, k - 1), SwapPopped(ps, k), k - 1)
    ensures Answered(sent, SwapPopped(cs, k - 1))
  {
    DisconnectedLeaves(cs, k - 1);
    RemovalKeepsSettled(cs, ps, k);
    forall o | o in sent
      ensures Addressed(SwapPopped(cs, k - 1), o)
    {
      var c :| c in cs && c.connected && c.descriptor == o.to;
    }
  }

  /** Answering the connected client `i` keeps every message addressed. */
  lemma AnswerStep(sent: seq<Outgoing>, cs: seq<Session>, o: Outgoing, i: nat)
    requires Answered(sent, cs) && i < |cs| && cs[i].connected && o.to == cs[i].descriptor && o.message.UsersList?
    ensures Answered(sent + [o], cs)
  {
    assert cs[i] in cs;
  }

  /** Removing a disconnected client keeps every connected one. */
  lemma DisconnectedLeaves(cs: seq<Session>, i: nat)
    requires i < |cs| && !cs[i].connected
    ensures forall c :: c in cs && c.connected ==> c in SwapPopped(cs, i)
    ensures forall c :: c in SwapPopped(cs, i) ==> c in cs
  {
    forall c | c in cs && c.connected
      ensures c in SwapPopped(cs, i)
    {
      SwapPopKeeps(cs, i, c);
      assert c in multiset(cs);
    }
    forall c | c in SwapPopped(cs, i)
      ensures c in cs
    {
      SwapPopKeeps(cs, i, c);
      assert c in multiset(cs);
    }
  }

  /** The walk's state once `n` entries are visited: its clients are tracked
      back to those it started with, each once; no client that is not
      doomed is lost; the entries visited are settled; message j answers
      client who[j], which asked, with a list naming every client left and
      only clients it started with; the clients answered are exactly those
      visited that asked, each once; and every message goes to a client
      still connected. */
  ghost predicate Walking(start: seq<Session>, ps0: seq<PollFd>, ev: seq<bv16>, origin: seq<nat>,
                          cs: seq<Session>, ps: seq<PollFd>, n: nat,
                          incoming: int -> Option<ServerMessage.Message>, sent: seq<Outgoing>, who: seq<nat>)
  {
    Kept(start, ps0, ev, origin, cs, ps) && Settled(cs, ps, n) && Replying(start, ev, origin, cs, n, incoming, sent, who)
  }

  /** The clients are tracked back to those the walk started with, each
      once, and none that is not doomed is lost. */
  ghost predicate Kept(start: seq<Session>, ps0: seq<PollFd>, ev: seq<bv16>, origin: seq<nat>,
                       cs: seq<Session>, ps: seq<PollFd>)
  {
    Tracked(start, ps0, origin, cs, ps) && ev == ClientEvents(ps0) && Distinct(origin) && Covered(start, ev, origin)
  }

  /** Message j answers client who[j], which asked, with a list naming every
      client left and only clients the walk started with; the clients
      answered are exactly those of the first `n` tracked that asked, each
      once; every message goes to a client still connected. */
  ghost predicate Replying(start: seq<Session>, ev: seq<bv16>, origin: seq<nat>, cs: seq<Session>, n: nat,
                           incoming: int -> Option<ServerMessage.Message>, sent: seq<Outgoing>, who: seq<nat>)
  {
    Replies(start, ev, incoming, sent, start, cs, who) && Distinct(who)
    && AnsweredUpTo(start, ev, origin, n, incoming, who) && Answered(sent, cs)
  }

  /** At the start of the walk every client is tracked at its own index. */
  lemma WalkStart(start: seq<Session>, ps0: seq<PollFd>, incoming: int -> Option<ServerMessage.Message>)
    requires |ps0| == |start| + 1
    ensures Walking(start, ps0, ClientEvents(ps0), Indices(|start|), start, ps0, 0, incoming, [], [])
  {
    var origin, ev := Indices(|start|), ClientEvents(ps0);
    forall i | 0 <= i < |start| && i < |ev| && !Doomed(start[i], ev[i])
      ensures i in origin
    {
      assert origin[i] == i;
    }
  }

  /** One step of the walk keeps its state: the visit of entry `k` either
      removes its doomed client, or settles it and answers it exactly when
      it asked. The primed arguments are the state after the step. */
  lemma WalkStep(start: seq<Session>, ps0: seq<PollFd>, ev: seq<bv16>,
                 incoming: int -> Option<ServerMessage.Message>,
                 origin: seq<nat>, cs: seq<Session>, ps: seq<PollFd>, k: nat, sent: seq<Outgoing>, who: seq<nat>,
                 removed: bool, reply: Option<Outgoing>,
                 origin': seq<nat>, cs': seq<Session>, ps': seq<PollFd>, k': nat, sent': seq<Outgoing>, who': seq<nat>)
    requires 1 <= k < |ps| && Walking(start, ps0, ev, origin, cs, ps, k - 1, incoming, sent, who)
    requires removed <==> Doomed(cs[k - 1], ps[k].revents)
    requires removed ==>
      origin' == SwapPopped(origin, k - 1) && cs' == SwapPopped(cs, k - 1) && ps' == SwapPopped(ps, k)
      && k' == k && sent' == sent && who' == who
    requires !removed ==>
      origin' == origin && cs' == cs && ps' == ps && k' == k + 1 && (Ready(ps[k].revents) ==> cs[k - 1].connected)
    requires reply == if Asks(cs[k - 1], ps[k].revents, incoming)
      then Some(Outgoing(cs[k - 1].descriptor, ClientMessage.UsersList(Names(cs))))
      else None
    requires !removed && reply.Some? ==> sent' == sent + [reply.value] && who' == who + [origin[k - 1]]
    requires !removed && reply.None? ==> sent' == sent && who' == who
    ensures 1 <= k' && Walking(start, ps0, ev, origin', cs', ps', k' - 1, incoming, sent', who')
  {
    if removed {
      WalkRemoveStep(start, ps0, ev, origin, cs, ps, k, incoming, sent, who, origin', cs', ps', k', sent', who');
    } else if reply.Some? {
      WalkAnswerStep(start, ps0, ev, origin, cs, ps, k, incoming, sent, who, origin', cs', ps', k', sent', who');
    } else {
      WalkQuietStep(start, ps0, ev, origin, cs, ps, k, incoming, sent, who, origin', cs', ps', k', sent', who');
    }
  }

  /** Removing the doomed client at `k - 1` keeps the walk's state: the
      client swapped into its slot is still tracked, and so is every client
      that is not doomed; the lists sent still name every client left. */
  lemma WalkRemoveStep(start: seq<Session>, ps0: seq<PollFd>, ev: seq<bv16>, origin: seq<nat>,
                       cs: seq<Session>, ps: seq<PollFd>, k: nat,
                       incoming: int -> Option<ServerMessage.Message>, sent: seq<Outgoing>, who: seq<nat>,
                       origin': seq<nat>, cs': seq<Session>, ps': seq<PollFd>, k': nat, sent': seq<Outgoing>, who': seq<nat>)
    requires 1 <= k && Walking(start, ps0, ev, origin, cs, ps, k - 1, incoming, sent, who)
    requires k < |ps| && Doomed(cs[k - 1], ps[k].revents)
    requires origin' == SwapPopped(origin, k - 1) && cs' == SwapPopped(cs, k - 1) && ps' == SwapPopped(ps, k)
    requires k' == k && sent' == sent && who' == who
    ensures Walking(start, ps0, ev, origin', cs', ps', k' - 1, incoming, sent', who')
  {
    RemovalStep(cs, ps, k, sent);
    RemovalTracked(start, ps0, origin, cs, ps, k);
    RemovalCovered(start, ps0, ev, origin, cs, ps, k);
    SwapPoppedDistinct(origin, k - 1);
    RemovalAnswered(start, ev, origin, k, incoming, who);
    RemovalReplies(start, ev, incoming, sent, cs, who, k - 1);
  }

  /** Removing a disconnected client keeps the lists sent naming every
      client left. */
  lemma RemovalReplies(start: seq<Session>, ev: seq<bv16>, incoming: int -> Option<ServerMessage.Message>,
                       sent: seq<Outgoing>, cs: seq<Session>, who: seq<nat>, i: nat)
    requires Replies(start, ev, incoming, sent, start, cs, who) && i < |cs| && !cs[i].connected
    ensures Replies(start, ev, incoming, sent, start, SwapPopped(cs, i), who)
  {
    DisconnectedLeaves(cs, i);
    forall j | 0 <= j < |who|
      ensures ListsBetween(sent[j].message, start, SwapPopped(cs, i))
    {
      ListsWithin(sent[j].message, start, cs, start, SwapPopped(cs, i));
    }
  }

  /** Swap-popping keeps the indices distinct. */
  lemma SwapPoppedDistinct(s: seq<nat>, i: nat)
    requires Distinct(s) && i < |s|
    ensures Distinct(SwapPopped(s, i))
  {
    var r := SwapPopped(s, i);
    forall a, b | 0 <= a < b < |r|
      ensures r[a] != r[b]
    {
      var last := |s| - 1;
      if a == i {
        assert r[a] == s[last] && r[b] == s[b];
      } else if b == i {
        assert r[a] == s[a] && r[b] == s[last];
      } else {
        assert r[a] == s[a] && r[b] == s[b];
      }
    }
  }

  /** A list between `named` and `after` stays so for more clients named and
      fewer clients left. */
  lemma ListsWithin(m: ClientMessage.Message, named: seq<Session>, after: seq<Session>,
                    named': seq<Session>, after': seq<Session>)
    requires ListsBetween(m, named, after)
    requires forall c :: c in named ==> c in named'
    requires forall c :: c in after' ==> c in after
    ensures ListsBetween(m, named', after')
  {
    forall n | n in m.users
      ensures exists c :: c in named' && c.name == n
    {
      var c :| c in named && c.name == n;
      assert c in named';
    }
  }

  /** The removal keeps the entries before `k - 1`, so the clients answered
      are still those visited that asked. */
  lemma RemovalAnswered(start: seq<Session>, ev: seq<bv16>, origin: seq<nat>, k: nat,
                        incoming: int -> Option<ServerMessage.Message>, who: seq<nat>)
    requires 1 <= k <= |origin| && AnsweredUpTo(start, ev, origin, k - 1, incoming, who)
    ensures AnsweredUpTo(start, ev, SwapPopped(origin, k - 1), k - 1, incoming, who)
  {
    var origin' := SwapPopped(origin, k - 1);
    assert |origin'| >= k - 1;
    forall a | 0 <= a < |who|
      ensures Among(who[a], origin', k - 1)
    {
      assert Among(who[a], origin, k - 1);
      var j :| 0 <= j < k - 1 && j < |origin| && origin[j] == who[a];
      assert origin'[j] == origin[j];
    }
  }

  /** Removal swaps the last client and entry into the slot removed, and
      its origin with them. */
  lemma RemovalTracked(start: seq<Session>, ps0: seq<PollFd>, origin: seq<nat>, cs: seq<Session>, ps: seq<PollFd>, k: nat)
    requires Tracked(start, ps0, origin, cs, ps) && 1 <= k < |ps|
    ensures Tracked(start, ps0, SwapPopped(origin, k - 1), SwapPopped(cs, k - 1), SwapPopped(ps, k))
  {
    var origin', cs', ps' := SwapPopped(origin, k - 1), SwapPopped(cs, k - 1), SwapPopped(ps, k);
    var last := |origin| - 1;
    forall j | 0 <= j < |origin'|
      ensures origin'[j] < |start| && cs'[j] == start[origin'[j]] && ps'[j + 1] == ps0[origin'[j] + 1]
    {
      if j == k - 1 {
        assert origin'[j] == origin[last] && cs'[j] == cs[last] && ps'[j + 1] == ps[last + 1];
      } else {
        assert origin'[j] == origin[j] && cs'[j] == cs[j] && ps'[j + 1] == ps[j + 1];
      }
    }
    assert ps'[0] == ps[0];
  }

  /** Only the doomed client's origin is dropped by the removal. */
  lemma RemovalCovered(start: seq<Session>, ps0: seq<PollFd>, ev: seq<bv16>, origin: seq<nat>, cs: seq<Session>, ps: seq<PollFd>, k: nat)
    requires Tracked(start, ps0, origin, cs, ps) && ev == ClientEvents(ps0) && Covered(start, ev, origin)
    requires 1 <= k < |ps| && Doomed(cs[k - 1], ps[k].revents)
    ensures Covered(start, ev, SwapPopped(origin, k - 1))
  {
    var gone := origin[k - 1];
    assert cs[k - 1] == start[gone] && ps[k] == ps0[gone + 1];
    assert Doomed(start[gone], ev[gone]);
    forall i | 0 <= i < |start| && i < |ev| && !Doomed(start[i], ev[i])
      ensures i in SwapPopped(origin, k - 1)
    {
      SwapPopKeeps(origin, k - 1, i);
      assert i in multiset(origin);
    }
  }

  /** Visiting the client at `k - 1`, which asked, without removing it
      settles its entry and answers it, once, with the names of the clients
      present. */
  lemma WalkAnswerStep(start: seq<Session>, ps0: seq<PollFd>, ev: seq<bv16>, origin: seq<nat>,
                       cs: seq<Session>, ps: seq<PollFd>, k: nat,
                       incoming: int -> Option<ServerMessage.Message>, sent: seq<Outgoing>, who: seq<nat>,
                       origin': seq<nat>, cs': seq<Session>, ps': seq<PollFd>, k': nat, sent': seq<Outgoing>, who': seq<nat>)
    requires 1 <= k && Walking(start, ps0, ev, origin, cs, ps, k - 1, incoming, sent, who)
    requires k < |ps| && Asks(cs[k - 1], ps[k].revents, incoming)
    requires origin' == origin && cs' == cs && ps' == ps && k' == k + 1
    requires sent' == sent + [Outgoing(cs[k - 1].descriptor, ClientMessage.UsersList(Names(cs)))]
    requires who' == who + [origin[k - 1]]
    ensures Walking(start, ps0, ev, origin', cs', ps', k' - 1, incoming, sent', who')
  {
    assert k' - 1 == k;
    AnswerStep(sent, cs, Outgoing(cs[k - 1].descriptor, ClientMessage.UsersList(Names(cs))), k - 1);
    AnswerReplies(start, ps0, ev, origin, cs, ps, k, incoming, sent, who);
    AnswerVisited(start, ps0, ev, origin, cs, ps, k, incoming, who, true);
    SettledStep(cs, ps, k - 1);
  }

  /** Visiting the client at `k - 1`, which did not ask, without removing it
      settles its entry and sends nothing. */
  lemma WalkQuietStep(start: seq<Session>, ps0: seq<PollFd>, ev: seq<bv16>, origin: seq<nat>,
                      cs: seq<Session>, ps: seq<PollFd>, k: nat,
                      incoming: int -> Option<ServerMessage.Message>, sent: seq<Outgoing>, who: seq<nat>,
                      origin': seq<nat>, cs': seq<Session>, ps': seq<PollFd>, k': nat, sent': seq<Outgoing>, who': seq<nat>)
    requires 1 <= k && Walking(start, ps0, ev, origin, cs, ps, k - 1, incoming, sent, who)
    requires k < |ps| && (Ready(ps[k].revents) ==> cs[k - 1].connected) && !Asks(cs[k - 1], ps[k].revents, incoming)
    requires origin' == origin && cs' == cs && ps' == ps && k' == k + 1 && sent' == sent && who' == who
    ensures Walking(start, ps0, ev, origin', cs', ps', k' - 1, incoming, sent', who')
  {
    assert k' - 1 == k;
    AnswerVisited(start, ps0, ev, origin, cs, ps, k, incoming, who, false);
    SettledStep(cs, ps, k - 1);
  }

  /** Visiting a client kept, which is connected if ready, settles one more
      entry. */
  lemma SettledStep(cs: seq<Session>, ps: seq<PollFd>, n: nat)
    requires Settled(cs, ps, n) && n < |cs| && n + 1 < |ps|
    requires Ready(ps[n + 1].revents) ==> cs[n].connected
    ensures Settled(cs, ps, n + 1)
  {
    forall i | 0 <= i < n + 1 && i < |cs| && i + 1 < |ps| && Ready(ps[i + 1].revents)
      ensures cs[i].connected
    {
      if i < n {
        assert Settled(cs, ps, n);
      }
    }
  }

  /** The answer goes to the client visited, which asked, and names every
      client present, all of them clients the walk started with. */
  lemma AnswerReplies(start: seq<Session>, ps0: seq<PollFd>, ev: seq<bv16>, origin: seq<nat>,
                      cs: seq<Session>, ps: seq<PollFd>, k: nat,
                      incoming: int -> Option<ServerMessage.Message>, sent: seq<Outgoing>, who: seq<nat>)
    requires Tracked(start, ps0, origin, cs, ps) && ev == ClientEvents(ps0) && 1 <= k < |ps|
    requires Replies(start, ev, incoming, sent, start, cs, who) && Asks(cs[k - 1], ps[k].revents, incoming)
    ensures Replies(start, ev, incoming, sent + [Outgoing(cs[k - 1].descriptor, ClientMessage.UsersList(Names(cs)))],
                    start, cs, who + [origin[k - 1]])
  {
    var o := Outgoing(cs[k - 1].descriptor, ClientMessage.UsersList(Names(cs)));
    var sent', who' := sent + [o], who + [origin[k - 1]];
    var here := origin[k - 1];
    assert cs[k - 1] == start[here] && ps[k] == ps0[here + 1] && ev[here] == ps[k].revents;
    NamesBetween(start, ps0, origin, cs, ps);
    forall j | 0 <= j < |who'|
      ensures who'[j] < |start| && who'[j] < |ev| && Asks(start[who'[j]], ev[who'[j]], incoming)
        && sent'[j].to == start[who'[j]].descriptor && ListsBetween(sent'[j].message, start, cs)
    {
      if j < |who| {
        assert who'[j] == who[j] && sent'[j] == sent[j];
      } else {
        assert who'[j] == here && sent'[j] == o;
      }
    }
  }

  /** The names of the clients present list every one of them, and only
      clients the walk started with. */
  lemma NamesBetween(start: seq<Session>, ps0: seq<PollFd>, origin: seq<nat>, cs: seq<Session>, ps: seq<PollFd>)
    requires Tracked(start, ps0, origin, cs, ps)
    ensures ListsBetween(ClientMessage.UsersList(Names(cs)), start, cs)
  {
    var names := Names(cs);
    forall c | c in cs
      ensures c.name in names
    {
      var j :| 0 <= j < |cs| && cs[j] == c;
      assert names[j] == c.name;
    }
    forall n | n in names
      ensures exists c :: c in start && c.name == n
    {
      var j :| 0 <= j < |names| && names[j] == n;
      assert cs[j] == start[origin[j]] && start[origin[j]] in start;
    }
  }

  /** After the visit of `k - 1`, the clients answered are exactly those of
      the first `k` tracked that asked, each once: the one visited is
      answered only when it asked, and was not answered before since each
      client is tracked once. */
  lemma AnswerVisited(start: seq<Session>, ps0: seq<PollFd>, ev: seq<bv16>, origin: seq<nat>,
                      cs: seq<Session>, ps: seq<PollFd>, k: nat,
                      incoming: int -> Option<ServerMessage.Message>, who: seq<nat>, asked: bool)
    requires Tracked(start, ps0, origin, cs, ps) && ev == ClientEvents(ps0) && 1 <= k < |ps|
    requires Distinct(origin) && Distinct(who) && AnsweredUpTo(start, ev, origin, k - 1, incoming, who)
    requires asked <==> Asks(cs[k - 1], ps[k].revents, incoming)
    ensures var who' := if asked then who + [origin[k - 1]] else who;
      Distinct(who') && AnsweredUpTo(start, ev, origin, k, incoming, who')
  {
    var here := origin[k - 1];
    assert cs[k - 1] == start[here] && ps[k] == ps0[here + 1] && ev[here] == ps[k].revents;
    NotYetAnswered(origin, k, who);
    if asked {
      DistinctAppend(who, here);
      AnsweredAppend(start, ev, origin, k, incoming, who);
    } else {
      AnsweredSkip(start, ev, origin, k, incoming, who);
    }
  }

  /** Every client answered is among the first `k - 1` tracked, so none of
      them is the client at `k - 1`, which is tracked once. */
  lemma NotYetAnswered(origin: seq<nat>, k: nat, who: seq<nat>)
    requires Distinct(origin) && 1 <= k <= |origin|
    requires forall a :: 0 <= a < |who| ==> Among(who[a], origin, k - 1)
    ensures forall a :: 0 <= a < |who| ==> who[a] != origin[k - 1] && Among(who[a], origin, k)
  {
    forall a | 0 <= a < |who|
      ensures who[a] != origin[k - 1] && Among(who[a], origin, k)
    {
      assert Among(who[a], origin, k - 1);
      var j :| 0 <= j < k - 1 && j < |origin| && origin[j] == who[a];
    }
  }

  /** Appending an index that does not occur keeps a sequence distinct. */
  lemma DistinctAppend(s: seq<nat>, x: nat)
    requires Distinct(s) && forall a :: 0 <= a < |s| ==> s[a] != x
    ensures Distinct(s + [x])
  {
    var s' := s + [x];
    forall a, b | 0 <= a < b < |s'|
      ensures s'[a] != s'[b]
    {
      assert s'[a] == s[a];
      if b < |s| {
        assert s'[b] == s[b];
      }
    }
  }

  /** The client at `k - 1` asked and is answered last. */
  lemma AnsweredAppend(start: seq<Session>, ev: seq<bv16>, origin: seq<nat>, k: nat,
                       incoming: int -> Option<ServerMessage.Message>, who: seq<nat>)
    requires 1 <= k <= |origin| && AnsweredUpTo(start, ev, origin, k - 1, incoming, who)
    requires forall a :: 0 <= a < |who| ==> Among(who[a], origin, k)
    ensures AnsweredUpTo(start, ev, origin, k, incoming, who + [origin[k - 1]])
  {
    var who' := who + [origin[k - 1]];
    assert Among(origin[k - 1], origin, k);
    forall a | 0 <= a < |who'|
      ensures Among(who'[a], origin, k)
    {
      if a < |who| {
        assert who'[a] == who[a];
      }
    }
    forall j | 0 <= j < k && origin[j] < |start| && origin[j] < |ev| && Asks(start[origin[j]], ev[origin[j]], incoming)
      ensures origin[j] in who'
    {
      if j < k - 1 {
        assert origin[j] in who;
      } else {
        assert who'[|who|] == origin[j];
      }
    }
  }

  /** The client at `k - 1` did not ask and is not answered. */
  lemma AnsweredSkip(start: seq<Session>, ev: seq<bv16>, origin: seq<nat>, k: nat,
                     incoming: int -> Option<ServerMessage.Message>, who: seq<nat>)
    requires 1 <= k <= |origin| && AnsweredUpTo(start, ev, origin, k - 1, incoming, who)
    requires forall a :: 0 <= a < |who| ==> Among(who[a], origin, k)
    requires origin[k - 1] < |start| && origin[k - 1] < |ev|
    requires !Asks(start[origin[k - 1]], ev[origin[k - 1]], incoming)
    ensures AnsweredUpTo(start, ev, origin, k, incoming, who)
  {
    forall j | 0 <= j < k && origin[j] < |start| && origin[j] < |ev| && Asks(start[origin[j]], ev[origin[j]], incoming)
      ensures origin[j] in who
    {
      assert j < k - 1;
    }
  }

  /** Once every entry is visited, the walk's state gives its outcome:
      exactly the doomed clients are gone, every client kept its own poll
      entry, and each client that asked got exactly one list, naming every
      client left and only clients the walk started with. */
  lemma WalkDone(start: seq<Session>, ps0: seq<PollFd>, ev: seq<bv16>, origin: seq<nat>,
                 cs: seq<Session>, ps: seq<PollFd>,
                 incoming: int -> Option<ServerMessage.Message>, sent: seq<Outgoing>, who: seq<nat>)
    requires Walking(start, ps0, ev, origin, cs, ps, |cs|, incoming, sent, who)
    requires forall a, b :: 0 <= a < b < |start| ==> start[a].name != start[b].name
    ensures Pruned(start, ev, cs) && Served(start, ev, incoming, sent, start, cs) && Carried(start, ps0, cs, ps)
  {
    DonePruned(start, ps0, ev, origin, cs, ps);
    DoneServed(start, ev, origin, incoming, sent, cs, who);
    DoneCarried(start, ps0, origin, cs, ps);
  }

  /** Every client that asked was kept, hence visited and answered. */
  lemma DoneServed(start: seq<Session>, ev: seq<bv16>, origin: seq<nat>,
                   incoming: int -> Option<ServerMessage.Message>, sent: seq<Outgoing>, cs: seq<Session>, who: seq<nat>)
    requires |ev| == |start| && Covered(start, ev, origin)
    requires forall j :: 0 <= j < |origin| ==> origin[j] < |start|
    requires Replies(start, ev, incoming, sent, start, cs, who) && Distinct(who)
    requires AnsweredUpTo(start, ev, origin, |origin|, incoming, who)
    ensures Served(start, ev, incoming, sent, start, cs)
  {
    forall i | 0 <= i < |start| && Asks(start[i], ev[i], incoming)
      ensures i in who
    {
      assert !Doomed(start[i], ev[i]);
      var j :| 0 <= j < |origin| && origin[j] == i;
    }
  }

  /** Every client kept sits beside the poll entry it started with. */
  lemma DoneCarried(start: seq<Session>, ps0: seq<PollFd>, origin: seq<nat>, cs: seq<Session>, ps: seq<PollFd>)
    requires Tracked(start, ps0, origin, cs, ps)
    ensures Carried(start, ps0, cs, ps)
  {
    forall j | 0 <= j < |cs|
      ensures Beside(start, ps0, cs[j], ps[j + 1])
    {
      var i := origin[j];
      assert 0 <= i < |start| && i + 1 < |ps0| && cs[j] == start[i] && ps[j + 1] == ps0[i + 1];
    }
  }

  /** A client is kept exactly when it is not doomed: the walk drops only
      doomed clients, every client it keeps is settled, and the clients
      are distinct by name. */
  lemma DonePruned(start: seq<Session>, ps0: seq<PollFd>, ev: seq<bv16>, origin: seq<nat>, cs: seq<Session>, ps: seq<PollFd>)
    requires Tracked(start, ps0, origin, cs, ps) && ev == ClientEvents(ps0)
    requires Covered(start, ev, origin) && Settled(cs, ps, |cs|)
    requires forall a, b :: 0 <= a < b < |start| ==> start[a].name != start[b].name
    ensures Pruned(start, ev, cs)
  {
    forall j | 0 <= j < |cs|
      ensures !Doomed(cs[j], ev[origin[j]])
    {
      assert cs[j] == start[origin[j]] && ps[j + 1] == ps0[origin[j] + 1];
    }
    forall i | 0 <= i < |start|
      ensures start[i] in cs <==> !Doomed(start[i], ev[i])
    {
      if !Doomed(start[i], ev[i]) {
        var j :| 0 <= j < |origin| && origin[j] == i;
        assert cs[j] == start[i];
      } else {
        forall j | 0 <= j < |cs|
          ensures cs[j] != start[i]
        {
          var from := origin[j];
          assert cs[j] == start[from] && !Doomed(start[from], ev[from]);
          assert from != i;
          assert start[from].name != start[i].name;
        }
      }
    }
    forall c | c in cs
      ensures c in start
    {
      var j :| 0 <= j < |cs| && cs[j] == c;
      assert cs[j] == start[origin[j]];
    }
  }

  /** The events of the clients after poll and accept: poll's, then none for
      the newcomer when it was accepted. */
  lemma AcceptedEvents(polled: seq<PollFd>, revents: seq<bv16>, accepted: bool, descriptor: int)
    requires |revents| == |polled| >= 1
    requires forall k :: 0 <= k < |polled| ==> polled[k].revents == revents[k]
    ensures ClientEvents(if accepted then polled + [PollFd(descriptor, 0)] else polled)
         == if accepted then revents[1..] + [0] else revents[1..]
  {
    var ps := if accepted then polled + [PollFd(descriptor, 0)] else polled;
    var ev := if accepted then revents[1..] + [0] else revents[1..];
    assert |ClientEvents(ps)| == |ev|;
    forall i | 0 <= i < |ev|
      ensures ClientEvents(ps)[i] == ev[i]
    {
      if i + 1 < |polled| {
        assert ps[i + 1] == polled[i + 1];
      }
    }
  }

  /** The walk's outcome over the clients after accept, read back over the
      clients before it: the newcomer, with no events, is neither removed
      nor answered. */
  lemma WakeOutcome(start: seq<Session>, revents: seq<bv16>, newcomer: Session, accepted: bool,
                    admitted: seq<Session>, ev: seq<bv16>, cs: seq<Session>,
                    incoming: int -> Option<ServerMessage.Message>, sent: seq<Outgoing>)
    requires |revents| == |start| + 1
    requires accepted ==> newcomer !in start
    requires admitted == if accepted then start + [newcomer] else start
    requires ev == if accepted then revents[1..] + [0] else revents[1..]
    requires Pruned(admitted, ev, cs) && Served(admitted, ev, incoming, sent, admitted, cs)
    ensures forall i :: 0 <= i < |start| ==> (start[i] in cs <==> !Doomed(start[i], revents[i + 1]))
    ensures forall c :: c in cs ==> c in start || c == newcomer
    ensures (newcomer in cs && newcomer !in start) <==> accepted
    ensures Served(start, revents[1..], incoming, sent, start + [newcomer], cs)
  {
    forall i | 0 <= i < |start|
      ensures admitted[i] == start[i] && ev[i] == revents[i + 1] && revents[1..][i] == revents[i + 1]
    {
    }
    forall c | c in cs
      ensures c in start || c == newcomer
    {
      assert c in admitted;
    }
    if accepted {
      assert admitted[|start|] == newcomer && ev[|start|] == 0;
    }
    assert accepted ==> !Ready(ev[|start|]);
    WakeServed(start, revents, newcomer, accepted, admitted, ev, cs, incoming, sent);
  }

  /** The answers over the clients after accept are answers over the clients
      before it: the newcomer has no events, so it did not ask. */
  lemma WakeServed(start: seq<Session>, revents: seq<bv16>, newcomer: Session, accepted: bool,
                   admitted: seq<Session>, ev: seq<bv16>, cs: seq<Session>,
                   incoming: int -> Option<ServerMessage.Message>, sent: seq<Outgoing>)
    requires |revents| == |start| + 1
    requires admitted == if accepted then start + [newcomer] else start
    requires ev == if accepted then revents[1..] + [0] else revents[1..]
    requires Served(admitted, ev, incoming, sent, admitted, cs)
    ensures Served(start, revents[1..], incoming, sent, start + [newcomer], cs)
  {
    var who :| Replies(admitted, ev, incoming, sent, admitted, cs, who) && Distinct(who)
      && forall i :: 0 <= i < |admitted| && Asks(admitted[i], ev[i], incoming) ==> i in who;
    forall i | 0 <= i < |start|
      ensures admitted[i] == start[i] && ev[i] == revents[1..][i]
    {
    }
    assert accepted ==> ev[|start|] == 0 && !Ready(ev[|start|]);
    forall c | c in admitted
      ensures c in start + [newcomer]
    {
    }
    forall j | 0 <= j < |who|
      ensures who[j] < |start| && ListsBetween(sent[j].message, start + [newcomer], cs)
    {
      ListsWithin(sent[j].message, admitted, cs, start + [newcomer], cs);
    }
    assert Replies(start, revents[1..], incoming, sent, start + [newcomer], cs, who);
  }

  // ---------------------------------------------------------------------------
  // process as written

  /** The readiness test as written, revents | POLLIN. */
  function ReadyAsWritten(revents: bv16): bool
  {
    revents | POLLIN != 0
  }

  /** The test as written holds for every entry, also one poll reported
      nothing for; the corrected test tells the two apart. */
  lemma ReadyAsWrittenAlways(revents: bv16)
    ensures ReadyAsWritten(revents)
    ensures ReadyAsWritten(0) && !Ready(0) && Ready(POLLIN)
  {
  }

  /** What one step of the walk as written consults: get_client's index for
      the slot and the descriptor found there, None when the slot lies past
      the current end of the entries. */
  datatype Step = Step(client: int, entry: Option<int>)

  /** The walk as written over the descriptors `fds`: it starts at the
      listener's slot, compares with the `end` taken before the walk, and
      steps past the slot a removed entry's successor was swapped into.
      `closed` holds the descriptors whose connection closed. */
  function WalkAsWritten(fds: seq<int>, closed: set<int>, k: nat, end: nat): seq<Step>
    decreases end - k
  {
    if k >= end then []
    else if k >= |fds| then [Step(k - 1, None)] + WalkAsWritten(fds, closed, k + 1, end)
    else
      var next := if 1 <= k && fds[k] in closed then SwapPopped(fds, k) else fds;
      [Step(k - 1, Some(fds[k]))] + WalkAsWritten(next, closed, k + 1, end)
  }

  /** Listener 10 and clients 11 and 12, 11 closed: the walk as written asks
      for client -1 at the listener's slot, never reaches 12 (swapped into
      slot 1 after it was passed) and reads slot 2, past the two entries
      left. */
  lemma WalkAsWrittenMisses()
    ensures WalkAsWritten([10, 11, 12], {11}, 0, 3)
         == [Step(-1, Some(10)), Step(0, Some(11)), Step(1, None)]
  {
    assert SwapPopped([10, 11, 12], 1) == [10, 12];
  }

  /** The slot whose name the repair as written catalogues: it repairs
      whenever clients remain, whatever slot was vacated. */
  function RepairSlotAsWritten(after: seq<Session>, i: nat): Option<nat>
  {
    if |after| != 0 then Some(i) else None
  }

  /** Removing the last of two clients: the repair as written reads the
      client at index 1 of a list of one. */
  lemma RepairPastEndAsWritten(a: Session, b: Session)
    ensures RepairSlotAsWritten(SwapPopped([a, b], 1), 1) == Some(1)
    ensures |SwapPopped([a, b], 1)| == 1
  {
  }
}
