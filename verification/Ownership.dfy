/** Who keeps a client alive: a session's cached list and the client's connection each
    hold one reference, and a client is freed when both have let go. */
module Ownership {

  datatype ClientState = Idle | Connecting | Working | Error | Disconnected

  /** How an attempt to connect ends: with a link, with an error of the link, or without
      room for another channel. */
  datatype Outcome = Connected | LinkError | NoChannel

  /** What a channel reports of its connection. */
  datatype Event = Timeout | LinkIdle | Reply(state: ClientState)

  predicate Busy(s: ClientState)
  {
    s == Connecting || s == Working
  }

  class Client {
    const database: int
    var connection: Connection?
    var refCount: int
    var state: ClientState
    var hasSession: bool
    var freed: bool

    constructor (database: int)
      ensures this.database == database && connection == null && refCount == 1
      ensures state == Disconnected && !hasSession && !freed
    {
      this.database := database;
      connection := null;
      refCount := 1;
      state := Disconnected;
      hasSession := false;
      freed := false;
    }

    /** Drops one reference and frees the client with the last. */
    method Destroy() returns (gone: bool)
      requires !freed && refCount >= 1 && (refCount == 1 ==> connection == null)
      modifies this`refCount, this`freed
      ensures refCount == old(refCount) - 1
      ensures gone == freed == (refCount == 0)
    {
      refCount := refCount - 1;
      if refCount == 0 {
        assert connection == null;
        freed := true;
        return true;
      }
      return false;
    }

    method SetConnection(co: Connection?)
      requires !freed && refCount >= 1
      requires co != null ==> connection == null
      modifies this`connection, this`refCount, this`freed
      ensures connection == co
      ensures refCount == old(refCount) + if co != null then 1 else -1
      ensures freed == (refCount == 0)
    {
      if co != null {
        assert connection == null;
        connection := co;
        refCount := refCount + 1;
      } else {
        connection := null;
        var _ := Destroy();
      }
    }

    method Disconnect()
      requires !freed && refCount >= 1
      modifies this`connection, this`refCount, this`freed, this`state
      ensures connection == null && refCount == old(refCount) - 1 && freed == (refCount == 0)
      ensures state == if old(state) == Idle then Idle else Disconnected
    {
      if state != Idle {
        state := Disconnected;
      }
      SetConnection(null);
    }
  }

  class Connection {
    var client: Client?
    var link: bool
    var freed: bool

    constructor (client: Client)
      ensures this.client == client && !link && !freed
    {
      this.client := client;
      link := false;
      freed := false;
    }

    /** Closes the connection; its client, if it still has one, loses it. */
    method Destroy()
      requires !freed
      requires client != null ==> !client.freed && client.refCount >= 1
      modifies this`link, this`freed
      modifies if client == null then {} else {client}
      ensures freed && !link && client == old(client)
      ensures client != null ==>
        && client.connection == null && client.refCount == old(client.refCount) - 1
        && client.freed == (client.refCount == 0)
        && client.state == (if old(client.state) == Idle then Idle else Disconnected)
        && client.hasSession == old(client.hasSession)
    {
      link := false;
      if client != null {
        client.Disconnect();
      }
      freed := true;
    }
  }

  /** A client's connection, references and state are as they were. */
  twostate predicate Untouched(c: Client)
    reads c
  {
    && c.connection == old(c.connection) && c.refCount == old(c.refCount)
    && c.freed == old(c.freed) && c.state == old(c.state)
  }

  /** One session with its clients and the connections they have had. */
  class Session {
    var cached: seq<Client>
    var active: seq<Client>
    var connections: seq<Connection>
    ghost var clients: set<Client>

    constructor ()
      ensures Valid() && cached == [] && active == [] && connections == [] && clients == {}
    {
      cached := [];
      active := [];
      connections := [];
      clients := {};
    }

    /** A client's references are those of the list that holds it and of its connection,
        it is freed exactly when it has none, and its connection points back. */
    ghost predicate ClientOk(c: Client, held: seq<Client>)
      reads this`active, this`connections, c, if c.connection == null then {} else {c.connection}
    {
      && c.refCount == (if c in held then 1 else 0) + (if c.connection != null then 1 else 0)
      && (c.freed <==> c.refCount == 0)
      && (c.hasSession <==> c in active)
      && (Busy(c.state) ==> c.connection != null)
      && (c.connection != null ==>
            c.connection in connections && !c.connection.freed && c.connection.client == c)
    }

    ghost predicate ConnectionOk(k: Connection)
      reads this`clients, k, if k.client == null then {} else {k.client}
    {
      !k.freed ==> k.link && (k.client != null ==> k.client in clients && k.client.connection == k)
    }

    /** All clients and connections are in order, given the clients that a list holds. */
    ghost predicate InOrder(held: seq<Client>)
      reads this`active, this`connections, this`clients, clients, connections,
            set c | c in clients && c.connection != null :: c.connection,
            set k | k in connections && k.client != null :: k.client
    {
      && (forall c :: c in clients ==> ClientOk(c, held))
      && (forall k :: k in connections ==> ConnectionOk(k))
    }

    /** The cached list has one client for each of its databases, and the active clients
        are cached. */
    ghost predicate Lists()
      reads this`cached, this`active, this`clients
    {
      && (forall i :: 0 <= i < |cached| ==> cached[i] in clients)
      && (forall i, j :: 0 <= i < j < |cached| ==> cached[i].database != cached[j].database)
      && (forall c :: c in active ==> c in cached)
    }

    ghost predicate Valid()
      reads this, clients, connections,
            set c | c in clients && c.connection != null :: c.connection,
            set k | k in connections && k.client != null :: k.client
    {
      Lists() && InOrder(cached)
    }

    /** Client and connection point at each other or not at all. */
    lemma MutualLinks(c: Client, k: Connection)
      requires Valid() && c in clients && k in connections && !c.freed && !k.freed
      ensures k.client == c <==> c.connection == k
    {
      assert ClientOk(c, cached);
      assert ConnectionOk(k);
    }

    /** A client lives exactly as long as the session caches it or it has a connection. */
    lemma FreedWhenBothEnd(c: Client)
      requires Valid() && c in clients
      ensures c.freed <==> c !in cached && c.connection == null
    {
      assert ClientOk(c, cached);
    }

    /** Nothing is left behind once the cache is dropped and all connections are closed. */
    lemma NothingLeaks()
      requires Valid() && cached == [] && forall k :: k in connections ==> k.freed
      ensures forall c :: c in clients ==> c.freed
    {
      forall c | c in clients ensures c.freed {
        assert ClientOk(c, cached);
      }
    }

    // ----- Steps ---------------------------------------------------------------

    /** The cached client of a database, if there is one. */
    method Find(database: int) returns (i: nat)
      ensures i <= |cached|
      ensures i < |cached| ==> cached[i].database == database
      ensures i == |cached| ==> forall c :: c in cached ==> c.database != database
    {
      i := 0;
      while i < |cached| && cached[i].database != database
        invariant 0 <= i <= |cached|
        invariant forall j :: 0 <= j < i ==> cached[j].database != database
      {
        i := i + 1;
      }
    }

    /** Selects a target: reuses the cached client of its database or makes one. */
    method Select(database: int) returns (cl: Client)
      requires Valid()
      modifies this`cached, this`active, this`clients, clients
      ensures Valid() && cl.database == database
      ensures active == [cl] + old(active)
      ensures (exists c :: c in old(cached) && c.database == database) ==>
        cached == old(cached) && clients == old(clients)
      ensures !(exists c :: c in old(cached) && c.database == database) ==>
        fresh(cl) && cached == [cl] + old(cached) && clients == old(clients) + {cl}
      ensures forall c :: c in old(clients) ==>
        c.connection == old(c.connection) && c.freed == old(c.freed)
    {
      var i := Find(database);
      if i < |cached| {
        cl := cached[i];
      } else {
        cl := new Client(database);
        Cache(cl);
      }
      Activate(cl);
    }

    method Cache(cl: Client)
      requires Valid() && cl !in clients && forall c :: c in cached ==> c.database != cl.database
      requires cl.connection == null && cl.refCount == 1 && !Busy(cl.state)
      requires !cl.hasSession && !cl.freed && cl !in active
      modifies this`cached, this`clients
      ensures Valid() && cached == [cl] + old(cached) && clients == old(clients) + {cl}
    {
      cached := [cl] + cached;
      clients := clients + {cl};
      forall c | c in clients ensures ClientOk(c, cached) {
        if c != cl { assert old(ClientOk(c, cached)); }
      }
      forall k | k in connections ensures ConnectionOk(k) {
        assert old(ConnectionOk(k));
      }
    }

    method Activate(cl: Client)
      requires Valid() && cl in cached
      modifies this`active, cl`hasSession
      ensures Valid() && active == [cl] + old(active)
    {
      cl.hasSession := true;
      active := [cl] + active;
      forall c | c in clients ensures ClientOk(c, cached) {
        assert old(ClientOk(c, cached));
      }
      forall k | k in connections ensures ConnectionOk(k) {
        assert old(ConnectionOk(k));
      }
    }

    /** No client is active any more. */
    method ResetActive()
      requires Valid()
      modifies this`active, clients
      ensures Valid() && active == []
      ensures forall c :: c in clients ==> Untouched(c)
    {
      var l := active;
      active := [];
      var i := 0;
      while i < |l|
        invariant 0 <= i <= |l|
        invariant forall c :: c in clients ==> Untouched(c) && (c.hasSession ==> c in l[i..])
        modifies clients
      {
        assert l[i] in l && l[i..] == [l[i]] + l[i + 1..];
        l[i].hasSession := false;
        i := i + 1;
      }
      forall c | c in clients ensures ClientOk(c, cached) {
        assert old(ClientOk(c, cached));
      }
      forall k | k in connections ensures ConnectionOk(k) {
        assert old(ConnectionOk(k));
      }
    }

    /** Drops the cache: each cached client loses the list's reference. */
    method RemoveCached()
      requires Valid()
      modifies this`cached, this`active, clients
      ensures Valid() && cached == [] && active == []
      ensures forall c :: c in clients ==>
        c.connection == old(c.connection) && c.freed == (c.connection == null)
    {
      ResetActive();
      var l := cached;
      cached := [];
      var i := 0;
      assert l[0..] == l;
      while i < |l|
        invariant 0 <= i <= |l| && InOrder(l[i..])
        invariant forall c :: c in clients ==> c.connection == old(c.connection)
        modifies clients
      {
        Release(l, i);
        i := i + 1;
      }
      forall c | c in clients ensures c.freed == (c.connection == null) {
        assert ClientOk(c, []);
      }
    }

    method Release(l: seq<Client>, i: nat)
      requires i < |l| && (forall j :: 0 <= j < |l| ==> l[j] in clients)
      requires forall j, k :: 0 <= j < k < |l| ==> l[j].database != l[k].database
      requires InOrder(l[i..]) && active == []
      modifies l[i]
      ensures InOrder(l[i + 1..])
      ensures l[i].connection == old(l[i].connection)
    {
      assert l[i..] == [l[i]] + l[i + 1..];
      assert l[i] !in l[i + 1..];
      assert ClientOk(l[i], l[i..]);
      l[i].hasSession := false;
      var _ := l[i].Destroy();
      forall c | c in clients ensures ClientOk(c, l[i + 1..]) {
        assert old(ClientOk(c, l[i..]));
      }
      forall k | k in connections ensures ConnectionOk(k) {
        assert old(ConnectionOk(k));
      }
    }

    /** Sees to it that a client has a connection. Gives 2 if it had one, 1 if it has got
        one, and 0 if that failed; a failure leaves the client as it was but for its
        state. */
    method Prepare(cl: Client, outcome: Outcome) returns (r: int)
      requires Valid() && cl in cached
      modifies this`connections, cl
      ensures Valid() && 0 <= r <= 2
      ensures r == 2 <==> old(cl.connection) != null
      ensures r == 2 ==> Untouched(cl) && connections == old(connections)
      ensures r == 1 ==>
        && outcome == Connected && cl.state == Connecting && cl.refCount == 2
        && cl.connection != null && fresh(cl.connection)
        && connections == old(connections) + [cl.connection]
      ensures r == 0 ==>
        && outcome != Connected && cl.connection == null && cl.refCount == old(cl.refCount) && connections == old(connections)
        && cl.state == if outcome == NoChannel && old(cl.state) == Idle then Idle else Disconnected
    {
      assert ClientOk(cl, cached) && cl in clients by {
        var i :| 0 <= i < |cached| && cached[i] == cl;
      }
      hide Lists;
      if cl.connection != null {
        return 2;
      }
      var co := new Connection(cl);
      cl.SetConnection(co);
      match outcome {
        case Connected =>
          co.link := true;
          cl.state := Connecting;
          connections := connections + [co];
        case LinkError =>
          cl.state := Error;
          co.Destroy();
        case NoChannel =>
          co.Destroy();
      }
      r := if outcome == Connected then 1 else 0;
      forall c | c in clients ensures ClientOk(c, cached) {
        assert old(ClientOk(c, cached));
      }
      forall k | k in connections ensures ConnectionOk(k) {
        if k != co { assert old(ConnectionOk(k)); }
      }
    }

    /** Starts a search on an active client; `reuse` says that its result still stands. */
    method Start(cl: Client, outcome: Outcome, reuse: bool) returns (ok: bool)
      requires Valid() && cl in active
      modifies this`connections, cl
      ensures Valid()
      ensures ok <==> cl.connection != null
      ensures ok <==> old(cl.connection) != null || outcome == Connected
      ensures ok ==> cl.connection.link && (old(cl.connection) == null ==> fresh(cl.connection))
      ensures ok && !(reuse && old(cl.connection) != null) ==> cl.state == Working
      ensures ok && reuse && old(cl.connection) != null ==> Untouched(cl)
      ensures forall k :: k in connections ==> k in old(connections) || fresh(k)
    {
      var r := Prepare(cl, outcome);
      if reuse && r == 2 {
        return true;
      } else if r == 0 {
        return false;
      }
      assert ClientOk(cl, cached) && ConnectionOk(cl.connection);
      assert cl.connection.link;
      cl.state := Working;
      ok := true;
      forall c | c in clients ensures ClientOk(c, cached) {
        assert old(ClientOk(c, cached));
      }
      forall k | k in connections ensures ConnectionOk(k) {
      }
    }

    /** Handles what a channel reports: a connection that has lost its client, has timed
        out or has nothing left to do is closed; otherwise its client changes state. */
    method Handle(co: Connection, event: Event)
      requires Valid() && co in connections && !co.freed
      modifies co, if co.client == null then {} else {co.client}
      ensures Valid()
      ensures co.client == old(co.client)
      ensures co.freed <==> co.client == null || !event.Reply?
      ensures co.freed && co.client != null ==>
        && co.client.connection == null && (co.client.freed <==> co.client !in cached)
        && co.client.state == if old(co.client.state) == Idle then Idle else Disconnected
      ensures !co.freed ==> co.client.state == event.state
    {
      assert ConnectionOk(co);
      if co.client == null {
        co.Destroy();
      } else {
        assert ClientOk(co.client, cached);
        match event {
          case Timeout => co.Destroy();
          case LinkIdle => co.Destroy();
          case Reply(state) => co.client.state := state;
        }
      }
      forall c | c in clients ensures ClientOk(c, cached) {
        assert old(ClientOk(c, cached));
      }
      forall k | k in connections ensures ConnectionOk(k) {
        assert old(ConnectionOk(k));
      }
    }

    /** Stops a busy client: it lets go of its connection, which is left to close by
        itself. */
    method Stop(cl: Client)
      requires Valid() && cl in active
      modifies cl, if cl.connection == null then {} else {cl.connection}
      ensures Valid() && cl.state != Connecting && cl.state != Working && !cl.freed
      ensures old(cl.state) == Connecting || old(cl.state) == Working ==>
        && cl.connection == null && cl.state == Disconnected
        && old(cl.connection) != null && old(cl.connection).client == null
      ensures old(cl.state) != Connecting && old(cl.state) != Working ==> Untouched(cl)
    {
      assert ClientOk(cl, cached);
      if Busy(cl.state) {
        if cl.connection != null {
          cl.connection.client := null;
          assert cl.refCount > 1;
          cl.refCount := cl.refCount - 1;
          cl.connection := null;
        }
        cl.state := Disconnected;
      }
      forall c | c in clients ensures ClientOk(c, cached) {
        assert old(ClientOk(c, cached));
      }
      forall k | k in connections ensures ConnectionOk(k) {
        assert old(ConnectionOk(k));
      }
    }

    /** Stops the session's active clients. */
    method StopAll()
      requires Valid()
      modifies clients, connections
      ensures Valid()
      ensures forall c :: c in active ==> !Busy(c.state)
    {
      var i := 0;
      while i < |active|
        invariant 0 <= i <= |active| && Valid()
        invariant forall j :: 0 <= j < i ==> !Busy(active[j].state)
        modifies clients, connections
      {
        assert active[i] in active;
        assert ClientOk(active[i], cached);
        Stop(active[i]);
        i := i + 1;
      }
    }
  }

  datatype Step =
    | SelectStep(database: int)
    | ResetStep
    | DropStep
    | StartStep(client: nat, outcome: Outcome, reuse: bool)
    | HandleStep(connection: nat, event: Event)
    | StopStep

  ghost function Databases(clients: seq<Client>): (r: seq<int>)
    ensures |r| == |clients| && forall i :: 0 <= i < |clients| ==> r[i] == clients[i].database
  {
    seq(|clients|, i requires 0 <= i < |clients| => clients[i].database)
  }

  /** The databases of the cached clients and of the active ones. */
  datatype Targets = Targets(cached: seq<int>, active: seq<int>)

  /** Only selecting, resetting and dropping change which targets a session uses. */
  function TargetsAfter(steps: seq<Step>): Targets
  {
    if steps == [] then Targets([], [])
    else
      var t := TargetsAfter(steps[..|steps| - 1]);
      match steps[|steps| - 1]
      case SelectStep(d) => Targets(if d in t.cached then t.cached else [d] + t.cached, [d] + t.active)
      case ResetStep => t.(active := [])
      case DropStep => Targets([], [])
      case _ => t
  }

  /** Any steps in any order keep a session valid, and none of them meets a freed client
      or connection or a failing assertion.  Which targets are cached and active depends on
      the selections, resets and drops alone: no search, failure, timeout or stop changes
      it. */
  method Run(steps: seq<Step>) returns (se: Session)
    ensures fresh(se) && se.Valid()
    ensures Targets(Databases(se.cached), Databases(se.active)) == TargetsAfter(steps)
  {
    hide Session.Lists, Session.InOrder;
    se := new Session();
    var n := 0;
    while n < |steps|
      invariant 0 <= n <= |steps| && se.Valid()
      invariant fresh(se) && fresh(se.clients) && forall k :: k in se.connections ==> fresh(k)
      invariant Targets(Databases(se.cached), Databases(se.active)) == TargetsAfter(steps[..n])
    {
      assert steps[..n + 1][..n] == steps[..n];
      if steps[n].SelectStep? {
        RunSelect(se, steps[n].database);
      } else {
        assert forall j :: 0 <= j < |se.connections| ==>
          se.connections[j] in se.connections && fresh(se.connections[j]);
        RunOther(se, steps[n]);
      }
      n := n + 1;
    }
    assert steps[..n] == steps;
  }

  method RunSelect(se: Session, database: int)
    requires se.Valid()
    modifies se`cached, se`active, se`clients, se.clients
    ensures se.Valid() && fresh(se.clients - old(se.clients))
    ensures var was := old(Databases(se.cached));
      && Databases(se.cached) == (if database in was then was else [database] + was)
      && Databases(se.active) == [database] + old(Databases(se.active))
  {
    hide Session.Lists, Session.InOrder;
    ghost var cached := se.cached;
    if database in Databases(cached) {
      ghost var i :| 0 <= i < |cached| && cached[i].database == database;
      assert cached[i] in cached;
    }
    var _ := se.Select(database);
  }

  method RunOther(se: Session, step: Step)
    requires se.Valid() && !step.SelectStep?
    modifies se`cached, se`active, se`connections, se.clients, se.connections
    ensures se.Valid() && forall k :: k in se.connections ==> k in old(se.connections) || fresh(k)
    ensures se.cached == (if step.DropStep? then [] else old(se.cached))
    ensures se.active == (if step.DropStep? || step.ResetStep? then [] else old(se.active))
  {
    match step {
      case SelectStep(_) =>
      case ResetStep => se.ResetActive();
      case DropStep => se.RemoveCached();
      case StartStep(i, outcome, reuse) =>
        if i < |se.active| {
          assert se.active[i] in se.active;
          var _ := se.Start(se.active[i], outcome, reuse);
        }
      case HandleStep(i, event) =>
        if i < |se.connections| && !se.connections[i].freed {
          var co := se.connections[i];
          assert co in se.connections && se.ConnectionOk(co);
          se.Handle(co, event);
        }
      case StopStep => se.StopAll();
    }
  }
}
