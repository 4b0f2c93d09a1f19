/**
  The client manager (pkg/trillianclient/manager.go): a double-checked cache behind two locks
  and a shutdown flag. Each lock-protected section is one atomic step; any number of
  `GetTrillianClient` and `Close` calls interleave between sections.
 */
module ClientManagers {
  import opened Basics

  datatype GRPCConfig = GRPCConfig(address: string, port: nat, tlsCACert: string, useSystemTrustStore: bool,
                                   serviceConfig: string)

  /** A connection, known by the order in which it was dialled. */
  datatype Conn = Conn(id: nat, config: GRPCConfig)

  /** A client, known by the order in which it was created. */
  datatype Client = Client(id: nat, tree: int, conn: Conn)

  datatype Setup = Setup(treeIDToConfig: map<int, GRPCConfig>, defaultConfig: GRPCConfig) {
    function ConfigOf(tree: int): GRPCConfig {
      if tree in treeIDToConfig then treeIDToConfig[tree] else defaultConfig
    }
  }

  /** What the locks protect, with a record of every dial, close and published client. */
  datatype Shared = Shared(
    connections: map<GRPCConfig, Conn>,
    clients: map<int, Client>,
    shutdown: bool,
    dialled: seq<Conn>,
    closed: set<Conn>,
    flushed: bool,
    published: map<int, Client>)

  const EMPTY := Shared(map[], map[], false, [], {}, false, map[])

  // ----- The sections -----

  datatype Answer = Refused | Cached(client: Client) | Missing

  /** First section of `GetTrillianClient`, under the read lock. */
  function CheckClient(sh: Shared, tree: int): Answer {
    if sh.shutdown then Refused else if tree in sh.clients then Cached(sh.clients[tree]) else Missing
  }

  /** Second section of `getConn`, under the write lock: look again, then dial. */
  function DialConn(sh: Shared, config: GRPCConfig, dialOk: bool): (Shared, Option<Conn>) {
    if config in sh.connections then (sh, Some(sh.connections[config]))
    else if !dialOk then (sh, None)
    else
      var conn := Conn(|sh.dialled|, config);
      (sh.(connections := sh.connections[config := conn], dialled := sh.dialled + [conn]), Some(conn))
  }

  /** Last section of `GetTrillianClient`, under the write lock: look again, then create. */
  function Publish(sh: Shared, tree: int, conn: Conn): (Shared, Option<Client>) {
    if sh.shutdown then (sh, None)
    else if tree in sh.clients then (sh, Some(sh.clients[tree]))
    else
      var client := Client(|sh.published|, tree, conn);
      (sh.(clients := sh.clients[tree := client], published := sh.published[tree := client]), Some(client))
  }

  /** First section of `Close`: raise the flag and forget the clients. */
  function CloseClients(sh: Shared): Shared { sh.(shutdown := true, clients := map[]) }

  /** Second section of `Close`: close and forget every connection. */
  function CloseConns(sh: Shared): Shared {
    sh.(connections := map[], closed := sh.closed + sh.connections.Values, flushed := true)
  }

  /** The manager in memory; every method is one section, and the last two are the calls without interference. */
  class ClientManager {
    const setup: Setup
    var connections: map<GRPCConfig, Conn>
    var trillianClients: map<int, Client>
    var shutdown: bool
    ghost var dialled: seq<Conn>
    ghost var closed: set<Conn>
    ghost var flushed: bool
    ghost var published: map<int, Client>
    var nextConn: nat
    var nextClient: nat

    ghost function Contents(): Shared
      reads this
    {
      Shared(connections, trillianClients, shutdown, dialled, closed, flushed, published)
    }

    ghost predicate Valid()
      reads this
    {
      && nextConn == |dialled| && nextClient == |published| && (!shutdown ==> published == trillianClients)
      && (forall cfg :: cfg in connections ==> connections[cfg].config == cfg)
      && (forall t :: t in trillianClients ==>
            trillianClients[t].tree == t && trillianClients[t].conn.config == setup.ConfigOf(t))
    }

    constructor (setup: Setup)
      ensures Valid() && Contents() == EMPTY && this.setup == setup
    {
      this.setup := setup;
      connections, trillianClients, shutdown := map[], map[], false;
      dialled, closed, flushed, published := [], {}, false, map[];
      nextConn, nextClient := 0, 0;
    }

    method CheckClientSection(tree: int) returns (a: Answer)
      ensures a == CheckClient(Contents(), tree)
    {
      if shutdown {
        return Refused;
      }
      if tree in trillianClients {
        return Cached(trillianClients[tree]);
      }
      return Missing;
    }

    method CheckConnSection(config: GRPCConfig) returns (c: Option<Conn>)
      ensures c == if config in connections then Some(connections[config]) else None
    {
      if config in connections {
        return Some(connections[config]);
      }
      return None;
    }

    method DialConnSection(config: GRPCConfig, dialOk: bool) returns (c: Option<Conn>)
      requires Valid()
      modifies this
      ensures Valid() && (Contents(), c) == DialConn(old(Contents()), config, dialOk)
    {
      if config in connections {
        return Some(connections[config]);
      }
      if !dialOk {
        return None;
      }
      var conn := Conn(nextConn, config);
      connections := connections[config := conn];
      dialled := dialled + [conn];
      nextConn := nextConn + 1;
      return Some(conn);
    }

    method PublishSection(tree: int, conn: Conn) returns (c: Option<Client>)
      requires Valid() && conn.config == setup.ConfigOf(tree)
      modifies this
      ensures Valid() && (Contents(), c) == Publish(old(Contents()), tree, conn)
    {
      if shutdown {
        return None;
      }
      if tree in trillianClients {
        return Some(trillianClients[tree]);
      }
      var client := Client(nextClient, tree, conn);
      trillianClients := trillianClients[tree := client];
      published := published[tree := client];
      nextClient := nextClient + 1;
      return Some(client);
    }

    method CloseClientsSection()
      requires Valid()
      modifies this
      ensures Valid() && Contents() == CloseClients(old(Contents()))
    {
      shutdown := true;
      trillianClients := map[];
    }

    method CloseConnsSection()
      requires Valid()
      modifies this
      ensures Valid() && Contents() == CloseConns(old(Contents()))
    {
      ghost var (before, closedBefore) := (connections, closed);
      while connections != map[]
        invariant Valid() && trillianClients == old(trillianClients) && shutdown == old(shutdown)
        invariant dialled == old(dialled) && published == old(published) && flushed == old(flushed)
        invariant closed + connections.Values == closedBefore + before.Values
        decreases connections.Keys
      {
        var cfg :| cfg in connections.Keys;
        WithoutKey(connections, cfg);
        closed := closed + {connections[cfg]};
        connections := connections - {cfg};
      }
      flushed := true;
    }

    /** `GetTrillianClient` when no other section runs in between. */
    method GetTrillianClient(tree: int, dialOk: bool) returns (c: Option<Client>)
      requires Valid()
      modifies this
      ensures Valid()
      ensures var config := if tree in setup.treeIDToConfig then setup.treeIDToConfig[tree] else setup.defaultConfig;
              && (c.Some? <==> !old(shutdown) && (tree in old(trillianClients) || config in old(connections) || dialOk))
              && (c.Some? ==> && c.value.tree == tree && c.value.conn.config == config
                              && tree in trillianClients && trillianClients[tree] == c.value)
      ensures old(shutdown) ==> c.None? && Contents() == old(Contents())
      ensures !old(shutdown) && tree in old(trillianClients) ==>
                c == Some(old(trillianClients)[tree]) && Contents() == old(Contents())
      ensures !old(shutdown) && tree !in old(trillianClients) ==>
                var (sh, conn) := DialConn(old(Contents()), setup.ConfigOf(tree), dialOk);
                if conn.None? then c.None? && Contents() == sh else (Contents(), c) == Publish(sh, tree, conn.value)
    {
      var a := CheckClientSection(tree);
      match a
      case Refused => return None;
      case Cached(client) => return Some(client);
      case Missing =>
        var config := setup.ConfigOf(tree);
        var conn := CheckConnSection(config);
        if conn.None? {
          conn := DialConnSection(config, dialOk);
          if conn.None? {
            return None;
          }
        }
        c := PublishSection(tree, conn.value);
    }

    /** `Close` when no other section runs in between. */
    method Close()
      requires Valid()
      modifies this
      ensures Valid() && Contents() == CloseConns(CloseClients(old(Contents())))
    {
      CloseClientsSection();
      CloseConnsSection();
    }
  }

  lemma WithoutKey(m: map<GRPCConfig, Conn>, cfg: GRPCConfig)
    requires cfg in m
    ensures (m - {cfg}).Values + {m[cfg]} == m.Values
    ensures (m - {cfg}).Keys < m.Keys
  {
    var r := m - {cfg};
    forall v | v in m.Values
      ensures v in r.Values + {m[cfg]}
    {
      var k :| k in m && m[k] == v;
      assert k == cfg || (k in r && r[k] == v);
    }
    forall v | v in r.Values
      ensures v in m.Values
    {
      var k :| k in r && r[k] == v;
      assert k in m && m[k] == v;
    }
  }

  // ----- Interleavings -----

  /** Where a `GetTrillianClient` call stands. */
  datatype Stage = Started | NeedConn | NeedDial | HaveConn(conn: Conn) | Returned(client: Client) | Failed

  /** A call; `late` when it started after shutdown. */
  datatype Call = Call(tree: int, late: bool, stage: Stage)

  datatype State = State(shared: Shared, calls: map<nat, Call>, closing: map<nat, bool>)

  const INITIAL := State(EMPTY, map[], map[])

  datatype Event =
    | Begin(call: nat, tree: int)
    | RunCheckClient(call: nat)
    | RunCheckConn(call: nat)
    | RunDialConn(call: nat, dialOk: bool)
    | RunPublish(call: nat)
    | RunCloseClients(close: nat)
    | RunCloseConns(close: nat)

  predicate Enabled(s: State, e: Event) {
    match e
    case Begin(c, _) => c !in s.calls
    case RunCheckClient(c) => c in s.calls && s.calls[c].stage.Started?
    case RunCheckConn(c) => c in s.calls && s.calls[c].stage.NeedConn?
    case RunDialConn(c, _) => c in s.calls && s.calls[c].stage.NeedDial?
    case RunPublish(c) => c in s.calls && s.calls[c].stage.HaveConn?
    case RunCloseClients(k) => k !in s.closing
    case RunCloseConns(k) => k in s.closing && s.closing[k]
  }

  function Moved(s: State, sh: Shared, c: nat, stage: Stage): State
    requires c in s.calls
  {
    s.(shared := sh, calls := s.calls[c := s.calls[c].(stage := stage)])
  }

  function Apply(setup: Setup, s: State, e: Event): State
    requires Enabled(s, e)
  {
    match e
    case Begin(c, tree) => s.(calls := s.calls[c := Call(tree, s.shared.shutdown, Started)])
    case RunCheckClient(c) =>
      (match CheckClient(s.shared, s.calls[c].tree)
       case Refused => Moved(s, s.shared, c, Failed)
       case Cached(client) => Moved(s, s.shared, c, Returned(client))
       case Missing => Moved(s, s.shared, c, NeedConn))
    case RunCheckConn(c) =>
      var config := setup.ConfigOf(s.calls[c].tree);
      Moved(s, s.shared, c, if config in s.shared.connections then HaveConn(s.shared.connections[config]) else NeedDial)
    case RunDialConn(c, dialOk) =>
      var (sh, conn) := DialConn(s.shared, setup.ConfigOf(s.calls[c].tree), dialOk);
      Moved(s, sh, c, if conn.Some? then HaveConn(conn.value) else Failed)
    case RunPublish(c) =>
      var (sh, client) := Publish(s.shared, s.calls[c].tree, s.calls[c].stage.conn);
      Moved(s, sh, c, if client.Some? then Returned(client.value) else Failed)
    case RunCloseClients(k) => s.(shared := CloseClients(s.shared), closing := s.closing[k := true])
    case RunCloseConns(k) => s.(shared := CloseConns(s.shared), closing := s.closing[k := false])
  }

  /** A run: every event is enabled where it happens. */
  predicate IsRun(setup: Setup, s: State, events: seq<Event>)
    decreases |events|
  {
    events != [] ==> Enabled(s, events[0]) && IsRun(setup, Apply(setup, s, events[0]), events[1..])
  }

  function After(setup: Setup, s: State, events: seq<Event>): State
    requires IsRun(setup, s, events)
    decreases |events|
  {
    if events == [] then s else After(setup, Apply(setup, s, events[0]), events[1..])
  }

  // ----- Safety -----

  /** The cache: open connections under their own configuration, clients of their own tree over such a connection. */
  ghost predicate CacheInv(setup: Setup, sh: Shared) {
    && (forall cfg :: cfg in sh.connections ==>
          var conn := sh.connections[cfg];
          conn.config == cfg && conn in sh.dialled && conn !in sh.closed)
    && (forall t :: t in sh.clients ==>
          var client := sh.clients[t];
          client.tree == t && client.conn.config == setup.ConfigOf(t) && client.conn in sh.dialled
            && client.conn !in sh.closed)
    && (sh.shutdown ==> sh.clients == map[])
    && (!sh.shutdown ==> sh.clients == sh.published)
    && (sh.flushed ==> sh.shutdown)
    && (!sh.flushed ==> sh.closed == {})
  }

  /** Dialling: fresh connections, each of them cached or closed, and one for each configuration until the flush. */
  ghost predicate DialInv(sh: Shared) {
    && (forall i :: 0 <= i < |sh.dialled| ==> sh.dialled[i].id == i)
    && (forall i :: 0 <= i < |sh.dialled| ==>
          var conn := sh.dialled[i];
          conn in sh.closed || (conn.config in sh.connections && sh.connections[conn.config] == conn))
    && (forall conn :: conn in sh.closed ==> conn in sh.dialled)
  }

  ghost predicate CallInv(setup: Setup, sh: Shared, call: Call) {
    && (call.late ==> sh.shutdown && (call.stage.Started? || call.stage.Failed?))
    && (call.stage.HaveConn? ==> call.stage.conn.config == setup.ConfigOf(call.tree) && call.stage.conn in sh.dialled)
    && (call.stage.HaveConn? && !sh.flushed ==> call.stage.conn !in sh.closed)
    && (call.stage.Returned? ==> call.tree in sh.published && sh.published[call.tree] == call.stage.client)
  }

  ghost predicate PublishedInv(setup: Setup, sh: Shared) {
    forall t :: t in sh.published ==> sh.published[t].tree == t && sh.published[t].conn.config == setup.ConfigOf(t)
  }

  ghost predicate SharedInv(setup: Setup, sh: Shared) {
    CacheInv(setup, sh) && DialInv(sh) && PublishedInv(setup, sh)
  }

  ghost predicate Inv(setup: Setup, s: State) {
    && SharedInv(setup, s.shared)
    && (forall c :: c in s.calls ==> CallInv(setup, s.shared, s.calls[c]))
    && (forall k :: k in s.closing ==> s.shared.shutdown)
  }

  /** What every section keeps of the record: dials and published clients stay, and nothing closes before the flush. */
  ghost predicate Grows(sh: Shared, sh': Shared) {
    && sh.dialled <= sh'.dialled
    && (forall t :: t in sh.published ==> t in sh'.published && sh'.published[t] == sh.published[t])
    && (sh.shutdown ==> sh'.shutdown)
    && (!sh'.flushed ==> !sh.flushed && sh'.closed == sh.closed)
  }

  lemma CallInvStable(setup: Setup, sh: Shared, sh': Shared, call: Call)
    requires CallInv(setup, sh, call) && Grows(sh, sh')
    ensures CallInv(setup, sh', call)
  {
  }

  lemma DialConnKeeps(setup: Setup, sh: Shared, config: GRPCConfig, dialOk: bool)
    requires SharedInv(setup, sh)
    ensures var (sh', conn) := DialConn(sh, config, dialOk);
            && SharedInv(setup, sh') && Grows(sh, sh')
            && (conn.Some? ==> conn.value.config == config && conn.value in sh'.dialled && conn.value !in sh'.closed)
  {
    var (sh', conn) := DialConn(sh, config, dialOk);
    if config !in sh.connections && dialOk {
      var added := conn.value;
      assert added !in sh.dialled;
      assert sh'.dialled[|sh.dialled|] == added;
      forall i | 0 <= i < |sh'.dialled|
        ensures sh'.dialled[i].id == i
        ensures var c := sh'.dialled[i];
                c in sh'.closed || (c.config in sh'.connections && sh'.connections[c.config] == c)
      {
        if i < |sh.dialled| {
          assert sh'.dialled[i] == sh.dialled[i];
          assert sh.dialled[i].config != config || sh.dialled[i] in sh.closed;
        }
      }
      assert forall c :: c in sh.dialled ==> c in sh'.dialled;
    }
  }

  lemma PublishKeeps(setup: Setup, sh: Shared, tree: int, conn: Conn)
    requires SharedInv(setup, sh)
    requires conn.config == setup.ConfigOf(tree) && conn in sh.dialled && (!sh.flushed ==> conn !in sh.closed)
    ensures var (sh', client) := Publish(sh, tree, conn);
            && SharedInv(setup, sh') && Grows(sh, sh')
            && (client.Some? ==> !sh'.shutdown && tree in sh'.published && sh'.published[tree] == client.value)
  {
  }

  lemma CloseClientsKeeps(setup: Setup, sh: Shared)
    requires SharedInv(setup, sh)
    ensures SharedInv(setup, CloseClients(sh)) && Grows(sh, CloseClients(sh))
  {
  }

  lemma CloseConnsKeeps(setup: Setup, sh: Shared)
    requires SharedInv(setup, sh) && sh.shutdown
    ensures SharedInv(setup, CloseConns(sh)) && Grows(sh, CloseConns(sh))
  {
    var sh' := CloseConns(sh);
    forall i | 0 <= i < |sh'.dialled|
      ensures sh'.dialled[i] in sh'.closed
    {
      var conn := sh.dialled[i];
      if conn !in sh.closed {
        assert sh.connections[conn.config] in sh.connections.Values;
      }
    }
  }

  /** The call that moved satisfies its own invariant, and a section leaves the other calls' invariants alone. */
  lemma MovedKeepsInv(setup: Setup, s: State, sh: Shared, c: nat, stage: Stage)
    requires Inv(setup, s) && c in s.calls
    requires SharedInv(setup, sh) && Grows(s.shared, sh)
    requires CallInv(setup, sh, s.calls[c].(stage := stage))
    ensures Inv(setup, Moved(s, sh, c, stage))
  {
    hide SharedInv, CallInv;
    var s' := Moved(s, sh, c, stage);
    forall d | d in s'.calls
      ensures CallInv(setup, sh, s'.calls[d])
    {
      if d != c {
        CallInvStable(setup, s.shared, sh, s.calls[d]);
      }
    }
    assert Grows(s.shared, sh);
  }

  lemma ClosingKeepsInv(setup: Setup, s: State, sh: Shared, closing: map<nat, bool>)
    requires Inv(setup, s) && SharedInv(setup, sh) && Grows(s.shared, sh) && sh.shutdown
    ensures Inv(setup, State(sh, s.calls, closing))
  {
    hide SharedInv, CallInv;
    forall d | d in s.calls
      ensures CallInv(setup, sh, s.calls[d])
    {
      CallInvStable(setup, s.shared, sh, s.calls[d]);
    }
  }

  lemma CheckClientKeeps(setup: Setup, s: State, c: nat)
    requires Inv(setup, s) && Enabled(s, RunCheckClient(c))
    ensures Inv(setup, Apply(setup, s, RunCheckClient(c)))
  {
    var stage := match CheckClient(s.shared, s.calls[c].tree)
      case Refused => Failed
      case Cached(client) => Returned(client)
      case Missing => NeedConn;
    MovedKeepsInv(setup, s, s.shared, c, stage);
  }

  lemma CheckConnKeeps(setup: Setup, s: State, c: nat)
    requires Inv(setup, s) && Enabled(s, RunCheckConn(c))
    ensures Inv(setup, Apply(setup, s, RunCheckConn(c)))
  {
    var config := setup.ConfigOf(s.calls[c].tree);
    var stage := if config in s.shared.connections then HaveConn(s.shared.connections[config]) else NeedDial;
    MovedKeepsInv(setup, s, s.shared, c, stage);
  }

  /** Every step of every interleaving keeps the invariant. */
  lemma StepKeepsInv(setup: Setup, s: State, e: Event)
    requires Inv(setup, s) && Enabled(s, e)
    ensures Inv(setup, Apply(setup, s, e))
  {
    hide SharedInv, Grows;
    match e
    case Begin(c, tree) =>
      assert CallInv(setup, s.shared, Call(tree, s.shared.shutdown, Started));
    case RunCheckClient(c) => CheckClientKeeps(setup, s, c);
    case RunCheckConn(c) => CheckConnKeeps(setup, s, c);
    case RunDialConn(c, dialOk) =>
      var config := setup.ConfigOf(s.calls[c].tree);
      var (sh, conn) := DialConn(s.shared, config, dialOk);
      DialConnKeeps(setup, s.shared, config, dialOk);
      MovedKeepsInv(setup, s, sh, c, if conn.Some? then HaveConn(conn.value) else Failed);
    case RunPublish(c) =>
      var call := s.calls[c];
      var (sh, client) := Publish(s.shared, call.tree, call.stage.conn);
      PublishKeeps(setup, s.shared, call.tree, call.stage.conn);
      MovedKeepsInv(setup, s, sh, c, if client.Some? then Returned(client.value) else Failed);
    case RunCloseClients(k) =>
      CloseClientsKeeps(setup, s.shared);
      ClosingKeepsInv(setup, s, CloseClients(s.shared), s.closing[k := true]);
    case RunCloseConns(k) =>
      CloseConnsKeeps(setup, s.shared);
      ClosingKeepsInv(setup, s, CloseConns(s.shared), s.closing[k := false]);
  }

  lemma {:induction false} RunKeepsInv(setup: Setup, s: State, events: seq<Event>)
    requires Inv(setup, s) && IsRun(setup, s, events)
    ensures Inv(setup, After(setup, s, events))
    decreases |events|
  {
    hide Inv, Enabled, Apply;
    if events != [] {
      StepKeepsInv(setup, s, events[0]);
      RunKeepsInv(setup, Apply(setup, s, events[0]), events[1..]);
    }
  }

  /** The states some interleaving of calls reaches. */
  ghost predicate Reachable(setup: Setup, s: State) {
    exists events: seq<Event> :: IsRun(setup, INITIAL, events) && After(setup, INITIAL, events) == s
  }

  lemma ReachableInv(setup: Setup, s: State)
    requires Reachable(setup, s)
    ensures Inv(setup, s)
  {
    var events: seq<Event> :| IsRun(setup, INITIAL, events) && After(setup, INITIAL, events) == s;
    assert Inv(setup, INITIAL);
    hide Inv, IsRun, After;
    RunKeepsInv(setup, INITIAL, events);
  }

  /** Each cached client has its tree's ID and an open connection dialled with that tree's configuration. */
  lemma CachedClientsAreLive(setup: Setup, s: State, t: int)
    requires Reachable(setup, s) && t in s.shared.clients
    ensures var client := s.shared.clients[t];
            && client.tree == t
            && client.conn.config
               == (if t in setup.treeIDToConfig then setup.treeIDToConfig[t] else setup.defaultConfig)
            && client.conn in s.shared.dialled && client.conn !in s.shared.closed
  {
    ReachableInv(setup, s);
  }

  /** Until the connections are closed, no configuration is dialled twice. */
  lemma OneDialPerConfig(setup: Setup, s: State, i: nat, j: nat)
    requires Reachable(setup, s) && !s.shared.flushed
    requires i < j < |s.shared.dialled|
    ensures s.shared.dialled[i].config != s.shared.dialled[j].config
  {
    ReachableInv(setup, s);
    var (a, b) := (s.shared.dialled[i], s.shared.dialled[j]);
    assert a.id == i && b.id == j;
    assert s.shared.connections[a.config] == a && s.shared.connections[b.config] == b;
  }

  /** All calls for a tree that ever return a client return the same one, of that tree. */
  lemma OneClientPerTree(setup: Setup, s: State, c: nat, d: nat)
    requires Reachable(setup, s) && c in s.calls && d in s.calls
    requires s.calls[c].stage.Returned? && s.calls[d].stage.Returned? && s.calls[c].tree == s.calls[d].tree
    ensures s.calls[c].stage.client == s.calls[d].stage.client && s.calls[c].stage.client.tree == s.calls[c].tree
  {
    ReachableInv(setup, s);
    assert CallInv(setup, s.shared, s.calls[c]) && CallInv(setup, s.shared, s.calls[d]);
  }

  lemma {:induction false} NewCallsAreLate(setup: Setup, s: State, events: seq<Event>)
    requires IsRun(setup, s, events) && s.shared.shutdown
    ensures var s' := After(setup, s, events);
            && s'.shared.shutdown
            && (forall c :: c in s.calls ==> c in s'.calls && s'.calls[c].late == s.calls[c].late)
            && (forall c :: c in s'.calls && c !in s.calls ==> s'.calls[c].late)
    decreases |events|
  {
    if events != [] {
      var next := Apply(setup, s, events[0]);
      NewCallsAreLate(setup, next, events[1..]);
    }
  }

  /** After shutdown the client cache is empty for good and no call that starts then returns a client. */
  lemma NothingAfterShutdown(setup: Setup, s: State, events: seq<Event>)
    requires Reachable(setup, s) && s.shared.shutdown && IsRun(setup, s, events)
    ensures var s' := After(setup, s, events);
            && s'.shared.shutdown && s'.shared.clients == map[]
            && forall c :: c in s'.calls && c !in s.calls ==> !s'.calls[c].stage.Returned?
  {
    ReachableInv(setup, s);
    NewCallsAreLate(setup, s, events);
    RunKeepsInv(setup, s, events);
    var s' := After(setup, s, events);
    forall c | c in s'.calls && c !in s.calls
      ensures !s'.calls[c].stage.Returned?
    {
      assert CallInv(setup, s'.shared, s'.calls[c]);
    }
  }

  // ----- What a call gets -----

  /** Each failed call failed after shutdown was raised or at its own dial. */
  predicate Excused(s: State, past: seq<Event>) {
    forall c :: c in s.calls && s.calls[c].stage.Failed? ==> s.shared.shutdown || RunDialConn(c, false) in past
  }

  lemma StepStaysExcused(setup: Setup, s: State, past: seq<Event>, e: Event)
    requires Excused(s, past) && Enabled(s, e)
    ensures Excused(Apply(setup, s, e), past + [e])
  {
  }

  lemma {:induction false} RunStaysExcused(setup: Setup, s: State, past: seq<Event>, events: seq<Event>)
    requires Excused(s, past) && IsRun(setup, s, events)
    ensures Excused(After(setup, s, events), past + events)
    decreases |events|
  {
    hide Excused, Enabled, Apply;
    if events == [] {
      assert past + events == past;
    } else {
      StepStaysExcused(setup, s, past, events[0]);
      RunStaysExcused(setup, Apply(setup, s, events[0]), past + [events[0]], events[1..]);
      assert past + [events[0]] + events[1..] == past + events;
    }
  }

  /** Over every interleaving a call fails only when shutdown has been raised or its own dial failed. */
  lemma CallsFailOnlyFor(setup: Setup, events: seq<Event>, c: nat)
    requires IsRun(setup, INITIAL, events)
    requires c in After(setup, INITIAL, events).calls && After(setup, INITIAL, events).calls[c].stage.Failed?
    ensures After(setup, INITIAL, events).shared.shutdown || RunDialConn(c, false) in events
  {
    hide IsRun, After;
    RunStaysExcused(setup, INITIAL, [], events);
    assert [] + events == events;
  }

  /** A call that is neither answered nor failed can always go on. */
  lemma CallCanGoOn(s: State, c: nat) returns (e: Event)
    requires c in s.calls && !s.calls[c].stage.Returned? && !s.calls[c].stage.Failed?
    ensures Enabled(s, e) && e in {RunCheckClient(c), RunCheckConn(c), RunDialConn(c, true), RunPublish(c)}
  {
    match s.calls[c].stage
    case Started => e := RunCheckClient(c);
    case NeedConn => e := RunCheckConn(c);
    case NeedDial => e := RunDialConn(c, true);
    case HaveConn(_) => e := RunPublish(c);
  }

  /**
    Before shutdown the last section of a call returns the client that is then cached for its tree, with
    that tree's ID and configuration; a client cached before the call is returned by its first section.
   */
  lemma CallReturnsItsClient(setup: Setup, s: State, c: nat)
    requires Reachable(setup, s) && !s.shared.shutdown && c in s.calls
    ensures var (tree, stage) := (s.calls[c].tree, s.calls[c].stage);
            && (stage.HaveConn? ==>
                  var s' := Apply(setup, s, RunPublish(c));
                  && tree in s'.shared.clients && s'.calls[c].stage == Returned(s'.shared.clients[tree])
                  && s'.shared.clients[tree].tree == tree
                  && s'.shared.clients[tree].conn.config
                     == (if tree in setup.treeIDToConfig then setup.treeIDToConfig[tree] else setup.defaultConfig))
            && (stage.Started? && tree in s.shared.clients ==>
                  Apply(setup, s, RunCheckClient(c)).calls[c].stage == Returned(s.shared.clients[tree]))
  {
    ReachableInv(setup, s);
    assert CallInv(setup, s.shared, s.calls[c]);
  }

  /** A call that finds no client gets a connection of its configuration, cached or newly dialled. */
  lemma CallGetsAConnection(setup: Setup, s: State, c: nat)
    requires Reachable(setup, s) && c in s.calls
    ensures var config := if s.calls[c].tree in setup.treeIDToConfig then setup.treeIDToConfig[s.calls[c].tree]
                          else setup.defaultConfig;
            && (s.calls[c].stage.NeedConn? && config in s.shared.connections ==>
                  Apply(setup, s, RunCheckConn(c)).calls[c].stage == HaveConn(s.shared.connections[config]))
            && (s.calls[c].stage.NeedDial? ==>
                  var s' := Apply(setup, s, RunDialConn(c, true));
                  && config in s'.shared.connections && s'.shared.connections[config].config == config
                  && s'.calls[c].stage == HaveConn(s'.shared.connections[config]))
  {
    ReachableInv(setup, s);
  }

  // ----- Connections after Close -----

  /** A call past the first shutdown check that has no connection yet. */
  predicate InFlight(s: State) {
    exists c :: c in s.calls && (s.calls[c].stage.NeedConn? || s.calls[c].stage.NeedDial?)
  }

  predicate Drained(s: State) { s.shared.shutdown && s.shared.connections == map[] && !InFlight(s) }

  lemma StepStaysDrained(setup: Setup, s: State, e: Event)
    requires Drained(s) && Enabled(s, e)
    ensures Drained(Apply(setup, s, e))
  {
    var s' := Apply(setup, s, e);
    forall c | c in s'.calls
      ensures !s'.calls[c].stage.NeedConn? && !s'.calls[c].stage.NeedDial?
    {
      assert c in s.calls ==> !s.calls[c].stage.NeedConn? && !s.calls[c].stage.NeedDial?;
    }
  }

  lemma {:induction false} RunStaysDrained(setup: Setup, s: State, events: seq<Event>)
    requires Drained(s) && IsRun(setup, s, events)
    ensures Drained(After(setup, s, events))
    decreases |events|
  {
    hide Drained, Enabled, Apply;
    if events != [] {
      StepStaysDrained(setup, s, events[0]);
      RunStaysDrained(setup, Apply(setup, s, events[0]), events[1..]);
    }
  }

  lemma InFlightCanDial(setup: Setup, s: State) returns (events: seq<Event>)
    requires s.shared.connections == map[] && InFlight(s)
    ensures IsRun(setup, s, events) && After(setup, s, events).shared.connections != map[]
  {
    var c :| c in s.calls && (s.calls[c].stage.NeedConn? || s.calls[c].stage.NeedDial?);
    var config := setup.ConfigOf(s.calls[c].tree);
    var dial := RunDialConn(c, true);
    if s.calls[c].stage.NeedDial? {
      events := [dial];
      OneStep(setup, s, dial);
      assert config in Apply(setup, s, dial).shared.connections;
    } else {
      events := [RunCheckConn(c), dial];
      var s1 := Apply(setup, s, RunCheckConn(c));
      assert s1.calls[c].stage.NeedDial? && s1.shared == s.shared;
      OneStep(setup, s1, dial);
      assert events[1..] == [dial];
      assert config in Apply(setup, s1, dial).shared.connections;
    }
  }

  lemma OneStep(setup: Setup, s: State, e: Event)
    requires Enabled(s, e)
    ensures IsRun(setup, s, [e]) && After(setup, s, [e]) == Apply(setup, s, e)
  {
    var s' := Apply(setup, s, e);
    assert [e][1..] == [];
    assert IsRun(setup, s', []) && After(setup, s', []) == s';
  }

  /**
    `Close` does not by itself keep connections from coming back: once everything is closed,
    the connections stay closed in every continuation exactly when no call was left between
    its first shutdown check and its dial.
   */
  lemma ConnectionsStayClosedIff(setup: Setup, s: State)
    requires s.shared.shutdown && s.shared.connections == map[]
    ensures (forall events: seq<Event> :: IsRun(setup, s, events) ==>
             After(setup, s, events).shared.connections == map[])
            <==> !InFlight(s)
  {
    if InFlight(s) {
      var events := InFlightCanDial(setup, s);
      assert IsRun(setup, s, events) && After(setup, s, events).shared.connections != map[];
    } else {
      forall events: seq<Event> | IsRun(setup, s, events)
        ensures After(setup, s, events).shared.connections == map[]
      {
        RunStaysDrained(setup, s, events);
      }
    }
  }

  /** The leak happens: one call passes the check, `Close` runs to its end, and the call dials. */
  lemma CloseCanLeakAConnection(setup: Setup, tree: int)
    ensures var events :=
            [Begin(0, tree), RunCheckClient(0), RunCloseClients(0), RunCloseConns(0), RunCheckConn(0),
             RunDialConn(0, true)];
            && IsRun(setup, INITIAL, events)
            && After(setup, INITIAL, events).shared.connections.Keys == {setup.ConfigOf(tree)}
            && After(setup, INITIAL, events).closing == map[0 := false]
  {
    hide Apply, Enabled, IsRun, After;
    var s3 := LeakBegins(setup, tree);
    var s5 := LeakEnds(setup, tree, s3);
    OneStep(setup, s5, RunDialConn(0, true));
    var s4 := Apply(setup, s3, RunCloseConns(0));
    var e4 := [RunCheckConn(0)] + [RunDialConn(0, true)];
    Prepend(setup, s4, RunCheckConn(0), [RunDialConn(0, true)]);
    Prepend(setup, s3, RunCloseConns(0), e4);
    var s1 := Apply(setup, INITIAL, Begin(0, tree));
    var s2 := Apply(setup, s1, RunCheckClient(0));
    var e3 := [RunCloseConns(0)] + e4;
    Prepend(setup, s2, RunCloseClients(0), e3);
    Prepend(setup, s1, RunCheckClient(0), [RunCloseClients(0)] + e3);
    var e1 := [RunCheckClient(0)] + ([RunCloseClients(0)] + e3);
    Prepend(setup, INITIAL, Begin(0, tree), e1);
    assert [Begin(0, tree)] + e1
           == [Begin(0, tree), RunCheckClient(0), RunCloseClients(0), RunCloseConns(0), RunCheckConn(0),
               RunDialConn(0, true)];
  }

  /** The call is past its check, and `Close` past its first section. */
  predicate PastCheck(s: State, tree: int) {
    && s.shared.connections == map[] && s.shared.shutdown && s.closing == map[0 := true]
    && 0 in s.calls && s.calls[0] == Call(tree, false, NeedConn)
  }

  lemma LeakBegins(setup: Setup, tree: int) returns (s3: State)
    ensures var s1 := Apply(setup, INITIAL, Begin(0, tree));
            && Enabled(INITIAL, Begin(0, tree)) && Enabled(s1, RunCheckClient(0))
            && var s2 := Apply(setup, s1, RunCheckClient(0));
               Enabled(s2, RunCloseClients(0)) && s3 == Apply(setup, s2, RunCloseClients(0))
    ensures PastCheck(s3, tree)
  {
    s3 := Apply(setup, Apply(setup, Apply(setup, INITIAL, Begin(0, tree)), RunCheckClient(0)), RunCloseClients(0));
  }

  lemma LeakEnds(setup: Setup, tree: int, s3: State) returns (s5: State)
    requires PastCheck(s3, tree)
    ensures Enabled(s3, RunCloseConns(0)) && Enabled(Apply(setup, s3, RunCloseConns(0)), RunCheckConn(0))
    ensures s5 == Apply(setup, Apply(setup, s3, RunCloseConns(0)), RunCheckConn(0))
    ensures Enabled(s5, RunDialConn(0, true))
    ensures var s6 := Apply(setup, s5, RunDialConn(0, true));
            s6.shared.connections.Keys == {setup.ConfigOf(tree)} && s6.closing == map[0 := false]
  {
    s5 := Apply(setup, Apply(setup, s3, RunCloseConns(0)), RunCheckConn(0));
  }

  lemma Prepend(setup: Setup, s: State, e: Event, events: seq<Event>)
    requires Enabled(s, e) && IsRun(setup, Apply(setup, s, e), events)
    ensures IsRun(setup, s, [e] + events)
    ensures After(setup, s, [e] + events) == After(setup, Apply(setup, s, e), events)
  {
    assert ([e] + events)[1..] == events;
  }
}
