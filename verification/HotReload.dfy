/** Reloading the configuration: the events it emits, and what their handlers do to the servers. */
module HotReload {
  import opened Bytes

  datatype ServerConfig = ServerConfig(
    iface: Text, enabled: bool, logFile: Text, timeout: int, maxClients: int, tls: seq<Text>, rest: seq<Text>)

  datatype AppConfig = AppConfig(servers: seq<ServerConfig>, hosts: seq<Text>, other: seq<Text>)

  datatype ServerState = New | Stopped | Running | StartError

  /** `listening` says that a listener was opened at some time: it is never forgotten. */
  datatype Server = Server(config: ServerConfig, hosts: seq<Text>, state: ServerState, listening: bool, timeout: int)

  type Configs = map<Text, ServerConfig>

  predicate DistinctIfaces(c: AppConfig) {
    forall i, j :: 0 <= i < j < |c.servers| ==> c.servers[i].iface != c.servers[j].iface
  }

  function ByIface(servers: seq<ServerConfig>): (m: Configs)
    ensures forall i :: i in m ==> m[i].iface == i && m[i] in servers
    ensures forall sc :: sc in servers ==> sc.iface in m
  {
    if servers == [] then map[]
    else
      var last := servers[|servers| - 1];
      ByIface(servers[..|servers| - 1])[last.iface := last]
  }

  lemma ByIfaceNone()
    ensures ByIface([]) == map[]
  {
  }

  lemma ByIfaceNext(servers: seq<ServerConfig>, k: nat)
    requires k < |servers|
    ensures ByIface(servers[..k + 1]) == ByIface(servers[..k])[servers[k].iface := servers[k]]
  {
    assert servers[..k + 1][..k] == servers[..k];
  }

  // ----------------------------------------------------------------- servers

  predicate Startable(s: Server) { s.config.enabled && (s.state == New || s.state == Stopped) }

  function Started(s: Server): Server { if Startable(s) then s.(state := Running, listening := true) else s }

  /** Only a running server has an open listener; one that never ran has none. */
  predicate Sound(s: Server) {
    s.state != StartError && (s.state == Running ==> s.listening) && (s.state == New ==> !s.listening)
  }

  /** The server is in step with this configuration. */
  predicate InStep(s: Server, sc: ServerConfig, hosts: seq<Text>) {
    s.config == sc && s.hosts == hosts && Sound(s) && (s.state == Running <==> sc.enabled)
  }

  /** The servers are exactly those configured, each in step with its configuration. */
  ghost predicate Settled(servers: map<Text, Server>, m: Configs, hosts: seq<Text>) {
    servers.Keys == m.Keys && forall i :: i in m ==> InStep(servers[i], m[i], hosts)
  }

  /** As above, but the server j may be stopped although enabled, or running although disabled. */
  ghost predicate SettledBut(servers: map<Text, Server>, m: Configs, hosts: seq<Text>, j: Text) {
    && servers.Keys == m.Keys
    && (forall i :: i in m && i != j ==> InStep(servers[i], m[i], hosts))
    && (j in m ==> servers[j].config == m[j] && servers[j].hosts == hosts && Sound(servers[j]))
  }

  /** Shutting this server down waits for a listening loop that has already ended. */
  predicate ShutdownHangs(s: Server) { s.listening && s.state != Running }

  /** The servers that makeServers adds. */
  function NewServers(m: Configs, hosts: seq<Text>): map<Text, Server> {
    map i | i in m :: Server(m[i], hosts, New, false, m[i].timeout)
  }

  function StartedAll(servers: map<Text, Server>): map<Text, Server> {
    map i | i in servers :: Started(servers[i])
  }

  function WithHosts(servers: map<Text, Server>, hosts: seq<Text>): map<Text, Server> {
    map i | i in servers :: servers[i].(hosts := hosts)
  }

  function WithTimeout(servers: map<Text, Server>, timeout: int): map<Text, Server> {
    map i | i in servers :: servers[i].(timeout := timeout)
  }

  // ------------------------------------------- timeouts and opened listeners

  /** The timeout of a server, and whether it ever opened a listener. */
  datatype Mark = Mark(timeout: int, listening: bool)

  type Marks = map<Text, Mark>

  function MarksOf(servers: map<Text, Server>): Marks {
    map i | i in servers :: Mark(servers[i].timeout, servers[i].listening)
  }

  /** Servers that have just been made and started. */
  function NewMarks(m: Configs): Marks {
    map i | i in m :: Mark(m[i].timeout, m[i].enabled)
  }

  function Broadcast(marks: Marks, timeout: int): Marks {
    map i | i in marks :: marks[i].(timeout := timeout)
  }

  /**
   * What the events of a server in both configurations do: a changed timeout becomes that of all
   * servers, but not if the server is enabled or disabled as well.
   */
  function Changed(marks: Marks, before: ServerConfig, sc: ServerConfig): Marks
    requires sc.iface in marks
  {
    var j := sc.iface;
    var heard := marks[j := marks[j].(listening := marks[j].listening || sc.enabled)];
    if before.enabled == sc.enabled && before.timeout != sc.timeout then Broadcast(heard, sc.timeout) else heard
  }

  /** What visiting one new configuration does; the first new server visited brings all new ones. */
  function Visit(marks: Marks, was: Configs, wanted: Configs, i: Text): Marks
    requires forall k :: k in wanted ==> wanted[k].iface == k
  {
    if i !in wanted then marks
    else if i in was && i in marks then Changed(marks, was[i], wanted[i])
    else if i in marks then marks
    else NewMarks(wanted) + marks
  }

  function VisitAll(marks: Marks, was: Configs, wanted: Configs, order: seq<Text>): Marks
    requires forall k :: k in wanted ==> wanted[k].iface == k
  {
    if order == [] then marks
    else Visit(VisitAll(marks, was, wanted, order[..|order| - 1]), was, wanted, order[|order| - 1])
  }

  /** An order in which a map with these keys may be visited. */
  ghost predicate IsOrder(order: seq<Text>, keys: set<Text>) {
    (forall i :: i in order <==> i in keys) && forall j, k :: 0 <= j < k < |order| ==> order[j] != order[k]
  }

  // ------------------------------------------------ what the handlers keep

  lemma NewServersSettle(servers: map<Text, Server>, m: Configs, hosts: seq<Text>, wanted: Configs)
    requires Settled(servers, m, hosts)
    ensures Settled(StartedAll(NewServers(wanted, hosts) + servers), wanted + m, hosts)
  {
  }

  lemma StartSettles(servers: map<Text, Server>, m: Configs, hosts: seq<Text>, j: Text)
    requires SettledBut(servers, m, hosts, j) && (j in m ==> m[j].enabled)
    ensures Settled(StartedAll(servers), m, hosts)
  {
  }

  lemma StopSettles(servers: map<Text, Server>, m: Configs, hosts: seq<Text>, j: Text)
    requires SettledBut(servers, m, hosts, j) && j in m && !m[j].enabled
    ensures var stopped := servers[j := servers[j].(state := Stopped)];
            Settled(if servers[j].state == Running then stopped else servers, m, hosts)
  {
  }

  lemma ConfigSettles(servers: map<Text, Server>, m: Configs, hosts: seq<Text>, j: Text, sc: ServerConfig)
    requires Settled(servers, m, hosts) && j in m
    ensures var updated := servers[j := servers[j].(config := sc)];
            && SettledBut(updated, m[j := sc], hosts, j)
            && (m[j].enabled == sc.enabled ==> Settled(updated, m[j := sc], hosts))
  {
  }

  lemma HostsSettle(servers: map<Text, Server>, m: Configs, hosts: seq<Text>, other: seq<Text>)
    requires Settled(servers, m, hosts)
    ensures Settled(WithHosts(servers, other), m, other)
  {
  }

  lemma TimeoutSettles(servers: map<Text, Server>, m: Configs, hosts: seq<Text>, timeout: int)
    requires Settled(servers, m, hosts)
    ensures Settled(WithTimeout(servers, timeout), m, hosts)
  {
  }

  lemma RemovalSettles(servers: map<Text, Server>, m: Configs, hosts: seq<Text>, j: Text)
    requires Settled(servers, m, hosts)
    ensures Settled(servers - {j}, m - {j}, hosts)
  {
  }

  class Daemon {
    var config: AppConfig
    var servers: map<Text, Server>

    /** A daemon that has been started with this configuration. */
    constructor (c: AppConfig)
      requires DistinctIfaces(c)
      ensures config == c && Settled(servers, ByIface(c.servers), c.hosts)
      ensures MarksOf(servers) == NewMarks(ByIface(c.servers))
    {
      hide ByIface, Settled, NewServers, StartedAll, MarksOf, NewMarks;
      config, servers := c, map[];
      new;
      MakeServers();
      Start();
      NoServersSettle(c.hosts);
      NewServersSettle(map[], map[], c.hosts, ByIface(c.servers));
      NewServersMarks(map[], map[], c.hosts, ByIface(c.servers));
      NoMarks(NewMarks(ByIface(c.servers)));
      assert ByIface(c.servers) + map[] == ByIface(c.servers);
    }

    /** A server for each configured interface that has none yet. */
    method MakeServers()
      requires DistinctIfaces(config)
      modifies `servers
      ensures servers == NewServers(ByIface(config.servers), config.hosts) + old(servers)
    {
      hide ByIface, NewServers;
      MakeNone(config, old(servers));
      for k := 0 to |config.servers|
        invariant servers == NewServers(ByIface(config.servers[..k]), config.hosts) + old(servers)
      {
        var sc := config.servers[k];
        MakeNext(config, old(servers), k);
        if sc.iface in servers {
          continue;
        }
        servers := servers[sc.iface := Server(sc, config.hosts, New, false, sc.timeout)];
      }
      assert config.servers[..|config.servers|] == config.servers;
    }

    /** Starts whatever is enabled and not running, in any order. */
    method Start()
      modifies `servers
      ensures servers == StartedAll(old(servers))
    {
      var left := servers.Keys;
      while left != {}
        invariant left <= servers.Keys == old(servers.Keys)
        invariant forall i :: i in servers ==>
                                servers[i] == if i in left then old(servers)[i] else Started(old(servers)[i])
        decreases |left|
      {
        var i :| i in left;
        left := left - {i};
        if Startable(servers[i]) {
          servers := servers[i := servers[i].(state := Running, listening := true)];
        }
      }
    }

    /** Stops a server, or never returns. */
    method Shutdown(i: Text) returns (done: bool)
      requires i in servers
      modifies `servers
      ensures done == !ShutdownHangs(old(servers)[i])
      ensures servers == if done then old(servers)[i := old(servers)[i].(state := Stopped)] else old(servers)
    {
      if servers[i].listening && servers[i].state != Running {
        return false;
      }
      servers := servers[i := servers[i].(state := Stopped)];
      done := true;
    }

    method SetAllowedHosts(hosts: seq<Text>)
      modifies `servers
      ensures servers == WithHosts(old(servers), hosts)
    {
      var left := servers.Keys;
      while left != {}
        invariant left <= servers.Keys == old(servers.Keys)
        invariant forall i :: i in servers ==>
                                servers[i] == if i in left then old(servers)[i] else old(servers)[i].(hosts := hosts)
        decreases |left|
      {
        var i :| i in left;
        left := left - {i};
        servers := servers[i := servers[i].(hosts := hosts)];
      }
    }

    /** The timeout of one server becomes that of all. */
    method SetTimeout(timeout: int)
      modifies `servers
      ensures servers == WithTimeout(old(servers), timeout)
    {
      var left := servers.Keys;
      while left != {}
        invariant left <= servers.Keys == old(servers.Keys)
        invariant forall i :: i in servers ==>
                    servers[i] == if i in left then old(servers)[i] else old(servers)[i].(timeout := timeout)
        decreases |left|
      {
        var i :| i in left;
        left := left - {i};
        servers := servers[i := servers[i].(timeout := timeout)];
      }
    }

    /** A server that is new in the configuration: all missing ones are made, and what can start is started. */
    method ServerNew(sc: ServerConfig, ghost m: Configs)
      requires DistinctIfaces(config) && Settled(servers, m, config.hosts)
      modifies `servers
      ensures var wanted := ByIface(config.servers) + m;
              Settled(servers, if sc.iface in m then m else wanted, config.hosts)
      ensures var marks := old(MarksOf(servers));
              MarksOf(servers) == if sc.iface in marks then marks else NewMarks(ByIface(config.servers)) + marks
    {
      hide ByIface, Settled, NewServers, StartedAll, NewMarks;
      SettledKeys(servers, m, config.hosts);
      if sc.iface in servers {
        return;
      }
      NewServersSettle(servers, m, config.hosts, ByIface(config.servers));
      NewServersMarks(servers, m, config.hosts, ByIface(config.servers));
      MakeServers();
      Start();
    }

    /** A server in both configurations. */
    method EmitServerChanges(before: ServerConfig, sc: ServerConfig, ghost m: Configs)
      requires before.iface == sc.iface && sc.iface in m && m[sc.iface] == before
      requires Settled(servers, m, config.hosts)
      modifies `servers
      ensures Settled(servers, m[sc.iface := sc], config.hosts)
      ensures sc.iface in old(MarksOf(servers)) && MarksOf(servers) == Changed(old(MarksOf(servers)), before, sc)
    {
      hide Settled, SettledBut, StartedAll, MarksOf, Broadcast;
      var j := sc.iface;
      SettledKeys(servers, m, config.hosts);
      ChangesMarks(servers, m, config.hosts, sc);
      if before != sc {
        ConfigSettles(servers, m, config.hosts, j, sc);
        servers := servers[j := servers[j].(config := sc)];
      } else {
        assert m[j := sc] == m;
      }
      if before.enabled != sc.enabled {
        if sc.enabled {
          if servers[j].state == Stopped || servers[j].state == New {
            StartMarks(old(servers), m, config.hosts, sc);
            StartSettles(servers, m[j := sc], config.hosts, j);
            Start();
          } else {
            StartedAlready(servers, m[j := sc], config.hosts, j);
          }
        } else {
          StopSettles(servers, m[j := sc], config.hosts, j);
          if servers[j].state == Running {
            var done := Shutdown(j);
            assert done;
          }
        }
        return;
      }
      if before.timeout != sc.timeout {
        TimeoutSettles(servers, m[j := sc], config.hosts, sc.timeout);
        SetTimeout(sc.timeout);
      }
    }

    /** A server that the new configuration lacks is shut down and forgotten. */
    method ServerRemove(i: Text, ghost m: Configs) returns (done: bool)
      requires Settled(servers, m, config.hosts)
      modifies `servers
      ensures done == (i in old(servers) ==> !ShutdownHangs(old(servers)[i]))
      ensures done ==> Settled(servers, m - {i}, config.hosts) && servers == old(servers) - {i}
      ensures done ==> MarksOf(servers) == old(MarksOf(servers)) - {i}
    {
      hide Settled;
      RemovalSettles(servers, m, config.hosts, i);
      done := true;
      if i in servers {
        done := Shutdown(i);
        if done {
          assert servers - {i} == old(servers) - {i};
          servers := servers - {i};
        }
      } else {
        assert servers - {i} == servers;
      }
    }

    /**
     * Everything a changed configuration does to the servers, in whatever order the maps are
     * visited. It returns unless a server to be removed was started and later disabled, and then
     * the servers are exactly those of the new configuration, each running if enabled. Their
     * timeouts depend on the order in which the new configurations were visited.
     */
    method EmitChangeEvents(before: AppConfig, c: AppConfig) returns (done: bool, ghost order: seq<Text>)
      requires DistinctIfaces(c) && config == before
      requires Settled(servers, ByIface(before.servers), before.hosts)
      modifies this
      ensures config == c
      ensures done ==> Settled(servers, ByIface(c.servers), c.hosts)
      ensures var was, wanted := ByIface(before.servers), ByIface(c.servers);
              done <==> forall i :: i in was && i !in wanted ==>
                                      i in old(servers) && (old(servers)[i].listening ==> was[i].enabled)
      ensures var was, wanted := ByIface(before.servers), ByIface(c.servers);
              && IsOrder(order, wanted.Keys)
              && (done ==> MarksOf(servers)
                           == VisitAll(old(MarksOf(servers)), was, wanted, order) - (was.Keys - wanted.Keys))
    {
      hide Settled, ByIface, WithHosts, DistinctIfaces, ShutdownHangs, MarksOf, VisitAll, IsOrder;
      ghost var was, wanted := ByIface(before.servers), ByIface(c.servers);
      ghost var start, marks := servers, MarksOf(servers);
      ghost var gone := was.Keys - wanted.Keys;
      SettledKeys(servers, was, before.hosts);
      if before != c {
        config := c;
      }
      HostsMarks(servers, c.hosts);
      if before.hosts != c.hosts {
        HostsSettle(servers, was, before.hosts, c.hosts);
        SetAllowedHosts(c.hosts);
      }
      ghost var m;
      var oldServers := GetServers(before);
      var newServers := GetServers(c);
      var leftOver;
      m, leftOver, order := ApplyNew(oldServers, newServers);
      GoneListen(marks, start, was, wanted, order);
      done := RemoveAll(leftOver, m);
      assert m - gone == wanted;
    }

    /** The configured servers by interface; a later entry replaces an earlier one. */
    static method GetServers(c: AppConfig) returns (servers: Configs)
      ensures servers == ByIface(c.servers)
    {
      hide ByIface;
      ByIfaceNone();
      servers := map[];
      for k := 0 to |c.servers|
        invariant servers == ByIface(c.servers[..k])
      {
        ByIfaceNext(c.servers, k);
        servers := servers[c.servers[k].iface := c.servers[k]];
      }
      assert c.servers[..|c.servers|] == c.servers;
    }

    /** Visits the new configurations; what it returns are the interfaces that are gone. */
    method ApplyNew(was: Configs, wanted: Configs)
      returns (ghost m: Configs, gone: set<Text>, ghost order: seq<Text>)
      requires DistinctIfaces(config) && wanted == ByIface(config.servers)
      requires (forall i :: i in was ==> was[i].iface == i) && Settled(servers, was, config.hosts)
      modifies `servers
      ensures gone == was.Keys - wanted.Keys && m - gone == wanted
      ensures Settled(servers, m, config.hosts) && forall i :: i in gone ==> i in m && m[i] == was[i]
      ensures IsOrder(order, wanted.Keys) && MarksOf(servers) == VisitAll(old(MarksOf(servers)), was, wanted, order)
    {
      hide Settled, ByIface, Midway, DistinctIfaces, Remaining, MarksOf, VisitAll, IsOrder, Changed, NewMarks, Visit,
        Visited;
      m, order := was, [];
      ghost var marks := MarksOf(servers);
      NoneVisited(marks, was, wanted);
      ghost var made := false;
      var oldServers := was;
      var left := wanted.Keys;
      MidwayStart(was, wanted);
      RemainingDone(was, wanted);
      while left != {}
        invariant left <= wanted.Keys && oldServers == Remaining(was, wanted, left)
        invariant Settled(servers, m, config.hosts) && Midway(m, was, wanted, left, made)
        invariant Visited(order, wanted, left) && MarksOf(servers) == VisitAll(marks, was, wanted, order)
        decreases |left|
      {
        var i :| i in left;
        OneVisited(marks, was, wanted, order, left, i);
        SettledKeys(servers, m, config.hosts);
        MarksKeys(servers);
        RemainingNext(was, wanted, left, i);
        if i in oldServers {
          MidwayChanged(m, was, wanted, left, made, i);
          var oldServer := oldServers[i];
          oldServers := oldServers - {i};
          EmitServerChanges(oldServer, wanted[i], m);
          m := m[i := wanted[i]];
        } else {
          MidwayNew(m, was, wanted, left, made, i);
          ServerNew(wanted[i], m);
          made, m := true, if i in m then m else wanted + m;
        }
        left, order := left - {i}, order + [i];
      }
      EverythingVisited(order, wanted);
      MidwayDone(m, was, wanted, made);
      RemainingDone(was, wanted);
      gone := oldServers.Keys;
    }

    /** Removes the servers that are gone from the configuration, up to the first that hangs. */
    method RemoveAll(gone: set<Text>, ghost m: Configs) returns (done: bool)
      requires Settled(servers, m, config.hosts) && gone <= m.Keys
      modifies `servers
      ensures done ==> Settled(servers, m - gone, config.hosts)
      ensures done ==> MarksOf(servers) == old(MarksOf(servers)) - gone
      ensures gone <= old(MarksOf(servers)).Keys
      ensures done <==> forall i :: i in gone ==> (old(MarksOf(servers))[i].listening ==> m[i].enabled)
    {
      hide Settled, MarksOf, ShutdownHangs;
      var left := gone;
      ghost var now, marks := m, MarksOf(servers);
      SettledKeys(servers, m, config.hosts);
      MarksKeys(servers);
      RemovedNone(m, gone);
      assert marks - (gone - gone) == marks;
      while left != {}
        invariant left <= gone && now == m - (gone - left) && Settled(servers, now, config.hosts)
        invariant MarksOf(servers) == marks - (gone - left)
        invariant forall i :: i in gone - left ==> (marks[i].listening ==> m[i].enabled)
        decreases |left|
      {
        var i :| i in left;
        HangsIf(servers, now, config.hosts, i);
        RemovedNext(m, gone, left, i);
        done := ServerRemove(i, now);
        if !done {
          return;
        }
        assert marks - (gone - (left - {i})) == marks - (gone - left) - {i};
        now, left := now - {i}, left - {i};
      }
      done := true;
    }
  }

  /** The old configurations not yet matched with a new one. */
  ghost function Remaining(was: Configs, wanted: Configs, left: set<Text>): Configs { was - (wanted.Keys - left) }

  lemma RemainingNext(was: Configs, wanted: Configs, left: set<Text>, i: Text)
    requires i in left && left <= wanted.Keys
    ensures var rest := Remaining(was, wanted, left);
            && (i in rest <==> i in was) && (i in was ==> rest[i] == was[i])
            && Remaining(was, wanted, left - {i}) == if i in was then rest - {i} else rest
  {
  }

  lemma RemainingDone(was: Configs, wanted: Configs)
    ensures Remaining(was, wanted, {}).Keys == was.Keys - wanted.Keys
    ensures Remaining(was, wanted, wanted.Keys) == was
  {
  }

  /** In a settled daemon, shutting a server down hangs when it was started once and is disabled now. */
  lemma HangsIf(servers: map<Text, Server>, m: Configs, hosts: seq<Text>, i: Text)
    requires Settled(servers, m, hosts) && i in m
    ensures i in servers && i in MarksOf(servers)
    ensures ShutdownHangs(servers[i]) <==> MarksOf(servers)[i].listening && !m[i].enabled
  {
  }

  /** Visiting the new configurations leaves alone whether servers that are gone listen. */
  lemma {:induction false} GoneListen(marks: Marks, servers: map<Text, Server>, was: Configs, wanted: Configs,
                                      order: seq<Text>)
    requires (forall k :: k in wanted ==> wanted[k].iface == k) && marks == MarksOf(servers)
    ensures var after := VisitAll(marks, was, wanted, order);
            forall i :: i in servers && i !in wanted ==> i in after && after[i].listening == servers[i].listening
    decreases |order|
  {
    if order != [] {
      GoneListen(marks, servers, was, wanted, order[..|order| - 1]);
    }
  }

  lemma RemovedNone(m: Configs, gone: set<Text>)
    ensures m - (gone - gone) == m && gone - {} == gone
  {
    assert gone - gone == {};
  }

  lemma RemovedNext(m: Configs, gone: set<Text>, left: set<Text>, i: Text)
    requires i in left && left <= gone && gone <= m.Keys
    ensures m - (gone - (left - {i})) == m - (gone - left) - {i}
    ensures gone - (left - {i}) == (gone - left) + {i}
    ensures i in m - (gone - left) && (m - (gone - left))[i] == m[i]
  {
  }

  lemma NoServersSettle(hosts: seq<Text>)
    ensures Settled(map[], map[], hosts)
  {
  }

  lemma NoMarks(marks: Marks)
    ensures marks + MarksOf(map[]) == marks
  {
  }

  lemma MarksKeys(servers: map<Text, Server>)
    ensures MarksOf(servers).Keys == servers.Keys
  {
  }

  lemma HostsMarks(servers: map<Text, Server>, hosts: seq<Text>)
    ensures MarksOf(WithHosts(servers, hosts)) == MarksOf(servers)
  {
  }

  lemma NewServersMarks(servers: map<Text, Server>, m: Configs, hosts: seq<Text>, wanted: Configs)
    requires Settled(servers, m, hosts)
    ensures MarksOf(StartedAll(NewServers(wanted, hosts) + servers)) == NewMarks(wanted) + MarksOf(servers)
  {
  }

  /** What each way in which the events of one server change the map does to the marks. */
  lemma ChangesMarks(servers: map<Text, Server>, m: Configs, hosts: seq<Text>, sc: ServerConfig)
    requires Settled(servers, m, hosts) && sc.iface in m
    ensures var j := sc.iface;
            var updated := servers[j := servers[j].(config := sc)];
            var marks := MarksOf(servers);
            var heard := marks[j := marks[j].(listening := marks[j].listening || sc.enabled)];
            && j in servers && j in marks
            && MarksOf(updated) == marks
            && (m[j].enabled == sc.enabled || updated[j].state == Running || !sc.enabled ==> marks == heard)
            && MarksOf(updated[j := updated[j].(state := Stopped)]) == marks
            && MarksOf(WithTimeout(updated, sc.timeout)) == Broadcast(marks, sc.timeout)
            && (m[j] == sc ==> updated == servers)
            && (updated[j].state == Running || updated[j].state == Stopped || updated[j].state == New)
  {
  }

  lemma StartMarks(servers: map<Text, Server>, m: Configs, hosts: seq<Text>, sc: ServerConfig)
    requires Settled(servers, m, hosts) && sc.iface in m && !m[sc.iface].enabled && sc.enabled
    ensures var j := sc.iface;
            var marks := MarksOf(servers);
            j in marks
            && MarksOf(StartedAll(servers[j := servers[j].(config := sc)]))
               == marks[j := marks[j].(listening := marks[j].listening || sc.enabled)]
  {
  }

  /** `left` remains to be visited. */
  ghost predicate Visited(order: seq<Text>, wanted: Configs, left: set<Text>) { IsOrder(order, wanted.Keys - left) }

  lemma EverythingVisited(order: seq<Text>, wanted: Configs)
    requires Visited(order, wanted, {})
    ensures IsOrder(order, wanted.Keys)
  {
    assert wanted.Keys - {} == wanted.Keys;
  }

  lemma NoneVisited(marks: Marks, was: Configs, wanted: Configs)
    requires forall k :: k in wanted ==> wanted[k].iface == k
    ensures VisitAll(marks, was, wanted, []) == marks && Visited([], wanted, wanted.Keys)
  {
  }

  lemma OneVisited(marks: Marks, was: Configs, wanted: Configs, order: seq<Text>, left: set<Text>, i: Text)
    requires (forall k :: k in wanted ==> wanted[k].iface == k) && i in left && left <= wanted.Keys
    requires Visited(order, wanted, left)
    ensures var before := VisitAll(marks, was, wanted, order);
            VisitAll(marks, was, wanted, order + [i])
              == if i in was && i in before then Changed(before, was[i], wanted[i])
                 else if i in before then before
                 else NewMarks(wanted) + before
    ensures Visited(order + [i], wanted, left - {i})
  {
    hide Changed, NewMarks;
    assert (order + [i])[..|order + [i]| - 1] == order;
    assert i !in order;
  }

  lemma MidwayStart(was: Configs, wanted: Configs)
    ensures Midway(was, was, wanted, wanted.Keys, false)
  {
  }

  lemma SettledKeys(servers: map<Text, Server>, m: Configs, hosts: seq<Text>)
    requires Settled(servers, m, hosts)
    ensures servers.Keys == m.Keys
  {
  }

  lemma StartedAlready(servers: map<Text, Server>, m: Configs, hosts: seq<Text>, j: Text)
    requires SettledBut(servers, m, hosts, j) && j in m && m[j].enabled
    requires servers[j].state != Stopped && servers[j].state != New
    ensures Settled(servers, m, hosts)
  {
  }

  lemma MakeNone(c: AppConfig, servers: map<Text, Server>)
    ensures NewServers(ByIface(c.servers[..0]), c.hosts) + servers == servers
  {
  }

  lemma FrontLacks(c: AppConfig, k: nat)
    requires k < |c.servers| && DistinctIfaces(c)
    ensures c.servers[k].iface !in ByIface(c.servers[..k])
  {
    hide ByIface;
  }

  lemma NewServersNext(m: Configs, sc: ServerConfig, hosts: seq<Text>, servers: map<Text, Server>)
    requires sc.iface !in m
    ensures var before := NewServers(m, hosts) + servers;
            NewServers(m[sc.iface := sc], hosts) + servers
              == if sc.iface in before then before else before[sc.iface := Server(sc, hosts, New, false, sc.timeout)]
  {
  }

  lemma MakeNext(c: AppConfig, servers: map<Text, Server>, k: nat)
    requires k < |c.servers| && DistinctIfaces(c)
    ensures var sc := c.servers[k];
            var before := NewServers(ByIface(c.servers[..k]), c.hosts) + servers;
            NewServers(ByIface(c.servers[..k + 1]), c.hosts) + servers
              == if sc.iface in before then before else before[sc.iface := Server(sc, c.hosts, New, false, sc.timeout)]
  {
    hide ByIface, NewServers, DistinctIfaces;
    ByIfaceNext(c.servers, k);
    FrontLacks(c, k);
    NewServersNext(ByIface(c.servers[..k]), c.servers[k], c.hosts, servers);
  }

  // ------------------------------------------------------------- convergence

  /** What is configured midway: `left` are the new interfaces still to visit, `made` says whether new servers exist. */
  ghost predicate Midway(m: Configs, was: Configs, wanted: Configs, left: set<Text>, made: bool) {
    && m.Keys == was.Keys + (if made then wanted.Keys else {})
    && (forall i :: i in m ==>
          if i in wanted && (i !in was || i !in left) then m[i] == wanted[i] else i in was && m[i] == was[i])
    && (forall i :: i in wanted && i !in left ==> i in m)
  }

  lemma MidwayNew(m: Configs, was: Configs, wanted: Configs, left: set<Text>, made: bool, i: Text)
    requires Midway(m, was, wanted, left, made) && i in left && i in wanted && i !in was
    ensures Midway(if i in m then m else wanted + m, was, wanted, left - {i}, true)
  {
  }

  lemma MidwayChanged(m: Configs, was: Configs, wanted: Configs, left: set<Text>, made: bool, i: Text)
    requires Midway(m, was, wanted, left, made) && i in left && i in wanted && i in was
    ensures i in m && m[i] == was[i] && Midway(m[i := wanted[i]], was, wanted, left - {i}, made)
  {
  }

  lemma MidwayDone(m: Configs, was: Configs, wanted: Configs, made: bool)
    requires Midway(m, was, wanted, {}, made)
    ensures m - (was.Keys - wanted.Keys) == wanted
    ensures forall i :: i in was && i !in wanted ==> i in m && m[i] == was[i]
  {
    assert (m - (was.Keys - wanted.Keys)).Keys == wanted.Keys;
  }
}
