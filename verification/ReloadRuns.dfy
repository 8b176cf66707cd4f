/** What reloads amount to: where timeouts end up in every visiting order, and which run of reloads hangs. */
module ReloadRuns {
  import opened Bytes
  import opened HotReload

  // ---------------------------------------------------------------- timeouts

  /** Each server has the timeout that is configured for it. */
  ghost predicate TimeoutsHold(marks: Marks, m: Configs) {
    forall i :: i in m ==> i in marks && marks[i].timeout == m[i].timeout
  }

  ghost predicate Named(m: Configs) { forall k :: k in m ==> m[k].iface == k }

  predicate InBoth(was: Configs, wanted: Configs, i: Text) { i in was && i in wanted }

  predicate TimeoutChanged(was: Configs, wanted: Configs, i: Text) {
    InBoth(was, wanted, i) && was[i].timeout != wanted[i].timeout
  }

  /** This server's new timeout is given to all servers. */
  predicate Broadcasts(was: Configs, wanted: Configs, i: Text) {
    TimeoutChanged(was, wanted, i) && was[i].enabled == wanted[i].enabled
  }

  ghost predicate OneTimeout(m: Configs) { forall i, j :: i in m && j in m ==> m[i].timeout == m[j].timeout }

  /** What a caller can check before the reload. */
  ghost predicate TimeoutsFollow(was: Configs, wanted: Configs) {
    || (forall i :: i in wanted ==> !TimeoutChanged(was, wanted, i))
    || (OneTimeout(wanted) && exists i :: i in wanted && Broadcasts(was, wanted, i))
  }

  lemma LastVisit(marks: Marks, was: Configs, wanted: Configs, order: seq<Text>)
    requires Named(wanted) && order != []
    ensures var before := VisitAll(marks, was, wanted, order[..|order| - 1]);
            VisitAll(marks, was, wanted, order) == Visit(before, was, wanted, order[|order| - 1])
  {
    hide Visit;
  }

  /** No server is lost, and those visited are there. */
  lemma {:induction false} VisitedAreThere(marks: Marks, was: Configs, wanted: Configs, order: seq<Text>)
    requires Named(wanted) && marks.Keys == was.Keys
    ensures var after := VisitAll(marks, was, wanted, order);
            && was.Keys <= after.Keys <= was.Keys + wanted.Keys
            && forall i :: i in order && i in wanted ==> i in after
    decreases |order|
  {
    if order != [] {
      VisitedAreThere(marks, was, wanted, order[..|order| - 1]);
      LastVisit(marks, was, wanted, order);
    }
  }

  lemma {:induction false} UnchangedHold(marks: Marks, was: Configs, wanted: Configs, order: seq<Text>)
    requires Named(wanted) && marks.Keys == was.Keys && TimeoutsHold(marks, was)
    requires forall i :: i in wanted ==> !TimeoutChanged(was, wanted, i)
    ensures var after := VisitAll(marks, was, wanted, order);
            forall i :: i in after && i in wanted ==> after[i].timeout == wanted[i].timeout
    decreases |order|
  {
    if order != [] {
      UnchangedHold(marks, was, wanted, order[..|order| - 1]);
      LastVisit(marks, was, wanted, order);
    }
  }

  ghost predicate AllHave(marks: Marks, timeout: int) { forall i :: i in marks ==> marks[i].timeout == timeout }

  /** After a broadcast of the one timeout, everything has it. */
  lemma {:induction false} OneTimeoutHolds(marks: Marks, was: Configs, wanted: Configs, order: seq<Text>, a: Text)
    requires Named(wanted) && marks.Keys == was.Keys && OneTimeout(wanted)
    requires a in order && a in wanted && Broadcasts(was, wanted, a)
    ensures AllHave(VisitAll(marks, was, wanted, order), wanted[a].timeout)
    decreases |order|
  {
    var front, last := order[..|order| - 1], order[|order| - 1];
    VisitedAreThere(marks, was, wanted, front);
    LastVisit(marks, was, wanted, order);
    if a in front {
      OneTimeoutHolds(marks, was, wanted, front, a);
    }
  }

  /** A broadcast that comes last decides for everyone. */
  lemma LastBroadcastWins(marks: Marks, was: Configs, wanted: Configs, order: seq<Text>, a: Text)
    requires Named(wanted) && marks.Keys == was.Keys
    requires order != [] && order[|order| - 1] == a && Broadcasts(was, wanted, a)
    ensures AllHave(VisitAll(marks, was, wanted, order), wanted[a].timeout)
  {
    VisitedAreThere(marks, was, wanted, order[..|order| - 1]);
    LastVisit(marks, was, wanted, order);
  }

  /** Without a broadcast the old timeouts stay. */
  lemma {:induction false} OldTimeoutsStay(marks: Marks, was: Configs, wanted: Configs, order: seq<Text>)
    requires Named(wanted) && marks.Keys == was.Keys && TimeoutsHold(marks, was)
    requires forall i :: i in wanted ==> !Broadcasts(was, wanted, i)
    ensures TimeoutsHold(VisitAll(marks, was, wanted, order), was)
    decreases |order|
  {
    if order != [] {
      OldTimeoutsStay(marks, was, wanted, order[..|order| - 1]);
      LastVisit(marks, was, wanted, order);
    }
  }

  lemma AnOrder(keys: set<Text>) returns (order: seq<Text>)
    ensures IsOrder(order, keys)
    decreases |keys|
  {
    order := [];
    if keys != {} {
      var i :| i in keys;
      var front := AnOrder(keys - {i});
      order := front + [i];
    }
  }

  lemma AnOrderEndingIn(keys: set<Text>, a: Text) returns (order: seq<Text>)
    requires a in keys
    ensures IsOrder(order, keys) && order != [] && order[|order| - 1] == a
  {
    var front := AnOrder(keys - {a});
    order := front + [a];
  }

  /** When every order in which the new configurations may be visited gives each server its own timeout. */
  ghost predicate AllOrdersHold(marks: Marks, was: Configs, wanted: Configs)
    requires Named(wanted)
  {
    forall order :: IsOrder(order, wanted.Keys) ==> TimeoutsHold(VisitAll(marks, was, wanted, order), wanted)
  }

  lemma FollowingHolds(marks: Marks, was: Configs, wanted: Configs, order: seq<Text>)
    requires Named(wanted) && marks.Keys == was.Keys && TimeoutsHold(marks, was)
    requires TimeoutsFollow(was, wanted) && IsOrder(order, wanted.Keys)
    ensures TimeoutsHold(VisitAll(marks, was, wanted, order), wanted)
  {
    hide VisitAll, Broadcasts, TimeoutChanged;
    VisitedAreThere(marks, was, wanted, order);
    if forall i :: i in wanted ==> !TimeoutChanged(was, wanted, i) {
      UnchangedHold(marks, was, wanted, order);
    } else {
      var a :| a in wanted && Broadcasts(was, wanted, a);
      OneTimeoutHolds(marks, was, wanted, order, a);
    }
  }

  lemma HoldingFollows(marks: Marks, was: Configs, wanted: Configs)
    requires Named(wanted) && marks.Keys == was.Keys && TimeoutsHold(marks, was)
    requires AllOrdersHold(marks, was, wanted)
    ensures TimeoutsFollow(was, wanted)
  {
    hide IsOrder;
    if a :| a in wanted && Broadcasts(was, wanted, a) {
      var order := AnOrderEndingIn(wanted.Keys, a);
      LastBroadcastWins(marks, was, wanted, order, a);
      var after := VisitAll(marks, was, wanted, order);
      assert TimeoutsHold(after, wanted);
      forall i | i in wanted ensures wanted[i].timeout == wanted[a].timeout {
        assert after[i].timeout == wanted[i].timeout;
      }
      assert OneTimeout(wanted);
    } else {
      var order := AnOrder(wanted.Keys);
      OldTimeoutsStay(marks, was, wanted, order);
      assert TimeoutsHold(VisitAll(marks, was, wanted, order), wanted);
    }
  }

  /**
   * From timeouts in step, every visiting order ends in step exactly when no server in both
   * configurations changes its timeout, or when all new timeouts are equal and some server in both
   * changes its timeout without being enabled or disabled.
   */
  lemma TimeoutsFollowIff(marks: Marks, was: Configs, wanted: Configs)
    requires Named(wanted) && marks.Keys == was.Keys && TimeoutsHold(marks, was)
    ensures AllOrdersHold(marks, was, wanted) <==> TimeoutsFollow(was, wanted)
  {
    hide VisitAll, TimeoutsHold, TimeoutsFollow, IsOrder;
    if TimeoutsFollow(was, wanted) {
      forall order | IsOrder(order, wanted.Keys) ensures TimeoutsHold(VisitAll(marks, was, wanted, order), wanted) {
        FollowingHolds(marks, was, wanted, order);
      }
    }
    if AllOrdersHold(marks, was, wanted) {
      HoldingFollows(marks, was, wanted);
    }
  }

  /** A server that is enabled and given a new timeout in the same reload keeps the old timeout. */
  lemma EnabledKeepsOldTimeout(before: ServerConfig, hosts: seq<Text>)
    requires !before.enabled
    ensures var sc := before.(enabled := true, timeout := before.timeout + 1);
            var was, wanted := map[before.iface := before], map[before.iface := sc];
            && !TimeoutsFollow(was, wanted)
            && VisitAll(map[before.iface := Mark(before.timeout, false)], was, wanted, [before.iface])
               == map[before.iface := Mark(before.timeout, true)]
  {
    var i := before.iface;
    var sc := before.(enabled := true, timeout := before.timeout + 1);
    var was, wanted := map[i := before], map[i := sc];
    var marks := map[i := Mark(before.timeout, false)];
    LastVisit(marks, was, wanted, [i]);
    assert [i][..|[i]| - 1] == [];
    assert VisitAll(marks, was, wanted, []) == marks;
    assert TimeoutChanged(was, wanted, i) && !Broadcasts(was, wanted, i);
  }

  // ------------------------------------------------------------ runs of reloads

  /** The configured servers that had a listener at some time of their life, after these configurations. */
  ghost function Heard(cs: seq<AppConfig>): set<Text> {
    if cs == [] then {} else
      var m := ByIface(cs[|cs| - 1].servers);
      set i | i in m && (m[i].enabled || i in Heard(cs[..|cs| - 1]))
  }

  /** That is, those enabled once and configured ever since. */
  lemma {:induction false} HeardIff(cs: seq<AppConfig>, i: Text)
    ensures i in Heard(cs) <==> exists k :: 0 <= k < |cs| && EnabledSince(cs, k, i)
    decreases |cs|
  {
    hide ByIface;
    if cs != [] {
      var front := cs[..|cs| - 1];
      HeardIff(front, i);
      if k :| 0 <= k < |front| && EnabledSince(front, k, i) {
        if i in ByIface(cs[|cs| - 1].servers) {
          assert EnabledSince(cs, k, i);
        }
      }
      if k :| 0 <= k < |cs| && EnabledSince(cs, k, i) {
        if k < |front| {
          assert forall j :: k <= j < |front| ==> front[j] == cs[j];
          assert EnabledSince(front, k, i);
        }
      }
      if i in ByIface(cs[|cs| - 1].servers) && ByIface(cs[|cs| - 1].servers)[i].enabled {
        assert EnabledSince(cs, |cs| - 1, i);
      }
    }
  }

  ghost predicate EnabledSince(cs: seq<AppConfig>, k: nat, i: Text)
    requires k < |cs|
  {
    && i in ByIface(cs[k].servers) && ByIface(cs[k].servers)[i].enabled
    && forall j :: k <= j < |cs| ==> i in ByIface(cs[j].servers)
  }

  /** The next configuration lacks a server that is disabled now and was enabled before. */
  ghost predicate Hangs(cs: seq<AppConfig>, next: AppConfig)
    requires cs != []
  {
    var m := ByIface(cs[|cs| - 1].servers);
    exists i :: i in m && !m[i].enabled && i !in ByIface(next.servers) && i in Heard(cs)
  }

  lemma {:induction false} ListeningAfter(marks: Marks, was: Configs, wanted: Configs, order: seq<Text>, i: Text)
    requires Named(wanted) && marks.Keys == was.Keys && i in wanted
    ensures var after := VisitAll(marks, was, wanted, order);
            i in after ==>
              after[i].listening ==
              if i in was then marks[i].listening || (i in order && wanted[i].enabled) else wanted[i].enabled
    decreases |order|
  {
    if order != [] {
      var front := order[..|order| - 1];
      VisitedAreThere(marks, was, wanted, front);
      ListeningAfter(marks, was, wanted, front, i);
      LastVisit(marks, was, wanted, order);
    }
  }

  ghost predicate Listens(servers: map<Text, Server>, cs: seq<AppConfig>) {
    forall i :: i in servers ==> (servers[i].listening <==> i in Heard(cs))
  }

  ghost function ConfigsOf(cs: seq<AppConfig>): Configs
    requires cs != []
  {
    ByIface(cs[|cs| - 1].servers)
  }

  lemma StartedListens(servers: map<Text, Server>, c: AppConfig)
    requires MarksOf(servers) == NewMarks(ByIface(c.servers))
    ensures Listens(servers, [c]) && TimeoutsHold(MarksOf(servers), ByIface(c.servers))
  {
    hide ByIface;
    assert [c][..|[c]| - 1] == [];
    forall i | i in servers ensures servers[i].listening <==> i in Heard([c]) {
      assert i in MarksOf(servers);
    }
    TimeoutsOfNew(ByIface(c.servers));
  }

  lemma TimeoutsOfNew(m: Configs)
    ensures TimeoutsHold(NewMarks(m), m)
  {
  }

  lemma ReloadListens(before: map<Text, Server>, servers: map<Text, Server>, cs: seq<AppConfig>, c: AppConfig,
                      order: seq<Text>)
    requires cs != [] && Listens(before, cs) && Settled(before, ConfigsOf(cs), cs[|cs| - 1].hosts)
    requires var was, wanted := ConfigsOf(cs), ByIface(c.servers);
             && IsOrder(order, wanted.Keys) && servers.Keys == wanted.Keys
             && MarksOf(servers) == VisitAll(MarksOf(before), was, wanted, order) - (was.Keys - wanted.Keys)
    ensures Listens(servers, cs + [c])
  {
    hide ByIface, VisitAll, Heard, MarksOf;
    var was, wanted := ConfigsOf(cs), ByIface(c.servers);
    MarksKeys(before);
    HeardNext(cs, c);
    forall i | i in servers ensures servers[i].listening <==> i in Heard(cs + [c]) {
      ListeningAfter(MarksOf(before), was, wanted, order, i);
      VisitedAreThere(MarksOf(before), was, wanted, order);
      MarkOf(servers, i);
      if i in was {
        MarkOf(before, i);
      } else {
        HeardIsConfigured(cs, i);
      }
    }
  }

  lemma MarkOf(servers: map<Text, Server>, i: Text)
    requires i in servers
    ensures i in MarksOf(servers) && MarksOf(servers)[i] == Mark(servers[i].timeout, servers[i].listening)
  {
  }

  lemma HeardNext(cs: seq<AppConfig>, c: AppConfig)
    ensures var m := ByIface(c.servers); Heard(cs + [c]) == set i | i in m && (m[i].enabled || i in Heard(cs))
  {
    hide ByIface;
    assert (cs + [c])[..|cs + [c]| - 1] == cs;
  }

  lemma HeardIsConfigured(cs: seq<AppConfig>, i: Text)
    requires cs != []
    ensures i in Heard(cs) ==> i in ConfigsOf(cs)
  {
  }

  lemma HangsIffNotDone(servers: map<Text, Server>, cs: seq<AppConfig>, c: AppConfig)
    requires cs != [] && Listens(servers, cs) && Settled(servers, ConfigsOf(cs), cs[|cs| - 1].hosts)
    ensures var was, wanted := ConfigsOf(cs), ByIface(c.servers);
            Hangs(cs, c) <==> !forall i :: i in was && i !in wanted ==>
                                             i in servers && (servers[i].listening ==> was[i].enabled)
  {
    hide ByIface, Heard;
    SettledKeys(servers, ConfigsOf(cs), cs[|cs| - 1].hosts);
  }

  /**
   * A daemon started with the first configuration and reloaded with the others in turn. It goes
   * through all of them unless a reload removes a server that was enabled once, has been configured
   * ever since and is disabled now: the first such reload never returns.
   */
  method StartAndReload(cs: seq<AppConfig>) returns (d: Daemon, count: nat)
    requires cs != [] && forall k :: 0 <= k < |cs| ==> DistinctIfaces(cs[k])
    ensures 1 <= count <= |cs|
    ensures forall k :: 1 <= k < count ==> !Hangs(cs[..k], cs[k])
    ensures count < |cs| ==> Hangs(cs[..count], cs[count])
    ensures count == |cs| ==>
              var last := cs[|cs| - 1];
              && Settled(d.servers, ByIface(last.servers), last.hosts) && Listens(d.servers, cs)
              && ((forall k :: 1 <= k < |cs| ==> TimeoutsFollow(ByIface(cs[k - 1].servers), ByIface(cs[k].servers)))
                  ==> TimeoutsHold(MarksOf(d.servers), ByIface(last.servers)))
  {
    hide ByIface, Settled, DistinctIfaces, Heard, Hangs, Listens, MarksOf, NewMarks, VisitAll, IsOrder, TimeoutsHold,
      TimeoutsFollow;
    d := new Daemon(cs[0]);
    count := 1;
    StartedListens(d.servers, cs[0]);
    assert cs[..1] == [cs[0]];
    while count < |cs|
      invariant 1 <= count <= |cs| && fresh(d) && d.config == cs[count - 1]
      invariant forall k :: 1 <= k < count ==> !Hangs(cs[..k], cs[k])
      invariant Settled(d.servers, ByIface(cs[count - 1].servers), cs[count - 1].hosts)
      invariant Listens(d.servers, cs[..count])
      invariant (forall k :: 1 <= k < count ==> TimeoutsFollow(ByIface(cs[k - 1].servers), ByIface(cs[k].servers)))
                ==> TimeoutsHold(MarksOf(d.servers), ByIface(cs[count - 1].servers))
      decreases |cs| - count
    {
      ghost var past, start := cs[..count], d.servers;
      var before, next := cs[count - 1], cs[count];
      ghost var was, wanted := ByIface(before.servers), ByIface(next.servers);
      assert past[|past| - 1] == before;
      HangsIffNotDone(start, past, next);
      ghost var order;
      var done;
      done, order := d.EmitChangeEvents(before, next);
      if !done {
        return;
      }
      SettledKeys(d.servers, wanted, next.hosts);
      ReloadListens(start, d.servers, past, next, order);
      assert past + [next] == cs[..count + 1];
      if TimeoutsFollow(was, wanted) && TimeoutsHold(MarksOf(start), was) {
        SettledKeys(start, was, before.hosts);
        MarksKeys(start);
        FollowingHolds(MarksOf(start), was, wanted, order);
        HoldsWithout(VisitAll(MarksOf(start), was, wanted, order), wanted, was.Keys - wanted.Keys);
      }
      count := count + 1;
    }
    assert cs[..|cs|] == cs;
  }

  lemma HoldsWithout(marks: Marks, m: Configs, gone: set<Text>)
    requires TimeoutsHold(marks, m) && gone !! m.Keys
    ensures TimeoutsHold(marks - gone, m)
  {
  }

  /** Enabled, then disabled, then removed: the second reload hangs. */
  lemma EnableDisableRemove(on: ServerConfig, c: AppConfig)
    requires on.enabled
    ensures var cs := [c.(servers := [on]), c.(servers := [on.(enabled := false)])];
            && DistinctIfaces(cs[0]) && DistinctIfaces(cs[1])
            && !Hangs(cs[..1], cs[1]) && Hangs(cs, c.(servers := []))
  {
    var off := on.(enabled := false);
    var first, second := c.(servers := [on]), c.(servers := [off]);
    var cs := [first, second];
    OneIface(on);
    OneIface(off);
    ByIfaceNone();
    assert cs[..1] == [first] && [first][..0] == [] && cs[..|cs| - 1] == [first];
    HeardNext([], first);
    HeardNext([first], second);
    assert [] + [first] == [first] && [first] + [second] == cs;
    assert on.iface in Heard(cs);
  }

  lemma OneIface(sc: ServerConfig)
    ensures ByIface([sc]) == map[sc.iface := sc]
  {
    assert [sc][..0] == [];
  }
}
