/**
 * The pools of clients and envelopes: the steps that the goroutines serving connections take in
 * any order, with the buffered channels and the guard they meet at.
 */
module ClientPool {
  import opened Bytes

  type Id = nat

  /** One connection's way through Borrow, the session and the two Returns. */
  datatype Phase =
    | Arrived | Refused
    | Guarded                     // holds the guard; the pool was not shutting down
    | Token                       // and a place in the clients' semaphore
    | Object(o: Id)               // and a client
    | EnvToken(o: Id)             // and a place in the envelopes' semaphore
    | Serving(o: Id, e: Id)       // and an envelope; the guard is released
    | EnvReturned(o: Id) | EnvReleased(o: Id)
    | Inactive(o: Id) | Returned | Gone

  datatype Pools = Pools(
    size: nat,
    threads: map<Id, Phase>,
    guard: Option<Id>,
    shutting: bool,
    shutdownChan: nat,
    sem: nat, pool: seq<Id>, clients: nat,
    esem: nat, epool: seq<Id>, envelopes: nat,
    active: set<Id>,
    owner: map<Id, Id>,
    eowner: map<Id, Id>)

  datatype Action =
    | Enter(t: Id)
    | Acquire(t: Id)
    | AbortByChannel(t: Id)
    | TakeClient(t: Id, o: Id)
    | AcquireEnvelope(t: Id)
    | TakeEnvelope(t: Id, e: Id)
    | ReturnEnvelope(t: Id)
    | ReleaseEnvelope(t: Id)
    | Deactivate(t: Id)
    | ReturnClient(t: Id)
    | Release(t: Id)
    | ShutdownState
    | ShutdownWait

  function PhaseOf(g: Pools, t: Id): Phase { if t in g.threads then g.threads[t] else Refused }

  predicate HasGuard(p: Phase) { p.Guarded? || p.Token? || p.Object? || p.EnvToken? }

  predicate HasObject(p: Phase) {
    p.Object? || p.EnvToken? || p.Serving? || p.EnvReturned? || p.EnvReleased? || p.Inactive?
  }

  predicate HasToken(p: Phase) { p.Token? || HasObject(p) || p.Returned? }

  predicate HasEnvToken(p: Phase) { p.EnvToken? || p.Serving? || p.EnvReturned? }

  predicate HasEnvelope(p: Phase) { p.Serving? }

  predicate IsActive(p: Phase) { p.Serving? || p.EnvReturned? || p.EnvReleased? }

  /** A client or envelope comes from the head of its pool; a new one is made only when that is empty. */
  predicate Offers(pool: seq<Id>, owner: map<Id, Id>, o: Id) {
    if pool != [] then o == pool[0] else o !in owner
  }

  predicate Enabled(g: Pools, a: Action) {
    match a
    case Enter(t) => PhaseOf(g, t) == Arrived && g.guard == None
    case Acquire(t) => PhaseOf(g, t) == Guarded && g.sem < g.size
    case AbortByChannel(t) => PhaseOf(g, t) == Guarded && g.shutdownChan > 0
    case TakeClient(t, o) => PhaseOf(g, t) == Token && Offers(g.pool, g.owner, o)
    case AcquireEnvelope(t) => PhaseOf(g, t).Object? && g.esem < g.size
    case TakeEnvelope(t, e) => PhaseOf(g, t).EnvToken? && Offers(g.epool, g.eowner, e)
    case ReturnEnvelope(t) => PhaseOf(g, t).Serving?
    case ReleaseEnvelope(t) => PhaseOf(g, t).EnvReturned? && g.esem > 0
    case Deactivate(t) => PhaseOf(g, t).EnvReleased?
    case ReturnClient(t) => PhaseOf(g, t).Inactive?
    case Release(t) => PhaseOf(g, t) == Returned && g.sem > 0
    case ShutdownState => g.guard == None && g.shutdownChan == 0
    case ShutdownWait => g.guard == None && g.active == {}
  }

  function Put(size: nat, pool: seq<Id>, o: Id): seq<Id> { if |pool| < size then pool + [o] else pool }

  function Rest(pool: seq<Id>): seq<Id> { if pool == [] then [] else pool[1..] }

  function Do(g: Pools, a: Action): Pools
    requires Enabled(g, a)
  {
    match a
    case Enter(t) =>
      if g.shutting then g.(threads := g.threads[t := Refused])
      else g.(threads := g.threads[t := Guarded], guard := Some(t))
    case Acquire(t) => g.(threads := g.threads[t := Token], sem := g.sem + 1)
    case AbortByChannel(t) => g.(threads := g.threads[t := Refused], guard := None, shutdownChan := g.shutdownChan - 1)
    case TakeClient(t, o) =>
      g.(threads := g.threads[t := Object(o)], pool := Rest(g.pool), owner := g.owner[o := t],
         clients := g.clients + if g.pool == [] then 1 else 0)
    case AcquireEnvelope(t) => g.(threads := g.threads[t := EnvToken(g.threads[t].o)], esem := g.esem + 1)
    case TakeEnvelope(t, e) =>
      g.(threads := g.threads[t := Serving(g.threads[t].o, e)], epool := Rest(g.epool), eowner := g.eowner[e := t],
         envelopes := g.envelopes + (if g.epool == [] then 1 else 0), active := g.active + {t}, guard := None)
    case ReturnEnvelope(t) =>
      g.(threads := g.threads[t := EnvReturned(g.threads[t].o)], epool := Put(g.size, g.epool, g.threads[t].e),
         envelopes := if |g.epool| < g.size || g.envelopes == 0 then g.envelopes else g.envelopes - 1)
    case ReleaseEnvelope(t) => g.(threads := g.threads[t := EnvReleased(g.threads[t].o)], esem := g.esem - 1)
    case Deactivate(t) => g.(threads := g.threads[t := Inactive(g.threads[t].o)], active := g.active - {t})
    case ReturnClient(t) =>
      g.(threads := g.threads[t := Returned], pool := Put(g.size, g.pool, g.threads[t].o),
         clients := if |g.pool| < g.size || g.clients == 0 then g.clients else g.clients - 1)
    case Release(t) => g.(threads := g.threads[t := Gone], sem := g.sem - 1)
    case ShutdownState => g.(shutting := true, shutdownChan := 1)
    case ShutdownWait => g.(shutting := false, shutdownChan := 0)
  }

  // ---------------------------------------------------------------- counting

  function Those(p: Phase -> bool, threads: map<Id, Phase>): set<Id> { set t | t in threads && p(threads[t]) }

  lemma Move(p: Phase -> bool, threads: map<Id, Phase>, t: Id, phase: Phase)
    requires t in threads
    ensures |Those(p, threads[t := phase])|
         == |Those(p, threads)| - (if p(threads[t]) then 1 else 0) + if p(phase) then 1 else 0
  {
    var before, after := Those(p, threads), Those(p, threads[t := phase]);
    assert after - {t} == before - {t};
    assert t in before ==> before == (before - {t}) + {t};
    assert t in after ==> after == (after - {t}) + {t};
    assert t !in before ==> before == before - {t};
    assert t !in after ==> after == after - {t};
  }

  lemma Fewer(small: set<Id>, big: set<Id>)
    requires small <= big
    ensures |small| <= |big|
  {
    assert big == small + (big - small);
  }

  // --------------------------------------------------------------- invariant

  predicate CountsOk(g: Pools) {
    && g.sem == |Those(HasToken, g.threads)| <= g.size
    && g.esem == |Those(HasEnvToken, g.threads)|
    && g.clients == |g.pool| + |Those(HasObject, g.threads)| <= g.size
    && g.envelopes == |g.epool| + |Those(HasEnvelope, g.threads)| <= g.size
  }

  predicate GuardOk(g: Pools, t: Id) {
    var p := PhaseOf(g, t);
    (HasGuard(p) <==> g.guard == Some(t)) && (IsActive(p) <==> t in g.active)
  }

  /** A client in the pool is not lent; a lent one belongs to one connection only. */
  predicate ClientOk(g: Pools, t: Id) {
    var p := PhaseOf(g, t);
    HasObject(p) ==> p.o in g.owner && g.owner[p.o] == t && p.o !in g.pool
  }

  predicate EnvelopeOk(g: Pools, t: Id) {
    var p := PhaseOf(g, t);
    HasEnvelope(p) ==> p.e in g.eowner && g.eowner[p.e] == t && p.e !in g.epool
  }

  predicate PoolOk(g: Pools) {
    && (forall i, j :: 0 <= i < j < |g.pool| ==> g.pool[i] != g.pool[j])
    && (forall i, j :: 0 <= i < j < |g.epool| ==> g.epool[i] != g.epool[j])
    && (forall o :: o in g.pool ==> o in g.owner)
    && (forall e :: e in g.epool ==> e in g.eowner)
  }

  /** The channel that is to release waiting borrowers is only filled while nobody borrows. */
  predicate ShutdownOk(g: Pools) {
    && (g.shutdownChan > 0 <==> g.shutting)
    && (g.shutting ==> g.guard == None)
  }

  ghost predicate Inv(g: Pools) {
    && CountsOk(g) && PoolOk(g) && ShutdownOk(g)
    && forall t :: GuardOk(g, t) && ClientOk(g, t) && EnvelopeOk(g, t)
  }

  predicate Init(g: Pools) {
    && (forall t :: t in g.threads ==> g.threads[t] == Arrived)
    && g.guard == None && !g.shutting && g.shutdownChan == 0
    && g.sem == 0 && g.pool == [] && g.clients == 0 && g.esem == 0 && g.epool == [] && g.envelopes == 0
    && g.active == {} && g.owner == map[] && g.eowner == map[]
  }

  lemma InitInv(g: Pools)
    requires Init(g)
    ensures Inv(g)
  {
    assert Those(HasToken, g.threads) == {} && Those(HasEnvToken, g.threads) == {};
    assert Those(HasObject, g.threads) == {} && Those(HasEnvelope, g.threads) == {};
  }

  function ThreadIn(a: Action): Id { if a.ShutdownState? || a.ShutdownWait? then 0 else a.t }

  /** Who has an object or a place for an envelope has a place for a client; who waits has none of these. */
  lemma Inclusions(g: Pools, t: Id)
    ensures |Those(HasObject, g.threads)| <= |Those(HasToken, g.threads)|
    ensures |Those(HasEnvToken, g.threads)| <= |Those(HasToken, g.threads)|
    ensures |Those(HasEnvelope, g.threads)| <= |Those(HasEnvToken, g.threads)|
    ensures PhaseOf(g, t) == Token ==> |Those(HasObject, g.threads)| < |Those(HasToken, g.threads)|
    ensures PhaseOf(g, t).Object? ==> |Those(HasEnvToken, g.threads)| < |Those(HasToken, g.threads)|
    ensures PhaseOf(g, t).EnvToken? ==> |Those(HasEnvelope, g.threads)| < |Those(HasEnvToken, g.threads)|
  {
    var tokens, objects := Those(HasToken, g.threads), Those(HasObject, g.threads);
    var etokens, envelopes := Those(HasEnvToken, g.threads), Those(HasEnvelope, g.threads);
    Fewer(objects, tokens);
    Fewer(etokens, tokens);
    Fewer(envelopes, etokens);
    if PhaseOf(g, t) == Token { Fewer(objects + {t}, tokens); }
    if PhaseOf(g, t).Object? { Fewer(etokens + {t}, tokens); }
    if PhaseOf(g, t).EnvToken? { Fewer(envelopes + {t}, etokens); }
  }

  lemma TokensStep(g: Pools, a: Action)
    requires Inv(g) && Enabled(g, a)
    ensures var h := Do(g, a);
            h.sem == |Those(HasToken, h.threads)| <= h.size && h.esem == |Those(HasEnvToken, h.threads)|
  {
    hide Those, PoolOk, GuardOk, ClientOk, EnvelopeOk, ShutdownOk, Put, Rest;
    if !a.ShutdownState? && !a.ShutdownWait? {
      var phase := Do(g, a).threads[a.t];
      Move(HasToken, g.threads, a.t, phase);
      Move(HasEnvToken, g.threads, a.t, phase);
    }
  }

  lemma ClientsStep(g: Pools, a: Action)
    requires Inv(g) && Enabled(g, a)
    ensures var h := Do(g, a); h.clients == |h.pool| + |Those(HasObject, h.threads)| <= h.size
  {
    hide Those, PoolOk, GuardOk, ClientOk, EnvelopeOk, ShutdownOk;
    if !a.ShutdownState? && !a.ShutdownWait? {
      Inclusions(g, a.t);
      Move(HasObject, g.threads, a.t, Do(g, a).threads[a.t]);
    }
  }

  lemma EnvelopesStep(g: Pools, a: Action)
    requires Inv(g) && Enabled(g, a)
    ensures var h := Do(g, a); h.envelopes == |h.epool| + |Those(HasEnvelope, h.threads)| <= h.size
  {
    hide Those, PoolOk, GuardOk, ClientOk, EnvelopeOk, ShutdownOk;
    if !a.ShutdownState? && !a.ShutdownWait? {
      Inclusions(g, a.t);
      Move(HasEnvelope, g.threads, a.t, Do(g, a).threads[a.t]);
    }
  }

  lemma CountsStep(g: Pools, a: Action)
    requires Inv(g) && Enabled(g, a)
    ensures CountsOk(Do(g, a))
  {
    hide Those, Inv, Do, Enabled;
    TokensStep(g, a);
    ClientsStep(g, a);
    EnvelopesStep(g, a);
  }

  lemma HeadAndRest(pool: seq<Id>)
    ensures pool != [] ==> forall o :: o in pool <==> o == pool[0] || o in Rest(pool)
    ensures pool == [] ==> Rest(pool) == []
    ensures (forall i, j :: 0 <= i < j < |pool| ==> pool[i] != pool[j]) ==>
              && (pool != [] ==> pool[0] !in Rest(pool))
              && forall i, j :: 0 <= i < j < |Rest(pool)| ==> Rest(pool)[i] != Rest(pool)[j]
  {
    if pool != [] {
      assert pool == [pool[0]] + Rest(pool);
    }
  }

  lemma ThreadStep(g: Pools, a: Action, t: Id)
    requires Inv(g) && Enabled(g, a)
    ensures GuardOk(Do(g, a), t) && ClientOk(Do(g, a), t) && EnvelopeOk(Do(g, a), t)
  {
    GuardStep(g, a, t);
    ClientStep(g, a, t);
    EnvelopeStep(g, a, t);
  }

  lemma GuardStep(g: Pools, a: Action, t: Id)
    requires Inv(g) && Enabled(g, a)
    ensures GuardOk(Do(g, a), t)
  {
    hide CountsOk, ShutdownOk, PoolOk, ClientOk, EnvelopeOk, Put, Rest;
    assert GuardOk(g, t) && GuardOk(g, ThreadIn(a));
  }

  lemma ClientStep(g: Pools, a: Action, t: Id)
    requires Inv(g) && Enabled(g, a)
    ensures ClientOk(Do(g, a), t)
  {
    hide CountsOk, ShutdownOk, GuardOk, EnvelopeOk, Rest;
    assert ClientOk(g, t) && ClientOk(g, ThreadIn(a));
    HeadAndRest(g.pool);
  }

  lemma EnvelopeStep(g: Pools, a: Action, t: Id)
    requires Inv(g) && Enabled(g, a)
    ensures EnvelopeOk(Do(g, a), t)
  {
    hide CountsOk, ShutdownOk, GuardOk, ClientOk, Rest;
    assert EnvelopeOk(g, t) && EnvelopeOk(g, ThreadIn(a));
    HeadAndRest(g.epool);
  }

  lemma PoolStep(g: Pools, a: Action)
    requires Inv(g) && Enabled(g, a)
    ensures PoolOk(Do(g, a))
  {
    hide CountsOk, ShutdownOk, GuardOk, Rest;
    var t := ThreadIn(a);
    assert ClientOk(g, t) && EnvelopeOk(g, t);
    HeadAndRest(g.pool);
    HeadAndRest(g.epool);
  }

  lemma ShutdownStep(g: Pools, a: Action)
    requires Inv(g) && Enabled(g, a)
    ensures ShutdownOk(Do(g, a)) && !a.AbortByChannel?
  {
    hide CountsOk, PoolOk, ClientOk, EnvelopeOk, Put, Rest;
    assert GuardOk(g, ThreadIn(a));
  }

  lemma StepInv(g: Pools, a: Action)
    requires Inv(g) && Enabled(g, a)
    ensures Inv(Do(g, a))
  {
    hide CountsOk, ShutdownOk, PoolOk, GuardOk, ClientOk, EnvelopeOk, Enabled, Do;
    CountsStep(g, a);
    PoolStep(g, a);
    ShutdownStep(g, a);
    forall t ensures GuardOk(Do(g, a), t) && ClientOk(Do(g, a), t) && EnvelopeOk(Do(g, a), t) { ThreadStep(g, a, t); }
  }

  // -------------------------------------------------------------- whole runs

  predicate Reaches(g: Pools, actions: seq<Action>, h: Pools)
    decreases |actions|
  {
    if actions == [] then g == h
    else Enabled(g, actions[0]) && Reaches(Do(g, actions[0]), actions[1..], h)
  }

  lemma {:induction false} RunInv(g: Pools, actions: seq<Action>, h: Pools)
    requires Inv(g) && Reaches(g, actions, h)
    ensures Inv(h)
    decreases |actions|
  {
    hide Inv, Enabled, Do;
    if actions != [] {
      StepInv(g, actions[0]);
      RunInv(Do(g, actions[0]), actions[1..], h);
    }
  }

  /** At most `size` clients and envelopes exist, so a returned one always finds room in its pool. */
  lemma PoolBound(g: Pools, actions: seq<Action>, h: Pools, t: Id)
    requires Init(g) && Reaches(g, actions, h)
    ensures h.clients <= h.size && h.envelopes <= h.size && h.sem <= h.size
    ensures Enabled(h, ReturnClient(t)) ==> |h.pool| < h.size
    ensures Enabled(h, ReturnEnvelope(t)) ==> |h.epool| < h.size
  {
    hide Reaches, PoolOk, ShutdownOk, GuardOk, ClientOk, EnvelopeOk;
    InitInv(g);
    RunInv(g, actions, h);
    if t in Those(HasObject, h.threads) { Fewer({t}, Those(HasObject, h.threads)); }
    if t in Those(HasEnvelope, h.threads) { Fewer({t}, Those(HasEnvelope, h.threads)); }
  }

  /** A borrower that has its client gets an envelope at once: envelopes are given back before clients. */
  lemma EnvelopeNeverBlocks(g: Pools, actions: seq<Action>, h: Pools, t: Id)
    requires Init(g) && Reaches(g, actions, h) && PhaseOf(h, t).Object?
    ensures Enabled(h, AcquireEnvelope(t))
  {
    hide Reaches, PoolOk, ShutdownOk, GuardOk, ClientOk, EnvelopeOk, Those;
    InitInv(g);
    RunInv(g, actions, h);
    Inclusions(h, t);
  }

  /** No two connections are ever served with the same client or the same envelope. */
  lemma NeverShared(g: Pools, actions: seq<Action>, h: Pools, t: Id, u: Id)
    requires Init(g) && Reaches(g, actions, h) && t != u
    ensures HasObject(PhaseOf(h, t)) && HasObject(PhaseOf(h, u)) ==> PhaseOf(h, t).o != PhaseOf(h, u).o
    ensures HasEnvelope(PhaseOf(h, t)) && HasEnvelope(PhaseOf(h, u)) ==> PhaseOf(h, t).e != PhaseOf(h, u).e
  {
    hide Reaches, PoolOk, ShutdownOk, GuardOk, CountsOk;
    InitInv(g);
    RunInv(g, actions, h);
    assert ClientOk(h, t) && ClientOk(h, u) && EnvelopeOk(h, t) && EnvelopeOk(h, u);
  }

  /**
   * The channel that should release a borrower waiting for room never does: a waiting borrower
   * holds the guard, and the shutdown needs the guard before it can fill the channel.
   */
  lemma ShutdownChannelNeverUsed(g: Pools, actions: seq<Action>, h: Pools, t: Id)
    requires Init(g) && Reaches(g, actions, h)
    ensures !Enabled(h, AbortByChannel(t))
    ensures PhaseOf(h, t) == Guarded ==> !Enabled(h, ShutdownState) && !Enabled(h, ShutdownWait)
  {
    hide Reaches, PoolOk, CountsOk, ClientOk, EnvelopeOk;
    InitInv(g);
    RunInv(g, actions, h);
    assert GuardOk(h, t);
  }

  /** When a shutdown is over, no connection is being served. */
  lemma ShutdownLeavesNoneActive(g: Pools, actions: seq<Action>, h: Pools, t: Id)
    requires Init(g) && Reaches(g, actions, h) && Enabled(h, ShutdownWait)
    ensures !IsActive(PhaseOf(h, t)) && !HasGuard(PhaseOf(h, t)) && !HasEnvelope(PhaseOf(h, t))
  {
    hide Reaches, PoolOk, CountsOk, ClientOk, EnvelopeOk;
    InitInv(g);
    RunInv(g, actions, h);
    assert GuardOk(h, t);
  }

  // ---------------------------------------------------------------- progress

  lemma {:induction false} FreshId(ids: set<Id>) returns (o: Id)
    ensures forall i :: i in ids ==> i < o
    decreases |ids|
  {
    o := 0;
    if ids != {} {
      var i :| i in ids;
      var rest := FreshId(ids - {i});
      o := if i < rest then rest else i + 1;
      assert forall j :: j in ids ==> j in ids - {i} || j == i;
    }
  }

  /** Something is always on offer: the head of the pool, or one that is newly made. */
  lemma OfferExists(pool: seq<Id>, owner: map<Id, Id>) returns (o: Id)
    ensures Offers(pool, owner, o)
  {
    if pool != [] {
      o := pool[0];
    } else {
      o := FreshId(owner.Keys);
    }
  }

  /** One step, with the invariant. */
  lemma Then(g: Pools, a: Action) returns (h: Pools)
    requires Inv(g) && Enabled(g, a)
    ensures h == Do(g, a) && Inv(h)
  {
    hide Inv, Enabled, Do;
    StepInv(g, a);
    h := Do(g, a);
  }

  /** What is lent is the head of the pool, which leaves it; something new only when the pool is empty. */
  predicate Reuses(pool: seq<Id>, owner: map<Id, Id>, lent: Id, after: seq<Id>) {
    if pool != [] then lent == pool[0] && after == pool[1..] else lent !in owner && after == []
  }

  /**
   * A connection that finds the guard free is refused while the pool shuts down. Otherwise, if fewer
   * than `size` clients are lent, it gets a client and an envelope without waiting for anyone.
   */
  lemma BorrowSucceeds(g: Pools, actions: seq<Action>, h: Pools, t: Id) returns (k: Pools)
    requires Init(g) && Reaches(g, actions, h) && PhaseOf(h, t) == Arrived && h.guard == None
    ensures Enabled(h, Enter(t))
    ensures h.shutting ==> k == Do(h, Enter(t)) && PhaseOf(k, t) == Refused && k.guard == None
    ensures !h.shutting && h.sem < h.size ==>
              && (exists o, e ::
                    Reaches(h, [Enter(t), Acquire(t), TakeClient(t, o), AcquireEnvelope(t), TakeEnvelope(t, e)], k))
              && PhaseOf(k, t).Serving? && k.guard == None && t in k.active
              && Reuses(h.pool, h.owner, PhaseOf(k, t).o, k.pool) && Reuses(h.epool, h.eowner, PhaseOf(k, t).e, k.epool)
  {
    hide Reaches, Inv, CountsOk, PoolOk, ShutdownOk, GuardOk, ClientOk, EnvelopeOk;
    InitInv(g);
    RunInv(g, actions, h);
    k := Then(h, Enter(t));
    if !h.shutting && h.sem < h.size {
      var h1 := k;
      var h2 := Then(h1, Acquire(t));
      var o := OfferExists(h2.pool, h2.owner);
      var h3 := Then(h2, TakeClient(t, o));
      EnvelopeHasRoom(h3, t);
      var h4 := Then(h3, AcquireEnvelope(t));
      var e := OfferExists(h4.epool, h4.eowner);
      k := Then(h4, TakeEnvelope(t, e));
      FiveSteps(h, Enter(t), Acquire(t), TakeClient(t, o), AcquireEnvelope(t), TakeEnvelope(t, e));
    }
  }

  lemma EnvelopeHasRoom(g: Pools, t: Id)
    requires Inv(g) && PhaseOf(g, t).Object?
    ensures Enabled(g, AcquireEnvelope(t))
  {
    hide PoolOk, ShutdownOk, GuardOk, ClientOk, EnvelopeOk, Those;
    Inclusions(g, t);
  }

  lemma FiveSteps(g: Pools, a: Action, b: Action, c: Action, d: Action, e: Action)
    requires Enabled(g, a) && Enabled(Do(g, a), b) && Enabled(Do(Do(g, a), b), c)
    requires Enabled(Do(Do(Do(g, a), b), c), d) && Enabled(Do(Do(Do(Do(g, a), b), c), d), e)
    ensures Reaches(g, [a, b, c, d, e], Do(Do(Do(Do(Do(g, a), b), c), d), e))
  {
    hide Enabled, Do, Reaches;
    var g1, g2, g3, g4 := Do(g, a), Do(Do(g, a), b), Do(Do(Do(g, a), b), c), Do(Do(Do(Do(g, a), b), c), d);
    var k := Do(g4, e);
    assert [e] + [] == [e] && [d] + [e] == [d, e] && [c] + [d, e] == [c, d, e];
    assert [b] + [c, d, e] == [b, c, d, e] && [a] + [b, c, d, e] == [a, b, c, d, e];
    OneStep(g4, e, [], k);
    OneStep(g3, d, [e], k);
    OneStep(g2, c, [d, e], k);
    OneStep(g1, b, [c, d, e], k);
    OneStep(g, a, [b, c, d, e], k);
  }

  lemma OneStep(g: Pools, a: Action, rest: seq<Action>, k: Pools)
    requires Enabled(g, a) && (rest == [] ==> k == Do(g, a)) && (rest != [] ==> Reaches(Do(g, a), rest, k))
    ensures Reaches(g, [a] + rest, k)
  {
    hide Enabled, Do;
    assert ([a] + rest)[1..] == rest;
  }

  /** A borrower that waits for room is let in by the next connection that gives its client back. */
  lemma ReturnLetsIn(g: Pools, actions: seq<Action>, h: Pools, t: Id, u: Id)
    requires Init(g) && Reaches(g, actions, h) && PhaseOf(h, u) == Guarded && PhaseOf(h, t) == Returned
    ensures Enabled(h, Release(t)) && Enabled(Do(h, Release(t)), Acquire(u))
  {
    hide Reaches, PoolOk, ShutdownOk, GuardOk, ClientOk, EnvelopeOk;
    InitInv(g);
    RunInv(g, actions, h);
    assert t in Those(HasToken, h.threads);
    Fewer({t}, Those(HasToken, h.threads));
  }

  /** A connection that is served can always finish: each step of giving back is possible at once. */
  lemma ServingCanFinish(g: Pools, actions: seq<Action>, h: Pools, t: Id) returns (k: Pools)
    requires Init(g) && Reaches(g, actions, h) && PhaseOf(h, t).Serving?
    ensures Reaches(h, [ReturnEnvelope(t), ReleaseEnvelope(t), Deactivate(t), ReturnClient(t), Release(t)], k)
    ensures PhaseOf(k, t) == Gone && k.sem == h.sem - 1 && t !in k.active
    ensures k.pool == h.pool + [PhaseOf(h, t).o] && k.epool == h.epool + [PhaseOf(h, t).e]
  {
    hide Reaches, Inv, CountsOk, PoolOk, ShutdownOk, GuardOk, ClientOk, EnvelopeOk;
    InitInv(g);
    RunInv(g, actions, h);
    RoomToReturn(h, t);
    var h1 := Then(h, ReturnEnvelope(t));
    TokensHeld(h1, t);
    var h2 := Then(h1, ReleaseEnvelope(t));
    var h3 := Then(h2, Deactivate(t));
    RoomToReturn(h3, t);
    var h4 := Then(h3, ReturnClient(t));
    TokensHeld(h4, t);
    k := Then(h4, Release(t));
    FiveSteps(h, ReturnEnvelope(t), ReleaseEnvelope(t), Deactivate(t), ReturnClient(t), Release(t));
  }

  lemma RoomToReturn(g: Pools, t: Id)
    requires Inv(g)
    ensures HasObject(PhaseOf(g, t)) ==> |g.pool| < g.size
    ensures HasEnvelope(PhaseOf(g, t)) ==> |g.epool| < g.size
  {
    hide PoolOk, ShutdownOk, GuardOk, ClientOk, EnvelopeOk;
    if t in Those(HasObject, g.threads) { Fewer({t}, Those(HasObject, g.threads)); }
    if t in Those(HasEnvelope, g.threads) { Fewer({t}, Those(HasEnvelope, g.threads)); }
  }

  lemma TokensHeld(g: Pools, t: Id)
    requires Inv(g)
    ensures HasToken(PhaseOf(g, t)) ==> g.sem > 0
    ensures HasEnvToken(PhaseOf(g, t)) ==> g.esem > 0
  {
    hide PoolOk, ShutdownOk, GuardOk, ClientOk, EnvelopeOk;
    if t in Those(HasToken, g.threads) { Fewer({t}, Those(HasToken, g.threads)); }
    if t in Those(HasEnvToken, g.threads) { Fewer({t}, Those(HasEnvToken, g.threads)); }
  }

  /** Between the two halves of a shutdown the pool stays shut, and whoever arrives is refused. */
  lemma {:induction false} StaysShut(g: Pools, actions: seq<Action>, h: Pools, t: Id)
    requires g.shutting && Reaches(g, actions, h) && ShutdownWait !in actions
    ensures h.shutting
    ensures Enabled(h, Enter(t)) ==> PhaseOf(Do(h, Enter(t)), t) == Refused
    decreases |actions|
  {
    if actions != [] {
      assert actions[0] in actions;
      StaysShut(Do(g, actions[0]), actions[1..], h, t);
    }
  }

  /** A shutdown shuts the pool, and the wait at its end opens it again with nothing left in the channel. */
  lemma ShutdownShutsAndOpens(g: Pools)
    ensures Enabled(g, ShutdownState) ==> Do(g, ShutdownState).shutting && Do(g, ShutdownState).threads == g.threads
    ensures Enabled(g, ShutdownWait) ==>
              var h := Do(g, ShutdownWait); !h.shutting && h.shutdownChan == 0 && h.pool == g.pool && h.epool == g.epool
  {
  }
}
