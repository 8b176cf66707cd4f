/** The IMAP connection as the watcher sees it, and the retrying of empty header fetches. */
module ImapClients {
  import opened Bytes
  import opened AliasStore
  import opened MessageIndex

  const MAX_RETRIES := 3

  datatype Message = Message(uid: uint32, headers: Headers)

  datatype Selected = Selected(uidValidity: uint32, uidNext: uint32)

  /** A message in a FETCH answer; without headers when they do not parse. */
  datatype Raw = Raw(uid: uint32, headers: Option<Headers>)

  /**
   * What the server answers, and whether the context is still live, at each moment. `present` is
   * what the folder holds, which only the laws about a server speak of.
   */
  datatype Server = Server(
    select: nat -> Option<Selected>,
    search: nat -> Option<seq<uint32>>,
    fetch: (nat, seq<uint32>) -> Option<seq<Raw>>,
    live: nat -> bool,
    present: nat -> set<uint32>)

  /** A call that was made, with its moment and its answer. */
  datatype Call =
    | SelectCall(at: nat, selected: Option<Selected>)
    | SearchCall(at: nat, found: Option<seq<uint32>>)
    | FetchCall(at: nat, asked: seq<uint32>, answer: Option<seq<Raw>>)

  predicate TrueCall(s: Server, c: Call) {
    match c
    case SelectCall(n, r) => r == s.select(n)
    case SearchCall(n, r) => r == s.search(n)
    case FetchCall(n, asked, r) => asked != [] && r == s.fetch(n, asked)
  }

  function RawUids(raws: seq<Raw>): (r: seq<uint32>)
    ensures |r| == |raws| && forall k :: 0 <= k < |raws| ==> r[k] == raws[k].uid
  {
    seq(|raws|, i requires 0 <= i < |raws| => raws[i].uid)
  }

  predicate Readable(r: Raw) { r.uid != 0 && r.headers.Some? }

  /** The messages that are handed on: those with a UID and headers that parse. */
  function Parsed(raws: seq<Raw>): (r: seq<Message>)
    ensures forall m :: m in r <==>
              exists k :: 0 <= k < |raws| && Readable(raws[k]) && m == Message(raws[k].uid, raws[k].headers.value)
  {
    if raws == [] then [] else
      var last := raws[|raws| - 1];
      Parsed(raws[..|raws| - 1]) + if Readable(last) then [Message(last.uid, last.headers.value)] else []
  }

  /** What FetchHeaderFields returns; without UIDs it asks nothing. */
  function Answer(s: Server, n: nat, asked: seq<uint32>): Option<seq<Message>> {
    if asked == [] then Some([])
    else match s.fetch(n, asked)
      case None => None
      case Some(raws) => Some(Parsed(raws))
  }

  predicate LooksEmpty(h: Headers) { h.messageId == [] && h.from == [] && h.to == [] }

  function Uids(ms: seq<Message>): (r: seq<uint32>)
    ensures |r| == |ms| && forall k :: 0 <= k < |ms| ==> r[k] == ms[k].uid
  {
    seq(|ms|, i requires 0 <= i < |ms| => ms[i].uid)
  }

  predicate DistinctUids(ms: seq<Message>) {
    forall i, j :: 0 <= i < j < |ms| ==> ms[i].uid != ms[j].uid
  }

  /** The last message of each UID. */
  function ById(ms: seq<Message>): (r: map<uint32, Message>)
    ensures forall u :: u in r ==> r[u].uid == u && r[u] in ms
    ensures forall m :: m in ms ==> m.uid in r
  {
    if ms == [] then map[] else
      var last := ms[|ms| - 1];
      ById(ms[..|ms| - 1])[last.uid := last]
  }

  /** The UIDs of the messages that came without usable headers, in order. */
  function Empties(ms: seq<Message>): (r: seq<uint32>)
    ensures |r| <= |ms|
    ensures forall u :: u in r ==> exists m :: m in ms && m.uid == u && LooksEmpty(m.headers)
    ensures forall m :: m in ms && LooksEmpty(m.headers) ==> m.uid in r
  {
    if ms == [] then [] else
      var last := ms[|ms| - 1];
      Empties(ms[..|ms| - 1]) + if LooksEmpty(last.headers) then [last.uid] else []
  }

  /** The pending UIDs to ask for once more: those refetched, and empty again. */
  function Still(pending: seq<uint32>, re: map<uint32, Message>): (r: seq<uint32>)
    ensures |r| <= |pending|
    ensures forall u :: u in r <==> u in pending && u in re && LooksEmpty(re[u].headers)
  {
    if pending == [] then [] else
      var u := pending[|pending| - 1];
      Still(pending[..|pending| - 1], re) + if u in re && LooksEmpty(re[u].headers) then [u] else []
  }

  /** The messages with what was refetched properly put in place. */
  function Settled(found: map<uint32, Message>, pending: seq<uint32>, re: map<uint32, Message>)
    : (r: map<uint32, Message>)
    ensures forall u :: u in r <==> u in found || (u in pending && u in re && !LooksEmpty(re[u].headers))
    ensures forall u :: u in r ==>
                          r[u] == if u in pending && u in re && !LooksEmpty(re[u].headers) then re[u] else found[u]
  {
    if pending == [] then found else
      var u := pending[|pending| - 1];
      var rest := Settled(found, pending[..|pending| - 1], re);
      if u in re && !LooksEmpty(re[u].headers) then rest[u := re[u]] else rest
  }

  /** The rounds of sleeping and refetching from `attempt` on, starting at moment `time`. */
  function Rounds(s: Server, time: nat, attempt: nat, pending: seq<uint32>, found: map<uint32, Message>)
    : Option<map<uint32, Message>>
    decreases MAX_RETRIES + 1 - attempt
  {
    if attempt > MAX_RETRIES || pending == [] || !s.live(time) then Some(found)
    else
      match Answer(s, time + 1, pending)
      case None => None
      case Some(ms) =>
        var re := ById(ms);
        Rounds(s, time + 2, attempt + 1, Still(pending, re), Settled(found, pending, re))
  }

  /** The refetches that these rounds make. */
  function RetryCalls(s: Server, time: nat, attempt: nat, pending: seq<uint32>): (calls: seq<Call>)
    ensures attempt <= MAX_RETRIES + 1 ==> |calls| <= MAX_RETRIES + 1 - attempt
    decreases MAX_RETRIES + 1 - attempt
  {
    if attempt > MAX_RETRIES || pending == [] || !s.live(time) then []
    else
      [FetchCall(time + 1, pending, s.fetch(time + 1, pending))]
      + match s.fetch(time + 1, pending)
        case None => []
        case Some(raws) => RetryCalls(s, time + 2, attempt + 1, Still(pending, ById(Parsed(raws))))
  }

  /** One of these calls asked for this message and brought it. */
  ghost predicate RefetchedIn(calls: seq<Call>, m: Message) {
    exists c :: c in calls && c.FetchCall? && m.uid in c.asked && c.answer.Some? && m in Parsed(c.answer.value)
  }

  lemma RefetchedLater(c: Call, calls: seq<Call>, m: Message)
    requires RefetchedIn(calls, m)
    ensures RefetchedIn([c] + calls, m)
  {
  }

  lemma RefetchedNow(c: Call, calls: seq<Call>, m: Message)
    requires c.FetchCall? && m.uid in c.asked && c.answer.Some? && m in Parsed(c.answer.value)
    ensures RefetchedIn([c] + calls, m)
  {
    assert ([c] + calls)[0] == c;
  }

  /**
   * Retrying keeps the UIDs. A message that is not pending stays as it was, and a pending one is
   * replaced only by a message with usable headers that one of the refetches asked for and brought.
   */
  lemma {:induction false} RoundsReplace(s: Server, time: nat, attempt: nat, pending: seq<uint32>,
                                         found: map<uint32, Message>, u: uint32)
    requires forall v :: v in pending ==> v in found
    ensures var r := Rounds(s, time, attempt, pending, found);
            r.Some? ==>
              && (u in r.value <==> u in found)
              && (u in found ==>
                    || r.value[u] == found[u]
                    || (u in pending && !LooksEmpty(r.value[u].headers)
                        && RefetchedIn(RetryCalls(s, time, attempt, pending), r.value[u])))
    decreases MAX_RETRIES + 1 - attempt
  {
    hide LooksEmpty, ById, Still, Settled, RefetchedIn, Parsed, Rounds, RetryCalls;
    if attempt > MAX_RETRIES || pending == [] {
      RoundsEnd(s, time, attempt, pending, found);
    } else {
      RoundsNext(s, time, attempt, pending, found);
    }
    if attempt <= MAX_RETRIES && pending != [] && s.live(time) && s.fetch(time + 1, pending).Some? {
      var raws := s.fetch(time + 1, pending).value;
      var re := ById(Parsed(raws));
      var still, found2 := Still(pending, re), Settled(found, pending, re);
      RoundsReplace(s, time + 2, attempt + 1, still, found2, u);
      var c := FetchCall(time + 1, pending, Some(raws));
      var calls := RetryCalls(s, time + 2, attempt + 1, still);
      var r := Rounds(s, time + 2, attempt + 1, still, found2);
      if r.Some? && u in found {
        if r.value[u] != found2[u] {
          RefetchedLater(c, calls, r.value[u]);
        } else if u in pending && u in re {
          RefetchedNow(c, calls, re[u]);
        }
      }
    }
  }

  /** `out` lists the messages of a map in some order. */
  ghost predicate Lists(out: seq<Message>, found: map<uint32, Message>) {
    && DistinctUids(out)
    && (forall m :: m in out ==> m.uid in found && found[m.uid] == m)
    && forall u :: u in found ==> found[u] in out && found[u].uid == u
  }

  lemma {:induction false} ByIdAt(ms: seq<Message>, i: nat)
    requires i < |ms| && forall j :: i < j < |ms| ==> ms[j].uid != ms[i].uid
    ensures ms[i].uid in ById(ms) && ById(ms)[ms[i].uid] == ms[i]
    decreases |ms|
  {
    if i < |ms| - 1 {
      var front := ms[..|ms| - 1];
      assert front[i] == ms[i];
      forall j | i < j < |front| ensures front[j].uid != front[i].uid {
        assert front[j] == ms[j];
      }
      ByIdAt(front, i);
    }
  }

  lemma ByIdDistinct(ms: seq<Message>)
    requires DistinctUids(ms)
    ensures Lists(ms, ById(ms))
  {
    var found := ById(ms);
    forall m | m in ms ensures m.uid in found && found[m.uid] == m {
      var i :| 0 <= i < |ms| && ms[i] == m;
      ByIdAt(ms, i);
    }
  }

  /** A header block with nothing to go by. */
  predicate Bare(h: Headers) { h.messageId == [] && h.from == [] && h.to == [] }

  /**
   * The retry filter on a fetch with distinct UIDs, whatever order its result is listed in: a message
   * with a Message-ID, a From or a To stays as it is, and one without any of them stays or gives way
   * to what a refetch brought under its UID, which has one of them.
   */
  lemma RetryFilter(s: Server, time: nat, ms: seq<Message>, out: seq<Message>)
    requires DistinctUids(ms)
    requires var r := Rounds(s, time, 1, Empties(ms), ById(ms)); r.Some? && Lists(out, r.value)
    ensures forall u :: u in Uids(out) <==> u in Uids(ms)
    ensures forall m :: m in ms && (m.headers.messageId != [] || m.headers.from != [] || m.headers.to != []) ==>
                          m in out
    ensures forall m :: m in out && m !in ms ==>
              && (m.headers.messageId != [] || m.headers.from != [] || m.headers.to != [])
              && RefetchedIn(RetryCalls(s, time, 1, Empties(ms)), m)
              && exists e :: e in ms && e.uid == m.uid && Bare(e.headers)
  {
    hide Rounds, RetryCalls, ById, Empties, RefetchedIn, DistinctUids;
    ByIdDistinct(ms);
    var byId := ById(ms);
    var found := Rounds(s, time, 1, Empties(ms), byId).value;
    forall u ensures u in Uids(out) <==> u in Uids(ms) {
      RoundsReplace(s, time, 1, Empties(ms), byId, u);
      InUids(ms, byId, u);
      InUids(out, found, u);
    }
    forall m | m in ms && !LooksEmpty(m.headers) ensures m in out {
      RoundsReplace(s, time, 1, Empties(ms), byId, m.uid);
    }
    forall m | m in out && m !in ms
      ensures && !LooksEmpty(m.headers) && RefetchedIn(RetryCalls(s, time, 1, Empties(ms)), m)
              && exists e :: e in ms && e.uid == m.uid && Bare(e.headers)
    {
      RoundsReplace(s, time, 1, Empties(ms), byId, m.uid);
    }
  }

  /** One of these calls asked for the UID and was answered without it. */
  ghost predicate MissedIn(calls: seq<Call>, u: uint32) {
    exists c :: c in calls && c.FetchCall? && u in c.asked && c.answer.Some? && u !in Uids(Parsed(c.answer.value))
  }

  ghost predicate AllAskFor(calls: seq<Call>, u: uint32) {
    forall c :: c in calls ==> c.FetchCall? && u in c.asked
  }

  /**
   * A message that is bare to the end was asked for in every round there may be, or a refetch was
   * answered without it, or the sleep before the next round was cut short.
   */
  lemma {:induction false} RetriesPersist(s: Server, time: nat, attempt: nat, pending: seq<uint32>,
                                          found: map<uint32, Message>, u: uint32)
    requires attempt <= 4 && u in pending && forall v :: v in pending ==> v in found
    requires var r := Rounds(s, time, attempt, pending, found); r.Some? && u in r.value && Bare(r.value[u].headers)
    ensures var calls := RetryCalls(s, time, attempt, pending);
            || (|calls| == 4 - attempt && AllAskFor(calls, u))
            || MissedIn(calls, u)
            || !s.live(time + 2 * |calls|)
    decreases MAX_RETRIES + 1 - attempt
  {
    hide ById, Still, Settled, Parsed, MissedIn, AllAskFor, Rounds, RetryCalls;
    NoneAskFor(u);
    if attempt > MAX_RETRIES {
      RoundsEnd(s, time, attempt, pending, found);
    } else {
      RoundsNext(s, time, attempt, pending, found);
    }
    if attempt <= MAX_RETRIES && s.live(time) {
      var raws := s.fetch(time + 1, pending).value;
      var re := ById(Parsed(raws));
      var still, found2 := Still(pending, re), Settled(found, pending, re);
      var c := FetchCall(time + 1, pending, Some(raws));
      var calls := RetryCalls(s, time + 2, attempt + 1, still);
      InById(Parsed(raws), u);
      if u !in re {
        MissedNow(c, calls, u);
      } else if u in still {
        RetriesPersist(s, time + 2, attempt + 1, still, found2, u);
        PersistLater(c, calls, u);
      } else {
        RoundsReplace(s, time + 2, attempt + 1, still, found2, u);
        assert false;
      }
    }
  }

  lemma InById(ms: seq<Message>, u: uint32)
    ensures u in ById(ms) <==> u in Uids(ms)
  {
    if u in ById(ms) {
      var k :| 0 <= k < |ms| && ms[k] == ById(ms)[u];
      assert Uids(ms)[k] == u;
    }
    if u in Uids(ms) {
      var k :| 0 <= k < |ms| && Uids(ms)[k] == u;
      assert ms[k] in ms;
    }
  }

  lemma NoneAskFor(u: uint32)
    ensures AllAskFor([], u)
  {
  }

  lemma MissedNow(c: Call, calls: seq<Call>, u: uint32)
    requires c.FetchCall? && u in c.asked && c.answer.Some? && u !in Uids(Parsed(c.answer.value))
    ensures MissedIn([c] + calls, u)
  {
    assert ([c] + calls)[0] == c;
  }

  lemma PersistLater(c: Call, calls: seq<Call>, u: uint32)
    requires c.FetchCall? && u in c.asked
    ensures AllAskFor(calls, u) ==> AllAskFor([c] + calls, u)
    ensures MissedIn(calls, u) ==> MissedIn([c] + calls, u)
  {
  }

  /** A call without an answer. */
  predicate Unanswered(c: Call) {
    match c
    case SelectCall(_, r) => r.None?
    case SearchCall(_, r) => r.None?
    case FetchCall(_, _, r) => r.None?
  }

  /** The retries fail exactly when their last refetch got no answer. */
  lemma {:induction false} RetriesFailIff(s: Server, time: nat, attempt: nat, pending: seq<uint32>,
                                          found: map<uint32, Message>)
    ensures var calls := RetryCalls(s, time, attempt, pending);
            Rounds(s, time, attempt, pending, found).None? <==> calls != [] && Unanswered(calls[|calls| - 1])
    decreases MAX_RETRIES + 1 - attempt
  {
    hide ById, Still, Settled, Parsed, Rounds, RetryCalls;
    if attempt > MAX_RETRIES || pending == [] {
      RoundsEnd(s, time, attempt, pending, found);
    } else {
      RoundsNext(s, time, attempt, pending, found);
    }
    if attempt <= MAX_RETRIES && pending != [] && s.live(time) && s.fetch(time + 1, pending).Some? {
      var re := ById(Parsed(s.fetch(time + 1, pending).value));
      RetriesFailIff(s, time + 2, attempt + 1, Still(pending, re), Settled(found, pending, re));
    }
  }

  lemma InUids(ms: seq<Message>, found: map<uint32, Message>, u: uint32)
    requires Lists(ms, found)
    ensures u in Uids(ms) <==> u in found
  {
    hide DistinctUids;
    if u in found {
      var i :| 0 <= i < |ms| && ms[i] == found[u];
      assert Uids(ms)[i] == u;
    }
  }

  lemma StillNext(asked: seq<uint32>, i: nat, re: map<uint32, Message>)
    requires i < |asked|
    ensures Still(asked[..i + 1], re)
         == Still(asked[..i], re) + if asked[i] in re && LooksEmpty(re[asked[i]].headers) then [asked[i]] else []
  {
    hide LooksEmpty;
    assert asked[..i + 1][..i] == asked[..i];
  }

  lemma SettledNext(found: map<uint32, Message>, asked: seq<uint32>, i: nat, re: map<uint32, Message>)
    requires i < |asked|
    ensures var rest, u := Settled(found, asked[..i], re), asked[i];
            Settled(found, asked[..i + 1], re)
              == if u in re && !LooksEmpty(re[u].headers) then rest[u := re[u]] else rest
  {
    hide LooksEmpty;
    assert asked[..i + 1][..i] == asked[..i];
  }

  lemma EmptiesNext(ms: seq<Message>, i: nat)
    requires i < |ms|
    ensures Empties(ms[..i + 1]) == Empties(ms[..i]) + if LooksEmpty(ms[i].headers) then [ms[i].uid] else []
  {
    hide LooksEmpty;
    assert ms[..i + 1][..i] == ms[..i];
  }

  lemma ParsedNext(raws: seq<Raw>, i: nat)
    requires i < |raws|
    ensures Parsed(raws[..i + 1])
         == Parsed(raws[..i]) + if Readable(raws[i]) then [Message(raws[i].uid, raws[i].headers.value)] else []
  {
    assert raws[..i + 1][..i] == raws[..i];
  }

  lemma ParsedNone()
    ensures Parsed([]) == []
  {
  }

  class Client {
    const server: Server
    var time: nat
    /** Every call made, in order. */
    ghost var log: seq<Call>

    /** What was logged was answered that way, and before now. */
    ghost predicate Honest() reads this {
      forall c :: c in log ==> c.at < time && TrueCall(server, c)
    }

    constructor (server: Server)
      ensures this.server == server && time == 0 && log == [] && Honest()
    {
      this.server, time, log := server, 0, [];
    }

    method Select() returns (r: Option<Selected>)
      requires Honest()
      modifies `time, `log
      ensures r == server.select(old(time)) && time == old(time) + 1
      ensures Honest() && log == old(log) + [SelectCall(old(time), r)]
    {
      r := server.select(time);
      log := log + [SelectCall(time, r)];
      time := time + 1;
    }

    method SearchAll() returns (r: Option<seq<uint32>>)
      requires Honest()
      modifies `time, `log
      ensures r == server.search(old(time)) && time == old(time) + 1
      ensures Honest() && log == old(log) + [SearchCall(old(time), r)]
    {
      r := server.search(time);
      log := log + [SearchCall(time, r)];
      time := time + 1;
    }

    /** The headers of these messages, without those that do not parse. */
    method Fetch(uids: seq<uint32>) returns (r: Option<seq<Message>>)
      requires Honest()
      modifies `time, `log
      ensures r == Answer(server, old(time), uids) && Honest()
      ensures uids != [] ==>
                time == old(time) + 1 && log == old(log) + [FetchCall(old(time), uids, server.fetch(old(time), uids))]
      ensures uids == [] ==> time == old(time) && log == old(log)
    {
      hide Parsed, Readable;
      if uids == [] {
        return Some([]);
      }
      var answer := server.fetch(time, uids);
      log := log + [FetchCall(time, uids, answer)];
      time := time + 1;
      if answer.None? {
        return None;
      }
      var raws, out := answer.value, [];
      ParsedNone();
      for i := 0 to |raws|
        invariant out == Parsed(raws[..i])
        invariant Honest() && time == old(time) + 1 && log == old(log) + [FetchCall(old(time), uids, answer)]
      {
        ParsedNext(raws, i);
        if Readable(raws[i]) {
          ReadableHasHeaders(raws[i]);
          out := out + [Message(raws[i].uid, raws[i].headers.value)];
        }
      }
      assert raws[..|raws|] == raws;
      r := Some(out);
    }

    /** ctx.Err() == nil, or a sleep that was not cut short. */
    method Live() returns (r: bool)
      requires Honest()
      modifies `time
      ensures r == server.live(old(time)) && time == old(time) + 1 && Honest()
    {
      r := server.live(time);
      time := time + 1;
    }

    /** Pushes down the pending UIDs that stay pending, inside the slice being read. */
    static method Refilter(pending: array<uint32>, n: nat, found: map<uint32, Message>, re: map<uint32, Message>)
      returns (k: nat, settled: map<uint32, Message>)
      requires n <= pending.Length
      modifies pending
      ensures k <= n && pending[..k] == Still(old(pending[..n]), re)
      ensures settled == Settled(found, old(pending[..n]), re)
    {
      hide LooksEmpty, Still, Settled;
      ghost var asked := pending[..n];
      StillNone(found, re);
      k, settled := 0, found;
      for i := 0 to n
        invariant k <= i
        invariant pending[..k] == Still(asked[..i], re)
        invariant settled == Settled(found, asked[..i], re)
        invariant forall j :: i <= j < n ==> pending[j] == asked[j]
      {
        var uid := pending[i];
        StillNext(asked, i, re);
        SettledNext(found, asked, i, re);
        if uid !in re {
          continue;
        }
        if LooksEmpty(re[uid].headers) {
          ghost var kept := pending[..k];
          pending[k] := uid;
          k := k + 1;
          assert pending[..k] == kept + [uid];
          continue;
        }
        settled := settled[uid := re[uid]];
      }
      assert asked[..n] == asked;
    }

    /** The UIDs of the messages to retry, in a buffer with room for all. */
    static method CollectEmpties(ms: seq<Message>) returns (pending: array<uint32>, n: nat)
      ensures fresh(pending) && n <= pending.Length && pending[..n] == Empties(ms)
    {
      hide LooksEmpty, Empties;
      pending, n := new uint32[|ms|], 0;
      EmptiesNone();
      for i := 0 to |ms|
        invariant n <= i && pending[..n] == Empties(ms[..i])
      {
        EmptiesNext(ms, i);
        if LooksEmpty(ms[i].headers) {
          ghost var kept := pending[..n];
          pending[n] := ms[i].uid;
          n := n + 1;
          assert pending[..n] == kept + [ms[i].uid];
        }
      }
      assert ms[..|ms|] == ms;
    }

    /**
     * The result of the retries in some order, or the messages as they are when none is empty;
     * with at most MAX_RETRIES refetches, each of them logged.
     */
    method RetryEmptyHeaderFetches(ms: seq<Message>) returns (r: Option<seq<Message>>)
      requires Honest()
      modifies `time, `log
      ensures Honest() && old(time) <= time <= old(time) + 6 && |log| <= |old(log)| + 3
      ensures log == old(log) + RetryCalls(server, old(time), 1, Empties(ms))
      ensures if Empties(ms) == [] then r == Some(ms)
              else
                var rounds := Rounds(server, old(time), 1, Empties(ms), ById(ms));
                if rounds.None? then r == None else r.Some? && Lists(r.value, rounds.value)
      ensures r.None? ==> |log| > |old(log)| && Unanswered(log[|log| - 1])
    {
      hide LooksEmpty, Lists, Empties, ById, Still, Settled, Rounds, RetryCalls, Parsed, Honest;
      var pending, n := CollectEmpties(ms);
      if n == 0 {
        RoundsEnd(server, time, 1, pending[..n], map[]);
        return Some(ms);
      }
      var found := ById(ms);
      ghost var goal, calls := Rounds(server, time, 1, pending[..n], found), RetryCalls(server, time, 1, pending[..n]);
      var attempt := 1;
      while attempt <= MAX_RETRIES && n > 0
        invariant 1 <= attempt <= MAX_RETRIES + 1 && 0 <= n <= pending.Length
        invariant time == old(time) + 2 * (attempt - 1) && Honest()
        invariant Rounds(server, time, attempt, pending[..n], found) == goal
        invariant log + RetryCalls(server, time, attempt, pending[..n]) == old(log) + calls && |log| >= |old(log)|
        invariant forall u :: u in found ==> found[u].uid == u
        decreases MAX_RETRIES + 1 - attempt
      {
        ghost var asked, before := pending[..n], log;
        RoundsNext(server, time, attempt, asked, found);
        var slept := Live();
        if !slept {
          var out := ListOf(found);
          return Some(out);
        }
        var refetched := Fetch(pending[..n]);
        if refetched.None? {
          assert log[|log| - 1].FetchCall? && log[|log| - 1].answer.None?;
          return None;
        }
        var re := ById(refetched.value);
        LogNext(before, log[|log| - 1], RetryCalls(server, time, attempt + 1, Still(asked, re)));
        n, found := Refilter(pending, n, found, re);
        attempt := attempt + 1;
      }
      RoundsEnd(server, time, attempt, pending[..n], found);
      var out := ListOf(found);
      r := Some(out);
    }
  }

  lemma ReadableHasHeaders(r: Raw)
    ensures Readable(r) ==> r.headers.Some?
  {
  }

  lemma LogNext(log: seq<Call>, c: Call, calls: seq<Call>)
    ensures log + ([c] + calls) == log + [c] + calls && [c] + [] == [c]
  {
  }

  lemma RoundsNext(s: Server, time: nat, attempt: nat, pending: seq<uint32>, found: map<uint32, Message>)
    requires attempt <= MAX_RETRIES && pending != []
    ensures var r, calls := Rounds(s, time, attempt, pending, found), RetryCalls(s, time, attempt, pending);
            if !s.live(time) then r == Some(found) && calls == []
            else
              var c := FetchCall(time + 1, pending, s.fetch(time + 1, pending));
              match Answer(s, time + 1, pending)
              case None => r == None && calls == [c]
              case Some(ms) =>
                var re := ById(ms);
                var still := Still(pending, re);
                && r == Rounds(s, time + 2, attempt + 1, still, Settled(found, pending, re))
                && calls == [c] + RetryCalls(s, time + 2, attempt + 1, still)
  {
    hide ById, Still, Settled, Parsed;
  }

  lemma RoundsEnd(s: Server, time: nat, attempt: nat, pending: seq<uint32>, found: map<uint32, Message>)
    requires attempt > MAX_RETRIES || pending == []
    ensures Rounds(s, time, attempt, pending, found) == Some(found) && RetryCalls(s, time, attempt, pending) == []
  {
  }

  lemma StillNone(found: map<uint32, Message>, re: map<uint32, Message>)
    ensures Still([], re) == [] && Settled(found, [], re) == found
  {
  }

  lemma EmptiesNone()
    ensures Empties([]) == []
  {
  }

  method ListOf(found: map<uint32, Message>) returns (out: seq<Message>)
    requires forall u :: u in found ==> found[u].uid == u
    ensures Lists(out, found)
  {
    out := [];
    var left := found.Keys;
    while left != {}
      invariant left <= found.Keys
      invariant DistinctUids(out)
      invariant forall m :: m in out ==> m.uid in found && m.uid !in left && found[m.uid] == m
      invariant forall u :: u in found && u !in left ==> found[u] in out
      decreases |left|
    {
      var u :| u in left;
      out, left := out + [found[u]], left - {u};
    }
  }
}
