/** The sync of one IMAP folder: baseline, batches of header fetches, and the stored cursor. */
module ImapSync {
  import opened Bytes
  import opened MessageIds
  import opened AliasStore
  import opened MessageIndex
  import opened ImapClients
  import opened ImapBatches
  import opened ImapCursors

  function HeadersOf(ms: seq<Message>): (r: seq<Headers>)
    ensures |r| == |ms| && forall k :: 0 <= k < |ms| ==> r[k] == ms[k].headers
  {
    seq(|ms|, i requires 0 <= i < |ms| => ms[i].headers)
  }

  lemma HeadersJoin(a: seq<Message>, b: seq<Message>)
    ensures HeadersOf(a + b) == HeadersOf(a) + HeadersOf(b)
  {
  }

  /** After a finished pass, every message with a Message-ID is remembered. */
  lemma PassRemembers(x: Extractors, ms: seq<Message>, o: Options, t: Tables, m: Message)
    requires Pass(x, HeadersOf(ms), o, t).1 && m in ms
    ensures Remembered(m, o, Pass(x, HeadersOf(ms), o, t).0.seen)
  {
    hide Pass, Indexable, Key, ThreadOf;
    var key := Key(m.headers);
    if key != [] {
      PassDecides(x, HeadersOf(ms), o, t, key);
      var k :| 0 <= k < |ms| && ms[k] == m;
      assert Keys(HeadersOf(ms))[k] == key;
    }
  }

  // ------------------------------------------------------------------- sync

  lemma AtStart(start: Option<Cursor>, s: Server, o: Options, seen: set<Row>, log: seq<Call>)
    ensures WellOrdered(start, []) && OwnValidity(start, []) && CursorOf(start, []) == start
    ensures AllComplete(s, o, seen, log, [])
  {
  }

  /** The ids a baseline marks: of messages up to the largest UID present at its start. */
  function BaselineIds(ms: seq<Message>, preMaxUid: uint32): seq<Text> {
    if ms == [] then [] else
      var m := ms[|ms| - 1];
      var id := Normalize(m.headers.messageId);
      BaselineIds(ms[..|ms| - 1], preMaxUid) + if m.uid <= preMaxUid && id != [] then [id] else []
  }

  /** Batches made from `begin` on and before `now`, each of 1 to `size` UIDs, or of any number when size is 0. */
  ghost predicate Batches(begin: nat, now: nat, size: int, bs: seq<Batch>) {
    forall b :: b in bs ==> begin <= b.at < now && 0 < |b.asked| && (size != 0 ==> |b.asked| <= size)
  }

  /** The context has ended, or the last call got no answer. */
  predicate NoAnswer(s: Server, time: nat, before: seq<Call>, log: seq<Call>) {
    || (time > 0 && !s.live(time - 1))
    || (|before| < |log| && Unanswered(log[|log| - 1]))
  }

  /** The indexer has refused one of the messages that the last calls brought. */
  ghost predicate RefusedMail(s: Server, x: Extractors, o: Options, before: seq<Call>, log: seq<Call>, after: Tables) {
    exists mid, t, bs ::
      && before <= mid && log == mid + CallsBy(s, bs) && (forall b :: b in bs ==> Retried(s, b))
      && Pass(x, HeadersOf(GotBy(bs)), o, t) == (after, false)
  }

  class FolderSync {
    const store: Store
    const client: Client
    const x: Extractors
    const o: Options
    const folder: Text
    const skipExisting: bool
    const headerLimit: int
    const searchBatch: int

    /** The stored cursor before the first event, and every write to it since. */
    ghost const start: Option<Cursor>
    ghost var history: seq<Event>

    ghost function Stored(): Option<Cursor> reads store {
      var row := (Blank(o.mailbox), Blank(folder));
      if row in store.cursors then Some(store.cursors[row]) else None
    }

    ghost predicate Valid() reads this, store, client {
      && store.Valid() && store.email == x.email && client.Honest()
      && searchBatch > 0
      && WellOrdered(start, history) && OwnValidity(start, history)
      && CursorOf(start, history) == Stored()
      && AllComplete(client.server, o, store.seen, client.log, history)
    }

    constructor (store: Store, client: Client, x: Extractors, o: Options, folder: Text,
                 skipExisting: bool, headerLimit: int, searchBatch: int)
      requires store.Valid() && store.email == x.email && client.Honest() && searchBatch > 0
      ensures Valid() && history == [] && start == Stored()
      ensures this.store == store && this.client == client && this.x == x && this.o == o && this.folder == folder
      ensures this.skipExisting == skipExisting && this.headerLimit == headerLimit && this.searchBatch == searchBatch
    {
      hide Blank, AllComplete, WellOrdered, OwnValidity, CursorOf;
      var row := (Blank(o.mailbox), Blank(folder));
      ghost var stored := if row in store.cursors then Some(store.cursors[row]) else None;
      AtStart(stored, client.server, o, store.seen, client.log);
      this.store, this.client, this.x, this.o, this.folder := store, client, x, o, folder;
      this.skipExisting, this.headerLimit, this.searchBatch := skipExisting, headerLimit, searchBatch;
      history := [];
      start := stored;
    }

    /** Indexes the messages of one fetch, one after the other. */
    method IndexBatch(ms: seq<Message>) returns (ok: bool)
      requires store.Valid() && store.email == x.email
      modifies store`calls, store`threads, store`createdAt, store`seen
      ensures store.Valid() && old(store.calls) <= store.calls
      ensures ok ==> Pass(x, HeadersOf(ms), o, old(Shape(store))) == (Shape(store), true)
      ensures !ok ==> Interrupted(x, HeadersOf(ms), o, old(Shape(store)), Shape(store))
      ensures !ok ==> || BadStatement(store.fails, old(store.calls), store.calls)
                      || Pass(x, HeadersOf(ms), o, old(Shape(store))) == (Shape(store), false)
    {
      hide PlanFor, Pass, ApplyAll, Interrupted, IndexedAs;
      ghost var hs, t := HeadersOf(ms), Shape(store);
      PassNone(x, o, t);
      assert hs[..0] == [];
      for i := 0 to |ms|
        invariant store.Valid() && old(store.calls) <= store.calls && Pass(x, hs[..i], o, t) == (Shape(store), true)
      {
        ghost var mid := Shape(store);
        var h := ms[i].headers;
        var now: int := *;
        var outcome, done, count := IndexMessageFromHeaders(store, x, h, o, now);
        assert hs[..i] + [h] == hs[..i + 1];
        if !done {
          InterruptedOne(x, h, o, mid, Shape(store), count);
          InterruptedJoin(x, hs[..i], [h], o, t, mid, Shape(store));
          InterruptedLonger(x, hs[..i + 1], hs[i + 1..], o, t, Shape(store));
          assert hs[..i + 1] + hs[i + 1..] == hs;
          RefusedPass(x, hs, i, o, t, mid);
          return false;
        }
        WholePlan(x, h, o, mid, count);
        PassOne(x, h, o, mid);
        PassJoin(x, hs[..i], [h], o, t, mid);
      }
      assert hs[..|ms|] == hs;
      return true;
    }

    /** One batch: the fetch, the retries and the indexing. The batch is None when a fetch failed. */
    method FetchAndIndex(start: uint32, end: uint32) returns (ok: bool, ghost batch: Option<Batch>)
      requires store.Valid() && store.email == x.email && client.Honest()
      requires start <= end && end as int < MAX_UID
      modifies store`calls, store`threads, store`createdAt, store`seen, client`time, client`log
      ensures store.Valid() && client.Honest() && old(client.log) <= client.log && client.time >= old(client.time)
      ensures old(store.calls) <= store.calls
      ensures !ok ==> || NoAnswer(client.server, client.time, old(client.log), client.log)
                      || BadStatement(store.fails, old(store.calls), store.calls)
                      || (batch.Some?
                          && Pass(x, HeadersOf(batch.value.got), o, old(Shape(store))) == (Shape(store), false))
      ensures batch.Some? ==>
                var b := batch.value;
                && Retried(client.server, b) && old(client.time) == b.at < client.time
                && Ints(b.asked) == Interval(start as int, end as int + 1)
                && client.log == old(client.log) + CallsOf(client.server, b)
                && if ok then Pass(x, HeadersOf(b.got), o, old(Shape(store))) == (Shape(store), true)
                   else Interrupted(x, HeadersOf(b.got), o, old(Shape(store)), Shape(store))
      ensures batch.None? ==> !ok && Shape(store) == old(Shape(store))
    {
      hide Pass, Interrupted, Interval, Rounds, Lists, Empties, ById, RetryCalls, Parsed, Client.Honest, BadStatement;
      var uids := ListUids(start, end);
      UidsAreInterval(uids, start, end);
      ghost var at, log := client.time, client.log;
      var fetched := client.Fetch(uids);
      if fetched.None? {
        return false, None;
      }
      var retried := client.RetryEmptyHeaderFetches(fetched.value);
      if retried.None? {
        return false, None;
      }
      ghost var b := Batch(at, uids, client.server.fetch(at, uids).value, retried.value);
      CallsInOrder(log, b, client.server);
      batch := Some(b);
      ok := IndexBatch(retried.value);
    }

    /**
     * Fetches and indexes the UIDs from `from` to `to` in batches. `batches` are those that were
     * answered, in order; the messages they led to are what was indexed.
     */
    method IndexUidRange(from: uint32, to: uint32) returns (ok: bool, ghost batches: seq<Batch>)
      requires store.Valid() && store.email == x.email && searchBatch > 0 && client.Honest()
      requires from <= to && to as int < MAX_UID
      modifies store`calls, store`threads, store`createdAt, store`seen, client`time, client`log
      ensures store.Valid() && client.Honest() && client.time >= old(client.time) && old(store.calls) <= store.calls
      ensures !ok ==> || NoAnswer(client.server, client.time, old(client.log), client.log)
                      || BadStatement(store.fails, old(store.calls), store.calls)
                      || RefusedMail(client.server, x, o, old(client.log), client.log, Shape(store))
      ensures old(client.log) + CallsBy(client.server, batches) <= client.log
      ensures ok ==> client.log == old(client.log) + CallsBy(client.server, batches)
      ensures Batches(old(client.time), client.time, Wrap(searchBatch) as int, batches)
      ensures forall b :: b in batches ==> Retried(client.server, b)
      ensures ok ==> Ints(AskedBy(batches)) == Interval(from as int, to as int + 1)
      ensures ok ==> Pass(x, HeadersOf(GotBy(batches)), o, old(Shape(store))) == (Shape(store), true)
      ensures !ok ==> Interrupted(x, HeadersOf(GotBy(batches)), o, old(Shape(store)), Shape(store))
    {
      hide Pass, Interrupted, Interval, Wrap, Batches, Retried, CallsBy, CallsOf, AskedBy, GotBy, Ints, Client.Honest,
        RefusedMail, BadStatement, NoAnswer;
      ghost var t, log, begin := Shape(store), client.log, client.time;
      batches := [];
      var batchSize := Wrap(searchBatch);
      var start := from;
      PassNone(x, o, t);
      StartOfRange(client.server, from, log, begin, client.time, batchSize as int);
      while true
        invariant from <= start <= to && store.Valid() && client.Honest() && client.time >= begin
        invariant old(store.calls) <= store.calls
        invariant client.log == log + CallsBy(client.server, batches)
        invariant Batches(begin, client.time, batchSize as int, batches)
        invariant forall b :: b in batches ==> Retried(client.server, b)
        invariant Ints(AskedBy(batches)) == Interval(from as int, start as int)
        invariant Pass(x, HeadersOf(GotBy(batches)), o, t) == (Shape(store), true)
        decreases (to as int) - start as int
      {
        ghost var mid, before, now := Shape(store), batches, client.time;
        InterruptedAtEnd(x, HeadersOf(GotBy(batches)), o, t, mid);
        var live := client.Live();
        if !live {
          BatchesLater(begin, now, client.time, batchSize as int, batches);
          ContextEnded(client.server, client.time, log, client.log);
          return false, batches;
        }
        var end := Wrap(start as int + batchSize as int - 1);
        if end > to || end < start {
          end := to;
        }
        BatchBound(start, batchSize, to, end);
        ghost var batch: Option<Batch>;
        ghost var calls, asked := store.calls, client.log;
        ok, batch := FetchAndIndex(start, end);
        EarlierCalls(client.server, client.time, log, asked, client.log,
                     store.fails, old(store.calls), calls, store.calls);
        BatchesLater(begin, now, client.time, batchSize as int, batches);
        if batch.Some? {
          ghost var b := batch.value;
          OneMoreBatch(client.server, before, b);
          HeadersJoin(GotBy(before), b.got);
          IntsJoin(AskedBy(before), b.asked);
          IntervalJoin(from as int, start as int, end as int + 1);
          BatchesNext(begin, client.time, batchSize as int, before, b, start, end);
          LogJoin(log, CallsBy(client.server, before), CallsOf(client.server, b));
          batches := before + [b];
          if ok {
            PassJoin(x, HeadersOf(GotBy(before)), HeadersOf(b.got), o, t, mid);
          } else {
            InterruptedJoin(x, HeadersOf(GotBy(before)), HeadersOf(b.got), o, t, mid, Shape(store));
            PassJoin(x, HeadersOf(GotBy(before)), HeadersOf(b.got), o, t, mid);
            RefusedHere(client.server, x, o, log, client.log, t, Shape(store), batches);
          }
        }
        if !ok {
          return;
        }
        if end == to {
          break;
        }
        start := end + 1;
      }
      ok := true;
    }

    /** Writes the cursor row, and the event to the history when the write succeeds. */
    method WriteCursor(c: Cursor, ghost e: Event) returns (ok: bool)
      requires Valid() && Follows(Stored(), e) && CursorAfter(Stored(), e) == Some(c)
      requires Complete(client.server, o, store.seen, client.log, e) && InTime(history, Stored(), e)
      modifies store`calls, store`cursors, `history
      ensures Valid() && ok == !store.fails(old(store.calls)) && store.calls == old(store.calls) + 1
      ensures history == old(history) + (if ok then [e] else [])
      ensures Stored() == if ok then Some(c) else old(Stored())
    {
      hide Blank, Complete, WellOrdered, OwnValidity, CursorOf, Follows, CursorAfter, Client.Honest, InTime;
      Append(start, history, e);
      OwnNext(start, history, e);
      ok := store.SetCursor(o.mailbox, folder, c);
      if ok {
        history := history + [e];
      }
    }

    /** The messages of one baseline fetch, added to what was collected before. */
    static method CollectBaseline(ids: seq<Text>, max: uint32, ms: seq<Message>, preMaxUid: uint32,
                                  ghost before: seq<Message>)
      returns (allIds: seq<Text>, fetchedMax: uint32)
      requires ids == BaselineIds(before, preMaxUid) && max == MaxUid(Uids(before))
      ensures allIds == BaselineIds(before + ms, preMaxUid) && fetchedMax == MaxUid(Uids(before + ms))
    {
      hide BaselineIds, MaxUid, Normalize, Uids;
      allIds, fetchedMax := ids, max;
      ghost var so := before;
      for i := 0 to |ms|
        invariant so == before + ms[..i]
        invariant allIds == BaselineIds(so, preMaxUid) && fetchedMax == MaxUid(Uids(so))
      {
        var msg := ms[i];
        BaselineNext(so, msg, preMaxUid);
        so := so + [msg];
        assert before + ms[..i + 1] == before + ms[..i] + [msg];
        if msg.uid > fetchedMax {
          fetchedMax := msg.uid;
        }
        if msg.uid > preMaxUid {
          continue;
        }
        var id := Normalize(msg.headers.messageId);
        if id != [] {
          allIds := allIds + [id];
        }
      }
      assert ms[..|ms|] == ms;
    }

    /** One fetch of a baseline, unless the context has ended; `b` describes it when it is answered. */
    method FetchIfLive(uids: seq<uint32>) returns (r: Option<seq<Message>>, ghost b: Batch)
      requires client.Honest() && uids != []
      modifies client`time, client`log
      ensures client.Honest() && old(client.time) < client.time && old(client.log) <= client.log
      ensures r.Some? ==>
                && Plain(client.server, b) && b.asked == uids && b.got == r.value
                && old(client.time) <= b.at < client.time
                && client.log == old(client.log) + [FetchOf(b)]
      ensures r.None? ==> NoAnswer(client.server, client.time, old(client.log), client.log)
    {
      hide Parsed, Client.Honest;
      b := Batch(client.time, uids, [], []);
      var live := client.Live();
      if !live {
        return None, b;
      }
      b := b.(at := client.time);
      r := client.Fetch(uids);
      if r.Some? {
        b := b.(raws := client.server.fetch(b.at, uids).value, got := r.value);
      }
    }

    /** The batched header fetches of a baseline, and the ids of the mail that was there before. */
    method FetchBaseline(all: seq<uint32>, preMaxUid: uint32)
      returns (ok: bool, ids: seq<Text>, fetchedMax: uint32, ghost batches: seq<Batch>)
      requires searchBatch > 0 && client.Honest()
      modifies client`time, client`log
      ensures client.Honest() && client.time >= old(client.time) && old(client.log) <= client.log
      ensures !ok ==> NoAnswer(client.server, client.time, old(client.log), client.log)
      ensures ids == BaselineIds(GotBy(batches), preMaxUid) && fetchedMax == MaxUid(Uids(GotBy(batches)))
      ensures Batches(old(client.time), client.time, searchBatch, batches)
      ensures forall b :: b in batches ==> Plain(client.server, b)
      ensures ok ==> AskedBy(batches) == all && client.log == old(client.log) + FetchesOf(batches)
    {
      hide BaselineIds, MaxUid, Uids, AskedBy, GotBy, FetchesOf, FetchOf, Plain, Batches, Client.Honest, NoAnswer;
      ghost var log, at := client.log, client.time;
      ids, fetchedMax, batches := [], 0, [];
      BaselineNone(client.server, preMaxUid, log, at, searchBatch);
      var begin := 0;
      ghost var done := 0;
      while begin < |all|
        invariant 0 <= begin && client.time >= at && client.Honest()
        invariant ids == BaselineIds(GotBy(batches), preMaxUid) && fetchedMax == MaxUid(Uids(GotBy(batches)))
        invariant Batches(at, client.time, searchBatch, batches)
        invariant forall b :: b in batches ==> Plain(client.server, b)
        invariant done == (if begin <= |all| then begin else |all|) && AskedBy(batches) == all[..done]
        invariant client.log == log + FetchesOf(batches)
        decreases |all| - begin
      {
        ghost var before, now := batches, client.time;
        var end := begin + searchBatch;
        if end > |all| {
          end := |all|;
        }
        var messages;
        ghost var b;
        ghost var asked := client.log;
        messages, b := FetchIfLive(all[begin..end]);
        StillNoAnswer(client.server, client.time, log, asked, client.log);
        BatchesLater(at, now, client.time, searchBatch, batches);
        if messages.None? {
          return false, ids, fetchedMax, batches;
        }
        PlainNext(b, at, client.time, searchBatch, before);
        OneMoreBatch(client.server, before, b);
        LogJoin(log, FetchesOf(before), [FetchOf(b)]);
        ids, fetchedMax := CollectBaseline(ids, fetchedMax, messages.value, preMaxUid, GotBy(before));
        batches := before + [b];
        SliceNext(all, begin, end);
        begin, done := begin + searchBatch, end;
      }
      assert all[..|all|] == all;
      ok := true;
    }

    /** Puts the cursor above mail too numerous to mark. */
    method BaselineFolderCursorOnly(validity: uint32, maxUid: uint32, ghost all: seq<uint32>,
                                    ghost selectAt: nat, ghost searchAt: nat, ghost log: seq<Call>) returns (ok: bool)
      requires Valid() && maxUid == MaxUid(all)
      requires var c := Stored(); c.None? || !c.value.baselineDone || Outdated(c, validity)
      requires SelectedAt(client.server, log, selectAt, validity) && client.server.search(searchAt) == Some(all)
      requires client.log == log + [SearchCall(searchAt, Some(all))]
      modifies store`calls, store`cursors, `history
      ensures Valid() && store.calls == old(store.calls) + 1 && ok == !store.fails(old(store.calls))
      ensures history == old(history) + if ok then [BaselineSet(validity, maxUid, selectAt, searchAt, [])] else []
      ensures Stored() == if ok then Some(Cursor(validity, maxUid, true)) else old(Stored())
    {
      hide Blank, Complete, AllComplete, WellOrdered, OwnValidity, CursorOf, MaxUid, Uids, GotBy, FetchesOf, Follows,
        CursorAfter;
      hide Client.Honest;
      NothingFetched(client.server, all, searchAt, client.time, searchBatch, client.log);
      ghost var e := BaselineSet(validity, maxUid, selectAt, searchAt, []);
      BaselineFollows(Stored(), e, client.server, o, store.seen, log, client.log, client.log);
      ok := WriteCursor(Cursor(validity, maxUid, true), e);
    }

    /**
     * Marks the mail that is already there as seen and puts the cursor above it. `searchAt` is the
     * moment of the search, and `batches` are the header fetches.
     */
    method BaselineFolder(validity: uint32, ghost selectAt: nat)
      returns (ok: bool, ghost searchAt: nat, ghost batches: seq<Batch>)
      requires Valid()
      requires var c := Stored(); c.None? || !c.value.baselineDone || Outdated(c, validity)
      requires SelectedAt(client.server, client.log, selectAt, validity)
      modifies store`calls, store`seen, store`cursors, client`time, client`log, `history
      ensures Valid() && client.time >= old(client.time) && old(store.seen) <= store.seen
      ensures old(client.log) <= client.log
      ensures !ok ==> history == old(history) && Stored() == old(Stored())
      ensures old(store.calls) <= store.calls
      ensures !ok ==> || NoAnswer(client.server, client.time, old(client.log), client.log)
                      || BadStatement(store.fails, old(store.calls), store.calls)
      ensures ok ==> old(client.time) <= searchAt < client.time && client.server.search(searchAt).Some?
      ensures ok ==>
                var found := client.server.search(searchAt);
                var all := found.value;
                var last := MaxUid(all + Uids(GotBy(batches)));
                && client.log == old(client.log) + [SearchCall(searchAt, found)] + FetchesOf(batches)
                && history == old(history) + [BaselineSet(validity, last, selectAt, searchAt, batches)]
                && Stored() == Some(Cursor(validity, last, true))
                && Batches(searchAt + 1, client.time, searchBatch, batches)
                && (forall b :: b in batches ==> Plain(client.server, b))
                && if |all| > headerLimit then batches == [] && store.seen == old(store.seen)
                   else
                     && AskedBy(batches) == all
                     && (forall m :: m in GotBy(batches) && m.uid <= MaxUid(all) ==> Remembered(m, o, store.seen))
                     && store.seen == old(store.seen)
                        + RowsOf(Normalize, Blank(o.mailbox), BaselineIds(GotBy(batches), MaxUid(all)))
    {
      hide Normalize, Blank, Complete, AllComplete, WellOrdered, OwnValidity, CursorOf, MaxUid, Uids, RowsOf,
        Remembered, BaselineIds, Follows, Batches, Plain, AskedBy, GotBy, FetchesOf, Client.Honest, CursorAfter,
        SelectedAt, NoAnswer;
      searchAt, batches := 0, [];
      ghost var log, seen := client.log, store.seen;
      var live := client.Live();
      if !live {
        ContextEnded(client.server, client.time, log, client.log);
        return false, searchAt, batches;
      }
      searchAt := client.time;
      var found := client.SearchAll();
      ghost var searched := client.log;
      CompleteGrows(client.server, o, seen, seen, log, searched, history);
      if found.None? {
        CallUnanswered(client.server, client.time, log, client.log);
        return false, searchAt, batches;
      }
      var all := found.value;
      var maxUid := MaxUid(all);
      if |all| > headerLimit {
        NothingFetched(client.server, all, searchAt, client.time, searchBatch, searched);
        ok := BaselineFolderCursorOnly(validity, maxUid, all, selectAt, searchAt, log);
        return ok, searchAt, batches;
      }
      ok, batches := MarkExisting(validity, all, maxUid, selectAt, searchAt, log);
      StillNoAnswer(client.server, client.time, log, searched, client.log);
    }

    /** Fetches the headers of all the mail, marks it as seen and puts the cursor above it. */
    method MarkExisting(validity: uint32, all: seq<uint32>, preMaxUid: uint32,
                        ghost selectAt: nat, ghost searchAt: nat, ghost log: seq<Call>)
      returns (ok: bool, ghost batches: seq<Batch>)
      requires Valid() && preMaxUid == MaxUid(all)
      requires var c := Stored(); c.None? || !c.value.baselineDone || Outdated(c, validity)
      requires SelectedAt(client.server, log, selectAt, validity) && client.server.search(searchAt) == Some(all)
      requires client.log == log + [SearchCall(searchAt, Some(all))] && client.time == searchAt + 1
      modifies store`calls, store`seen, store`cursors, client`time, client`log, `history
      ensures Valid() && client.time >= old(client.time) && old(client.log) <= client.log
      ensures old(store.seen) <= store.seen && old(store.calls) <= store.calls
      ensures !ok ==> history == old(history) && Stored() == old(Stored())
      ensures !ok ==> || NoAnswer(client.server, client.time, old(client.log), client.log)
                      || BadStatement(store.fails, old(store.calls), store.calls)
      ensures ok ==>
                var last := MaxUid(all + Uids(GotBy(batches)));
                && client.log == old(client.log) + FetchesOf(batches) && AskedBy(batches) == all
                && history == old(history) + [BaselineSet(validity, last, selectAt, searchAt, batches)]
                && Stored() == Some(Cursor(validity, last, true))
                && Batches(searchAt + 1, client.time, searchBatch, batches)
                && (forall b :: b in batches ==> Plain(client.server, b))
                && (forall m :: m in GotBy(batches) && m.uid <= preMaxUid ==> Remembered(m, o, store.seen))
                && store.seen == old(store.seen)
                   + RowsOf(Normalize, Blank(o.mailbox), BaselineIds(GotBy(batches), preMaxUid))
    {
      hide Normalize, Blank, Complete, AllComplete, WellOrdered, OwnValidity, CursorOf, MaxUid, Uids, RowsOf,
        Remembered, BaselineIds, Follows, Batches, Plain, AskedBy, GotBy, FetchesOf, Client.Honest, CursorAfter,
        SelectedAt, NoAnswer, BadStatement;
      ghost var seen, searched := store.seen, client.log;
      var ids, fetchedMax;
      ok, ids, fetchedMax, batches := FetchBaseline(all, preMaxUid);
      CompleteGrows(client.server, o, seen, seen, searched, client.log, history);
      if !ok {
        return;
      }
      var maxUid := preMaxUid;
      MaxUidJoin(all, Uids(GotBy(batches)));
      if fetchedMax > maxUid {
        maxUid := fetchedMax;
      }
      BaselineRemembers(GotBy(batches), preMaxUid, o, seen);
      BatchesAfter(searchAt + 1, client.time, searchBatch, batches);
      ghost var e := BaselineSet(validity, maxUid, selectAt, searchAt, batches);
      BaselineFollows(Stored(), e, client.server, o, store.seen, log, searched, client.log);
      ok := RecordBaseline(validity, maxUid, ids, e);
    }

    /** Marks these ids as seen and then writes the cursor. */
    method RecordBaseline(validity: uint32, maxUid: uint32, ids: seq<Text>, ghost e: Event) returns (ok: bool)
      requires Valid() && Follows(Stored(), e) && CursorAfter(Stored(), e) == Some(Cursor(validity, maxUid, true))
      requires e.BaselineSet? && Complete(client.server, o, store.seen, client.log, e)
      modifies store`calls, store`seen, store`cursors, `history
      ensures Valid() && old(store.seen) <= store.seen && old(store.calls) <= store.calls
      ensures !ok ==> BadStatement(store.fails, old(store.calls), store.calls)
      ensures ok ==> store.seen == old(store.seen) + RowsOf(Normalize, Blank(o.mailbox), ids)
      ensures history == old(history) + if ok then [e] else []
      ensures Stored() == if ok then Some(Cursor(validity, maxUid, true)) else old(Stored())
    {
      hide Normalize, Blank, AllComplete, BaselineComplete, WellOrdered, OwnValidity, CursorOf, RowsOf, Follows,
        CursorAfter;
      hide Client.Honest;
      ghost var count: nat;
      ghost var seen := store.seen;
      ok, count := store.MarkSeenMessages(o.mailbox, ids);
      CompleteGrows(client.server, o, seen, store.seen, client.log, client.log, history);
      if ok {
        assert ids[..count] == ids;
        ok := WriteCursor(Cursor(validity, maxUid, true), e);
      }
    }

    /** Indexes the mail above the cursor and moves the cursor; `last` is where it then stands. */
    method SyncFolderUids(selected: Selected, cursor: Option<Cursor>, ghost selectAt: nat)
      returns (ok: bool, last: uint32)
      requires Valid()
      requires cursor == Stored() || (cursor.None? && Outdated(Stored(), selected.uidValidity))
      requires cursor.Some? ==> CurrentOrMade(history, cursor, selected.uidValidity, selectAt)
      requires SelectCall(selectAt, Some(selected)) in client.log
      modifies store`calls, store`threads, store`createdAt, store`seen, store`cursors, client`time, client`log, `history
      ensures Valid() && client.time >= old(client.time) && old(client.log) <= client.log
      ensures old(store.seen) <= store.seen && KeepsThreads(o.mailbox, old(Shape(store)), Shape(store))
      ensures !ok ==> history == old(history) && Stored() == old(Stored())
      ensures old(store.calls) <= store.calls
      ensures !ok ==> || NoAnswer(client.server, client.time, old(client.log), client.log)
                      || BadStatement(store.fails, old(store.calls), store.calls)
                      || RefusedMail(client.server, x, o, old(client.log), client.log, Shape(store))
      ensures ok ==> NoneSelected(old(client.log), client.log)
      ensures ok ==> !NewMailUidRange(last, selected.uidNext).hasNew
      ensures ok ==>
                if !NewMailUidRange(LastUid(cursor), selected.uidNext).hasNew
                then
                  && last == LastUid(cursor) && history == old(history) && Stored() == old(Stored())
                  && client.log == old(client.log) && Shape(store) == old(Shape(store))
                else
                  var done := cursor.Some? ==> cursor.value.baselineDone;
                  && last as int == selected.uidNext as int - 1
                  && Stored() == Some(Cursor(selected.uidValidity, last, done))
                  && |history| == |old(history)| + 1
                  && var e := history[|old(history)|];
                     && e.RangeIndexed? && history == old(history) + [e]
                     && e == RangeIndexed(selected.uidValidity, NewMailUidRange(LastUid(cursor), selected.uidNext).from,
                                          last, done, cursor.Some?, selectAt, e.batches)
                     && client.log == old(client.log) + CallsBy(client.server, e.batches)
                     && Pass(x, HeadersOf(GotBy(e.batches)), o, old(Shape(store))) == (Shape(store), true)
    {
      hide Normalize, Blank, Complete, AllComplete, WellOrdered, OwnValidity, CursorOf, Interrupted, Pass, Interval,
        Follows, Batches, Retried, CallsBy, AskedBy, GotBy, Ints, KeepsThreads, NoneSelected, Client.Honest, NoAnswer,
        RefusedMail;
      ghost var t, log := Shape(store), client.log;
      SameThreads(o.mailbox, t);
      HonestSelect(client, selectAt, selected);
      var live := client.Live();
      if !live {
        ContextEnded(client.server, client.time, log, client.log);
        return false, 0;
      }
      var lastUid := LastUid(cursor);
      var range := NewMailUidRange(lastUid, selected.uidNext);
      if !range.hasNew {
        return true, lastUid;
      }
      ghost var begin := client.time;
      ghost var batches;
      ok, batches := IndexUidRange(range.from, range.to);
      PassKeepsThreads(x, HeadersOf(GotBy(batches)), o, t, Shape(store));
      CompleteGrows(client.server, o, t.seen, store.seen, log, client.log, history);
      if !ok {
        return false, lastUid;
      }
      var baselineDone := cursor.Some? ==> cursor.value.baselineDone;
      ghost var e := RangeIndexed(selected.uidValidity, range.from, range.to, baselineDone, cursor.Some?,
                                  selectAt, batches);
      RangeFollows(Stored(), cursor, selected, selectAt, batches);
      OnlyFetches(client.server, log, batches);
      RangeIsComplete(client.server, x, o, e, t, Shape(store), log, begin, client.time, Wrap(searchBatch) as int);
      ok := WriteCursor(Cursor(selected.uidValidity, range.to, baselineDone), e);
      return ok, if ok then range.to else lastUid;
    }

    method SelectFolder() returns (answer: Option<Selected>)
      requires Valid()
      modifies client`time, client`log
      ensures Valid() && client.time == old(client.time) + 1
      ensures client.log == old(client.log) + [SelectCall(old(client.time), answer)]
      ensures NoSelectAfter(client.log, old(client.time)) && EventsBy(history, old(client.time))
      ensures answer == client.server.select(old(client.time))
      ensures answer.Some? ==> SelectedAt(client.server, client.log, old(client.time), answer.value.uidValidity)
      ensures answer.None? ==> NoAnswer(client.server, client.time, old(client.log), client.log)
    {
      hide Blank, AllComplete, WellOrdered, OwnValidity, CursorOf, NoSelectAfter, EventsBy, SelectedAt, AllBefore,
        Client.Honest;
      HonestPast(client);
      SelectLogged(client.server, o, store.seen, client.log, client.time, history);
      answer := client.Select();
    }

    method ReadCursor() returns (cursor: Option<Cursor>, ok: bool)
      requires Valid()
      modifies store`calls
      ensures Valid() && ok == !store.fails(old(store.calls)) && store.calls == old(store.calls) + 1
      ensures cursor == if ok then Stored() else None
    {
      hide Blank, AllComplete, WellOrdered, OwnValidity, CursorOf, Client.Honest;
      cursor, ok := store.GetCursor(o.mailbox, folder);
    }

    /**
     * The first half of a sync, up to the UIDs: select, drop an outdated cursor, and make the
     * baseline if there is none and select again. `selectAt` is the moment of the last SELECT;
     * `dropped` and `made` are the cursor writes.
     */
    method SelectWithBaseline()
      returns (ok: bool, selected: Selected, cursor: Option<Cursor>, ghost selectAt: nat,
               ghost dropped: seq<Event>, ghost made: seq<Event>)
      requires Valid()
      modifies store`calls, store`seen, store`cursors, client`time, client`log, `history
      ensures Valid() && old(client.time) <= client.time && old(client.log) <= client.log
      ensures old(store.seen) <= store.seen && old(store.calls) <= store.calls
      ensures !ok ==> || NoAnswer(client.server, client.time, old(client.log), client.log)
                      || BadStatement(store.fails, old(store.calls), store.calls)
      ensures history == old(history) + dropped + made
      ensures Prepared(client.server, old(client.time), skipExisting, old(Stored()), ok, dropped, made)
      ensures ok ==> old(client.time) <= selectAt < client.time && (made == [] ==> selectAt == old(client.time))
      ensures ok ==> SelectCall(selectAt, Some(selected)) in client.log && NoSelectAfter(client.log, selectAt)
      ensures ok ==> EventsBy(history, selectAt)
      ensures ok ==> cursor == CursorFor(client.server, old(client.time), old(Stored()), made)
      ensures ok ==> cursor == Stored() || (cursor.None? && Outdated(Stored(), selected.uidValidity))
      ensures ok && cursor.Some? ==> CurrentOrMade(history, cursor, selected.uidValidity, selectAt)
      ensures ok && skipExisting ==> Stored().Some? && Stored().value.baselineDone
    {
      hide Blank, AllComplete, WellOrdered, OwnValidity, CursorOf, NoSelectAfter, EventsBy, Client.Honest, NoAnswer,
        BadStatement, CurrentOrMade, SelectedAt;
      selected, cursor, selectAt, dropped, made := Selected(0, 0), None, client.time, [], [];
      ghost var h, log, calls := history, client.log, store.calls;
      assert h + [] == h;
      var answer := SelectFolder();
      if answer.None? {
        return false, selected, cursor, selectAt, dropped, made;
      }
      selected := answer.value;
      SelectIsLogged(client.server, client.log, selectAt, selected.uidValidity);
      cursor, ok := ReadCursor();
      if !ok {
        OneStatement(store.fails, calls, store.calls);
        return;
      }
      if cursor.Some? && cursor.value.uidValidity != 0 && cursor.value.uidValidity != selected.uidValidity {
        dropped := DropCursor(selected.uidValidity);
        EventsMore(h, history, selectAt);
        cursor := None;
      }
      assert h + dropped + [] == h + dropped;
      if !skipExisting || (cursor.Some? && cursor.value.baselineDone) {
        StillCurrent(history, cursor, selected.uidValidity, selectAt);
        return;
      }
      ghost var asked, sent := client.log, store.calls;
      ok, selected, cursor, selectAt, made := BaselineAndSelect(selected.uidValidity, selectAt);
      EarlierCalls(client.server, client.time, log, asked, client.log, store.fails, calls, sent, store.calls);
    }

    /** A baseline, and then the SELECT and the cursor once more. */
    method BaselineAndSelect(validity: uint32, ghost before: nat)
      returns (ok: bool, selected: Selected, cursor: Option<Cursor>, ghost selectAt: nat, ghost made: seq<Event>)
      requires Valid() && SelectedAt(client.server, client.log, before, validity)
      requires var c := Stored(); c.None? || !c.value.baselineDone || Outdated(c, validity)
      modifies store`calls, store`seen, store`cursors, client`time, client`log, `history
      ensures Valid() && old(client.time) <= client.time && old(client.log) <= client.log
      ensures old(store.seen) <= store.seen && old(store.calls) <= store.calls
      ensures !ok ==> || NoAnswer(client.server, client.time, old(client.log), client.log)
                      || BadStatement(store.fails, old(store.calls), store.calls)
      ensures history == old(history) + made && |made| <= 1
      ensures made != [] ==> made[0].BaselineSet? && made[0].validity == validity
      ensures ok ==> old(client.time) <= selectAt < client.time
      ensures ok ==> SelectCall(selectAt, Some(selected)) in client.log && NoSelectAfter(client.log, selectAt)
      ensures ok ==> EventsBy(history, selectAt)
      ensures ok ==> made != [] && cursor == Stored() == Some(Cursor(validity, made[0].last, true))
      ensures ok ==> CurrentOrMade(history, cursor, selected.uidValidity, selectAt)
    {
      hide Blank, AllComplete, WellOrdered, OwnValidity, CursorOf, MaxUid, Uids, RowsOf, BaselineIds, Remembered,
        Normalize, NoSelectAfter, EventsBy, Batches, Plain, AskedBy, GotBy, FetchesOf, Client.Honest, NoAnswer,
        BadStatement;
      selected, cursor, selectAt, made := Selected(0, 0), None, client.time, [];
      ghost var h, log, calls := history, client.log, store.calls;
      assert h + [] == h;
      ghost var searchAt, batches;
      ok, searchAt, batches := BaselineFolder(validity, before);
      if !ok {
        return;
      }
      made := [history[|h|]];
      selectAt := client.time;
      ghost var asked := client.log;
      var answer := SelectFolder();
      StillNoAnswer(client.server, client.time, log, asked, client.log);
      if answer.None? {
        return false, selected, cursor, selectAt, made;
      }
      selected := answer.value;
      cursor, ok := ReadCursor();
      OneStatement(store.fails, calls, store.calls);
    }

    /**
     * One whole sync of the folder. `used` is the answer of its last SELECT, made at `selectAt`,
     * and `last` is the UID up to which everything was indexed. `dropped`, `made` and `indexed` are
     * the cursor writes: of a reset, of a baseline and of a range.
     */
    method SyncFolder()
      returns (ok: bool, ghost used: Selected, ghost selectAt: nat, ghost last: uint32,
               ghost dropped: seq<Event>, ghost made: seq<Event>, ghost indexed: seq<Event>)
      requires Valid()
      modifies store`calls, store`threads, store`createdAt, store`seen, store`cursors, client`time, client`log, `history
      ensures Valid() && old(client.time) <= client.time && old(client.log) <= client.log
      ensures old(store.seen) <= store.seen && KeepsThreads(o.mailbox, old(Shape(store)), Shape(store))
      ensures !ok ==> || NoAnswer(client.server, client.time, old(client.log), client.log)
                      || BadStatement(store.fails, old(store.calls), store.calls)
                      || RefusedMail(client.server, x, o, old(client.log), client.log, Shape(store))
      ensures history == old(history) + dropped + made + indexed
      ensures exists go :: (ok ==> go)
                           && Prepared(client.server, old(client.time), skipExisting, old(Stored()), go, dropped, made)
      ensures !ok ==> indexed == []
      ensures ok ==> Synced(CursorFor(client.server, old(client.time), old(Stored()), made), used, selectAt,
                            indexed, last)
      ensures ok ==> old(client.time) <= selectAt < client.time && (made == [] ==> selectAt == old(client.time))
      ensures ok ==> SelectCall(selectAt, Some(used)) in client.log && NoSelectAfter(client.log, selectAt)
      ensures ok ==> EventsBy(history, selectAt)
      ensures ok ==> !NewMailUidRange(last, used.uidNext).hasNew
      ensures ok && !Outdated(Stored(), used.uidValidity) ==> last == LastUid(Stored())
      ensures ok && skipExisting ==> Stored().Some? && Stored().value.baselineDone
    {
      hide Blank, AllComplete, WellOrdered, OwnValidity, CursorOf, KeepsThreads, NoneSelected, NoSelectAfter, EventsBy,
        CallsBy, GotBy, Pass, Client.Honest, NoAnswer, BadStatement, RefusedMail, Prepared;
      last, indexed := 0, [];
      ghost var t, h, log, calls := Shape(store), history, client.log, store.calls;
      SameThreads(o.mailbox, t);
      var selected, cursor;
      ok, selected, cursor, selectAt, dropped, made := SelectWithBaseline();
      used := selected;
      assert history + [] == history;
      if !ok {
        return;
      }
      ghost var mid, asked, sent, events := Shape(store), client.log, store.calls, history;
      ok, last := SyncFolderUids(selected, cursor, selectAt);
      ThreadsFrom(o.mailbox, t, mid, Shape(store));
      EarlierCalls(client.server, client.time, log, asked, client.log, store.fails, calls, sent, store.calls);
      StillRefused(client.server, x, o, log, asked, client.log, Shape(store));
      if ok {
        indexed := history[|events|..];
        StillLast(asked, client.log, selectAt);
        EventsMore(events, history, selectAt);
      }
    }

    /** Removes the row of an outdated cursor; a failure is ignored. */
    method DropCursor(validity: uint32) returns (ghost dropped: seq<Event>)
      requires Valid() && Outdated(Stored(), validity)
      modifies store`calls, store`cursors, `history
      ensures Valid() && store.calls == old(store.calls) + 1
      ensures dropped == (if store.fails(old(store.calls)) then [] else [CursorDropped(validity)])
      ensures history == old(history) + dropped
      ensures Stored() == if dropped == [] then old(Stored()) else None
    {
      hide Blank, Complete, AllComplete, WellOrdered, OwnValidity, CursorOf, Client.Honest;
      Append(start, history, CursorDropped(validity));
      OwnNext(start, history, CursorDropped(validity));
      dropped := [];
      var ok := store.DeleteCursor(o.mailbox, folder);
      if ok {
        DropIsComplete(client.server, o, store.seen, client.log, history, validity);
        dropped := [CursorDropped(validity)];
        history := history + dropped;
      }
    }

    /** The UIDs of a batch, listed out one by one. */
    static method ListUids(start: uint32, end: uint32) returns (batch: seq<uint32>)
      requires start <= end && end as int < MAX_UID
      ensures |batch| == end as int - start as int + 1
      ensures forall k :: 0 <= k < |batch| ==> batch[k] as int == start as int + k
    {
      batch := [];
      var uid := start;
      while uid <= end
        invariant start <= uid && uid as int <= end as int + 1
        invariant |batch| == uid as int - start as int
        invariant forall k :: 0 <= k < |batch| ==> batch[k] as int == start as int + k
      {
        batch := batch + [uid];
        uid := Wrap(uid as int + 1);
      }
    }
  }

  /** Whether a sync that skips existing mail has to make a baseline. */
  predicate NeedsBaseline(stored: Option<Cursor>, validity: uint32) {
    stored.None? || !stored.value.baselineDone || Outdated(stored, validity)
  }

  /**
   * What a sync writes before its UIDs, from its first SELECT at `at` and the cursor stored then: it
   * drops only a cursor of another UIDVALIDITY, and makes a baseline exactly when one is needed.
   */
  ghost predicate Prepared(s: Server, at: nat, skip: bool, stored: Option<Cursor>, ok: bool,
                           dropped: seq<Event>, made: seq<Event>) {
    && |dropped| <= 1 && |made| <= 1
    && (ok || dropped != [] || made != [] ==> s.select(at).Some?)
    && (dropped != [] ==> dropped[0] == CursorDropped(s.select(at).value.uidValidity)
                          && Outdated(stored, s.select(at).value.uidValidity))
    && (made != [] ==> made[0].BaselineSet? && made[0].validity == s.select(at).value.uidValidity
                       && skip && NeedsBaseline(stored, s.select(at).value.uidValidity))
    && (ok && skip && NeedsBaseline(stored, s.select(at).value.uidValidity) ==> made != [])
  }

  /** The cursor a sync goes on with: that of its baseline, or the stored one unless it is outdated. */
  ghost function CursorFor(s: Server, at: nat, stored: Option<Cursor>, made: seq<Event>): Option<Cursor> {
    if made != [] && made[0].BaselineSet? then Some(Cursor(made[0].validity, made[0].last, true))
    else if s.select(at).Some? && Outdated(stored, s.select(at).value.uidValidity) then None
    else stored
  }

  /** The range that a finished sync indexes from that cursor on: none, or all up to UIDNEXT. */
  ghost predicate Synced(c: Option<Cursor>, used: Selected, selectAt: nat, indexed: seq<Event>, last: uint32) {
    var r := NewMailUidRange(LastUid(c), used.uidNext);
    if !r.hasNew then indexed == [] && last == LastUid(c)
    else
      && |indexed| == 1 && indexed[0].RangeIndexed? && last as int == used.uidNext as int - 1
      && indexed[0] == RangeIndexed(used.uidValidity, r.from, last, c.Some? ==> c.value.baselineDone, c.Some?,
                                    selectAt, indexed[0].batches)
  }

  /** The cursor has this UIDVALIDITY or none, or comes from the baseline of the same sync. */
  predicate CurrentOrMade(h: seq<Event>, c: Option<Cursor>, validity: uint32, selectAt: nat) {
    !Outdated(c, validity) || (h != [] && h[|h| - 1].BaselineSet? && h[|h| - 1].search < selectAt)
  }

  /**
   * A folder whose UIDVALIDITY has changed starts over: when it has mail, a finished sync has made a
   * baseline, or indexed from UID 1 up to UIDNEXT without resuming.
   */
  lemma RecreatedStartsOver(s: Server, at: nat, skip: bool, stored: Option<Cursor>, used: Selected, selectAt: nat,
                            dropped: seq<Event>, made: seq<Event>, indexed: seq<Event>, last: uint32)
    requires Prepared(s, at, skip, stored, true, dropped, made)
    requires Synced(CursorFor(s, at, stored, made), used, selectAt, indexed, last)
    requires Outdated(stored, s.select(at).value.uidValidity) && used.uidNext > 1
    ensures skip ==> |made| == 1 && made[0].BaselineSet? && made[0].validity == s.select(at).value.uidValidity
    ensures !skip ==> made == [] && |indexed| == 1 && indexed[0].RangeIndexed? && !indexed[0].resumed
                      && indexed[0].from == 1 && indexed[0].to as int == used.uidNext as int - 1
  {
  }

  /** Without a cursor and a baseline, every UID below UIDNEXT is asked for. */
  lemma FirstSyncTakesAll(s: Server, at: nat, used: Selected, selectAt: nat, dropped: seq<Event>, made: seq<Event>,
                          indexed: seq<Event>, last: uint32)
    requires Prepared(s, at, false, None, true, dropped, made) && used.uidNext > 1
    requires Synced(CursorFor(s, at, None, made), used, selectAt, indexed, last)
    ensures |indexed| == 1 && indexed[0].RangeIndexed? && !indexed[0].resumed
    ensures indexed[0].from == 1 && indexed[0].to as int == used.uidNext as int - 1
  {
  }

  lemma StillCurrent(h: seq<Event>, c: Option<Cursor>, validity: uint32, selectAt: nat)
    ensures !Outdated(c, validity) ==> CurrentOrMade(h, c, validity, selectAt)
  {
  }

  lemma SelectIsLogged(s: Server, log: seq<Call>, at: nat, validity: uint32)
    ensures SelectedAt(s, log, at, validity) ==>
              s.select(at).Some? && s.select(at).value.uidValidity == validity && SelectCall(at, s.select(at)) in log
  {
  }

  lemma ContextEnded(s: Server, time: nat, before: seq<Call>, log: seq<Call>)
    requires time > 0 && !s.live(time - 1)
    ensures NoAnswer(s, time, before, log)
  {
  }

  lemma CallUnanswered(s: Server, time: nat, before: seq<Call>, log: seq<Call>)
    requires |before| < |log| && Unanswered(log[|log| - 1])
    ensures NoAnswer(s, time, before, log)
  {
  }

  lemma StillNoAnswer(s: Server, time: nat, before: seq<Call>, mid: seq<Call>, log: seq<Call>)
    requires before <= mid
    ensures NoAnswer(s, time, mid, log) ==> NoAnswer(s, time, before, log)
  {
  }

  lemma EarlierCalls(s: Server, time: nat, before: seq<Call>, mid: seq<Call>, log: seq<Call>,
                     fails: nat -> bool, from: nat, sent: nat, calls: nat)
    requires before <= mid && from <= sent
    ensures NoAnswer(s, time, mid, log) ==> NoAnswer(s, time, before, log)
    ensures BadStatement(fails, sent, calls) ==> BadStatement(fails, from, calls)
  {
  }

  lemma OneStatement(fails: nat -> bool, before: nat, calls: nat)
    ensures before < calls && fails(calls - 1) ==> BadStatement(fails, before, calls)
  {
  }

  lemma RefusedHere(s: Server, x: Extractors, o: Options, before: seq<Call>, log: seq<Call>, t: Tables, after: Tables,
                    bs: seq<Batch>)
    requires log == before + CallsBy(s, bs) && forall b :: b in bs ==> Retried(s, b)
    ensures Pass(x, HeadersOf(GotBy(bs)), o, t) == (after, false) ==> RefusedMail(s, x, o, before, log, after)
  {
    hide CallsBy, Retried, Pass, GotBy;
  }

  lemma StillRefused(s: Server, x: Extractors, o: Options, before: seq<Call>, mid: seq<Call>, log: seq<Call>,
                     after: Tables)
    requires before <= mid
    ensures RefusedMail(s, x, o, mid, log, after) ==> RefusedMail(s, x, o, before, log, after)
  {
    hide CallsBy, Retried, Pass, GotBy;
  }

  /** A pass that comes to a message the store refuses ends there. */
  lemma RefusedPass(x: Extractors, hs: seq<Headers>, i: nat, o: Options, t: Tables, mid: Tables)
    requires i < |hs| && Pass(x, hs[..i], o, t) == (mid, true)
    ensures PlanFor(x, hs[i], o, mid.seen).Refused? ==> Pass(x, hs, o, t) == (mid, false)
  {
    hide PlanFor, ApplyAll;
    PassJoin(x, hs[..i], hs[i..], o, t, mid);
    assert hs[..i] + hs[i..] == hs && hs[i..][0] == hs[i];
  }

  /** A SELECT with this UIDVALIDITY was answered at that moment. */
  ghost predicate SelectedAt(s: Server, log: seq<Call>, at: nat, validity: uint32) {
    && s.select(at).Some? && s.select(at).value.uidValidity == validity
    && SelectCall(at, s.select(at)) in log
  }

  /** The calls made after `log` select nothing. */
  ghost predicate NoneSelected(log: seq<Call>, longer: seq<Call>) {
    && log <= longer
    && forall k :: |log| <= k < |longer| ==> !longer[k].SelectCall?
  }

  /** No SELECT in the log is later than this moment. */
  ghost predicate NoSelectAfter(log: seq<Call>, at: nat) {
    forall c :: c in log && c.SelectCall? ==> c.at <= at
  }

  /** Everything the cursor writes rely on was asked no later than this SELECT, and baselines before it. */
  ghost predicate EventsBy(h: seq<Event>, selectAt: nat) {
    && (forall e :: e in h && e.RangeIndexed? ==> e.select <= selectAt)
    && (forall e :: e in h && e.BaselineSet? ==>
          e.search < selectAt && forall b :: b in e.batches ==> b.at < selectAt)
  }

  ghost predicate AllBefore(log: seq<Call>, at: nat) { forall c :: c in log ==> c.at < at }

  lemma HonestPast(client: Client)
    requires client.Honest()
    ensures AllBefore(client.log, client.time)
  {
  }

  lemma SelectLogged(s: Server, o: Options, seen: set<Row>, log: seq<Call>, at: nat, h: seq<Event>)
    requires AllBefore(log, at) && AllComplete(s, o, seen, log, h)
    ensures var answer := s.select(at);
            var longer := log + [SelectCall(at, answer)];
            && AllComplete(s, o, seen, longer, h) && NoSelectAfter(longer, at)
            && (answer.Some? ==> SelectedAt(s, longer, at, answer.value.uidValidity))
    ensures EventsBy(h, at)
  {
    hide Retried, Plain, MaxUid, Ints, Interval, Uids, AskedBy, GotBy, Remembered;
    var longer := log + [SelectCall(at, s.select(at))];
    assert longer[|log|] == SelectCall(at, s.select(at));
    CompleteGrows(s, o, seen, seen, log, longer, h);
    forall e | e in h && e.RangeIndexed? ensures e.select <= at {
      assert Complete(s, o, seen, log, e);
    }
    forall e | e in h && e.BaselineSet?
      ensures e.search < at && forall b :: b in e.batches ==> b.at < at
    {
      assert Complete(s, o, seen, log, e);
      forall b | b in e.batches ensures b.at < at {
        assert FetchOf(b).at < at;
      }
    }
  }

  lemma EventsMore(before: seq<Event>, after: seq<Event>, at: nat)
    requires EventsBy(before, at)
    requires || after == before
             || exists e :: after == before + [e] && !e.BaselineSet? && (e.RangeIndexed? ==> e.select <= at)
    ensures EventsBy(after, at)
  {
  }

  lemma StillLast(log: seq<Call>, longer: seq<Call>, at: nat)
    requires NoSelectAfter(log, at) && NoneSelected(log, longer)
    ensures NoSelectAfter(longer, at)
  {
    forall c | c in longer && c.SelectCall? ensures c.at <= at {
      var k :| 0 <= k < |longer| && longer[k] == c;
      if k < |log| {
        assert log[k] == c;
      }
    }
  }

  lemma DropIsComplete(s: Server, o: Options, seen: set<Row>, log: seq<Call>, h: seq<Event>, v: uint32)
    requires AllComplete(s, o, seen, log, h)
    ensures AllComplete(s, o, seen, log, h + [CursorDropped(v)])
  {
    hide RangeComplete, BaselineComplete;
  }

  lemma SameThreads(mailbox: Text, t: Tables)
    ensures forall t2: Tables :: t2.threads == t.threads ==> KeepsThreads(mailbox, t, t2)
    ensures forall log :: NoneSelected(log, log)
  {
  }

  lemma ThreadsFrom(mailbox: Text, t: Tables, mid: Tables, after: Tables)
    requires t.threads == mid.threads && t.seen <= mid.seen && KeepsThreads(mailbox, mid, after)
    ensures KeepsThreads(mailbox, t, after)
  {
    hide Blank;
  }

  lemma HonestSelect(client: Client, at: nat, selected: Selected)
    requires client.Honest() && SelectCall(at, Some(selected)) in client.log
    ensures at < client.time && client.server.select(at) == Some(selected)
  {
  }

  lemma {:induction false} RetriesSelectNothing(s: Server, time: nat, attempt: nat, pending: seq<uint32>)
    ensures forall c :: c in RetryCalls(s, time, attempt, pending) ==> c.FetchCall?
    decreases MAX_RETRIES + 1 - attempt
  {
    hide Still, ById, Parsed;
    if attempt <= MAX_RETRIES && pending != [] && s.live(time) && s.fetch(time + 1, pending).Some? {
      var re := ById(Parsed(s.fetch(time + 1, pending).value));
      RetriesSelectNothing(s, time + 2, attempt + 1, Still(pending, re));
    }
  }

  lemma {:induction false} BatchesFetch(s: Server, bs: seq<Batch>)
    ensures forall c :: c in CallsBy(s, bs) ==> c.FetchCall?
    decreases |bs|
  {
    hide RetryCalls, Empties, Parsed;
    if bs != [] {
      var b := bs[|bs| - 1];
      BatchesFetch(s, bs[..|bs| - 1]);
      RetriesSelectNothing(s, b.at + 1, 1, Empties(Parsed(b.raws)));
    }
  }

  lemma OnlyFetches(s: Server, log: seq<Call>, bs: seq<Batch>)
    ensures NoneSelected(log, log + CallsBy(s, bs))
  {
    hide CallsBy;
    BatchesFetch(s, bs);
    var longer := log + CallsBy(s, bs);
    forall k | |log| <= k < |longer| ensures !longer[k].SelectCall? {
      assert longer[k] == CallsBy(s, bs)[k - |log|];
      assert longer[k] in CallsBy(s, bs);
    }
  }

  lemma BaselineNone(s: Server, preMaxUid: uint32, log: seq<Call>, at: nat, size: int)
    ensures AskedBy([]) == [] && GotBy([]) == [] && FetchesOf([]) == [] && log + [] == log
    ensures BaselineIds([], preMaxUid) == [] && Uids([]) == [] && MaxUid([]) == 0
    ensures Batches(at, at, size, [])
  {
  }

  lemma PlainNext(b: Batch, begin: nat, now: nat, size: int, bs: seq<Batch>)
    requires Batches(begin, now, size, bs) && begin <= b.at < now && 0 < |b.asked| <= size
    ensures Batches(begin, now, size, bs + [b])
  {
  }

  lemma NothingFetched(s: Server, all: seq<uint32>, searchAt: nat, now: nat, size: int, log: seq<Call>)
    ensures all + Uids(GotBy([])) == all && FetchesOf([]) == [] && log + [] == log
    ensures Batches(searchAt + 1, now, size, [])
  {
  }

  lemma BatchesAfter(begin: nat, now: nat, size: int, bs: seq<Batch>)
    requires Batches(begin, now, size, bs)
    ensures forall b :: b in bs ==> begin <= b.at
  {
  }

  lemma BaselineFollows(c: Option<Cursor>, e: Event, s: Server, o: Options, seen: set<Row>,
                        log: seq<Call>, searched: seq<Call>, now: seq<Call>)
    requires e.BaselineSet? && (c.None? || !c.value.baselineDone || Outdated(c, e.validity))
    requires SelectedAt(s, log, e.select, e.validity) && s.search(e.search).Some?
    requires searched == log + [SearchCall(e.search, s.search(e.search))] && now == searched + FetchesOf(e.batches)
    requires forall b :: b in e.batches ==> e.search < b.at && Plain(s, b)
    requires var all := s.search(e.search).value;
             && (AskedBy(e.batches) == all || e.batches == [])
             && e.last == MaxUid(all + Uids(GotBy(e.batches)))
    ensures Follows(c, e) && CursorAfter(c, e) == Some(Cursor(e.validity, e.last, true))
    ensures Complete(s, o, seen, now, e)
  {
    hide MaxUid, Uids, Plain, AskedBy, GotBy, FetchesOf, FetchOf;
    assert now[|log|] == SearchCall(e.search, s.search(e.search));
    forall b | b in e.batches ensures FetchOf(b) in now {
      FetchLogged(e.batches, b);
    }
  }

  lemma RangeFollows(stored: Option<Cursor>, cursor: Option<Cursor>, selected: Selected, at: nat, bs: seq<Batch>)
    requires cursor == stored || (cursor.None? && Outdated(stored, selected.uidValidity))
    requires NewMailUidRange(LastUid(cursor), selected.uidNext).hasNew
    ensures var r := NewMailUidRange(LastUid(cursor), selected.uidNext);
            var done := cursor.Some? ==> cursor.value.baselineDone;
            Follows(stored, RangeIndexed(selected.uidValidity, r.from, r.to, done, cursor.Some?, at, bs))
  {
  }

  lemma RangeIsComplete(s: Server, x: Extractors, o: Options, e: Event, t: Tables, after: Tables,
                        log: seq<Call>, begin: nat, now: nat, size: int)
    requires e.RangeIndexed? && (e.to as int) < MAX_UID
    requires SelectCall(e.select, Some(Selected(e.validity, e.to + 1))) in log && e.select < begin
    requires Batches(begin, now, size, e.batches) && forall b :: b in e.batches ==> Retried(s, b)
    requires Ints(AskedBy(e.batches)) == Interval(e.from as int, e.to as int + 1)
    requires Pass(x, HeadersOf(GotBy(e.batches)), o, t) == (after, true)
    ensures Complete(s, o, after.seen, log + CallsBy(s, e.batches), e)
  {
    hide Pass, Remembered, Retried, CallsBy, AskedBy, GotBy, Ints, Interval, FetchOf;
    forall m | m in GotBy(e.batches) ensures Remembered(m, o, after.seen) {
      PassRemembers(x, GotBy(e.batches), o, t, m);
    }
    forall b | b in e.batches ensures e.select < b.at && FetchOf(b) in log + CallsBy(s, e.batches) {
      CallLogged(s, e.batches, b);
    }
  }

  lemma SliceNext(all: seq<uint32>, begin: nat, end: nat)
    requires begin <= end <= |all|
    ensures all[..begin] + all[begin..end] == all[..end]
  {
  }

  lemma UidsAreInterval(uids: seq<uint32>, start: uint32, end: uint32)
    requires |uids| == end as int - start as int + 1 && start <= end
    requires forall k :: 0 <= k < |uids| ==> uids[k] as int == start as int + k
    ensures Ints(uids) == Interval(start as int, end as int + 1)
  {
  }

  lemma CallsInOrder(log: seq<Call>, b: Batch, s: Server)
    ensures log + [FetchOf(b)] + RetryCalls(s, b.at + 1, 1, Empties(Parsed(b.raws))) == log + CallsOf(s, b)
  {
    hide RetryCalls, FetchOf, Empties, Parsed;
  }

  lemma LogJoin(log: seq<Call>, a: seq<Call>, b: seq<Call>)
    ensures log + a + b == log + (a + b)
  {
  }

  lemma IntsJoin(a: seq<uint32>, b: seq<uint32>)
    ensures Ints(a + b) == Ints(a) + Ints(b)
  {
  }

  lemma StartOfRange(s: Server, from: uint32, log: seq<Call>, begin: nat, now: nat, size: int)
    ensures CallsBy(s, []) == [] && log + [] == log
    ensures Ints(AskedBy([])) == Interval(from as int, from as int)
    ensures HeadersOf(GotBy([])) == []
    ensures Batches(begin, now, size, [])
  {
  }

  lemma BatchesLater(begin: nat, now: nat, later: nat, size: int, bs: seq<Batch>)
    requires Batches(begin, now, size, bs) && now <= later
    ensures Batches(begin, later, size, bs)
  {
  }

  lemma BatchesNext(begin: nat, now: nat, size: int, bs: seq<Batch>, b: Batch, start: uint32, end: uint32)
    requires Batches(begin, now, size, bs) && begin <= b.at < now
    requires start <= end && Ints(b.asked) == Interval(start as int, end as int + 1)
    requires size != 0 ==> end as int - start as int + 1 <= size
    ensures Batches(begin, now, size, bs + [b])
  {
    assert |b.asked| == |Ints(b.asked)|;
  }

  /** The last UID of a batch is in range and close enough, whether or not the sum wraps around. */
  lemma BatchBound(start: uint32, batchSize: uint32, to: uint32, end: uint32)
    requires start <= to && to as int < MAX_UID
    requires var sum := Wrap(start as int + batchSize as int - 1);
             end == if sum > to || sum < start then to else sum
    ensures start <= end <= to
    ensures batchSize != 0 ==> end as int - start as int + 1 <= batchSize as int
  {
  }

  lemma BaselineNext(ms: seq<Message>, m: Message, preMaxUid: uint32)
    ensures var id := Normalize(m.headers.messageId);
            BaselineIds(ms + [m], preMaxUid)
              == BaselineIds(ms, preMaxUid) + if m.uid <= preMaxUid && id != [] then [id] else []
    ensures var top := MaxUid(Uids(ms)); MaxUid(Uids(ms + [m])) == if m.uid > top then m.uid else top
  {
    hide Normalize;
    assert (ms + [m])[..|ms + [m]| - 1] == ms;
    assert Uids(ms + [m])[..|ms + [m]| - 1] == Uids(ms);
  }

  lemma MaxUidJoin(a: seq<uint32>, b: seq<uint32>)
    ensures MaxUid(a + b) == if MaxUid(b) > MaxUid(a) then MaxUid(b) else MaxUid(a)
    decreases |b|
  {
    if b == [] {
      assert a + b == a;
    } else {
      assert (a + b)[..|a + b| - 1] == a + b[..|b| - 1];
      MaxUidJoin(a, b[..|b| - 1]);
    }
  }

  /** These are exactly the normal forms of the ids of those messages. */
  lemma {:induction false} BaselineIdsIff(ms: seq<Message>, preMaxUid: uint32, id: Text)
    ensures id in BaselineIds(ms, preMaxUid) <==>
              id != [] && exists m :: m in ms && m.uid <= preMaxUid && Normalize(m.headers.messageId) == id
    decreases |ms|
  {
    hide Normalize;
    if ms != [] {
      var front, last := ms[..|ms| - 1], ms[|ms| - 1];
      BaselineIdsIff(front, preMaxUid, id);
      assert forall m :: m in ms <==> m in front || m == last;
    }
  }

  /** Marking the ids of a baseline remembers its messages. */
  lemma {:induction false} BaselineRemembers(ms: seq<Message>, preMaxUid: uint32, o: Options, before: set<Row>)
    ensures var after := before + RowsOf(Normalize, Blank(o.mailbox), BaselineIds(ms, preMaxUid));
            forall m :: m in ms && m.uid <= preMaxUid ==> Remembered(m, o, after)
    decreases |ms|
  {
    hide Normalize, Blank;
    NormalizeNothing();
    if ms != [] {
      var front, last := ms[..|ms| - 1], ms[|ms| - 1];
      var ids := BaselineIds(ms, preMaxUid);
      BaselineRemembers(front, preMaxUid, o, before);
      var cut := |BaselineIds(front, preMaxUid)|;
      RowsOfJoin(Normalize, Blank(o.mailbox), ids, cut, |ids|);
      assert ids[..cut] == BaselineIds(front, preMaxUid) && ids[..|ids|] == ids;
      if last.uid <= preMaxUid && Key(last.headers) != [] {
        assert ids[cut] == Normalize(last.headers.messageId);
      }
      forall m | m in ms && m.uid <= preMaxUid
        ensures Remembered(m, o, before + RowsOf(Normalize, Blank(o.mailbox), ids))
      {
        if m != last {
          assert m in front;
        }
      }
    }
  }

}
