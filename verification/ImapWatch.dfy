/** What any number of syncs of a folder amount to, and what they rely on a server for. */
module ImapWatch {
  import opened Bytes
  import opened AliasStore
  import opened MessageIndex
  import opened ImapClients
  import opened ImapBatches
  import opened ImapCursors
  import opened ImapSync

  /** A logged fetch of an indexed range asked for the UID, and its message is remembered or was unreadable. */
  ghost predicate Handled(f: FolderSync, u: uint32) reads f, f.store, f.client {
    exists e, b ::
      && e in f.history && e.RangeIndexed? && b in e.batches && u in b.asked && FetchOf(b) in f.client.log
      && (Unreadable(b, u) || exists m :: m in b.got && m.uid == u && Remembered(m, f.o, f.store.seen))
  }

  /**
   * Whatever the server, after any number of syncs, finished or not: each UID above the base and
   * up to the stored LastUID is handled, or was not in the answer to a logged fetch that asked for
   * it after the SELECT whose UIDNEXT is above it.
   */
  lemma SyncsLoseNothing(f: FolderSync, u: uint32)
    requires f.Valid() && NoBaselineAtTheTop(f.start, f.history)
    requires Covered(f.start, f.history).0 < u as int <= LastUid(f.Stored()) as int
    ensures || Handled(f, u)
            || exists e, b ::
                 && e in f.history && e.RangeIndexed? && b in e.batches && u in b.asked && FetchOf(b) in f.client.log
                 && SelectCall(e.select, Some(Selected(e.validity, e.to + 1))) in f.client.log
                 && e.select < b.at && u <= e.to
                 && !Came(b, u)
  {
    hide AllComplete, WellOrdered, Covered, CursorOf, Blank, Came, Unreadable, Remembered, Client.Honest;
    var e, b := NothingLost(f.client.server, f.o, f.store.seen, f.client.log, f.start, f.history, u);
  }

  // ------------------------------------------------------------ lawful servers

  lemma InMaxUid(us: seq<uint32>, bound: uint32)
    requires bound > 0 && forall u :: u in us ==> u < bound
    ensures MaxUid(us) < bound
  {
    hide MaxUid;
  }

  lemma GotWasThere(s: Server, v: uint32, b: Batch, u: uint32)
    requires Lawful(s, v) && Plain(s, b) && u in Uids(b.got)
    ensures u in b.asked && u in s.present(b.at)
  {
    hide Lawful, SelectLaw, SearchLaw, FolderLaw;
    Law(s, v, b.at, b.asked);
    GotWasAnswered(s, b, u);
  }

  lemma GotWasAnswered(s: Server, b: Batch, u: uint32)
    requires Plain(s, b) && u in Uids(b.got)
    ensures u in RawUids(b.raws)
  {
    var k :| 0 <= k < |b.got| && Uids(b.got)[k] == u;
    assert b.got[k] in Parsed(b.raws);
    var j :| 0 <= j < |b.raws| && Readable(b.raws[j]) && b.got[k] == Message(b.raws[j].uid, b.raws[j].headers.value);
    assert RawUids(b.raws)[j] == u;
  }

  /** Fetched UIDs come from some batch. */
  lemma UidsOfBatches(bs: seq<Batch>, u: uint32) returns (b: Batch)
    requires u in Uids(GotBy(bs))
    ensures b in bs && u in Uids(b.got)
  {
    hide GotBy;
    var k :| 0 <= k < |GotBy(bs)| && Uids(GotBy(bs))[k] == u;
    b := GotInBatch(bs, GotBy(bs)[k]);
    var j :| 0 <= j < |b.got| && b.got[j] == GotBy(bs)[k];
    assert Uids(b.got)[j] == u;
  }

  /** A baseline ends below the UIDNEXT of every later SELECT. */
  lemma BaselineBelow(s: Server, v: uint32, log: seq<Call>, e: Event, at: nat)
    requires Lawful(s, v) && e.BaselineSet? && BaselineComplete(s, log, e) && s.select(at).Some?
    requires e.search < at && forall b :: b in e.batches ==> b.at < at
    ensures e.last < s.select(at).value.uidNext
  {
    hide Lawful, FetchLaw, FolderLaw, Plain, MaxUid, Uids, AskedBy, GotBy, FetchOf;
    var all := s.search(e.search).value;
    var bound := s.select(at).value.uidNext;
    Law(s, v, at, []);
    Law(s, v, e.search, []);
    forall u | u in all + Uids(GotBy(e.batches)) ensures u < bound {
      if u !in all {
        var b := UidsOfBatches(e.batches, u);
        GotWasThere(s, v, b, u);
      }
    }
    InMaxUid(all + Uids(GotBy(e.batches)), bound);
  }

  /** The stored LastUID stays below the UIDNEXT of every later SELECT, and so does every baseline. */
  lemma LastBelow(f: FolderSync, v: uint32, at: nat)
    requires f.Valid() && Lawful(f.client.server, v) && f.client.server.select(at).Some? && EventsBy(f.history, at)
    requires LastUid(f.start) < f.client.server.select(at).value.uidNext
    ensures NoBaselineAtTheTop(f.start, f.history)
    ensures LastUid(f.Stored()) < f.client.server.select(at).value.uidNext
  {
    hide WellOrdered, Lawful, FetchLaw, FolderLaw, SearchLaw, Retried, MadeAfter, Remembered, Ints, Interval, Blank,
      BaselineComplete;
    var s, h, log := f.client.server, f.history, f.client.log;
    Law(s, v, at, []);
    forall e | e in h && e.BaselineSet? ensures e.last < s.select(at).value.uidNext {
      assert Complete(s, f.o, f.store.seen, log, e);
      BaselineBelow(s, v, log, e, at);
    }
    if h != [] && h[|h| - 1].RangeIndexed? {
      var e := h[|h| - 1];
      assert Complete(s, f.o, f.store.seen, log, e);
      HonestSelect(f.client, e.select, Selected(e.validity, e.to + 1));
    }
  }

  /** After syncs of which the last one finished, exactly the UIDs above the base and below UIDNEXT were indexed. */
  lemma ReachesUidNext(f: FolderSync, v: uint32, at: nat, used: Selected)
    requires f.Valid() && Lawful(f.client.server, v) && f.client.server.select(at) == Some(used)
    requires EventsBy(f.history, at) && LastUid(f.start) < used.uidNext
    requires !NewMailUidRange(LastUid(f.Stored()), used.uidNext).hasNew
    ensures NoBaselineAtTheTop(f.start, f.history)
    ensures LastUid(f.Stored()) as int == used.uidNext as int - 1
    ensures var (base, uids) := Covered(f.start, f.history);
            0 <= base && uids == Interval(base + 1, used.uidNext as int)
  {
    hide WellOrdered, OwnValidity, CursorOf, Covered, Lawful, EventsBy, AllComplete, Blank, Interval;
    LastBelow(f, v, at);
    BaseIsNatural(f.start, f.history);
    Tiles(f.start, f.history);
  }

  /** On a lawful server nothing that is still in the folder is missed. */
  lemma NothingMissed(f: FolderSync, v: uint32, u: uint32)
    requires f.Valid() && Lawful(f.client.server, v) && NoBaselineAtTheTop(f.start, f.history)
    requires Covered(f.start, f.history).0 < u as int <= LastUid(f.Stored()) as int
    requires u in f.client.server.present(f.client.time)
    ensures Handled(f, u)
  {
    hide AllComplete, WellOrdered, Covered, CursorOf, Blank, Came, Unreadable, Remembered, Client.Honest, Lawful;
    var s := f.client.server;
    var e, b := NothingLost(s, f.o, f.store.seen, f.client.log, f.start, f.history, u);
    HonestSelect(f.client, e.select, Selected(e.validity, e.to + 1));
    HonestFetch(f.client, b);
    StaysPresent(s, v, e.select, b.at, f.client.time, u);
    PresentCame(s, v, b, u);
  }

  lemma HonestFetch(client: Client, b: Batch)
    requires client.Honest() && FetchOf(b) in client.log
    ensures b.at < client.time && Fetched(client.server, b)
  {
  }

  /**
   * Syncs the folder again and again, whatever becomes of each sync. If the last one finished and
   * the server is lawful, exactly the UIDs from the base to UIDNEXT were indexed, and every message
   * of these that is still in the folder is handled.
   */
  method Watch(f: FolderSync, rounds: nat) returns (ok: bool, ghost used: Selected)
    requires f.Valid()
    modifies f.store`calls, f.store`threads, f.store`createdAt, f.store`seen, f.store`cursors,
             f.client`time, f.client`log, f`history
    ensures f.Valid() && old(f.history) <= f.history && old(f.store.seen) <= f.store.seen
    ensures KeepsThreads(f.o.mailbox, old(Shape(f.store)), Shape(f.store))
    ensures ok ==> forall v ::
              Lawful(f.client.server, v) && !Outdated(f.Stored(), v) && LastUid(f.start) < used.uidNext ==>
                var base := Covered(f.start, f.history).0;
                && Covered(f.start, f.history).1 == Interval(base + 1, used.uidNext as int)
                && forall u :: base < u as int < used.uidNext as int && u in f.client.server.present(f.client.time)
                               ==> Handled(f, u)
  {
    hide FolderSync.Valid, KeepsThreads, Lawful, Covered, Interval, EventsBy, NewMailUidRange, Outdated, Handled;
    ok, used := false, Selected(0, 0);
    ghost var at, last := 0, 0;
    ghost var t := Shape(f.store);
    SameThreads(f.o.mailbox, t);
    for i := 0 to rounds
      invariant f.Valid() && old(f.history) <= f.history && t.seen <= f.store.seen
      invariant KeepsThreads(f.o.mailbox, t, Shape(f.store))
      invariant ok ==> SelectCall(at, Some(used)) in f.client.log && EventsBy(f.history, at)
      invariant ok && !Outdated(f.Stored(), used.uidValidity) ==>
                  !NewMailUidRange(LastUid(f.Stored()), used.uidNext).hasNew
    {
      ghost var mid := Shape(f.store);
      ghost var dropped, made, indexed;
      ok, used, at, last, dropped, made, indexed := f.SyncFolder();
      ThreadsKept(f.o.mailbox, t, mid, Shape(f.store));
    }
    if ok {
      Watched(f, used, at);
    }
  }

  lemma Watched(f: FolderSync, used: Selected, at: nat)
    requires f.Valid() && SelectCall(at, Some(used)) in f.client.log && EventsBy(f.history, at)
    requires !Outdated(f.Stored(), used.uidValidity) ==> !NewMailUidRange(LastUid(f.Stored()), used.uidNext).hasNew
    ensures forall v ::
              Lawful(f.client.server, v) && !Outdated(f.Stored(), v) && LastUid(f.start) < used.uidNext ==>
                var base := Covered(f.start, f.history).0;
                && Covered(f.start, f.history).1 == Interval(base + 1, used.uidNext as int)
                && forall u :: base < u as int < used.uidNext as int && u in f.client.server.present(f.client.time)
                               ==> Handled(f, u)
  {
    hide WellOrdered, OwnValidity, CursorOf, Covered, Lawful, EventsBy, AllComplete, Blank, Interval, NewMailUidRange,
      Handled, FetchLaw, SearchLaw, FolderLaw, NoBaselineAtTheTop;
    forall v | Lawful(f.client.server, v) && !Outdated(f.Stored(), v) && LastUid(f.start) < used.uidNext
      ensures var base := Covered(f.start, f.history).0;
              && Covered(f.start, f.history).1 == Interval(base + 1, used.uidNext as int)
              && forall u :: base < u as int < used.uidNext as int && u in f.client.server.present(f.client.time)
                             ==> Handled(f, u)
    {
      HonestSelect(f.client, at, used);
      Law(f.client.server, v, at, []);
      ReachesUidNext(f, v, at, used);
      var base := Covered(f.start, f.history).0;
      forall u: uint32 | base < u as int < used.uidNext as int && u in f.client.server.present(f.client.time)
        ensures Handled(f, u)
      {
        NothingMissed(f, v, u);
      }
    }
  }

  lemma ThreadsKept(mailbox: Text, t: Tables, mid: Tables, after: Tables)
    requires KeepsThreads(mailbox, t, mid) && t.seen <= mid.seen && KeepsThreads(mailbox, mid, after)
    ensures KeepsThreads(mailbox, t, after)
  {
    hide Blank;
    forall key | key != [] && (Blank(mailbox), key) in t.seen ensures SameThread(t, after, key) {
      assert SameThread(t, mid, key);
    }
  }

  // --------------------------------------------- mail arriving during a baseline

  /** Every answer of the baseline holds only UIDs it asked for. */
  ghost predicate AnswersAsAsked(e: Event)
    requires e.BaselineSet?
  {
    forall b, u :: b in e.batches && u in RawUids(b.raws) ==> u in b.asked
  }

  /**
   * When answers hold only what was asked for, the next range begins right above the mail that the
   * baseline's search found, so that everything that arrives while it runs is indexed.
   */
  lemma ArrivalsAreNext(s: Server, log: seq<Call>, e: Event, u: uint32, uidNext: uint32)
    requires e.BaselineSet? && BaselineComplete(s, log, e) && AnswersAsAsked(e)
    requires (e.last as int) < MAX_UID
    ensures var pre := MaxUid(s.search(e.search).value);
            var r := NewMailUidRange(e.last, uidNext);
            e.last == pre && ((r.hasNew && r.from <= u <= r.to) <==> pre < u < uidNext)
  {
    hide MaxUid, NewMailUidRange, Uids, AskedBy, GotBy, FetchOf, Parsed;
    var all := s.search(e.search).value;
    MaxUidJoin(all, Uids(GotBy(e.batches)));
    var top := MaxUid(Uids(GotBy(e.batches)));
    if top > MaxUid(all) {
      var b := UidsOfBatches(e.batches, top);
      GotWasAnswered(s, b, top);
      AskedAll(e.batches, b, top);
    }
    RangeIsTheNewMail(e.last, uidNext, u);
  }

  /** In general it is in the next range exactly when the baseline's answers have no such UID or larger one. */
  lemma ArrivalIndexedIff(s: Server, log: seq<Call>, e: Event, u: uint32, uidNext: uint32)
    requires e.BaselineSet? && BaselineComplete(s, log, e) && (e.last as int) < MAX_UID
    requires MaxUid(s.search(e.search).value) < u < uidNext
    ensures var r := NewMailUidRange(e.last, uidNext);
            (r.hasNew && r.from <= u <= r.to) <==> forall m :: m in GotBy(e.batches) ==> m.uid < u
  {
    hide MaxUid, NewMailUidRange, AskedBy, GotBy, FetchOf, Plain;
    var all, fetched := s.search(e.search).value, GotBy(e.batches);
    MaxUidJoin(all, Uids(fetched));
    RangeIsTheNewMail(e.last, uidNext, u);
    forall m | m in fetched ensures m.uid <= MaxUid(Uids(fetched)) {
      var k :| 0 <= k < |fetched| && fetched[k] == m;
      assert Uids(fetched)[k] == m.uid;
    }
    if MaxUid(Uids(fetched)) >= u {
      var k :| 0 <= k < |fetched| && Uids(fetched)[k] == MaxUid(Uids(fetched));
      assert fetched[k] in fetched;
    }
  }

  /**
   * A server that adds unasked data to an answer, here the message 9 to a fetch of 5, makes the
   * baseline skip a message 7 that arrived in between.
   */
  lemma UnaskedAnswerSkipsMail(h: Headers) returns (s: Server, log: seq<Call>, e: Event)
    ensures e.BaselineSet? && BaselineComplete(s, log, e) && !AnswersAsAsked(e)
    ensures s.search(e.search) == Some([5]) && !NewMailUidRange(e.last, 10).hasNew
    ensures Follows(None, e)
  {
    hide MaxUid, Parsed, Uids, GotBy, AskedBy;
    var raws := [Raw(5, Some(h)), Raw(9, Some(h))];
    s := Server(n => Some(Selected(1, 6)), n => Some([5]), (n, asked) => Some(raws), n => true, n => {5});
    var b := Batch(2, [5], raws, Parsed(raws));
    log := [SelectCall(0, s.select(0)), SearchCall(1, s.search(1)), FetchOf(b)];
    e := BaselineSet(1, 9, 0, 1, [b]);
    NineIsFetched(raws, h);
    OneBatch(s, b);
    assert log[0] in log && log[1] in log && log[2] in log;
    var nine: uint32 := RawUids(raws)[1];
    assert b in e.batches && nine in RawUids(b.raws) && nine !in b.asked;
  }

  lemma OneBatch(s: Server, b: Batch)
    ensures AskedBy([b]) == b.asked && GotBy([b]) == b.got
  {
    assert [] + [b] == [b];
    NoBatches(s);
    OneMoreBatch(s, [], b);
  }

  lemma NineIsFetched(raws: seq<Raw>, h: Headers)
    requires raws == [Raw(5, Some(h)), Raw(9, Some(h))]
    ensures Parsed(raws) == [Message(5, h), Message(9, h)]
    ensures Uids(Parsed(raws)) == [5, 9] && MaxUid([5] + [5, 9]) == 9
  {
    assert raws[..1] == [Raw(5, Some(h))] && raws[..1][..0] == [];
    assert Parsed(raws[..1]) == [Message(5, h)];
    var us: seq<uint32> := [5] + [5, 9];
    assert us == [5, 5, 9] && us[..2] == [5, 5] && us[..2][..1] == [5] && us[..2][..1][..0] == [];
    assert MaxUid(us[..2]) == 5;
  }
}
