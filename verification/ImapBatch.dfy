/** Batches of header fetches as they were made, and what a lawful server answers to them. */
module ImapBatches {
  import opened Bytes
  import opened AliasStore
  import opened MessageIndex
  import opened ImapClients

  /** A fetch that was answered: its moment, what it asked for, the answer, and the messages it led to. */
  datatype Batch = Batch(at: nat, asked: seq<uint32>, raws: seq<Raw>, got: seq<Message>)

  ghost predicate Fetched(s: Server, b: Batch) { b.asked != [] && s.fetch(b.at, b.asked) == Some(b.raws) }

  /** A batch of a sync: its empty messages were retried, and the result comes in some order. */
  ghost predicate Retried(s: Server, b: Batch) {
    && Fetched(s, b)
    && var ms := Parsed(b.raws);
       if Empties(ms) == [] then b.got == ms
       else
         var r := Rounds(s, b.at + 1, 1, Empties(ms), ById(ms));
         r.Some? && Lists(b.got, r.value)
  }

  /** A batch of a baseline: taken as it came. */
  ghost predicate Plain(s: Server, b: Batch) { Fetched(s, b) && b.got == Parsed(b.raws) }

  ghost function FetchOf(b: Batch): Call { FetchCall(b.at, b.asked, Some(b.raws)) }

  /** All calls of a retried batch. */
  ghost function CallsOf(s: Server, b: Batch): seq<Call> {
    [FetchOf(b)] + RetryCalls(s, b.at + 1, 1, Empties(Parsed(b.raws)))
  }

  ghost function CallsBy(s: Server, bs: seq<Batch>): seq<Call> {
    if bs == [] then [] else CallsBy(s, bs[..|bs| - 1]) + CallsOf(s, bs[|bs| - 1])
  }

  ghost function FetchesOf(bs: seq<Batch>): seq<Call> {
    if bs == [] then [] else FetchesOf(bs[..|bs| - 1]) + [FetchOf(bs[|bs| - 1])]
  }

  /** The UIDs asked for, batch after batch. */
  ghost function AskedBy(bs: seq<Batch>): seq<uint32> {
    if bs == [] then [] else AskedBy(bs[..|bs| - 1]) + bs[|bs| - 1].asked
  }

  /** The messages that came of it, batch after batch. */
  ghost function GotBy(bs: seq<Batch>): seq<Message> {
    if bs == [] then [] else GotBy(bs[..|bs| - 1]) + bs[|bs| - 1].got
  }

  lemma OneMoreBatch(s: Server, bs: seq<Batch>, b: Batch)
    ensures CallsBy(s, bs + [b]) == CallsBy(s, bs) + CallsOf(s, b)
    ensures FetchesOf(bs + [b]) == FetchesOf(bs) + [FetchOf(b)]
    ensures AskedBy(bs + [b]) == AskedBy(bs) + b.asked
    ensures GotBy(bs + [b]) == GotBy(bs) + b.got
  {
    hide CallsOf, FetchOf;
    assert (bs + [b])[..|bs + [b]| - 1] == bs;
  }

  lemma NoBatches(s: Server)
    ensures CallsBy(s, []) == [] && FetchesOf([]) == [] && AskedBy([]) == [] && GotBy([]) == []
  {
  }

  lemma {:induction false} AskedInBatch(bs: seq<Batch>, u: uint32) returns (b: Batch)
    requires u in AskedBy(bs)
    ensures b in bs && u in b.asked
    decreases |bs|
  {
    var last := bs[|bs| - 1];
    if u in last.asked {
      b := last;
    } else {
      b := AskedInBatch(bs[..|bs| - 1], u);
    }
  }

  lemma {:induction false} AskedAll(bs: seq<Batch>, b: Batch, u: uint32)
    requires b in bs && u in b.asked
    ensures u in AskedBy(bs)
    decreases |bs|
  {
    if b != bs[|bs| - 1] {
      assert b in bs[..|bs| - 1];
      AskedAll(bs[..|bs| - 1], b, u);
    }
  }

  lemma {:induction false} GotInBatch(bs: seq<Batch>, m: Message) returns (b: Batch)
    requires m in GotBy(bs)
    ensures b in bs && m in b.got
    decreases |bs|
  {
    var last := bs[|bs| - 1];
    if m in last.got {
      b := last;
    } else {
      b := GotInBatch(bs[..|bs| - 1], m);
    }
  }

  lemma {:induction false} GotAll(bs: seq<Batch>, b: Batch, m: Message)
    requires b in bs && m in b.got
    ensures m in GotBy(bs)
    decreases |bs|
  {
    if b != bs[|bs| - 1] {
      assert b in bs[..|bs| - 1];
      GotAll(bs[..|bs| - 1], b, m);
    }
  }

  lemma {:induction false} FetchLogged(bs: seq<Batch>, b: Batch)
    requires b in bs
    ensures FetchOf(b) in FetchesOf(bs)
    decreases |bs|
  {
    hide FetchOf;
    if b != bs[|bs| - 1] {
      assert b in bs[..|bs| - 1];
      FetchLogged(bs[..|bs| - 1], b);
    }
  }

  lemma {:induction false} CallLogged(s: Server, bs: seq<Batch>, b: Batch)
    requires b in bs
    ensures FetchOf(b) in CallsBy(s, bs)
    decreases |bs|
  {
    hide FetchOf, RetryCalls;
    if b != bs[|bs| - 1] {
      assert b in bs[..|bs| - 1];
      CallLogged(s, bs[..|bs| - 1], b);
    } else {
      assert CallsOf(s, b)[0] == FetchOf(b);
    }
  }

  // ------------------------------------------------------- what became of a UID

  /** The answer has a message with this UID. */
  predicate Came(b: Batch, u: uint32) { u in RawUids(b.raws) }

  /** The answer has it, and none of its headers parse: the program then drops it. */
  predicate Unreadable(b: Batch, u: uint32) {
    Came(b, u) && forall k :: 0 <= k < |b.raws| && b.raws[k].uid == u ==> b.raws[k].headers.None?
  }

  /** The UIDs of a fetch survive the retries. */
  lemma RetryKeepsUids(s: Server, time: nat, ms: seq<Message>, out: seq<Message>, u: uint32)
    requires var r := Rounds(s, time, 1, Empties(ms), ById(ms)); r.Some? && Lists(out, r.value)
    ensures u in Uids(ms) <==> u in Uids(out)
  {
    hide Rounds, ById, Empties, RefetchedIn, LooksEmpty, DistinctUids, RetryCalls;
    RoundsReplace(s, time, 1, Empties(ms), ById(ms), u);
    InUids(out, Rounds(s, time, 1, Empties(ms), ById(ms)).value, u);
    if u in Uids(ms) {
      var k :| 0 <= k < |ms| && Uids(ms)[k] == u;
      assert ms[k].uid in ById(ms);
    }
    if u in ById(ms) {
      var k :| 0 <= k < |ms| && ms[k] == ById(ms)[u];
      assert Uids(ms)[k] == u;
    }
  }

  lemma ParsedUids(raws: seq<Raw>, u: uint32)
    requires u != 0
    ensures u in Uids(Parsed(raws)) <==> exists k :: 0 <= k < |raws| && raws[k].uid == u && raws[k].headers.Some?
  {
    var ms := Parsed(raws);
    if u in Uids(ms) {
      var j :| 0 <= j < |ms| && Uids(ms)[j] == u;
      assert ms[j] in ms;
    }
    if k :| 0 <= k < |raws| && raws[k].uid == u && raws[k].headers.Some? {
      assert Readable(raws[k]);
      var m := Message(raws[k].uid, raws[k].headers.value);
      assert m in ms;
      var j :| 0 <= j < |ms| && ms[j] == m;
      assert Uids(ms)[j] == u;
    }
  }

  /** Exactly three things happen to a UID: its message is handed on, it is unreadable, or it did not come. */
  lemma Fate(s: Server, b: Batch, u: uint32)
    requires Retried(s, b) && u != 0
    ensures u in Uids(b.got) <==> Came(b, u) && !Unreadable(b, u)
  {
    hide Rounds, ById, Empties, Lists, Parsed;
    ParsedUids(b.raws, u);
    var ms := Parsed(b.raws);
    if Empties(ms) != [] {
      RetryKeepsUids(s, b.at + 1, ms, b.got, u);
    }
    if Came(b, u) {
      var k :| 0 <= k < |b.raws| && RawUids(b.raws)[k] == u;
      assert b.raws[k].uid == u;
    }
    if k :| 0 <= k < |b.raws| && b.raws[k].uid == u && b.raws[k].headers.Some? {
      assert RawUids(b.raws)[k] == u;
    }
  }

  // ------------------------------------------------------------ lawful servers

  /**
   * UIDNEXT is above every UID assigned so far and never falls, what arrives later is not below it,
   * and UIDVALIDITY is v throughout (section 2.3.1.1 of RFC 3501).
   */
  ghost predicate SelectLaw(s: Server, v: uint32, n: nat) {
    s.select(n).Some? ==>
      var sel := s.select(n).value;
      && sel.uidValidity == v && sel.uidNext != 0
      && (forall m: nat, u :: m <= n && u in s.present(m) ==> u < sel.uidNext)
      && (forall m: nat, u :: n <= m && u in s.present(m) && u < sel.uidNext ==> u in s.present(n))
      && (forall m: nat :: m <= n && s.select(m).Some? ==> s.select(m).value.uidNext <= sel.uidNext)
  }

  ghost predicate SearchLaw(s: Server, n: nat) {
    s.search(n).Some? ==> forall u :: u in s.search(n).value <==> u in s.present(n)
  }

  /** An answer holds exactly the messages asked for that are there. */
  ghost predicate FetchLaw(s: Server, n: nat, asked: seq<uint32>) {
    asked != [] && s.fetch(n, asked).Some? ==>
      forall u :: u in RawUids(s.fetch(n, asked).value) <==> u in asked && u in s.present(n)
  }

  /** No UID is 0, and an expunged message never comes back. */
  ghost predicate FolderLaw(s: Server, n: nat) {
    0 !in s.present(n) && forall a: nat, b: nat, u ::
      a <= n <= b && u in s.present(a) && u in s.present(b) ==> u in s.present(n)
  }

  ghost predicate Lawful(s: Server, v: uint32) {
    v != 0 && forall n :: SelectLaw(s, v, n) && SearchLaw(s, n) && FolderLaw(s, n)
                          && forall asked :: FetchLaw(s, n, asked)
  }

  lemma Law(s: Server, v: uint32, n: nat, asked: seq<uint32>)
    requires Lawful(s, v)
    ensures SelectLaw(s, v, n) && SearchLaw(s, n) && FolderLaw(s, n) && FetchLaw(s, n, asked)
  {
    hide SelectLaw, SearchLaw, FolderLaw, FetchLaw;
  }

  /** A message that is there when its UID is asked for comes. */
  lemma PresentCame(s: Server, v: uint32, b: Batch, u: uint32)
    requires Lawful(s, v) && Fetched(s, b) && u in b.asked
    ensures Came(b, u) <==> u in s.present(b.at)
  {
    hide Lawful, SelectLaw, SearchLaw, FolderLaw;
    Law(s, v, b.at, b.asked);
  }

  /** A message below the UIDNEXT of an earlier SELECT, and still there now, was there at all times between. */
  lemma StaysPresent(s: Server, v: uint32, select: nat, at: nat, now: nat, u: uint32)
    requires Lawful(s, v) && select <= at <= now && s.select(select).Some? && u < s.select(select).value.uidNext
    requires u in s.present(now)
    ensures u in s.present(at)
  {
    hide Lawful, SearchLaw, FetchLaw;
    Law(s, v, select, []);
    Law(s, v, at, []);
  }

  /** Such servers exist: here one message arrives at moment 3. */
  lemma LawfulServer(h: Headers) returns (s: Server)
    ensures Lawful(s, 7) && 1 !in s.present(2) && 1 in s.present(3) && s.select(2).Some? && s.select(3).Some?
  {
    s := Server(
      n => Some(Selected(7, if n < 3 then 1 else 2)),
      n => Some(if n < 3 then [] else [1]),
      (n, asked) => Some(if n >= 3 && 1 in asked then [Raw(1, Some(h))] else []),
      n => true,
      n => if n < 3 then {} else {1});
    forall n: nat, asked: seq<uint32> ensures SearchLaw(s, n) && FetchLaw(s, n, asked) {
      assert forall u: uint32 :: u in [1] <==> u == 1;
      if n >= 3 && 1 in asked {
        assert RawUids(s.fetch(n, asked).value) == [1];
      } else {
        assert RawUids(s.fetch(n, asked).value) == [];
      }
    }
    forall n: nat ensures SelectLaw(s, 7, n) && FolderLaw(s, n) {
    }
  }
}
