/** UID ranges, and what a folder's stored cursor says about the syncs that led to it. */
module ImapCursors {
  import opened Bytes
  import opened AliasStore
  import opened MessageIndex
  import opened ImapClients
  import opened ImapBatches

  const MAX_UID: int := 0xFFFF_FFFF

  /** Unsigned 32-bit arithmetic. */
  function Wrap(i: int): (r: uint32)
    ensures 0 <= i <= MAX_UID ==> r as int == i
    ensures i == MAX_UID + 1 ==> r == 0
  {
    (i % 0x1_0000_0000) as uint32
  }

  /** The UIDs from `from` up to but not including `to`. */
  function Interval(from: int, to: int): (r: seq<int>)
    ensures |r| == if from <= to then to - from else 0
    ensures forall k :: 0 <= k < |r| ==> r[k] == from + k
  {
    seq(if from <= to then to - from else 0, k => from + k)
  }

  lemma IntervalJoin(a: int, b: int, c: int)
    requires a <= b <= c
    ensures Interval(a, b) + Interval(b, c) == Interval(a, c)
  {
  }

  datatype UidRange = UidRange(from: uint32, to: uint32, hasNew: bool)

  function NewMailUidRange(lastUid: uint32, uidNext: uint32): (r: UidRange)
    ensures r.hasNew ==> r.from <= r.to && r.to as int <= MAX_UID - 1
  {
    var from := Wrap(lastUid as int + 1);
    if uidNext == 0 || uidNext - 1 < from then UidRange(from, 0, false)
    else UidRange(from, uidNext - 1, true)
  }

  /** The range holds exactly the UIDs above lastUid and below UIDNEXT. */
  lemma RangeIsTheNewMail(lastUid: uint32, uidNext: uint32, uid: uint32)
    requires lastUid as int < MAX_UID
    ensures var r := NewMailUidRange(lastUid, uidNext);
            (r.hasNew && r.from <= uid <= r.to) <==> lastUid < uid < uidNext
  {
  }

  /** Only the largest 32-bit UID makes the range start over from zero. */
  lemma RangeStartsAboveIff(lastUid: uint32, uidNext: uint32)
    ensures lastUid < NewMailUidRange(lastUid, uidNext).from <==> lastUid as int != MAX_UID
  {
  }

  /**
   * The writes to one folder's cursor row, with what led to them: the moments of the SELECT and
   * SEARCH relied on, and the batches of fetches in the order they were made.
   */
  datatype Event =
    | CursorDropped(validity: uint32)
    | BaselineSet(validity: uint32, last: uint32, select: nat, search: nat, batches: seq<Batch>)
    | RangeIndexed(validity: uint32, from: uint32, to: uint32, done: bool, resumed: bool,
                   select: nat, batches: seq<Batch>)

  function CursorAfter(c: Option<Cursor>, e: Event): Option<Cursor> {
    match e
    case CursorDropped(_) => None
    case BaselineSet(v, u, _, _, _) => Some(Cursor(v, u, true))
    case RangeIndexed(v, _, to, done, _, _, _) => Some(Cursor(v, to, done))
  }

  function CursorOf(start: Option<Cursor>, h: seq<Event>): Option<Cursor> {
    if h == [] then start else CursorAfter(CursorOf(start, h[..|h| - 1]), h[|h| - 1])
  }

  function LastUid(c: Option<Cursor>): uint32 { if c.Some? then c.value.lastUid else 0 }

  /** The cursor belongs to another life of the folder. */
  predicate Outdated(c: Option<Cursor>, validity: uint32) {
    c.Some? && c.value.uidValidity != 0 && c.value.uidValidity != validity
  }

  /** When a sync writes this event over the cursor c. */
  predicate Follows(c: Option<Cursor>, e: Event) {
    match e
    case CursorDropped(v) => Outdated(c, v)
    case BaselineSet(v, _, _, _, _) => c.None? || !c.value.baselineDone || Outdated(c, v)
    case RangeIndexed(v, from, to, done, resumed, _, _) =>
      && from <= to && to as int < MAX_UID
      && if resumed then c.Some? && from == Wrap(c.value.lastUid as int + 1) && done == c.value.baselineDone
         else from == 1 && done && (c.None? || Outdated(c, v))
  }

  ghost predicate WellOrdered(start: Option<Cursor>, h: seq<Event>) {
    h == [] || (WellOrdered(start, h[..|h| - 1]) && Follows(CursorOf(start, h[..|h| - 1]), h[|h| - 1]))
  }

  lemma Append(start: Option<Cursor>, h: seq<Event>, e: Event)
    requires WellOrdered(start, h) && Follows(CursorOf(start, h), e)
    ensures WellOrdered(start, h + [e]) && CursorOf(start, h + [e]) == CursorAfter(CursorOf(start, h), e)
  {
    assert (h + [e])[..|h + [e]| - 1] == h;
  }

  /**
   * A sync that resumes does so over a cursor of the UIDVALIDITY it selected, or of none; only right
   * after a baseline, where the second SELECT is not compared with it, may it be another one.
   */
  predicate InTime(before: seq<Event>, c: Option<Cursor>, e: Event) {
    e.RangeIndexed? && e.resumed ==>
      || !Outdated(c, e.validity)
      || (before != [] && before[|before| - 1].BaselineSet? && before[|before| - 1].search < e.select)
  }

  ghost predicate OwnValidity(start: Option<Cursor>, h: seq<Event>) {
    h == [] || (var front := h[..|h| - 1];
                OwnValidity(start, front) && InTime(front, CursorOf(start, front), h[|h| - 1]))
  }

  lemma OwnNext(start: Option<Cursor>, h: seq<Event>, e: Event)
    requires OwnValidity(start, h) && InTime(h, CursorOf(start, h), e)
    ensures OwnValidity(start, h + [e])
  {
    assert (h + [e])[..|h + [e]| - 1] == h;
  }

  /** At every resumed range the cursor had the UIDVALIDITY selected, or came from the baseline right before it. */
  lemma {:induction false} ResumesItsOwn(start: Option<Cursor>, h: seq<Event>, k: nat)
    requires OwnValidity(start, h) && k < |h| && h[k].RangeIndexed? && h[k].resumed
    ensures var c := CursorOf(start, h[..k]);
            || c.None? || c.value.uidValidity == 0 || c.value.uidValidity == h[k].validity
            || (k > 0 && h[k - 1].BaselineSet? && h[k - 1].search < h[k].select)
    decreases |h|
  {
    hide CursorOf;
    if k < |h| - 1 {
      assert h[..|h| - 1][..k] == h[..k];
      ResumesItsOwn(start, h[..|h| - 1], k);
    }
  }

  /**
   * A folder recreated between the two SELECTs of a sync: the cursor of the old folder, here at UID
   * 1000, is taken for one of the new folder, and 1 to 1000 are not indexed.
   */
  lemma RecreatedDuringBaseline()
    ensures var h := [BaselineSet(7, 1000, 0, 1, []), RangeIndexed(8, 1001, 1004, true, true, 3, [])];
            && WellOrdered(None, h) && OwnValidity(None, h)
            && Outdated(CursorOf(None, h[..1]), 8) && CursorOf(None, h) == Some(Cursor(8, 1004, true))
            && Covered(None, h).0 == 1000
  {
    hide Interval;
    var b, i := BaselineSet(7, 1000, 0, 1, []), RangeIndexed(8, 1001, 1004, true, true, 3, []);
    assert [] + [b] == [b] && [b] + [i] == [b, i];
    Append(None, [], b);
    Append(None, [b], i);
    OwnNext(None, [], b);
    OwnNext(None, [b], i);
    CoveredNext(None, [], b);
    CoveredNext(None, [b], i);
    assert [b, i][..1] == [b];
  }

  lemma CoveredNext(start: Option<Cursor>, h: seq<Event>, e: Event)
    ensures Covered(start, h + [e]).0 ==
            match e
            case CursorDropped(_) => 0
            case BaselineSet(_, u, _, _, _) => u as int
            case RangeIndexed(_, _, _, _, resumed, _, _) => if resumed then Covered(start, h).0 else 0
  {
    hide Interval;
    assert (h + [e])[..|h + [e]| - 1] == h;
  }

  // ------------------------------------------------------------------ tiling

  /** Since the last reset or baseline: the UID it started above, and the UIDs indexed, in order. */
  function Covered(start: Option<Cursor>, h: seq<Event>): (int, seq<int>) {
    if h == [] then (LastUid(start) as int, [])
    else
      var before := Covered(start, h[..|h| - 1]);
      match h[|h| - 1]
      case CursorDropped(_) => (0, [])
      case BaselineSet(_, u, _, _, _) => (u as int, [])
      case RangeIndexed(_, from, to, _, resumed, _, _) =>
        var range := Interval(from as int, to as int + 1);
        if resumed then (before.0, before.1 + range) else (0, range)
  }

  ghost predicate NoBaselineAtTheTop(start: Option<Cursor>, h: seq<Event>) {
    (LastUid(start) as int < MAX_UID) && forall e :: e in h && e.BaselineSet? ==> e.last as int < MAX_UID
  }

  /** The indexed ranges lie end to end: together they are exactly the UIDs above the base up to LastUID. */
  lemma {:induction false} Tiles(start: Option<Cursor>, h: seq<Event>)
    requires WellOrdered(start, h) && NoBaselineAtTheTop(start, h)
    ensures var (base, uids) := Covered(start, h); var last := LastUid(CursorOf(start, h)) as int;
            base <= last < MAX_UID && uids == Interval(base + 1, last + 1)
    decreases |h|
  {
    hide Interval, Wrap;
    if h == [] {
      IntervalEmpty(LastUid(start) as int + 1);
    } else {
      var front, e := h[..|h| - 1], h[|h| - 1];
      Tiles(start, front);
      var c := CursorOf(start, front);
      match e
      case CursorDropped(_) => IntervalEmpty(1);
      case BaselineSet(_, u, _, _, _) => IntervalEmpty(u as int + 1);
      case RangeIndexed(_, from, to, _, resumed, _, _) =>
        if resumed {
          IntervalJoin(Covered(start, front).0 + 1, from as int, to as int + 1);
        }
    }
  }

  lemma IntervalEmpty(a: int)
    ensures Interval(a, a) == []
  {
  }

  /** While UIDVALIDITY stays, LastUID never decreases and every sync resumes where the last one stopped. */
  lemma {:induction false} NeverDecreases(start: Option<Cursor>, h: seq<Event>, more: seq<Event>, v: uint32)
    requires WellOrdered(start, h + more) && v != 0
    requires var c := CursorOf(start, h);
             c.Some? && c.value.uidValidity == v && c.value.baselineDone && (c.value.lastUid as int) < MAX_UID
    requires forall e :: e in more ==> e.validity == v
    ensures var c := CursorOf(start, h + more);
            && c.Some? && c.value.uidValidity == v && c.value.baselineDone
            && LastUid(CursorOf(start, h)) <= c.value.lastUid && (c.value.lastUid as int) < MAX_UID
    ensures forall e :: e in more ==> e.RangeIndexed? && e.resumed
    decreases |more|
  {
    hide Wrap;
    if more == [] {
      assert h + more == h;
    } else {
      var front := more[..|more| - 1];
      var e := more[|more| - 1];
      assert (h + more)[..|h + more| - 1] == h + front;
      NeverDecreases(start, h, front, v);
      assert (h + more)[|h + more| - 1] == e;
      assert e in more;
    }
  }

  /** A baseline at the largest UID is the one case in which the next sync starts over and LastUID falls. */
  lemma TopBaselineFallsBack()
    ensures var h := [BaselineSet(7, 0xFFFF_FFFF, 0, 1, []), RangeIndexed(7, 0, 4, true, true, 3, [])];
            && WellOrdered(None, h)
            && LastUid(CursorOf(None, h[..1])) > LastUid(CursorOf(None, h))
  {
    var b, i := BaselineSet(7, 0xFFFF_FFFF, 0, 1, []), RangeIndexed(7, 0, 4, true, true, 3, []);
    assert [] + [b] == [b] && [b] + [i] == [b, i] && [b, i][..1] == [b];
    Append(None, [], b);
    Append(None, [b], i);
  }

  // ---------------------------------------------------------- nothing is lost

  function MaxUid(uids: seq<uint32>): (m: uint32)
    ensures forall k :: 0 <= k < |uids| ==> uids[k] <= m
    ensures m == 0 || m in uids
  {
    if uids == [] then 0 else
      var rest, last := MaxUid(uids[..|uids| - 1]), uids[|uids| - 1];
      if last > rest then last else rest
  }

  function Ints(us: seq<uint32>): (r: seq<int>)
    ensures |r| == |us| && forall k :: 0 <= k < |us| ==> r[k] == us[k] as int
  {
    seq(|us|, i requires 0 <= i < |us| => us[i] as int)
  }

  /** The message has been dealt with for the account, or has no Message-ID to remember it by. */
  predicate Remembered(m: Message, o: Options, seen: set<Row>) {
    Key(m.headers) == [] || RowOf(m.headers, o) in seen
  }

  /** The batches were fetched after that SELECT, and their calls are in the log. */
  ghost predicate MadeAfter(log: seq<Call>, select: nat, bs: seq<Batch>) {
    forall b :: b in bs ==> select < b.at && FetchOf(b) in log
  }

  /** The SELECT that bounds an indexed range, batches that ask for exactly the range, and their messages. */
  ghost predicate RangeComplete(s: Server, o: Options, seen: set<Row>, log: seq<Call>, e: Event)
    requires e.RangeIndexed?
  {
    && (e.to as int) < MAX_UID
    && SelectCall(e.select, Some(Selected(e.validity, e.to + 1))) in log
    && MadeAfter(log, e.select, e.batches)
    && Ints(AskedBy(e.batches)) == Interval(e.from as int, e.to as int + 1)
    && (forall b :: b in e.batches ==> Retried(s, b))
    && forall m :: m in GotBy(e.batches) ==> Remembered(m, o, seen)
  }

  /** The SELECT and SEARCH a baseline starts from, and batches of the UIDs found, or none if they are too many. */
  ghost predicate BaselineComplete(s: Server, log: seq<Call>, e: Event)
    requires e.BaselineSet?
  {
    && s.select(e.select).Some? && s.select(e.select).value.uidValidity == e.validity
    && SelectCall(e.select, s.select(e.select)) in log
    && s.search(e.search).Some?
    && SearchCall(e.search, s.search(e.search)) in log
    && MadeAfter(log, e.search, e.batches)
    && (forall b :: b in e.batches ==> Plain(s, b))
    && var all := s.search(e.search).value;
       && (AskedBy(e.batches) == all || e.batches == [])
       && e.last == MaxUid(all + Uids(GotBy(e.batches)))
  }

  ghost predicate Complete(s: Server, o: Options, seen: set<Row>, log: seq<Call>, e: Event) {
    match e
    case CursorDropped(_) => true
    case BaselineSet(_, _, _, _, _) => BaselineComplete(s, log, e)
    case RangeIndexed(_, _, _, _, _, _, _) => RangeComplete(s, o, seen, log, e)
  }

  ghost predicate AllComplete(s: Server, o: Options, seen: set<Row>, log: seq<Call>, h: seq<Event>) {
    forall e :: e in h ==> Complete(s, o, seen, log, e)
  }

  /** Rows of the seen table are never removed, and calls stay in the log. */
  lemma CompleteGrows(s: Server, o: Options, seen: set<Row>, more: set<Row>, log: seq<Call>, longer: seq<Call>,
                      h: seq<Event>)
    requires seen <= more && log <= longer && AllComplete(s, o, seen, log, h)
    ensures AllComplete(s, o, more, longer, h)
  {
    hide Key, RowOf, Retried, Plain, MaxUid, Ints, Interval;
    forall e | e in h ensures Complete(s, o, more, longer, e) {
      assert Complete(s, o, seen, log, e);
    }
  }

  /** Each UID between the base and LastUID was asked for in a batch of some indexed range. */
  lemma {:induction false} WasAskedFor(s: Server, o: Options, seen: set<Row>, log: seq<Call>, start: Option<Cursor>,
                                       h: seq<Event>, uid: uint32) returns (e: Event, b: Batch)
    requires WellOrdered(start, h) && NoBaselineAtTheTop(start, h) && AllComplete(s, o, seen, log, h)
    requires Covered(start, h).0 < uid as int <= LastUid(CursorOf(start, h)) as int
    ensures e in h && e.RangeIndexed? && e.from <= uid <= e.to && RangeComplete(s, o, seen, log, e)
    ensures b in e.batches && uid in b.asked
    decreases |h|
  {
    hide Wrap, RangeComplete, BaselineComplete, Interval, Follows;
    if h == [] {
      assert false;
    }
    var front := h[..|h| - 1];
    e := h[|h| - 1];
    Tiles(start, h);
    NoneAtTheTopBefore(start, h);
    Tiles(start, front);
    FollowsLast(start, h);
    if e.RangeIndexed? && e.from <= uid <= e.to {
      assert Complete(s, o, seen, log, e);
      b := InRange(s, o, seen, log, e, uid);
    } else {
      e, b := WasAskedFor(s, o, seen, log, start, front, uid);
    }
  }

  lemma NoneAtTheTopBefore(start: Option<Cursor>, h: seq<Event>)
    requires NoBaselineAtTheTop(start, h) && h != []
    ensures NoBaselineAtTheTop(start, h[..|h| - 1])
  {
  }

  /** What the last event does to the base and the range it covers. */
  lemma FollowsLast(start: Option<Cursor>, h: seq<Event>)
    requires WellOrdered(start, h) && NoBaselineAtTheTop(start, h) && h != []
    ensures var front, e := h[..|h| - 1], h[|h| - 1];
            && WellOrdered(start, front)
            && match e
               case CursorDropped(_) => LastUid(CursorOf(start, h)) == 0 && Covered(start, h).0 == 0
               case BaselineSet(_, u, _, _, _) => LastUid(CursorOf(start, h)) as int == Covered(start, h).0
               case RangeIndexed(_, from, to, _, resumed, _, _) =>
                 && LastUid(CursorOf(start, h)) == to
                 && if resumed then Covered(start, h).0 == Covered(start, front).0
                                    && from as int == LastUid(CursorOf(start, front)) as int + 1
                    else Covered(start, h).0 == 0 && from == 1
  {
    Tiles(start, h[..|h| - 1]);
    hide Interval;
  }

  lemma InRange(s: Server, o: Options, seen: set<Row>, log: seq<Call>, e: Event, uid: uint32) returns (b: Batch)
    requires e.RangeIndexed? && RangeComplete(s, o, seen, log, e) && e.from <= uid <= e.to
    ensures b in e.batches && uid in b.asked
  {
    hide Retried, MadeAfter, Remembered;
    var asked := AskedBy(e.batches);
    var k := uid as int - e.from as int;
    assert Ints(asked)[k] == uid as int;
    assert asked[k] == uid;
    b := AskedInBatch(e.batches, uid);
  }

  /** Such a UID's message is remembered, or did not come when asked for, or came and could not be read. */
  lemma NothingLost(s: Server, o: Options, seen: set<Row>, log: seq<Call>, start: Option<Cursor>,
                    h: seq<Event>, uid: uint32) returns (e: Event, b: Batch)
    requires WellOrdered(start, h) && NoBaselineAtTheTop(start, h) && AllComplete(s, o, seen, log, h)
    requires Covered(start, h).0 < uid as int <= LastUid(CursorOf(start, h)) as int
    ensures e in h && e.RangeIndexed? && b in e.batches && uid in b.asked
    ensures s.fetch(b.at, b.asked) == Some(b.raws) && FetchOf(b) in log
    ensures e.select < b.at && SelectCall(e.select, Some(Selected(e.validity, e.to + 1))) in log && uid <= e.to
    ensures || !Came(b, uid) || Unreadable(b, uid)
            || exists m :: m in b.got && m.uid == uid && Remembered(m, o, seen)
  {
    hide AllComplete, WellOrdered, Covered, Retried, Rounds, Lists, Parsed, Interval, Came, Unreadable, Remembered,
      CursorOf;
    BaseIsNatural(start, h);
    e, b := WasAskedFor(s, o, seen, log, start, h, uid);
    assert Retried(s, b);
    RetriedIsFetched(s, b);
    Fate(s, b, uid);
    if uid in Uids(b.got) {
      var k :| 0 <= k < |b.got| && Uids(b.got)[k] == uid;
      GotAll(e.batches, b, b.got[k]);
    }
  }

  lemma RetriedIsFetched(s: Server, b: Batch)
    requires Retried(s, b)
    ensures Fetched(s, b)
  {
    hide Rounds, Lists, Parsed;
  }

  lemma {:induction false} BaseIsNatural(start: Option<Cursor>, h: seq<Event>)
    ensures Covered(start, h).0 >= 0
    decreases |h|
  {
    hide Interval;
    if h != [] {
      BaseIsNatural(start, h[..|h| - 1]);
    }
  }
}
