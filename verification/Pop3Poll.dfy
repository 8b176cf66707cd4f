/** Polling one POP3 mailbox: the UIDL baseline, and the indexing of the messages listed under unknown UIDLs. */
module Pop3Poll {
  import opened Bytes
  import opened MessageIds
  import opened AliasStore
  import opened MessageIndex

  /** A UIDL as it is cut out of a response line: not empty, and without white space. */
  type Uidl = u: Text | u != [] && NoSpaces(u) witness "1"

  datatype Listing = Listing(number: int, uidl: Uidl)

  /** What the server answers at each moment; headers that do not parse are None inside the answer. */
  datatype Server = Server(
    login: nat -> bool,
    uidls: nat -> Option<seq<Listing>>,
    top: (nat, int) -> Option<Option<Headers>>)

  /** A TOP that was answered: its moment, the listed message, and its headers if they parse. */
  datatype Asked = Asked(at: nat, item: Listing, answer: Option<Headers>)

  function ItemsOf(asks: seq<Asked>): (r: seq<Listing>)
    ensures |r| == |asks| && forall k :: 0 <= k < |asks| ==> r[k] == asks[k].item
  {
    seq(|asks|, i requires 0 <= i < |asks| => asks[i].item)
  }

  /** The headers that parse, in order: what the indexer is given. */
  function HeadersIn(asks: seq<Asked>): seq<Headers> {
    if asks == [] then [] else
      var last := asks[|asks| - 1].answer;
      HeadersIn(asks[..|asks| - 1]) + if last.Some? then [last.value] else []
  }

  /** The listed messages whose UIDL has no row for the mailbox, in order. */
  function Unknown(mailbox: Text, items: seq<Listing>, uidls: set<Row>): (r: seq<Listing>)
    ensures |r| <= |items|
    ensures forall i :: i in r <==> i in items && (Blank(mailbox), i.uidl) !in uidls
  {
    if items == [] then [] else
      var last := items[|items| - 1];
      Unknown(mailbox, items[..|items| - 1], uidls) + if (Blank(mailbox), last.uidl) in uidls then [] else [last]
  }

  /** Each of these TOPs was made in its turn from `time` on, and answered that way. */
  ghost predicate Answered(server: Server, time: nat, asks: seq<Asked>) {
    forall k :: 0 <= k < |asks| ==>
      asks[k].at == time + k && server.top(asks[k].at, asks[k].item.number) == Some(asks[k].answer)
  }

  /**
   * A poll's TOPs ask, in order, for the listed messages that were unknown when it began: all of them when
   * it finishes. The first `marked` of them got a row, which is all of them but possibly the last.
   */
  ghost predicate AskedUnknown(mailbox: Text, items: seq<Listing>, before: set<Row>, asks: seq<Asked>,
                               marked: nat, after: set<Row>, ok: bool) {
    AskedFor(mailbox, Unknown(mailbox, items, before), before, asks, marked, after, ok)
  }

  ghost predicate AskedFor(mailbox: Text, wanted: seq<Listing>, before: set<Row>, asks: seq<Asked>,
                           marked: nat, after: set<Row>, ok: bool) {
    && ItemsOf(asks) <= wanted && (ok ==> ItemsOf(asks) == wanted)
    && marked <= |asks| <= marked + 1 && (ok ==> marked == |asks|)
    && after == before + RowsOf(Blank, Blank(mailbox), NamesOf(ItemsOf(asks)[..marked]))
  }

  /** The TOP that comes next was made last, and got no answer. */
  ghost predicate TopUnanswered(server: Server, mailbox: Text, items: seq<Listing>, before: set<Row>,
                                asks: seq<Asked>, time: nat) {
    var wanted := Unknown(mailbox, items, before);
    |asks| < |wanted| && time > 0 && server.top(time - 1, wanted[|asks|].number).None?
  }

  function NamesOf(items: seq<Listing>): (r: seq<Text>)
    ensures |r| == |items| && forall k :: 0 <= k < |items| ==> r[k] == items[k].uidl
  {
    seq(|items|, i requires 0 <= i < |items| => items[i].uidl)
  }

  function NameSet(items: seq<Listing>): set<Text> { set n | n in NamesOf(items) }

  lemma UidlIsTrimmed(u: Uidl)
    ensures Blank(u) == u
  {
    TrimNothing(IsSpace, u);
  }

  /** The uidl table has a row for each of these names. */
  ghost predicate AllKnown(mailbox: Text, names: set<Text>, uidls: set<Row>) {
    forall u :: u in names ==> (Blank(mailbox), u) in uidls
  }

  lemma MarkedAreKnown(mailbox: Text, items: seq<Listing>, count: nat, uidls: set<Row>)
    requires count == |items|
    ensures AllKnown(mailbox, NameSet(items), uidls + RowsOf(Blank, Blank(mailbox), NamesOf(items)[..count]))
  {
    hide Blank;
    var names := NamesOf(items);
    assert names[..count] == names;
    forall n | n in names ensures (Blank(mailbox), n) in RowsOf(Blank, Blank(mailbox), names) {
      var k :| 0 <= k < |names| && names[k] == n;
      UidlIsTrimmed(items[k].uidl);
    }
  }

  class Poller {
    const store: Store
    const server: Server
    const x: Extractors
    const o: Options
    const skipExisting: bool

    var time: nat
    /** The UIDLs listed when the baseline was recorded. */
    ghost var baselined: set<Text>

    ghost predicate Valid() reads this, store {
      store.Valid() && store.email == x.email && AllKnown(o.mailbox, baselined, store.uidls)
    }

    constructor (store: Store, server: Server, x: Extractors, o: Options, skipExisting: bool)
      requires store.Valid() && store.email == x.email
      ensures Valid() && baselined == {}
      ensures this.store == store && this.server == server && this.x == x && this.o == o
      ensures this.skipExisting == skipExisting
    {
      this.store, this.server, this.x, this.o, this.skipExisting := store, server, x, o, skipExisting;
      time, baselined := 0, {};
    }

    /** Records every listed UIDL as known, then the baseline itself. */
    method Baseline(items: seq<Listing>) returns (ok: bool, ghost count: nat)
      requires Valid()
      modifies store`calls, store`uidls, store`baselines, `baselined
      ensures Valid() && count <= |items| && (ok ==> count == |items|)
      ensures !ok ==> BadStatement(store.fails, old(store.calls), store.calls)
      ensures store.uidls == old(store.uidls) + RowsOf(Blank, Blank(o.mailbox), NamesOf(items)[..count])
      ensures !ok ==> baselined == old(baselined) && store.baselines == old(store.baselines)
      ensures ok ==> baselined == NameSet(items) && o.mailbox in store.baselines
    {
      hide Blank, RowsOf, AllKnown;
      ghost var before := store.uidls;
      ok, count := store.MarkUidlsKnown(o.mailbox, NamesOf(items));
      StaysKnown(o.mailbox, baselined, before, store.uidls);
      if !ok {
        return;
      }
      MarkedAreKnown(o.mailbox, items, count, before);
      ok := store.SetBaseline(o.mailbox);
      if ok {
        baselined := NameSet(items);
      }
    }

    /**
     * One poll. `asks` are the TOPs that were answered, none for a UIDL that was known when the
     * poll began or is in the baseline; the headers in the answers are exactly what was indexed.
     */
    method PollMailbox() returns (ok: bool, ghost asks: seq<Asked>, ghost marked: nat)
      requires Valid()
      modifies this`time, this`baselined, store`calls, store`threads, store`createdAt, store`seen,
               store`uidls, store`baselines
      ensures Valid() && old(store.uidls) <= store.uidls && old(time) + 2 <= time
      ensures KeepsThreads(o.mailbox, old(Shape(store)), Shape(store)) && old(store.seen) <= store.seen
      ensures Answered(server, old(time) + 2, asks) && old(time) + 2 + |asks| <= time <= old(time) + 3 + |asks|
      ensures forall a :: a in asks ==>
                            (Blank(o.mailbox), a.item.uidl) !in old(store.uidls) && a.item.uidl !in old(baselined)
      ensures if ok then Pass(x, HeadersIn(asks), o, old(Shape(store))) == (Shape(store), true)
              else Interrupted(x, HeadersIn(asks), o, old(Shape(store)), Shape(store))
      ensures ok ==> server.login(old(time)) && server.uidls(old(time) + 1).Some?
      ensures var listed := server.uidls(old(time) + 1);
              if listed.None? then asks == [] && store.uidls == old(store.uidls) && baselined == old(baselined)
              else if skipExisting && o.mailbox !in old(store.baselines) then
                && asks == [] && marked <= |listed.value|
                && store.uidls == old(store.uidls) + RowsOf(Blank, Blank(o.mailbox), NamesOf(listed.value)[..marked])
                && baselined == (if ok then NameSet(listed.value) else old(baselined))
                && (ok ==> marked == |listed.value| && o.mailbox in store.baselines)
              else
                && baselined == old(baselined)
                && AskedUnknown(o.mailbox, listed.value, old(store.uidls), asks, marked, store.uidls, ok)
      ensures ok ==> AllKnown(o.mailbox, NameSet(server.uidls(old(time) + 1).value), store.uidls)
      ensures !ok ==>
                var listed := server.uidls(old(time) + 1);
                || !server.login(old(time)) || listed.None?
                || BadStatement(store.fails, old(store.calls), store.calls)
                || TopUnanswered(server, o.mailbox, listed.value, old(store.uidls), asks, time)
                || Pass(x, HeadersIn(asks), o, old(Shape(store))) == (Shape(store), false)
    {
      hide Blank, AllKnown, Pass, Interrupted, AskedUnknown, KeepsThreads, Answered, HeadersIn, Unknown, RowsOf,
        TopUnanswered;
      asks, marked := [], 0;
      NothingAsked(server, time + 2, x, o, Shape(store));
      var ready := server.login(time);
      var listed := server.uidls(time + 1);
      time := time + 2;
      if listed.Some? {
        NoneYet(o.mailbox, listed.value, store.uidls);
      }
      if !ready || listed.None? {
        return false, asks, marked;
      }
      var items := listed.value;
      var hasBaseline, read := store.HasBaseline(o.mailbox);
      if !read {
        return false, asks, marked;
      }
      if skipExisting && !hasBaseline {
        ok, marked := Baseline(items);
        return ok, asks, marked;
      }
      var known;
      known, read := store.KnownUidls(o.mailbox);
      if !read {
        return false, asks, marked;
      }
      ghost var t, before := Shape(store), store.uidls;
      ok, asks, marked := PollItems(items, known);
      PassKeepsThreads(x, HeadersIn(asks), o, t, Shape(store));
      AskedAreNew(o.mailbox, items, before, asks, marked, store.uidls, ok, baselined);
    }

    /** Indexes the listed messages that are not known, marking each as known after it. */
    method PollItems(items: seq<Listing>, known: set<Text>)
      returns (ok: bool, ghost asks: seq<Asked>, ghost marked: nat)
      requires Valid() && forall u :: u in known <==> (Blank(o.mailbox), u) in store.uidls
      modifies this`time, store`calls, store`threads, store`createdAt, store`seen, store`uidls
      ensures Valid() && old(store.uidls) <= store.uidls
      ensures Answered(server, old(time), asks) && old(time) + |asks| <= time <= old(time) + 1 + |asks|
      ensures AskedUnknown(o.mailbox, items, old(store.uidls), asks, marked, store.uidls, ok)
      ensures old(store.calls) <= store.calls
      ensures !ok ==> || BadStatement(store.fails, old(store.calls), store.calls)
                      || TopUnanswered(server, o.mailbox, items, old(store.uidls), asks, time)
                      || Pass(x, HeadersIn(asks), o, old(Shape(store))) == (Shape(store), false)
      ensures if ok then Pass(x, HeadersIn(asks), o, old(Shape(store))) == (Shape(store), true)
              else Interrupted(x, HeadersIn(asks), o, old(Shape(store)), Shape(store))
    {
      hide Blank, AllKnown, Pass, Interrupted, RowsOf, PlanFor, ApplyAll, AskedUnknown, Answered, HeadersIn, Unknown,
        TopUnanswered, IndexedAs;
      ghost var t, known0 := Shape(store), store.uidls;
      asks, marked := [], 0;
      NothingAsked(server, time, x, o, t);
      NothingWanted(o.mailbox, items, known0);
      for i := 0 to |items|
        invariant old(store.calls) <= store.calls
        invariant Valid() && known0 <= store.uidls && time == old(time) + |asks|
        invariant Answered(server, old(time), asks)
        invariant AskedUnknown(o.mailbox, items[..i], known0, asks, |asks|, store.uidls, true)
        invariant Pass(x, HeadersIn(asks), o, t) == (Shape(store), true)
      {
        ghost var mid, rows, before := Shape(store), store.uidls, asks;
        var item := items[i];
        WantedNext(o.mailbox, items, i, known0, asks, store.uidls);
        if item.uidl in known {
          continue;
        }
        InterruptedAtEnd(x, HeadersIn(asks), o, t, mid);
        var raw := server.top(time, item.number);
        time := time + 1;
        if raw.None? {
          NextUnanswered(server, o.mailbox, items, i, known0, asks, store.uidls, time);
          marked := |asks|;
          return false, asks, marked;
        }
        asks := asks + [Asked(time - 1, item, raw.value)];
        OneMoreAsked(server, old(time), before, asks[|before|]);
        AskedNext(o.mailbox, items, i, known0, before, asks[|before|], rows);
        marked := |before|;
        if raw.value.Some? {
          var h := raw.value.value;
          var now: int := *;
          var outcome, done, count := IndexMessageFromHeaders(store, x, h, o, now);
          if !done {
            InterruptedOne(x, h, o, mid, Shape(store), count);
            InterruptedJoin(x, HeadersIn(before), [h], o, t, mid, Shape(store));
            RefusedLast(x, HeadersIn(before), h, o, t, mid);
            return false, asks, marked;
          }
          WholePlan(x, h, o, mid, count);
          PassOne(x, h, o, mid);
          PassJoin(x, HeadersIn(before), [h], o, t, mid);
        }
        InterruptedAtEnd(x, HeadersIn(asks), o, t, Shape(store));
        var written := store.MarkUidlKnown(o.mailbox, item.uidl);
        StaysKnown(o.mailbox, baselined, rows, store.uidls);
        if !written {
          return false, asks, marked;
        }
        MarkedNext(o.mailbox, items, i, known0, asks, rows, item.uidl);
      }
      assert items[..|items|] == items;
      marked := |asks|;
      ok := true;
    }
  }

  lemma NothingAsked(server: Server, time: nat, x: Extractors, o: Options, t: Tables)
    ensures Answered(server, time, []) && HeadersIn([]) == []
    ensures Pass(x, [], o, t) == (t, true) && Interrupted(x, [], o, t, t) && KeepsThreads(o.mailbox, t, t)
  {
  }

  lemma NothingWanted(mailbox: Text, items: seq<Listing>, uidls: set<Row>)
    ensures AskedUnknown(mailbox, items[..0], uidls, [], 0, uidls, true)
  {
    hide Blank;
    assert NamesOf(ItemsOf([])[..0]) == [];
  }

  /** A poll that fails before its first TOP. */
  lemma NoneYet(mailbox: Text, items: seq<Listing>, uidls: set<Row>)
    ensures AskedUnknown(mailbox, items, uidls, [], 0, uidls, false)
    ensures uidls == uidls + RowsOf(Blank, Blank(mailbox), NamesOf(items)[..0])
  {
    hide Blank;
    RowsOfNone(Blank, mailbox);
    assert NamesOf(ItemsOf([])[..0]) == [];
  }

  lemma OneMoreAsked(server: Server, time: nat, asks: seq<Asked>, a: Asked)
    requires Answered(server, time, asks)
    requires a.at == time + |asks| && server.top(a.at, a.item.number) == Some(a.answer)
    ensures Answered(server, time, asks + [a])
    ensures HeadersIn(asks + [a]) == HeadersIn(asks) + if a.answer.Some? then [a.answer.value] else []
    ensures HeadersIn(asks) + [] == HeadersIn(asks)
  {
    assert (asks + [a])[..|asks + [a]| - 1] == asks;
  }

  /** The wanted messages of a longer list begin with those of a shorter one. */
  lemma UnknownPrefix(mailbox: Text, items: seq<Listing>, i: nat, uidls: set<Row>)
    requires i <= |items|
    ensures Unknown(mailbox, items[..i], uidls) <= Unknown(mailbox, items, uidls)
    decreases |items|
  {
    hide Blank;
    if i < |items| {
      UnknownPrefix(mailbox, items[..|items| - 1], i, uidls);
      assert items[..|items| - 1][..i] == items[..i];
    } else {
      assert items[..i] == items;
    }
  }

  lemma UnknownNext(mailbox: Text, items: seq<Listing>, i: nat, uidls: set<Row>)
    requires i < |items|
    ensures Unknown(mailbox, items[..i + 1], uidls)
         == Unknown(mailbox, items[..i], uidls) + if (Blank(mailbox), items[i].uidl) in uidls then [] else [items[i]]
  {
    hide Blank;
    assert items[..i + 1][..i] == items[..i];
  }

  /** A poll that stops has asked for the beginning of every longer list. */
  lemma AskedForMore(mailbox: Text, wanted: seq<Listing>, more: seq<Listing>, before: set<Row>, asks: seq<Asked>,
                     marked: nat, after: set<Row>, ok: bool)
    requires AskedFor(mailbox, wanted, before, asks, marked, after, ok) && wanted <= more
    ensures AskedFor(mailbox, more, before, asks, marked, after, false)
  {
    hide Blank, RowsOf;
  }

  /** A poll that stops before an item, and one that passes over a known item. */
  lemma WantedNext(mailbox: Text, items: seq<Listing>, i: nat, uidls: set<Row>, asks: seq<Asked>, rows: set<Row>)
    requires i < |items| && AskedUnknown(mailbox, items[..i], uidls, asks, |asks|, rows, true)
    ensures AskedUnknown(mailbox, items, uidls, asks, |asks|, rows, false)
    ensures (Blank(mailbox), items[i].uidl) in uidls ==>
              AskedUnknown(mailbox, items[..i + 1], uidls, asks, |asks|, rows, true)
  {
    hide Blank, Unknown, AskedFor;
    UnknownPrefix(mailbox, items, i, uidls);
    UnknownNext(mailbox, items, i, uidls);
    var short, long := Unknown(mailbox, items[..i], uidls), Unknown(mailbox, items, uidls);
    AskedForMore(mailbox, short, long, uidls, asks, |asks|, rows, true);
    assert short + [] == short;
  }

  lemma NextUnanswered(server: Server, mailbox: Text, items: seq<Listing>, i: nat, uidls: set<Row>, asks: seq<Asked>,
                       rows: set<Row>, time: nat)
    requires i < |items| && AskedUnknown(mailbox, items[..i], uidls, asks, |asks|, rows, true)
    requires (Blank(mailbox), items[i].uidl) !in uidls && time > 0 && server.top(time - 1, items[i].number).None?
    ensures TopUnanswered(server, mailbox, items, uidls, asks, time)
  {
    hide Blank, Unknown, RowsOf;
    UnknownNext(mailbox, items, i, uidls);
    UnknownPrefix(mailbox, items, i + 1, uidls);
  }

  lemma RefusedLast(x: Extractors, hs: seq<Headers>, h: Headers, o: Options, t: Tables, mid: Tables)
    requires Pass(x, hs, o, t) == (mid, true)
    ensures PlanFor(x, h, o, mid.seen).Refused? ==> Pass(x, hs + [h], o, t) == (mid, false)
  {
    hide PlanFor, ApplyAll;
    PassJoin(x, hs, [h], o, t, mid);
  }

  /** The next item was asked for and has no row yet. */
  lemma AskedNext(mailbox: Text, items: seq<Listing>, i: nat, uidls: set<Row>, asks: seq<Asked>, a: Asked,
                  rows: set<Row>)
    requires i < |items| && AskedUnknown(mailbox, items[..i], uidls, asks, |asks|, rows, true)
    requires a.item == items[i] && (Blank(mailbox), items[i].uidl) !in uidls
    ensures AskedUnknown(mailbox, items, uidls, asks + [a], |asks|, rows, false)
    ensures AskedUnknown(mailbox, items[..i + 1], uidls, asks + [a], |asks|, rows, false)
    ensures Unknown(mailbox, items[..i + 1], uidls) == ItemsOf(asks + [a])
  {
    hide Blank, Unknown, AskedFor;
    UnknownPrefix(mailbox, items, i + 1, uidls);
    UnknownNext(mailbox, items, i, uidls);
    var short, next := Unknown(mailbox, items[..i], uidls), Unknown(mailbox, items[..i + 1], uidls);
    OneMoreAskedFor(mailbox, short, uidls, asks, a, rows);
    AskedForMore(mailbox, next, Unknown(mailbox, items, uidls), uidls, asks + [a], |asks|, rows, false);
  }

  lemma OneMoreAskedFor(mailbox: Text, wanted: seq<Listing>, before: set<Row>, asks: seq<Asked>, a: Asked,
                        after: set<Row>)
    requires AskedFor(mailbox, wanted, before, asks, |asks|, after, true)
    ensures AskedFor(mailbox, wanted + [a.item], before, asks + [a], |asks|, after, false)
    ensures wanted + [a.item] == ItemsOf(asks + [a])
  {
    hide Blank, RowsOf;
    assert ItemsOf(asks + [a])[..|asks|] == ItemsOf(asks) == ItemsOf(asks)[..|asks|];
  }

  /** The item asked for last got its row. */
  lemma MarkedNext(mailbox: Text, items: seq<Listing>, i: nat, uidls: set<Row>, asks: seq<Asked>, rows: set<Row>,
                   u: Uidl)
    requires i < |items| && asks != [] && u == items[i].uidl && asks[|asks| - 1].item == items[i]
    requires Unknown(mailbox, items[..i + 1], uidls) == ItemsOf(asks)
    requires AskedUnknown(mailbox, items[..i + 1], uidls, asks, |asks| - 1, rows, false)
    ensures AskedUnknown(mailbox, items[..i + 1], uidls, asks, |asks|, rows + RowsOf(Blank, Blank(mailbox), [u]), true)
  {
    hide Blank, Unknown, RowsOf;
    RowsOfAsked(mailbox, ItemsOf(asks), u);
  }

  lemma RowsOfAsked(mailbox: Text, items: seq<Listing>, u: Uidl)
    requires items != [] && items[|items| - 1].uidl == u
    ensures RowsOf(Blank, Blank(mailbox), NamesOf(items[..|items|]))
         == RowsOf(Blank, Blank(mailbox), NamesOf(items[..|items| - 1])) + RowsOf(Blank, Blank(mailbox), [u])
  {
    hide Blank, RowsOf;
    var names, n := NamesOf(items), |items|;
    RowsOfJoin(Blank, Blank(mailbox), names, n - 1, n);
    assert names[n - 1..n] == [u] && names[..n] == NamesOf(items[..n]) && names[..n - 1] == NamesOf(items[..n - 1]);
  }

  /** What was asked for was not known before, and after a finished poll every listed UIDL is. */
  lemma AskedAreNew(mailbox: Text, items: seq<Listing>, before: set<Row>, asks: seq<Asked>, marked: nat,
                    after: set<Row>, ok: bool, baselined: set<Text>)
    requires AskedUnknown(mailbox, items, before, asks, marked, after, ok) && AllKnown(mailbox, baselined, before)
    ensures forall a :: a in asks ==> (Blank(mailbox), a.item.uidl) !in before && a.item.uidl !in baselined
    ensures ok ==> AllKnown(mailbox, NameSet(items), after)
  {
    hide Blank, RowsOf, Unknown, AllKnown;
    var wanted := Unknown(mailbox, items, before);
    forall a | a in asks ensures (Blank(mailbox), a.item.uidl) !in before && a.item.uidl !in baselined {
      var k :| 0 <= k < |asks| && asks[k] == a;
      assert ItemsOf(asks)[k] == wanted[k];
      assert wanted[k] in wanted;
      NotBaselined(mailbox, a.item.uidl, before, baselined);
    }
    if ok {
      assert NamesOf(wanted)[..marked] == NamesOf(wanted[..marked]);
      MarkedAreKnown(mailbox, wanted, marked, before);
      AllListedKnown(mailbox, items, before, after);
    }
  }

  lemma NotBaselined(mailbox: Text, u: Text, before: set<Row>, baselined: set<Text>)
    requires AllKnown(mailbox, baselined, before) && (Blank(mailbox), u) !in before
    ensures u !in baselined
  {
    hide Blank;
  }

  lemma AllListedKnown(mailbox: Text, items: seq<Listing>, before: set<Row>, after: set<Row>)
    requires before <= after && AllKnown(mailbox, NameSet(Unknown(mailbox, items, before)), after)
    ensures AllKnown(mailbox, NameSet(items), after)
  {
    hide Blank;
    var wanted := Unknown(mailbox, items, before);
    forall n | n in NameSet(items) ensures (Blank(mailbox), n) in after {
      var k :| 0 <= k < |items| && items[k].uidl == n;
      if (Blank(mailbox), n) !in before {
        var j :| 0 <= j < |wanted| && wanted[j] == items[k];
        assert NamesOf(wanted)[j] == n;
      }
    }
  }

  lemma StaysKnown(mailbox: Text, names: set<Text>, before: set<Row>, after: set<Row>)
    requires before <= after && AllKnown(mailbox, names, before)
    ensures AllKnown(mailbox, names, after)
  {
    hide Blank;
  }
}
