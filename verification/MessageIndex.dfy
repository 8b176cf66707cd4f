/** Indexing one message's headers, and what interrupting and repeating a pass leaves behind. */
module MessageIndex {
  import opened Bytes
  import opened MessageIds
  import opened AliasStore

  /** Parsed headers; `rest` stands for the recipient headers the reply address is taken from. */
  datatype Headers = Headers(messageId: Text, from: Text, to: Text, rest: Text, date: Option<int>)

  datatype Options = Options(mailbox: Text, user: Text, tenant: Text, since: Option<int>)

  /** extractReplyAsAddress, extractFirstEmailFromHeader and normalizeEmailAddress. */
  datatype Extractors = Extractors(replyAs: (Headers, Text) -> Text, firstEmail: Text -> Text, email: Text -> Text)

  datatype Outcome = Indexed | SkippedSeen | SkippedDate | NotIndexable

  /** alias_threads up to timestamps, and alias_index_seen_message. */
  datatype Tables = Tables(threads: map<Text, Thread>, seen: set<Row>)

  datatype Write = PutThread(key: Text, thread: Thread) | MarkSeen(row: Row)

  /** The key under which the store keeps a message: it normalizes what the indexer normalized. */
  function Key(h: Headers): Text { Normalize(Normalize(h.messageId)) }

  function RowOf(h: Headers, o: Options): Row { (Blank(o.mailbox), Key(h)) }

  predicate TooOld(h: Headers, o: Options) {
    o.since.Some? && h.date.Some? && h.date.value < o.since.value
  }

  predicate HasAddresses(x: Extractors, h: Headers, o: Options) {
    x.replyAs(h, o.user) != [] && x.firstEmail(h.from) != []
  }

  function ThreadOf(x: Extractors, h: Headers, o: Options): Thread {
    Thread(x.email(x.replyAs(h, o.user)), x.email(x.firstEmail(h.from)), Blank(o.tenant))
  }

  /** What one message makes of the tables: the writes in order, or a refusal by the store. */
  datatype Plan = Plan(writes: seq<Write>, outcome: Outcome) | Refused

  function PlanFor(x: Extractors, h: Headers, o: Options, seen: set<Row>): Plan {
    var key, row := Key(h), RowOf(h, o);
    var mark := if key == [] then [] else [MarkSeen(row)];
    if key != [] && row in seen then Plan([], SkippedSeen)
    else if TooOld(h, o) then Plan(mark, SkippedDate)
    else if Normalize(h.messageId) == [] || !HasAddresses(x, h, o) then Plan(mark, NotIndexable)
    else
      var thread := ThreadOf(x, h, o);
      if key == [] || thread.replyAs == [] || thread.origFrom == [] then Refused
      else Plan([PutThread(key, thread)] + mark, Indexed)
  }

  function Apply(t: Tables, w: Write): Tables {
    match w
    case PutThread(key, thread) => t.(threads := t.threads[key := thread])
    case MarkSeen(row) => t.(seen := t.seen + {row})
  }

  function ApplyAll(t: Tables, ws: seq<Write>): (r: Tables)
    ensures t.seen <= r.seen
    decreases |ws|
  {
    if ws == [] then t else ApplyAll(Apply(t, ws[0]), ws[1..])
  }

  lemma ApplyTwo(t: Tables, a: Write, b: Write)
    ensures ApplyAll(t, [a]) == Apply(t, a) && ApplyAll(t, [a, b]) == Apply(Apply(t, a), b)
  {
    assert [a, b][1..] == [b] && [a][1..] == [] && [b][1..] == [];
    assert ApplyAll(Apply(t, a), [b]) == Apply(Apply(t, a), b);
  }

  // ---------------------------------------------------------------- a pass

  /** A pass with no database failure; it ends early at a message the store refuses. */
  function Pass(x: Extractors, msgs: seq<Headers>, o: Options, t: Tables): (Tables, bool) {
    if msgs == [] then (t, true)
    else
      var plan := PlanFor(x, msgs[0], o, t.seen);
      if plan.Refused? then (t, false) else Pass(x, msgs[1..], o, ApplyAll(t, plan.writes))
  }

  /** `after` is what a pass that stops anywhere, also between two writes of a message, leaves. */
  ghost predicate Interrupted(x: Extractors, msgs: seq<Headers>, o: Options, t: Tables, after: Tables)
    decreases |msgs|
  {
    after == t
    || (msgs != [] && var plan := PlanFor(x, msgs[0], o, t.seen);
        plan.Plan? &&
        ((exists j :: 0 <= j <= |plan.writes| && after == ApplyAll(t, plan.writes[..j]))
         || Interrupted(x, msgs[1..], o, ApplyAll(t, plan.writes), after)))
  }

  lemma {:induction false} InterruptedKeepsSeen(x: Extractors, msgs: seq<Headers>, o: Options, t: Tables, after: Tables)
    requires Interrupted(x, msgs, o, t, after)
    ensures t.seen <= after.seen
    decreases |msgs|
  {
    if after != t {
      var plan := PlanFor(x, msgs[0], o, t.seen);
      if !exists j :: 0 <= j <= |plan.writes| && after == ApplyAll(t, plan.writes[..j]) {
        InterruptedKeepsSeen(x, msgs[1..], o, ApplyAll(t, plan.writes), after);
      }
    }
  }

  /** Once a message is dealt with, every later pass over it writes nothing. */
  lemma DealtWith(x: Extractors, h: Headers, o: Options, t: Tables, later: Tables)
    requires var plan := PlanFor(x, h, o, t.seen); plan.Plan? && ApplyAll(t, plan.writes).seen <= later.seen
    ensures var again := PlanFor(x, h, o, later.seen); again.Plan? && again.writes == []
  {
    hide Normalize, Blank;
    var key, row := Key(h), RowOf(h, o);
    if key != [] {
      if row !in t.seen {
        var thread := ThreadOf(x, h, o);
        ApplyTwo(t, PutThread(key, thread), MarkSeen(row));
        ApplyTwo(t, MarkSeen(row), MarkSeen(row));
      }
      assert row in later.seen;
    }
  }

  /** Finishing a message that was cut off between its writes gives what doing it at once gives. */
  lemma FinishPartial(x: Extractors, h: Headers, o: Options, t: Tables, j: nat)
    requires var plan := PlanFor(x, h, o, t.seen); plan.Plan? && j <= |plan.writes|
    ensures var plan := PlanFor(x, h, o, t.seen); var cut := ApplyAll(t, plan.writes[..j]);
            var again := PlanFor(x, h, o, cut.seen);
            again.Plan? && ApplyAll(cut, again.writes) == ApplyAll(t, plan.writes)
  {
    hide Normalize, Blank;
    var plan := PlanFor(x, h, o, t.seen);
    var cut := ApplyAll(t, plan.writes[..j]);
    if j == |plan.writes| {
      assert plan.writes[..j] == plan.writes;
      DealtWith(x, h, o, t, cut);
    } else if j == 0 {
      assert cut == t;
    } else {
      var put, mark := plan.writes[0], plan.writes[1];
      assert plan.writes == [put, mark] && plan.writes[..j] == [put];
      ApplyTwo(t, put, mark);
      ApplyTwo(cut, put, mark);
      assert cut.seen == t.seen;
      assert Apply(cut, put) == cut;
    }
  }

  /** Repeating an interrupted pass from its start ends where one uninterrupted pass ends. */
  lemma {:induction false} RetryIdempotent(x: Extractors, msgs: seq<Headers>, o: Options, t: Tables, after: Tables)
    requires Interrupted(x, msgs, o, t, after)
    ensures Pass(x, msgs, o, after) == Pass(x, msgs, o, t)
    decreases |msgs|
  {
    hide PlanFor;
    if after != t {
      var h, rest := msgs[0], msgs[1..];
      var plan := PlanFor(x, h, o, t.seen);
      var whole := ApplyAll(t, plan.writes);
      if j :| 0 <= j <= |plan.writes| && after == ApplyAll(t, plan.writes[..j]) {
        FinishPartial(x, h, o, t, j);
      } else {
        InterruptedKeepsSeen(x, rest, o, whole, after);
        DealtWith(x, h, o, t, after);
        RetryIdempotent(x, rest, o, whole, after);
      }
    }
  }

  /** The same after any number of interrupted attempts. */
  lemma {:induction false} RetriesIdempotent(x: Extractors, msgs: seq<Headers>, o: Options, ts: seq<Tables>)
    requires ts != [] && forall k :: 0 <= k < |ts| - 1 ==> Interrupted(x, msgs, o, ts[k], ts[k + 1])
    ensures Pass(x, msgs, o, ts[|ts| - 1]) == Pass(x, msgs, o, ts[0])
    decreases |ts|
  {
    if |ts| > 1 {
      assert Interrupted(x, msgs, o, ts[0], ts[0 + 1]);
      RetryIdempotent(x, msgs, o, ts[0], ts[1]);
      forall k | 0 <= k < |ts[1..]| - 1 ensures Interrupted(x, msgs, o, ts[1..][k], ts[1..][k + 1]) {
        assert Interrupted(x, msgs, o, ts[k + 1], ts[k + 1 + 1]);
      }
      RetriesIdempotent(x, msgs, o, ts[1..]);
    }
  }

  // ------------------------------------------------ what a pass amounts to

  function Keys(msgs: seq<Headers>): (r: seq<Text>)
    ensures |r| == |msgs|
  {
    seq(|msgs|, i requires 0 <= i < |msgs| => Key(msgs[i]))
  }

  /** The index of the first message with this key, or the length. */
  function FirstWith(msgs: seq<Headers>, key: Text): (i: nat)
    ensures i <= |msgs|
  {
    FirstIndex(Keys(msgs), key)
  }

  lemma FirstWithNext(msgs: seq<Headers>, key: Text)
    requires msgs != []
    ensures FirstWith(msgs, key) == if Key(msgs[0]) == key then 0 else 1 + FirstWith(msgs[1..], key)
  {
    hide Key;
    assert Keys(msgs)[0] == Key(msgs[0]) && Keys(msgs)[1..] == Keys(msgs[1..]);
  }

  /** Whether a message not seen before becomes a thread. */
  predicate Indexable(x: Extractors, h: Headers, o: Options) {
    Normalize(h.messageId) != [] && !TooOld(h, o) && HasAddresses(x, h, o)
  }

  lemma OneMessage(x: Extractors, h: Headers, o: Options, t: Tables, key: Text)
    requires key != [] && PlanFor(x, h, o, t.seen).Plan?
    ensures var r := ApplyAll(t, PlanFor(x, h, o, t.seen).writes); var row := (Blank(o.mailbox), key);
            && (row in r.seen <==> row in t.seen || Key(h) == key)
            && (if row !in t.seen && Key(h) == key && Indexable(x, h, o)
                then key in r.threads && r.threads[key] == ThreadOf(x, h, o)
                else (key in r.threads <==> key in t.threads)
                     && (key in t.threads ==> r.threads[key] == t.threads[key]))
  {
    hide Normalize, Blank;
    var row := RowOf(h, o);
    ApplyTwo(t, PutThread(Key(h), ThreadOf(x, h, o)), MarkSeen(row));
    ApplyTwo(t, MarkSeen(row), MarkSeen(row));
    var put, mark := PutThread(Key(h), ThreadOf(x, h, o)), MarkSeen(row);
    assert [put] + [mark] == [put, mark];
  }

  /** The row says who the reply goes out as, where it goes, and for which tenant. */
  predicate RowSays(x: Extractors, h: Headers, o: Options, row: Thread) {
    && row.replyAs == x.email(x.replyAs(h, o.user))
    && row.origFrom == x.email(x.firstEmail(h.from))
    && row.tenant == Trim(IsSpace, o.tenant)
  }

  /** A message with an id, young enough and with both addresses. */
  predicate Qualifies(x: Extractors, h: Headers, o: Options) {
    && Normalize(h.messageId) != []
    && (o.since.Some? && h.date.Some? ==> h.date.value >= o.since.value)
    && x.replyAs(h, o.user) != [] && x.firstEmail(h.from) != []
  }

  lemma {:induction false} PassDecidesThread(x: Extractors, msgs: seq<Headers>, o: Options, t: Tables, key: Text)
    requires key != [] && Pass(x, msgs, o, t).1
    ensures var r := Pass(x, msgs, o, t).0; var i := FirstWith(msgs, key); var row := (Blank(o.mailbox), key);
            && (row in r.seen <==> row in t.seen || i < |msgs|)
            && (if row !in t.seen && i < |msgs| && Indexable(x, msgs[i], o)
                then key in r.threads && r.threads[key] == ThreadOf(x, msgs[i], o)
                else (key in r.threads <==> key in t.threads)
                     && (key in t.threads ==> r.threads[key] == t.threads[key]))
    decreases |msgs|
  {
    hide PlanFor, Blank, Normalize, Indexable, Key, FirstWith;
    if msgs != [] {
      FirstWithNext(msgs, key);
      var h, rest := msgs[0], msgs[1..];
      var next := ApplyAll(t, PlanFor(x, h, o, t.seen).writes);
      OneMessage(x, h, o, t, key);
      PassDecidesThread(x, rest, o, next, key);
      var i := FirstWith(msgs, key);
      if Key(h) != key && i < |msgs| {
        assert msgs[i] == rest[i - 1];
      }
    }
  }

  /** The first message with this key, or none. */
  lemma FirstWithIs(msgs: seq<Headers>, key: Text)
    ensures var i := FirstWith(msgs, key);
            && (i < |msgs| ==> Normalize(Normalize(msgs[i].messageId)) == key)
            && forall k :: 0 <= k < i ==> Normalize(Normalize(msgs[k].messageId)) != key
    decreases |msgs|
  {
    hide Normalize;
    if msgs != [] {
      FirstWithNext(msgs, key);
      FirstWithIs(msgs[1..], key);
      var i := FirstWith(msgs, key);
      forall k | 0 <= k < i ensures Normalize(Normalize(msgs[k].messageId)) != key {
        if k > 0 {
          assert msgs[k] == msgs[1..][k - 1];
        }
      }
    }
  }

  /**
   * A finished pass gives each key the thread of the first message that has the key, if that one
   * is indexable and the mailbox had not seen the key; every key it met is seen afterwards.
   */
  lemma PassDecides(x: Extractors, msgs: seq<Headers>, o: Options, t: Tables, key: Text)
    requires key != [] && Pass(x, msgs, o, t).1
    ensures var r := Pass(x, msgs, o, t).0;
            var row := (Trim(IsSpace, o.mailbox), key);
            var i := FirstWith(msgs, key);
            && (i < |msgs| ==> Normalize(Normalize(msgs[i].messageId)) == key)
            && (forall k :: 0 <= k < i ==> Normalize(Normalize(msgs[k].messageId)) != key)
            && (row in r.seen <==> row in t.seen || i < |msgs|)
            && (if row !in t.seen && i < |msgs| && Qualifies(x, msgs[i], o)
                then key in r.threads && RowSays(x, msgs[i], o, r.threads[key])
                else (key in r.threads <==> key in t.threads)
                     && (key in t.threads ==> r.threads[key] == t.threads[key]))
  {
    hide Pass, Normalize, FirstWith, Trim;
    PassDecidesThread(x, msgs, o, t, key);
    FirstWithIs(msgs, key);
  }

  // ------------------------------------------------- passes put together

  lemma {:induction false} PassJoin(x: Extractors, a: seq<Headers>, b: seq<Headers>, o: Options, t: Tables, mid: Tables)
    requires Pass(x, a, o, t) == (mid, true)
    ensures Pass(x, a + b, o, t) == Pass(x, b, o, mid)
    decreases |a|
  {
    hide PlanFor, ApplyAll;
    if a == [] {
      assert a + b == b;
    } else {
      assert (a + b)[0] == a[0] && (a + b)[1..] == a[1..] + b;
      PassJoin(x, a[1..], b, o, ApplyAll(t, PlanFor(x, a[0], o, t.seen).writes), mid);
    }
  }

  lemma {:induction false} InterruptedJoin(x: Extractors, a: seq<Headers>, b: seq<Headers>, o: Options,
                                           t: Tables, mid: Tables, after: Tables)
    requires Pass(x, a, o, t) == (mid, true) && Interrupted(x, b, o, mid, after)
    ensures Interrupted(x, a + b, o, t, after)
    decreases |a|
  {
    hide PlanFor, ApplyAll;
    if a == [] {
      assert a + b == b;
    } else {
      assert (a + b)[0] == a[0] && (a + b)[1..] == a[1..] + b;
      InterruptedJoin(x, a[1..], b, o, ApplyAll(t, PlanFor(x, a[0], o, t.seen).writes), mid, after);
    }
  }

  lemma InterruptedAtEnd(x: Extractors, a: seq<Headers>, o: Options, t: Tables, mid: Tables)
    requires Pass(x, a, o, t) == (mid, true)
    ensures Interrupted(x, a, o, t, mid)
  {
    assert Interrupted(x, [], o, mid, mid);
    InterruptedJoin(x, a, [], o, t, mid, mid);
    assert a + [] == a;
  }

  /** An interrupted pass is also an interrupted pass over a longer list. */
  lemma {:induction false} InterruptedLonger(x: Extractors, a: seq<Headers>, b: seq<Headers>, o: Options,
                                             t: Tables, after: Tables)
    requires Interrupted(x, a, o, t, after)
    ensures Interrupted(x, a + b, o, t, after)
    decreases |a|
  {
    hide PlanFor, ApplyAll;
    if after != t {
      assert (a + b)[0] == a[0] && (a + b)[1..] == a[1..] + b;
      var plan := PlanFor(x, a[0], o, t.seen);
      if !exists j :: 0 <= j <= |plan.writes| && after == ApplyAll(t, plan.writes[..j]) {
        InterruptedLonger(x, a[1..], b, o, ApplyAll(t, plan.writes), after);
      }
    }
  }

  lemma PassOne(x: Extractors, h: Headers, o: Options, t: Tables)
    requires PlanFor(x, h, o, t.seen).Plan?
    ensures Pass(x, [h], o, t) == (ApplyAll(t, PlanFor(x, h, o, t.seen).writes), true)
  {
    hide PlanFor, ApplyAll;
    var mid := ApplyAll(t, PlanFor(x, h, o, t.seen).writes);
    assert [h][1..] == [];
    assert Pass(x, [], o, mid) == (mid, true);
  }

  lemma InterruptedOne(x: Extractors, h: Headers, o: Options, t: Tables, after: Tables, j: nat)
    requires var plan := PlanFor(x, h, o, t.seen);
             if plan.Refused? then after == t else j <= |plan.writes| && after == ApplyAll(t, plan.writes[..j])
    ensures Interrupted(x, [h], o, t, after)
  {
    hide PlanFor, ApplyAll;
  }

  lemma PassKeepsSeen(x: Extractors, hs: seq<Headers>, o: Options, t: Tables)
    ensures t.seen <= Pass(x, hs, o, t).0.seen
    decreases |hs|
  {
    hide PlanFor, ApplyAll;
    if hs != [] && PlanFor(x, hs[0], o, t.seen).Plan? {
      PassKeepsSeen(x, hs[1..], o, ApplyAll(t, PlanFor(x, hs[0], o, t.seen).writes));
    }
  }

  lemma PassNone(x: Extractors, o: Options, t: Tables)
    ensures Pass(x, [], o, t) == (t, true) && Interrupted(x, [], o, t, t)
  {
  }

  lemma WholePlan(x: Extractors, h: Headers, o: Options, t: Tables, count: nat)
    ensures var plan := PlanFor(x, h, o, t.seen);
            plan.Plan? && count == |plan.writes| ==> plan.writes[..count] == plan.writes
  {
  }

  // -------------------------------------------------------------- once only

  /** What any folder's sync, or the hourly purge, may do to the tables. */
  datatype Step =
    | Index(h: Headers, o: Options, count: nat)
    | Baseline(rows: set<Row>)
    | Purge(kept: set<Text>)

  /** The writes of one step that reach the database: `count` of them when it is cut off. */
  function WritesOf(x: Extractors, s: Step, t: Tables): seq<Write> {
    if s.Index? then
      var plan := PlanFor(x, s.h, s.o, t.seen);
      if plan.Plan? then plan.writes[..if s.count < |plan.writes| then s.count else |plan.writes|] else []
    else []
  }

  function After(x: Extractors, s: Step, t: Tables): (r: Tables)
    ensures t.seen <= r.seen
  {
    match s
    case Index(_, _, _) => ApplyAll(t, WritesOf(x, s, t))
    case Baseline(rows) => t.(seen := t.seen + rows)
    case Purge(kept) => t.(threads := Restricted(t.threads, kept))
  }

  function Run(x: Extractors, steps: seq<Step>, t: Tables): (r: Tables)
    ensures t.seen <= r.seen
  {
    if steps == [] then t else Run(x, steps[1..], After(x, steps[0], t))
  }

  ghost predicate Puts(x: Extractors, s: Step, t: Tables, row: Row) {
    s.Index? && Blank(s.o.mailbox) == row.0 && exists w :: w in WritesOf(x, s, t) && w.PutThread? && w.key == row.1
  }

  /** After a key is marked seen for an account, no later step of the account stores a thread for it. */
  lemma SeenNeverPutAgain(x: Extractors, before: seq<Step>, s: Step, t: Tables, row: Row)
    requires row in t.seen && row.1 != []
    ensures row in Run(x, before, t).seen && !Puts(x, s, Run(x, before, t), row)
  {
    hide Normalize, Blank;
    var now := Run(x, before, t);
    if s.Index? && RowOf(s.h, s.o) == row {
      assert PlanFor(x, s.h, s.o, now.seen) == Plan([], SkippedSeen);
    }
  }

  /** A step that stores a thread and is not cut off is the account's last one to do so. */
  lemma PutOnce(x: Extractors, first: Step, between: seq<Step>, later: Step, t: Tables, row: Row)
    requires Puts(x, first, t, row) && first.count >= 2
    ensures !Puts(x, later, Run(x, between, After(x, first, t)), row)
  {
    hide Normalize, Blank;
    var plan := PlanFor(x, first.h, first.o, t.seen);
    var w :| w in WritesOf(x, first, t) && w.PutThread? && w.key == row.1;
    var thread := ThreadOf(x, first.h, first.o);
    assert plan.writes == [PutThread(row.1, thread), MarkSeen(row)];
    assert plan.writes[..2] == plan.writes;
    ApplyTwo(t, PutThread(row.1, thread), MarkSeen(row));
    SeenNeverPutAgain(x, between, later, After(x, first, t), row);
  }

  /** An interrupted pass is such a run, of steps that are complete but possibly for the last. */
  lemma {:induction false} InterruptedIsRun(x: Extractors, msgs: seq<Headers>, o: Options, t: Tables, after: Tables)
    returns (steps: seq<Step>)
    requires Interrupted(x, msgs, o, t, after)
    ensures Run(x, steps, t) == after
    ensures |steps| <= |msgs|
    ensures forall k :: 0 <= k < |steps| ==> steps[k].Index? && steps[k].h == msgs[k] && steps[k].o == o
    ensures forall k :: 0 <= k < |steps| - 1 ==> steps[k].count >= 2
    decreases |msgs|
  {
    hide PlanFor, ApplyAll;
    steps := [];
    if after != t {
      var plan := PlanFor(x, msgs[0], o, t.seen);
      AtMostTwoWrites(x, msgs[0], o, t.seen);
      if j :| 0 <= j <= |plan.writes| && after == ApplyAll(t, plan.writes[..j]) {
        steps := [Index(msgs[0], o, j)];
        assert steps[1..] == [];
      } else {
        var rest := InterruptedIsRun(x, msgs[1..], o, ApplyAll(t, plan.writes), after);
        steps := [Index(msgs[0], o, 2)] + rest;
        assert steps[1..] == rest && plan.writes[..|plan.writes|] == plan.writes;
      }
    }
  }

  lemma AtMostTwoWrites(x: Extractors, h: Headers, o: Options, seen: set<Row>)
    ensures PlanFor(x, h, o, seen).Plan? ==> |PlanFor(x, h, o, seen).writes| <= 2
  {
    hide Normalize, Blank;
  }

  /** What the mailbox had seen before keeps its thread, or keeps having none. */
  ghost predicate KeepsThreads(mailbox: Text, before: Tables, after: Tables) {
    forall key :: key != [] && (Blank(mailbox), key) in before.seen ==> SameThread(before, after, key)
  }

  predicate SameThread(before: Tables, after: Tables, key: Text) {
    && (key in after.threads <==> key in before.threads)
    && (key in before.threads ==> after.threads[key] == before.threads[key])
  }

  lemma PrefixKeepsThread(x: Extractors, h: Headers, o: Options, t: Tables, j: nat, key: Text)
    requires key != [] && (Blank(o.mailbox), key) in t.seen
    requires var plan := PlanFor(x, h, o, t.seen); plan.Plan? && j <= |plan.writes|
    ensures SameThread(t, ApplyAll(t, PlanFor(x, h, o, t.seen).writes[..j]), key)
  {
    hide Normalize, Blank, ApplyAll;
    Effects(x, h, o, t);
    var ws := PlanFor(x, h, o, t.seen).writes;
    if j == |ws| {
      assert ws[..j] == ws;
    }
  }

  lemma {:induction false} InterruptedKeepsThread(x: Extractors, msgs: seq<Headers>, o: Options, t: Tables,
                                                  after: Tables, key: Text)
    requires Interrupted(x, msgs, o, t, after) && key != [] && (Blank(o.mailbox), key) in t.seen
    ensures SameThread(t, after, key)
    decreases |msgs|
  {
    hide PlanFor, ApplyAll, Blank;
    if after != t {
      var plan := PlanFor(x, msgs[0], o, t.seen);
      if j :| 0 <= j <= |plan.writes| && after == ApplyAll(t, plan.writes[..j]) {
        PrefixKeepsThread(x, msgs[0], o, t, j, key);
      } else {
        PrefixKeepsThread(x, msgs[0], o, t, |plan.writes|, key);
        assert plan.writes[..|plan.writes|] == plan.writes;
        InterruptedKeepsThread(x, msgs[1..], o, ApplyAll(t, plan.writes), after, key);
      }
    }
  }

  /** No pass, finished or interrupted, touches the thread of a key seen before it began. */
  lemma PassKeepsThreads(x: Extractors, msgs: seq<Headers>, o: Options, t: Tables, after: Tables)
    requires Interrupted(x, msgs, o, t, after) || Pass(x, msgs, o, t) == (after, true)
    ensures KeepsThreads(o.mailbox, t, after) && t.seen <= after.seen
  {
    hide Interrupted, Pass, Blank, SameThread;
    if Pass(x, msgs, o, t) == (after, true) {
      InterruptedAtEnd(x, msgs, o, t, after);
    }
    InterruptedKeepsSeen(x, msgs, o, t, after);
    forall key | key != [] && (Blank(o.mailbox), key) in t.seen ensures SameThread(t, after, key) {
      InterruptedKeepsThread(x, msgs, o, t, after, key);
    }
  }

  // ----------------------------------------------------------- the program

  ghost function Shape(s: Store): Tables reads s { Tables(s.threads, s.seen) }

  /** The tables after each number of a plan's writes. */
  lemma Effects(x: Extractors, h: Headers, o: Options, t: Tables)
    ensures var plan, key, mark := PlanFor(x, h, o, t.seen), Key(h), t.(seen := t.seen + {RowOf(h, o)});
            plan.Plan? ==>
              var ws := plan.writes;
              && ApplyAll(t, ws[..0]) == t && ws[..|ws|] == ws
              && (plan.outcome == SkippedSeen ==> ws == [])
              && (plan.outcome == SkippedDate || plan.outcome == NotIndexable ==>
                    |ws| == (if key == [] then 0 else 1) && ApplyAll(t, ws) == if key == [] then t else mark)
              && (plan.outcome == Indexed ==>
                    var thread := ThreadOf(x, h, o);
                    |ws| == 2 && ApplyAll(t, ws[..1]) == t.(threads := t.threads[key := thread])
                    && ApplyAll(t, ws) == mark.(threads := t.threads[key := thread]))
  {
    hide Normalize, Blank;
    var mark, put := MarkSeen(RowOf(h, o)), PutThread(Key(h), ThreadOf(x, h, o));
    ApplyTwo(t, put, mark);
    ApplyTwo(t, mark, mark);
    assert [put] + [mark] == [put, mark] && [put, mark][..1] == [put];
  }

  /** What a message that was dealt with leaves in the tables, for each outcome. */
  ghost predicate IndexedAs(x: Extractors, h: Headers, o: Options, before: Tables, after: Tables, outcome: Outcome) {
    var key := Normalize(Normalize(h.messageId));
    var row := (Trim(IsSpace, o.mailbox), key);
    var known := key != [] && row in before.seen;
    var tooOld := o.since.Some? && h.date.Some? && h.date.value < o.since.value;
    && (outcome == SkippedSeen <==> known)
    && (outcome == SkippedDate <==> !known && tooOld)
    && (outcome == Indexed <==> !known && Qualifies(x, h, o))
    && after.seen == before.seen + (if key == [] then {} else {row})
    && if outcome == Indexed
       then key in after.threads && RowSays(x, h, o, after.threads[key])
            && after.threads == before.threads[key := after.threads[key]]
       else after.threads == before.threads
  }

  /** The writes done are a prefix of those planned, and all of them on success; a refusal writes nothing. */
  ghost predicate FollowsPlan(x: Extractors, h: Headers, o: Options, before: Tables, after: Tables, outcome: Outcome,
                              ok: bool, count: nat) {
    var plan := PlanFor(x, h, o, before.seen);
    if plan.Refused? then !ok && after == before
    else
      && count <= |plan.writes|
      && after == ApplyAll(before, plan.writes[..count])
      && (ok ==> count == |plan.writes| && outcome == plan.outcome)
  }

  /** A message that is dealt with: its plan is followed to the end, and this is what it leaves. */
  ghost predicate DealtWithAs(x: Extractors, h: Headers, o: Options, before: Tables, after: Tables, outcome: Outcome,
                              count: nat) {
    FollowsPlan(x, h, o, before, after, outcome, true, count) && IndexedAs(x, h, o, before, after, outcome)
  }

  lemma NothingDone(x: Extractors, h: Headers, o: Options, t: Tables)
    ensures FollowsPlan(x, h, o, t, t, NotIndexable, false, 0)
  {
    hide Normalize, Blank;
  }

  lemma SeenDone(x: Extractors, h: Headers, o: Options, t: Tables)
    requires Key(h) != [] && RowOf(h, o) in t.seen
    ensures DealtWithAs(x, h, o, t, t, SkippedSeen, 0)
  {
    hide Normalize, Trim;
    assert t.seen + {RowOf(h, o)} == t.seen;
  }

  lemma SkipDone(x: Extractors, h: Headers, o: Options, t: Tables, outcome: Outcome)
    requires Key(h) == [] || RowOf(h, o) !in t.seen
    requires if TooOld(h, o) then outcome == SkippedDate
             else outcome == NotIndexable && (Normalize(h.messageId) == [] || !HasAddresses(x, h, o))
    ensures DealtWithAs(x, h, o, t, if Key(h) == [] then t else t.(seen := t.seen + {RowOf(h, o)}), outcome,
                        if Key(h) == [] then 0 else 1)
  {
    hide Normalize, Trim;
    Effects(x, h, o, t);
  }

  lemma IndexDone(x: Extractors, h: Headers, o: Options, t: Tables, row: Thread)
    requires Key(h) != [] && RowOf(h, o) !in t.seen && !TooOld(h, o) && HasAddresses(x, h, o)
    requires row == Thread(x.email(x.replyAs(h, o.user)), x.email(x.firstEmail(h.from)), Blank(o.tenant))
    requires row.replyAs != [] && row.origFrom != [] && Normalize(h.messageId) != []
    ensures var put := t.(threads := t.threads[Key(h) := row]);
            && FollowsPlan(x, h, o, t, put, NotIndexable, false, 1)
            && DealtWithAs(x, h, o, t, put.(seen := t.seen + {RowOf(h, o)}), Indexed, 2)
  {
    hide Normalize, Trim;
    Effects(x, h, o, t);
  }

  lemma RefusedByStore(x: Extractors, h: Headers, o: Options, seen: set<Row>)
    requires Key(h) == [] || RowOf(h, o) !in seen
    requires !TooOld(h, o) && HasAddresses(x, h, o) && Normalize(h.messageId) != []
    ensures PlanFor(x, h, o, seen).Refused? <==>
              Key(h) == [] || x.email(x.replyAs(h, o.user)) == [] || x.email(x.firstEmail(h.from)) == []
  {
    hide Normalize, Trim;
  }

  /** Marks a message that is passed over, if it has an id. */
  method MarkIfNamed(store: Store, mailbox: Text, id: Text) returns (ok: bool)
    modifies store`calls, store`seen
    ensures var key := Normalize(id);
            && store.calls == old(store.calls) + (if key == [] then 0 else 1)
            && ok == (key == [] || !store.fails(old(store.calls)))
            && store.seen == if ok && key != [] then old(store.seen) + {(Blank(mailbox), key)} else old(store.seen)
  {
    hide Normalize, Blank;
    NormalizeNothing();
    ok := true;
    if id != [] {
      ok := store.MarkSeenMessage(mailbox, id);
    }
  }

  lemma KeyIs(h: Headers, o: Options)
    ensures Key(h) == Normalize(Normalize(h.messageId)) && RowOf(h, o) == (Blank(o.mailbox), Key(h))
  {
  }

  /** The thread of a message that is to be indexed, and then its mark. */
  method PutAndMark(store: Store, x: Extractors, h: Headers, o: Options, id: Text, replyAs: Text, origFrom: Text,
                    now: int)
    returns (ok: bool, ghost count: nat)
    requires store.Valid() && store.email == x.email
    requires id == Normalize(h.messageId) && id != [] && !TooOld(h, o) && HasAddresses(x, h, o)
    requires replyAs == x.replyAs(h, o.user) && origFrom == x.firstEmail(h.from)
    requires Key(h) == [] || RowOf(h, o) !in store.seen
    modifies store`calls, store`threads, store`createdAt, store`seen
    ensures store.Valid() && old(store.calls) <= store.calls
    ensures FollowsPlan(x, h, o, old(Shape(store)), Shape(store), if ok then Indexed else NotIndexable, ok, count)
    ensures ok ==> IndexedAs(x, h, o, old(Shape(store)), Shape(store), Indexed)
    ensures !ok ==> PlanFor(x, h, o, old(store.seen)).Refused?
                    || (old(store.calls) < store.calls && store.fails(store.calls - 1))
  {
    hide Normalize, Blank, FollowsPlan, IndexedAs, PlanFor, Key, RowOf, TooOld;
    ghost var t := Shape(store);
    KeyIs(h, o);
    NothingDone(x, h, o, t);
    RefusedByStore(x, h, o, store.seen);
    var stored := store.UpsertThread(id, replyAs, origFrom, o.tenant, now);
    if !stored {
      return false, 0;
    }
    IndexDone(x, h, o, t, store.threads[Key(h)]);
    var marked := store.MarkSeenMessage(o.mailbox, id);
    return marked, if marked then 2 else 1;
  }

  method IndexMessageFromHeaders(store: Store, x: Extractors, h: Headers, o: Options, now: int)
    returns (outcome: Outcome, ok: bool, ghost count: nat)
    requires store.Valid() && store.email == x.email
    modifies store`calls, store`threads, store`createdAt, store`seen
    ensures store.Valid() && old(store.calls) <= store.calls
    ensures FollowsPlan(x, h, o, old(Shape(store)), Shape(store), outcome, ok, count)
    ensures ok ==> IndexedAs(x, h, o, old(Shape(store)), Shape(store), outcome)
    ensures !ok ==> outcome == NotIndexable
    ensures !ok ==> PlanFor(x, h, o, old(store.seen)).Refused?
                    || (old(store.calls) < store.calls && store.fails(store.calls - 1))
  {
    hide Normalize, Blank, FollowsPlan, IndexedAs, PlanFor, Key, RowOf;
    ghost var t := Shape(store);
    KeyIs(h, o);
    NothingDone(x, h, o, t);
    NormalizeNothing();
    var id := Normalize(h.messageId);
    if id != [] {
      var seen, found := store.IsSeenMessage(o.mailbox, id);
      if !found {
        return NotIndexable, false, 0;
      }
      if seen {
        SeenDone(x, h, o, t);
        return SkippedSeen, true, 0;
      }
    }
    if o.since.Some? && h.date.Some? && h.date.value < o.since.value {
      SkipDone(x, h, o, t, SkippedDate);
      ok := MarkIfNamed(store, o.mailbox, id);
      return if ok then SkippedDate else NotIndexable, ok, if ok && Key(h) != [] then 1 else 0;
    }
    var replyAs, origFrom := x.replyAs(h, o.user), x.firstEmail(h.from);
    if id == [] || replyAs == [] || origFrom == [] {
      SkipDone(x, h, o, t, NotIndexable);
      ok := MarkIfNamed(store, o.mailbox, id);
      return NotIndexable, ok, if ok && Key(h) != [] then 1 else 0;
    }
    ok, count := PutAndMark(store, x, h, o, id, replyAs, origFrom, now);
    outcome := if ok then Indexed else NotIndexable;
  }

  lemma DoubleBrackets(s: Text)
    requires s == "< <> >"
    ensures Normalize(s) != [] && Normalize(Normalize(s)) == []
  {
    hide Trim, Lower, LastAt;
    var e: Text := "<>";
    var inner := [' '] + e + [' '];
    assert s == ['<'] + inner + ['>'];
    TrimIsTrimmed(IsSpace, s);
    TrimAround(IsAngle, '<', inner, '>');
    TrimAround(IsSpace, ' ', e, ' ');
    assert Core(s) == e;
    assert Lower(e) == e;
    assert Normalize(s) == ['<'] + [] + ['>'];
    BracketsNormalize([]);
    NormalizeNothing();
  }

  /**
   * A message that the indexer accepts and the store refuses stops every pass at that place: the
   * normal form of "< <> >" is "<>", whose own normal form is empty.
   */
  lemma DoublyBracketedIdIsRefused(x: Extractors, h: Headers, o: Options, rest: seq<Headers>, t: Tables)
    requires h.messageId == "< <> >" && !TooOld(h, o) && HasAddresses(x, h, o)
    ensures Pass(x, [h] + rest, o, t) == (t, false)
  {
    hide Normalize, Blank;
    DoubleBrackets(h.messageId);
    assert ([h] + rest)[0] == h;
  }

  /** Exactly which messages the store refuses. */
  lemma RefusedIff(x: Extractors, h: Headers, o: Options, seen: set<Row>)
    ensures PlanFor(x, h, o, seen).Refused? <==>
            && Indexable(x, h, o)
            && (Key(h) == [] || RowOf(h, o) !in seen)
            && (Key(h) == [] || x.email(x.replyAs(h, o.user)) == [] || x.email(x.firstEmail(h.from)) == [])
  {
    hide Normalize, Blank;
  }
}
