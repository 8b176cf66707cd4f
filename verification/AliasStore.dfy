/** The SQL tables of the alias index, and the operations on them. */
module AliasStore {
  import opened Bytes
  import opened MessageIds

  /** A row of alias_threads, without its key and its created_at column. */
  datatype Thread = Thread(replyAs: Text, origFrom: Text, tenant: Text)

  /** A row of alias_index_imap_cursor; UIDs are unsigned 32-bit numbers. */
  newtype uint32 = x: int | 0 <= x < 0x1_0000_0000

  datatype Cursor = Cursor(uidValidity: uint32, lastUid: uint32, baselineDone: bool)

  /** A (mailbox, name) primary key. */
  type Row = (Text, Text)

  const BATCH_SIZE := 2000

  // -------------------------------------------------------------- retention

  /** The rows the age limit keeps. */
  function Young(stamps: map<Text, int>, cutoff: int): map<Text, int> {
    map k | k in stamps && cutoff <= stamps[k] :: stamps[k]
  }

  /** `dropped` can be what ORDER BY created_at ASC LIMIT n selects; ties fall either way. */
  predicate OldestRows(stamps: map<Text, int>, dropped: set<Text>, n: nat) {
    && dropped <= stamps.Keys
    && |dropped| == n
    && forall d, k :: d in dropped && k in stamps.Keys - dropped ==> stamps[d] <= stamps[k]
  }

  lemma {:induction false} OldestOf(stamps: map<Text, int>, rows: set<Text>) returns (d: Text)
    requires rows <= stamps.Keys && rows != {}
    ensures d in rows && forall k :: k in rows ==> stamps[d] <= stamps[k]
    decreases |rows|
  {
    d :| d in rows;
    if rows != {d} {
      assert (rows - {d}) + {d} == rows;
      var e := OldestOf(stamps, rows - {d});
      if stamps[e] < stamps[d] { d := e; }
    }
  }

  lemma {:induction false} OldestRowsExist(stamps: map<Text, int>, n: nat)
    requires n <= |stamps.Keys|
    ensures exists dropped :: OldestRows(stamps, dropped, n)
  {
    if n == 0 {
      assert OldestRows(stamps, {}, 0);
    } else {
      OldestRowsExist(stamps, n - 1);
      var some :| OldestRows(stamps, some, n - 1);
      assert (stamps.Keys - some) + some == stamps.Keys;
      var d := OldestOf(stamps, stamps.Keys - some);
      assert OldestRows(stamps, some + {d}, n);
    }
  }

  /** What retention promises about the rows it leaves. */
  ghost predicate Retained(before: map<Text, int>, after: map<Text, int>, cutoff: int, maxRows: nat) {
    && after.Keys <= before.Keys
    && (forall k :: k in after ==> after[k] == before[k] && cutoff <= before[k])
    && |after.Keys| <= maxRows
    && forall d :: d in before && d !in after && cutoff <= before[d] ==>
                     |after.Keys| == maxRows && forall k :: k in after ==> before[d] <= before[k]
  }

  lemma DropSize(rows: set<Text>, dropped: set<Text>)
    requires dropped <= rows
    ensures |rows - dropped| == |rows| - |dropped|
  {
    assert rows == (rows - dropped) + dropped;
  }

  // ----------------------------------------------------------- batched marks

  /** The rows that marking `names` for a mailbox adds; blank names add none. */
  function RowsOf(canon: Text -> Text, mailbox: Text, names: seq<Text>): (rows: set<Row>)
    ensures forall r :: r in rows <==>
              (r.0 == mailbox && r.1 != [] && exists k :: 0 <= k < |names| && r.1 == canon(names[k]))
  {
    set k | 0 <= k < |names| && canon(names[k]) != [] :: (mailbox, canon(names[k]))
  }

  lemma RowsOfJoin(canon: Text -> Text, mailbox: Text, names: seq<Text>, i: nat, j: nat)
    requires i <= j <= |names|
    ensures RowsOf(canon, mailbox, names[..i]) + RowsOf(canon, mailbox, names[i..j])
         == RowsOf(canon, mailbox, names[..j])
  {
    var whole, part := names[..j], names[i..j];
    forall r | r in RowsOf(canon, mailbox, whole)
      ensures r in RowsOf(canon, mailbox, names[..i]) + RowsOf(canon, mailbox, part)
    {
      var k :| 0 <= k < j && r.1 == canon(whole[k]);
      if k < i {
        assert names[..i][k] == whole[k];
      } else {
        assert part[k - i] == whole[k];
      }
    }
    forall r | r in RowsOf(canon, mailbox, part) ensures r in RowsOf(canon, mailbox, whole) {
      var k :| 0 <= k < |part| && r.1 == canon(part[k]);
      assert whole[i + k] == part[k];
    }
    forall r | r in RowsOf(canon, mailbox, names[..i]) ensures r in RowsOf(canon, mailbox, whole) {
      var k :| 0 <= k < i && r.1 == canon(names[..i][k]);
      assert whole[k] == names[..i][k];
    }
  }

  lemma RowsOfNone(canon: Text -> Text, mailbox: Text)
    ensures RowsOf(canon, mailbox, []) == {}
  {
  }

  lemma RowsOfNext(canon: Text -> Text, mailbox: Text, names: seq<Text>, k: nat)
    requires k < |names|
    ensures RowsOf(canon, mailbox, names[..k + 1])
         == RowsOf(canon, mailbox, names[..k]) + if canon(names[k]) == [] then {} else {(mailbox, canon(names[k]))}
  {
    RowsOfJoin(canon, mailbox, names, k, k + 1);
    var one := names[k..k + 1];
    assert one[0] == names[k];
  }

  function Blank(s: Text): Text { Trim(IsSpace, s) }

  // ------------------------------------------------------------------ lookup

  /** The index of the first of the keys that is stored, or the length. */
  function FirstStored(forms: seq<Text>, keys: set<Text>): (i: nat)
    ensures i <= |forms|
    ensures i < |forms| ==> forms[i] in keys
    ensures forall k :: 0 <= k < i ==> forms[k] !in keys
  {
    if forms == [] || forms[0] in keys then 0 else 1 + FirstStored(forms[1..], keys)
  }

  lemma NormalizeNothing()
    ensures Normalize([]) == []
  {
  }

  /** Listing ids in a header and parsing it back leads to the thread of the same id. */
  lemma {:induction false} DistinctFirstStored(ids: seq<Text>, seen: set<Text>, keys: set<Text>)
    requires forall k :: 0 <= k < |ids| ==> NoAngles(ids[k])
    requires keys !! seen && [] !in keys
    ensures var f, d := Forms(ids), Forms(Distinct(ids, seen));
            var i, j := FirstStored(f, keys), FirstStored(d, keys);
            if i < |f| then j < |d| && d[j] == f[i] else j == |d|
    decreases |ids|
  {
    hide Normalize, NoAngles, Forms;
    if ids != [] {
      var n := Normalize(ids[0]);
      NormalizesOnce(ids[0]);
      FormsOf(ids);
      var rest := ids[1..];
      if n == [] || n in seen {
        DistinctFirstStored(rest, seen, keys);
      } else {
        FormsOf(Distinct(ids, seen));
        assert Distinct(ids, seen)[1..] == Distinct(rest, seen + {n});
        if n !in keys {
          DistinctFirstStored(rest, seen + {n}, keys);
        }
      }
    }
  }

  /**
   * A reply whose References header lists `ids` is answered from the first of them that has a
   * stored thread, under the key that indexing the message `<x>` uses.
   */
  lemma ReplyFindsThread(ids: seq<Text>, keys: set<Text>)
    requires forall k :: 0 <= k < |ids| ==> NoAngles(ids[k])
    requires [] !in keys
    ensures var f, d := Forms(ids), Forms(Parse(Printed(ids)));
            var i, j := FirstStored(f, keys), FirstStored(d, keys);
            if i < |f|
            then j < |d| && d[j] == Normalize(Normalize(['<'] + ids[i] + ['>']))
            else j == |d|
  {
    hide Normalize, NoAngles, Printed, Distinct;
    ParsePrinted(ids);
    DistinctFirstStored(ids, {}, keys);
    var i := FirstStored(Forms(ids), keys);
    if i < |ids| {
      BracketsNormalize(ids[i]);
      NormalizesOnce(ids[i]);
    }
  }

  lemma BracketsNormalize(x: Text)
    requires NoAngles(x)
    ensures Normalize(['<'] + x + ['>']) == Normalize(x)
  {
    hide Canonical;
    var s := ['<'] + x + ['>'];
    assert !IsSpace(s[0]) && !IsSpace(s[|s| - 1]);
    assert Trim(IsSpace, s) == s;
    assert Trim(IsAngle, s) == x by { TrimAround(IsAngle, '<', x, '>'); }
    assert Trim(IsAngle, Trim(IsSpace, x)) == Trim(IsSpace, x) by {
      TrimBytes(IsAngle, IsSpace, x);
      TrimNothing(IsAngle, Trim(IsSpace, x));
    }
    TrimTwice(x);
  }

  lemma TrimAround(p: byte -> bool, c: byte, x: Text, d: byte)
    requires p(c) && p(d) && Trimmed(p, x)
    ensures Trim(p, [c] + x + [d]) == x
  {
    var s := [c] + x + [d];
    var t := x + [d];
    assert s[1..] == t;
    if x != [] {
      assert t[0] == x[0];
      assert TrimLeft(p, s) == TrimLeft(p, t) == t;
      assert t[..|t| - 1] == x;
      assert TrimRight(p, t) == TrimRight(p, x) == x;
    } else {
      assert t == [d] && t[1..] == [];
      assert TrimLeft(p, s) == TrimLeft(p, t) == [];
    }
  }

  // ------------------------------------------------------------------- store

  /** The last statement sent since then failed. */
  predicate BadStatement(fails: nat -> bool, before: nat, calls: nat) { before < calls && fails(calls - 1) }

  class Store {
    /** Whether the n-th statement sent to the database fails; a failed one has no effect. */
    const fails: nat -> bool
    /** normalizeEmailAddress. */
    const email: Text -> Text
    const ttl: int
    const maxRows: nat

    var calls: nat
    var threads: map<Text, Thread>
    var createdAt: map<Text, int>
    var seen: set<Row>
    var uidls: set<Row>
    var baselines: set<Text>
    var cursors: map<Row, Cursor>

    ghost predicate Valid() reads this {
      threads.Keys == createdAt.Keys && [] !in threads
    }

    constructor (fails: nat -> bool, email: Text -> Text, ttl: int, maxRows: nat)
      ensures Valid() && threads == map[] && seen == {} && uidls == {} && baselines == {} && cursors == map[]
      ensures this.fails == fails && this.email == email && this.ttl == ttl && this.maxRows == maxRows
    {
      this.fails, this.email, this.ttl, this.maxRows := fails, email, ttl, maxRows;
      calls, threads, createdAt, seen, uidls, baselines, cursors := 0, map[], map[], {}, {}, {}, map[];
    }

    method Statement() returns (ok: bool)
      modifies `calls
      ensures calls == old(calls) + 1 && ok == !fails(old(calls))
    {
      ok := !fails(calls);
      calls := calls + 1;
    }

    method UpsertThread(id: Text, replyAs: Text, origFrom: Text, tenant: Text, now: int) returns (ok: bool)
      requires Valid()
      modifies `calls, `threads, `createdAt
      ensures Valid()
      ensures var key, r, f := Normalize(id), email(replyAs), email(origFrom);
              && ok == (key != [] && r != [] && f != [] && !fails(old(calls)))
              && threads == (if ok then old(threads)[key := Thread(r, f, Blank(tenant))] else old(threads))
              && createdAt == (if ok then old(createdAt)[key := now] else old(createdAt))
              && calls == old(calls) + (if key == [] || r == [] || f == [] then 0 else 1)
    {
      hide Normalize, Blank;
      var key, r, f := Normalize(id), email(replyAs), email(origFrom);
      if key == [] || r == [] || f == [] {
        return false;
      }
      ok := Statement();
      if ok {
        threads := threads[key := Thread(r, f, Blank(tenant))];
        createdAt := createdAt[key := now];
      }
    }

    /** A missing thread and an empty id are no error: the result is then None. */
    method LookupThread(id: Text) returns (r: Option<Thread>, ok: bool)
      modifies `calls
      ensures var key := Normalize(id);
              && ok == (key == [] || !fails(old(calls)))
              && r == (if ok && key != [] && key in threads then Some(threads[key]) else None)
              && calls == old(calls) + if key == [] then 0 else 1
    {
      hide Normalize, Blank;
      var key := Normalize(id);
      if key == [] {
        return None, true;
      }
      ok := Statement();
      r := if ok && key in threads then Some(threads[key]) else None;
    }

    method LookupAnyThread(ids: seq<Text>) returns (r: Option<(Thread, Text)>, ok: bool)
      requires Valid()
      modifies `calls
      ensures var f := Forms(ids); var i := FirstStored(f, threads.Keys);
              ok ==> r == if i < |f| then Some((threads[f[i]], f[i])) else None
      ensures !ok ==> r == None && old(calls) < calls && fails(calls - 1)
    {
      hide Normalize;
      ghost var f := Forms(ids);
      for k := 0 to |ids|
        invariant forall j :: 0 <= j < k ==> f[j] !in threads.Keys
        invariant old(calls) <= calls
      {
        assert f[k] == Normalize(ids[k]);
        var thread, found := LookupThread(ids[k]);
        if !found {
          return None, false;
        }
        if thread.Some? {
          return Some((thread.value, Normalize(ids[k]))), true;
        }
      }
      return None, true;
    }

    /** Deletes every row of alias_threads that `rows` does not list. */
    method Keep(rows: map<Text, int>)
      requires rows.Keys <= createdAt.Keys
      modifies `threads, `createdAt
      ensures createdAt == rows && threads == Restricted(old(threads), rows.Keys)
    {
      createdAt, threads := rows, Restricted(threads, rows.Keys);
    }

    /** Whether statements from..to all succeed. */
    ghost predicate Succeed(from: nat, to: nat) { forall n :: from <= n < to ==> !fails(n) }

    lemma NoneFail(from: nat)
      ensures Succeed(from, from)
      ensures forall to: nat :: Succeed(from, to) && !fails(to) ==> Succeed(from, to + 1)
    {
    }

    lemma SucceedJoin(from: nat, mid: nat, to: nat)
      requires Succeed(from, mid) && Succeed(mid, to)
      ensures Succeed(from, to)
    {
    }

    /** At most maxRows rows stay, none past the age limit, and no newer one goes before an older. */
    method PurgeExpired(now: int) returns (ok: bool)
      requires Valid()
      modifies `calls, `threads, `createdAt
      ensures Valid()
      ensures ok ==> Retained(old(createdAt), createdAt, now - ttl, maxRows)
      ensures !ok ==> createdAt == old(createdAt) || createdAt == Young(old(createdAt), now - ttl)
      ensures threads == Restricted(old(threads), createdAt.Keys)
      ensures calls > old(calls)
      ensures if ok then calls >= old(calls) + 2 && Succeed(old(calls), calls) else fails(calls - 1)
    {
      hide Retained, Young, OldestRows, Restricted, Succeed;
      NoneFail(calls);
      RestrictedNothing(threads);
      YoungRows(createdAt, now - ttl);
      ok := Statement();
      if !ok {
        return;
      }
      Keep(Young(createdAt, now - ttl));
      ok := Statement();
      if !ok {
        return;
      }
      if |createdAt.Keys| <= maxRows {
        RetainedYoung(old(createdAt), now - ttl, maxRows);
        return;
      }
      ok := DeleteOldest(|createdAt.Keys| - maxRows, now - ttl, old(createdAt), old(threads));
    }

    /** Deletes that many of the oldest rows; ties fall either way. */
    method DeleteOldest(excess: nat, cutoff: int, ghost before: map<Text, int>, ghost all: map<Text, Thread>)
      returns (ok: bool)
      requires createdAt == Young(before, cutoff) && createdAt.Keys <= before.Keys
      requires |createdAt.Keys| - maxRows == excess > 0
      requires threads == Restricted(all, createdAt.Keys) && threads.Keys == createdAt.Keys
      modifies `calls, `threads, `createdAt
      ensures calls == old(calls) + 1 && ok == !fails(old(calls))
      ensures threads.Keys == createdAt.Keys && threads == Restricted(all, createdAt.Keys)
      ensures createdAt.Keys <= old(createdAt).Keys
      ensures if ok then Retained(before, createdAt, cutoff, maxRows) else createdAt == old(createdAt)
    {
      hide Retained, Young, OldestRows, Restricted;
      RestrictedNothing(threads);
      ok := Statement();
      if !ok {
        return;
      }
      OldestRowsExist(createdAt, excess);
      var dropped :| OldestRows(createdAt, dropped, excess);
      RetainedOldest(before, cutoff, maxRows, dropped);
      var kept := createdAt - dropped;
      RestrictedTwice(all, createdAt.Keys, kept.Keys);
      Keep(kept);
    }

    method HasBaseline(key: Text) returns (has: bool, ok: bool)
      modifies `calls
      ensures calls == old(calls) + 1
      ensures ok == !fails(old(calls)) && has == (ok && key in baselines)
    {
      ok := Statement();
      has := ok && key in baselines;
    }

    method SetBaseline(key: Text) returns (ok: bool)
      modifies `calls, `baselines
      ensures calls == old(calls) + 1
      ensures ok == !fails(old(calls)) && baselines == if ok then old(baselines) + {key} else old(baselines)
    {
      ok := Statement();
      if ok {
        baselines := baselines + {key};
      }
    }

    /** Records a UIDL; a blank one is skipped without an error. */
    method MarkUidlKnown(mailbox: Text, uidl: Text) returns (ok: bool)
      modifies `calls, `uidls
      ensures calls == old(calls) + if Blank(uidl) == [] then 0 else 1
      ensures ok == (Blank(uidl) == [] || !fails(old(calls)))
      ensures uidls == if ok then old(uidls) + RowsOf(Blank, Blank(mailbox), [uidl]) else old(uidls)
    {
      hide Normalize, Blank;
      if Blank(uidl) == [] {
        assert RowsOf(Blank, Blank(mailbox), [uidl]) == {};
        return true;
      }
      ok := Statement();
      if ok {
        assert RowsOf(Blank, Blank(mailbox), [uidl]) == {(Blank(mailbox), Blank(uidl))} by {
          assert [uidl][0] == uidl;
        }
        uidls := uidls + {(Blank(mailbox), Blank(uidl))};
      }
    }

    method KnownUidls(mailbox: Text) returns (known: set<Text>, ok: bool)
      modifies `calls
      ensures calls == old(calls) + 1
      ensures ok == !fails(old(calls))
      ensures ok ==> forall u :: u in known <==> (Blank(mailbox), u) in uidls
    {
      hide Normalize, Blank;
      ok := Statement();
      known := set r | r in uidls && r.0 == Blank(mailbox) :: r.1;
    }

    method GetCursor(mailbox: Text, folder: Text) returns (c: Option<Cursor>, ok: bool)
      modifies `calls
      ensures calls == old(calls) + 1
      ensures var row := (Blank(mailbox), Blank(folder));
              ok == !fails(old(calls)) && c == if ok && row in cursors then Some(cursors[row]) else None
    {
      hide Normalize, Blank;
      ok := Statement();
      var row := (Blank(mailbox), Blank(folder));
      c := if ok && row in cursors then Some(cursors[row]) else None;
    }

    method SetCursor(mailbox: Text, folder: Text, c: Cursor) returns (ok: bool)
      modifies `calls, `cursors
      ensures calls == old(calls) + 1
      ensures ok == !fails(old(calls))
      ensures cursors == if ok then old(cursors)[(Blank(mailbox), Blank(folder)) := c] else old(cursors)
    {
      hide Normalize, Blank;
      ok := Statement();
      if ok {
        cursors := cursors[(Blank(mailbox), Blank(folder)) := c];
      }
    }

    method DeleteCursor(mailbox: Text, folder: Text) returns (ok: bool)
      modifies `calls, `cursors
      ensures calls == old(calls) + 1
      ensures ok == !fails(old(calls))
      ensures cursors == if ok then old(cursors) - {(Blank(mailbox), Blank(folder))} else old(cursors)
    {
      hide Normalize, Blank;
      ok := Statement();
      if ok {
        cursors := cursors - {(Blank(mailbox), Blank(folder))};
      }
    }

    method IsSeenMessage(mailbox: Text, id: Text) returns (known: bool, ok: bool)
      modifies `calls
      ensures var key := Normalize(id);
              && calls == old(calls) + (if key == [] then 0 else 1)
              && ok == (key == [] || !fails(old(calls)))
              && known == (ok && key != [] && (Blank(mailbox), key) in seen)
    {
      hide Normalize, Blank;
      var key := Normalize(id);
      if key == [] {
        return false, true;
      }
      ok := Statement();
      known := ok && (Blank(mailbox), key) in seen;
    }

    method MarkSeenMessage(mailbox: Text, id: Text) returns (ok: bool)
      modifies `calls, `seen
      ensures var key := Normalize(id);
              && calls == old(calls) + (if key == [] then 0 else 1)
              && ok == (key == [] || !fails(old(calls)))
              && seen == if ok && key != [] then old(seen) + {(Blank(mailbox), key)} else old(seen)
    {
      hide Normalize, Blank;
      var key := Normalize(id);
      if key == [] {
        return true;
      }
      ok := Statement();
      if ok {
        seen := seen + {(Blank(mailbox), key)};
      }
    }

    /** One transaction: all of the rows, or none. */
    method InsertBatch(rows: set<Row>, canon: Text -> Text, mailbox: Text, names: seq<Text>)
      returns (after: set<Row>, ok: bool)
      modifies `calls
      ensures after == if ok then rows + RowsOf(canon, mailbox, names) else rows
      ensures calls > old(calls)
      ensures if ok then Succeed(old(calls), calls) else fails(calls - 1)
    {
      hide RowsOf, Succeed;
      NoneFail(calls);
      after := rows;
      ok := Statement();
      if !ok {
        return;
      }
      ok := Statement();
      if !ok {
        return;
      }
      RowsOfNone(canon, mailbox);
      for k := 0 to |names|
        invariant after == rows + RowsOf(canon, mailbox, names[..k])
        invariant calls > old(calls) && Succeed(old(calls), calls)
      {
        RowsOfNext(canon, mailbox, names, k);
        var name := canon(names[k]);
        if name != [] {
          ok := Statement();
          if !ok {
            return rows, false;
          }
          after := after + {(mailbox, name)};
        }
      }
      assert names[..|names|] == names;
      ok := Statement();
      if !ok {
        after := rows;
      }
    }

    /** Batches of BATCH_SIZE, each its own transaction, up to the first that fails. */
    method InsertBatches(rows: set<Row>, canon: Text -> Text, mailbox: Text, names: seq<Text>)
      returns (after: set<Row>, ok: bool, ghost count: nat)
      modifies `calls
      ensures count <= |names| && (count == |names| || count % 2000 == 0) && (ok <==> count == |names|)
      ensures after == rows + RowsOf(canon, mailbox, names[..count])
      ensures calls >= old(calls)
      ensures if ok then Succeed(old(calls), calls) else calls > old(calls) && fails(calls - 1)
    {
      hide RowsOf, Succeed;
      NoneFail(calls);
      RowsOfNone(canon, mailbox);
      after, ok, count := rows, true, 0;
      var start := 0;
      while start < |names|
        invariant count == (if start <= |names| then start else |names|)
        invariant calls >= old(calls) && Succeed(old(calls), calls)
        invariant ok && start % BATCH_SIZE == 0 && 0 <= start
        invariant after == rows + RowsOf(canon, mailbox, names[..count])
        decreases |names| - start
      {
        var end := start + BATCH_SIZE;
        if end > |names| {
          end := |names|;
        }
        ghost var mid := calls;
        after, ok := InsertBatch(after, canon, mailbox, names[start..end]);
        if !ok {
          return;
        }
        SucceedJoin(old(calls), mid, calls);
        RowsOfJoin(canon, mailbox, names, start, end);
        count := end;
        start := start + BATCH_SIZE;
      }
    }

    method MarkSeenMessages(mailbox: Text, ids: seq<Text>) returns (ok: bool, ghost count: nat)
      modifies `calls, `seen
      ensures count <= |ids| && (count == |ids| || count % 2000 == 0) && (ok <==> count == |ids|)
      ensures seen == old(seen) + RowsOf(Normalize, Blank(mailbox), ids[..count])
      ensures calls >= old(calls)
      ensures if ok then Succeed(old(calls), calls) else calls > old(calls) && fails(calls - 1)
    {
      hide Normalize, Blank;
      seen, ok, count := InsertBatches(seen, Normalize, Blank(mailbox), ids);
    }

    method MarkUidlsKnown(mailbox: Text, names: seq<Text>) returns (ok: bool, ghost count: nat)
      modifies `calls, `uidls
      ensures count <= |names| && (count == |names| || count % 2000 == 0) && (ok <==> count == |names|)
      ensures uidls == old(uidls) + RowsOf(Blank, Blank(mailbox), names[..count])
      ensures calls >= old(calls)
      ensures if ok then Succeed(old(calls), calls) else calls > old(calls) && fails(calls - 1)
    {
      hide Normalize, Blank;
      uidls, ok, count := InsertBatches(uidls, Blank, Blank(mailbox), names);
    }
  }

  function Restricted(threads: map<Text, Thread>, keys: set<Text>): map<Text, Thread> {
    map k | k in threads && k in keys :: threads[k]
  }

  lemma RestrictedNothing(threads: map<Text, Thread>)
    ensures Restricted(threads, threads.Keys) == threads
    ensures forall keys: set<Text> :: keys <= threads.Keys ==> Restricted(threads, keys).Keys == keys
  {
  }

  lemma RestrictedTwice(threads: map<Text, Thread>, big: set<Text>, small: set<Text>)
    requires small <= big
    ensures Restricted(Restricted(threads, big), small) == Restricted(threads, small)
  {
  }

  lemma YoungRows(stamps: map<Text, int>, cutoff: int)
    ensures Young(stamps, cutoff).Keys <= stamps.Keys
  {
  }

  lemma RetainedYoung(before: map<Text, int>, cutoff: int, maxRows: nat)
    requires |Young(before, cutoff).Keys| <= maxRows
    ensures Retained(before, Young(before, cutoff), cutoff, maxRows)
  {
  }

  lemma RetainedOldest(before: map<Text, int>, cutoff: int, maxRows: nat, dropped: set<Text>)
    requires var young := Young(before, cutoff);
             |young.Keys| > maxRows && OldestRows(young, dropped, |young.Keys| - maxRows)
    ensures Retained(before, Young(before, cutoff) - dropped, cutoff, maxRows)
  {
    var young := Young(before, cutoff);
    var after := young - dropped;
    assert after.Keys == young.Keys - dropped;
    DropSize(young.Keys, dropped);
  }
}
