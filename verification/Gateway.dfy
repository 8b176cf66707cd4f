/**
 * The hand-over of envelopes to the backend workers, as a state machine of atomic steps that the
 * sessions, the workers and the goroutines left behind by timeouts take in any order.
 */
module Gateway {
  import opened Bytes

  /** Sessions, workers and messages by number; a session's number also stands for its envelope. */
  type Id = nat

  /** The result of a processor: the one that says OK, or another, which carries its own text. */
  datatype Reply = OkReply | OtherReply(text: Text)

  /** What a worker sends: what processing returned, and the id under which the message is queued. */
  datatype Note = Note(result: Option<Reply>, err: Option<Text>, queuedId: Text)

  const PANIC_NOTE := Note(None, Some("storage failed"), [])

  /** What Process returns to the session; an error of less than three bytes makes it panic. */
  datatype Answer =
    | MessageQueued(queuedId: Text) | AsReturned(result: Reply)
    | TransactionFailed(why: Text) | AsError(text: Text) | TimeoutFailed | Crashed

  /** strconv.Atoi takes these three bytes. */
  predicate IsNumber(s: Text)
    requires |s| == 3
  {
    IsDigit(s[1]) && IsDigit(s[2]) && (IsDigit(s[0]) || s[0] == '+' || s[0] == '-')
  }

  const NO_RESPONSE: Text := "no response from backend - processor did not return a result or an error"

  function AnswerTo(note: Note): Answer {
    if note.result == Some(OkReply) && note.queuedId != [] then MessageQueued(note.queuedId)
    else if note.result.Some? then AsReturned(note.result.value)
    else if note.err.Some? then
      var e := note.err.value;
      if |e| < 3 then Crashed else if IsNumber(e[..3]) then AsError(e) else TransactionFailed(e)
    else TransactionFailed(NO_RESPONSE)
  }

  /** A session inside Process: about to queue, waiting for the result, or past its timeout. */
  datatype Caller = Ready | Queued(m: Id) | Waiting(m: Id) | TimedOut(m: Id) | Returned(answer: Answer)

  /** A worker: processing, about to send what came of it, or recovering from a panic. */
  datatype Worker = Free | Working(m: Id) | Sending(m: Id, note: Note) | Panicking(m: Id) | Stopped

  /** What a goroutine left behind by a timeout does next. */
  datatype Watcher = Waits | Unlocks | Puts

  /** Who receives a notification: the session, or the goroutine it left behind. */
  datatype Receiver = Session(c: Id) | Goroutine

  /** A message is queued; a worker takes it, for a session; its processing ends; someone is notified. */
  datatype Event =
    | Put(m: Id)
    | Took(w: Id, m: Id, c: Id)
    | Ended(w: Id, m: Id, note: Note)
    | Notified(w: Id, m: Id, note: Note, to: Receiver)

  datatype Gateway = Gateway(
    capacity: nat,
    callers: map<Id, Caller>,
    workers: map<Id, Worker>,
    watchers: map<Id, Watcher>,
    conveyor: seq<Id>,
    jobs: map<Id, Id>,
    pool: set<Id>,
    locks: map<Id, Id>,
    taker: map<Id, Id>,
    log: seq<Event>)

  datatype Action =
    | Borrow(c: Id, m: Id)
    | Enqueue(c: Id)
    | Take(w: Id)
    | Finish(w: Id, note: Note)
    | Panic(w: Id)
    | NotifyCaller(w: Id)
    | Timeout(c: Id)
    | LockAndLeave(c: Id)
    | NotifyWatcher(w: Id)
    | Unlock(m: Id)
    | PutBack(m: Id)
    | Reset(c: Id)
    | Stop(w: Id)
    | Restart(w: Id)
    | Collect(m: Id)

  predicate Holds(w: Worker, m: Id) {
    (w.Working? || w.Sending? || w.Panicking?) && w.m == m
  }

  predicate Delivers(w: Worker) { w.Sending? || w.Panicking? }

  function NoteOf(w: Worker): Note
    requires Delivers(w)
  {
    if w.Sending? then w.note else PANIC_NOTE
  }

  function CallerOf(g: Gateway, c: Id): Caller { if c in g.callers then g.callers[c] else Ready }

  /** The session whose envelope the message carries. */
  function OwnerOf(g: Gateway, m: Id): Id { if m in g.jobs then g.jobs[m] else 0 }

  function WorkerOf(g: Gateway, w: Id): Worker { if w in g.workers then g.workers[w] else Stopped }

  /** The message is on its way: a session waits for its notification, or a goroutine does. */
  predicate Awaited(g: Gateway, m: Id) {
    && m in g.jobs
    && (|| (m in g.watchers && g.watchers[m] == Waits)
        || CallerOf(g, g.jobs[m]) == Waiting(m) || CallerOf(g, g.jobs[m]) == TimedOut(m))
  }

  predicate Enabled(g: Gateway, a: Action) {
    match a
    case Borrow(c, m) => c in g.callers && g.callers[c] == Ready && (m in g.pool || m !in g.jobs)
    case Enqueue(c) => c in g.callers && g.callers[c].Queued? && |g.conveyor| < g.capacity
    case Take(w) => w in g.workers && g.workers[w] == Free && g.conveyor != []
    case Finish(w, _) => w in g.workers && g.workers[w].Working?
    case Panic(w) => w in g.workers && g.workers[w].Working?
    case NotifyCaller(w) =>
      w in g.workers && Delivers(g.workers[w]) && g.workers[w].m in g.jobs
      && CallerOf(g, g.jobs[g.workers[w].m]) == Waiting(g.workers[w].m)
    case Timeout(c) => c in g.callers && g.callers[c].Waiting?
    case LockAndLeave(c) => c in g.callers && g.callers[c].TimedOut? && c !in g.locks
    case NotifyWatcher(w) =>
      w in g.workers && Delivers(g.workers[w])
      && g.workers[w].m in g.watchers && g.watchers[g.workers[w].m] == Waits
    case Unlock(m) => m in g.watchers && g.watchers[m] == Unlocks && m in g.jobs
    case PutBack(m) => m in g.watchers && g.watchers[m] == Puts
    case Reset(c) => c in g.callers && (g.callers[c] == Ready || g.callers[c].Returned?) && c !in g.locks
    case Stop(w) => w in g.workers && g.workers[w] == Free
    case Restart(w) => w in g.workers && g.workers[w] == Stopped
    case Collect(m) => m in g.pool
  }

  function Do(g: Gateway, a: Action): Gateway
    requires Enabled(g, a)
  {
    match a
    case Borrow(c, m) => g.(callers := g.callers[c := Queued(m)], jobs := g.jobs[m := c], pool := g.pool - {m})
    case Enqueue(c) =>
      var m := g.callers[c].m;
      g.(callers := g.callers[c := Waiting(m)], conveyor := g.conveyor + [m], log := g.log + [Put(m)])
    case Take(w) =>
      var m := g.conveyor[0];
      g.(workers := g.workers[w := Working(m)], conveyor := g.conveyor[1..],
         taker := g.taker[m := w], log := g.log + [Took(w, m, OwnerOf(g, m))])
    case Finish(w, note) =>
      var m := g.workers[w].m;
      g.(workers := g.workers[w := Sending(m, note)], log := g.log + [Ended(w, m, note)])
    case Panic(w) =>
      var m := g.workers[w].m;
      g.(workers := g.workers[w := Panicking(m)], log := g.log + [Ended(w, m, PANIC_NOTE)])
    case NotifyCaller(w) =>
      var m, note := g.workers[w].m, NoteOf(g.workers[w]);
      var c := g.jobs[m];
      g.(workers := g.workers[w := Free], callers := g.callers[c := Returned(AnswerTo(note))],
         log := g.log + [Notified(w, m, note, Session(c))])
    case Timeout(c) => g.(callers := g.callers[c := TimedOut(g.callers[c].m)])
    case LockAndLeave(c) =>
      var m := g.callers[c].m;
      g.(callers := g.callers[c := Returned(TimeoutFailed)], locks := g.locks[c := m],
         watchers := g.watchers[m := Waits])
    case NotifyWatcher(w) =>
      var m, note := g.workers[w].m, NoteOf(g.workers[w]);
      g.(workers := g.workers[w := Free], watchers := g.watchers[m := Unlocks],
         log := g.log + [Notified(w, m, note, Goroutine)])
    case Unlock(m) => g.(locks := g.locks - {g.jobs[m]}, watchers := g.watchers[m := Puts])
    case PutBack(m) => g.(watchers := g.watchers - {m}, pool := g.pool + {m})
    case Reset(c) => g.(callers := g.callers[c := Ready])
    case Stop(w) => g.(workers := g.workers[w := Stopped])
    case Restart(w) => g.(workers := g.workers[w := Free])
    case Collect(m) => g.(pool := g.pool - {m})
  }

  // --------------------------------------------------------------- invariant

  predicate InProcess(c: Caller) { c.Queued? || c.Waiting? || c.TimedOut? }

  predicate Busy(w: Worker) { w.Working? || Delivers(w) }

  /** A session in Process has a message of its own. */
  predicate CallerOk(g: Gateway, c: Id) {
    var k := CallerOf(g, c);
    InProcess(k) ==> k.m in g.jobs && g.jobs[k.m] == c && k.m !in g.pool && k.m !in g.watchers
  }

  /** A goroutine that has not unlocked yet is the one holding the lock of its envelope. */
  predicate WatcherOk(g: Gateway, m: Id) {
    m in g.watchers ==>
      && m in g.jobs && m !in g.pool
      && (g.watchers[m] != Puts ==> g.jobs[m] in g.locks && g.locks[g.jobs[m]] == m)
  }

  /** A locked envelope belongs to a session that has left Process and has not reset it since. */
  predicate LockOk(g: Gateway, c: Id) {
    c in g.locks ==>
      && c in g.callers && g.callers[c].Returned?
      && g.locks[c] in g.watchers && g.watchers[g.locks[c]] != Puts
      && g.locks[c] in g.jobs && g.jobs[g.locks[c]] == c
  }

  predicate MessageOk(g: Gateway, m: Id) {
    && (m in g.pool ==> m in g.jobs)
    && (m in g.jobs ==> g.jobs[m] in g.callers)
    && (m in g.conveyor ==> Awaited(g, m))
  }

  predicate ConveyorOk(g: Gateway) {
    forall i, j :: 0 <= i < j < |g.conveyor| ==> g.conveyor[i] != g.conveyor[j]
  }

  /** A message with a worker is awaited, and is nowhere else. */
  predicate WorkerOk(g: Gateway, w: Id) {
    var k := WorkerOf(g, w);
    Busy(k) ==> Awaited(g, k.m) && k.m !in g.conveyor && k.m in g.taker && g.taker[k.m] == w
  }

  /** An awaited message is still on the conveyor, or with the worker that took it. */
  predicate InFlight(g: Gateway, m: Id) {
    Awaited(g, m) ==> m in g.conveyor || (m in g.taker && Holds(WorkerOf(g, g.taker[m]), m))
  }

  /** A message a worker has taken, for which session, and what came of it when that is known. */
  datatype Debt = Debt(m: Id, c: Id, note: Option<Note>)

  function NextOwed(before: Option<Debt>, e: Event, w: Id): Option<Debt> {
    if e.Put? || e.w != w then before
    else match e
      case Took(_, m, c) => Some(Debt(m, c, None))
      case Ended(_, _, note) => if before.Some? then Some(before.value.(note := Some(note))) else None
      case Notified(_, _, _, _) => None
  }

  /** The message a worker has taken and not yet notified about. */
  function Owed(log: seq<Event>, w: Id): Option<Debt> {
    if log == [] then None else NextOwed(Owed(log[..|log| - 1], w), log[|log| - 1], w)
  }

  /**
   * Each worker takes one message at a time, processes it once, and notifies exactly once about it,
   * with what came of it; a session is notified only of its own message.
   */
  ghost predicate OncePerTake(log: seq<Event>) {
    log == [] ||
    (var front, e := log[..|log| - 1], log[|log| - 1];
     OncePerTake(front) && match e
                           case Put(_) => true
                           case Took(w, _, _) => Owed(front, w) == None
                           case Ended(w, m, _) =>
                             Owed(front, w).Some? && Owed(front, w).value.m == m && Owed(front, w).value.note == None
                           case Notified(w, m, note, to) =>
                             Owed(front, w).Some? && Owed(front, w).value.m == m
                             && Owed(front, w).value.note == Some(note)
                             && (to.Session? ==> Owed(front, w).value.c == to.c))
  }

  /** What a worker owes, as its state has it. */
  function DebtOf(g: Gateway, k: Worker): Option<Debt> {
    match k
    case Working(m) => Some(Debt(m, OwnerOf(g, m), None))
    case Sending(m, note) => Some(Debt(m, OwnerOf(g, m), Some(note)))
    case Panicking(m) => Some(Debt(m, OwnerOf(g, m), Some(PANIC_NOTE)))
    case _ => None
  }

  predicate LogOk(g: Gateway, w: Id) { w in g.workers ==> Owed(g.log, w) == DebtOf(g, g.workers[w]) }

  /** Whoever has returned was answered what a notification said, or timed out. */
  ghost predicate AnswerOk(g: Gateway, c: Id) {
    CallerOf(g, c).Returned? ==>
      || CallerOf(g, c).answer == TimeoutFailed
      || exists e :: e in g.log && e.Notified? && e.to == Session(c) && CallerOf(g, c).answer == AnswerTo(e.note)
  }

  ghost predicate Inv(g: Gateway) {
    && (forall c :: CallerOk(g, c) && LockOk(g, c) && AnswerOk(g, c))
    && (forall m :: WatcherOk(g, m) && MessageOk(g, m) && InFlight(g, m))
    && (forall w :: WorkerOk(g, w) && LogOk(g, w))
    && ConveyorOk(g) && OncePerTake(g.log)
  }

  /** Freshly started: sessions are ready, and nothing has been borrowed. */
  predicate Init(g: Gateway) {
    && (forall c :: c in g.callers ==> g.callers[c] == Ready)
    && (forall w :: w in g.workers ==> g.workers[w] == Free)
    && g.watchers == map[] && g.conveyor == [] && g.jobs == map[] && g.pool == {} && g.locks == map[]
    && g.taker == map[] && g.log == []
  }

  lemma InitInv(g: Gateway)
    requires Init(g)
    ensures Inv(g)
  {
  }

  /** What the invariant says about one session, one message and one worker. */
  lemma At(g: Gateway, c: Id, m: Id, w: Id)
    requires Inv(g)
    ensures CallerOk(g, c) && LockOk(g, c) && AnswerOk(g, c)
    ensures WatcherOk(g, m) && MessageOk(g, m) && InFlight(g, m)
    ensures WorkerOk(g, w) && LogOk(g, w)
  {
  }

  /** The session and the message an action is about. */
  function Subject(g: Gateway, a: Action): (Id, Id)
    requires Enabled(g, a)
  {
    match a
    case Borrow(c, m) => (c, m)
    case Enqueue(c) => (c, g.callers[c].m)
    case Take(w) => (0, g.conveyor[0])
    case Finish(w, _) => (0, g.workers[w].m)
    case Panic(w) => (0, g.workers[w].m)
    case NotifyCaller(w) => (g.jobs[g.workers[w].m], g.workers[w].m)
    case Timeout(c) => (c, g.callers[c].m)
    case LockAndLeave(c) => (c, g.callers[c].m)
    case NotifyWatcher(w) => (0, g.workers[w].m)
    case Unlock(m) => (g.jobs[m], m)
    case PutBack(m) => (0, m)
    case Reset(c) => (c, 0)
    case Stop(w) => (0, 0)
    case Restart(w) => (0, 0)
    case Collect(m) => (0, m)
  }

  function WorkerIn(a: Action): Id {
    if a.Take? || a.Finish? || a.Panic? || a.NotifyCaller? || a.NotifyWatcher? || a.Stop? || a.Restart? then a.w else 0
  }

  function TakerOf(g: Gateway, m: Id): Id { if m in g.taker then g.taker[m] else 0 }

  /** What the invariant says about everything an action is about. */
  lemma About(g: Gateway, a: Action)
    requires Inv(g) && Enabled(g, a)
    ensures var (c, m) := Subject(g, a);
            && CallerOk(g, c) && LockOk(g, c) && CallerOk(g, OwnerOf(g, m)) && LockOk(g, OwnerOf(g, m))
            && WatcherOk(g, m) && MessageOk(g, m) && InFlight(g, m)
            && WorkerOk(g, WorkerIn(a)) && ConveyorOk(g)
    ensures g.conveyor != [] ==>
              && g.conveyor[0] !in g.conveyor[1..]
              && forall m :: m in g.conveyor <==> m == g.conveyor[0] || m in g.conveyor[1..]
  {
    hide CallerOk, LockOk, WatcherOk, MessageOk, InFlight, WorkerOk;
    var (c, m) := Subject(g, a);
    At(g, c, m, WorkerIn(a));
    At(g, OwnerOf(g, m), m, WorkerIn(a));
    if g.conveyor != [] {
      assert g.conveyor == [g.conveyor[0]] + g.conveyor[1..];
    }
  }

  lemma CallerStep(g: Gateway, a: Action, c: Id)
    requires Inv(g) && Enabled(g, a)
    ensures CallerOk(Do(g, a), c)
  {
    hide Inv, Owed, OncePerTake, AnswerOk, DebtOf, AnswerTo, InFlight, WorkerOk, ConveyorOk, LockOk, MessageOk, Awaited;
    About(g, a);
    At(g, c, 0, 0);
  }

  lemma LockStep(g: Gateway, a: Action, c: Id)
    requires Inv(g) && Enabled(g, a)
    ensures LockOk(Do(g, a), c)
  {
    hide Inv, Owed, OncePerTake, AnswerOk, DebtOf, AnswerTo, InFlight, WorkerOk, ConveyorOk, MessageOk, Awaited;
    About(g, a);
    At(g, c, 0, 0);
  }

  lemma WatcherStep(g: Gateway, a: Action, m: Id)
    requires Inv(g) && Enabled(g, a)
    ensures WatcherOk(Do(g, a), m)
  {
    hide Inv, Owed, OncePerTake, AnswerOk, DebtOf, AnswerTo, InFlight, WorkerOk, ConveyorOk, MessageOk, Awaited;
    About(g, a);
    At(g, OwnerOf(g, m), m, 0);
  }

  /** Whether this action hands over the notification about m. */
  predicate NotifiesAbout(g: Gateway, a: Action, m: Id) {
    (a.NotifyCaller? || a.NotifyWatcher?) && Holds(WorkerOf(g, a.w), m)
  }

  lemma AwaitedStep(g: Gateway, a: Action, m: Id)
    requires Inv(g) && Enabled(g, a) && Awaited(g, m) && !NotifiesAbout(g, a, m)
    ensures Awaited(Do(g, a), m)
  {
    hide Inv, Owed, OncePerTake, AnswerOk, DebtOf, AnswerTo, InFlight, WorkerOk, ConveyorOk, MessageOk;
    About(g, a);
    At(g, OwnerOf(g, m), m, 0);
  }

  lemma JobsStep(g: Gateway, a: Action, m: Id)
    requires Inv(g) && Enabled(g, a)
    ensures var h := Do(g, a); (m in h.pool ==> m in h.jobs) && (m in h.jobs ==> h.jobs[m] in h.callers)
  {
    hide Inv, Owed, OncePerTake, AnswerOk, DebtOf, AnswerTo, LockOk, InFlight, WorkerOk, ConveyorOk, CallerOk, Awaited;
    About(g, a);
    At(g, 0, m, 0);
  }

  lemma QueuedStep(g: Gateway, a: Action, m: Id)
    requires Inv(g) && Enabled(g, a) && m in Do(g, a).conveyor
    ensures Awaited(Do(g, a), m)
  {
    hide Inv, Owed, OncePerTake, AnswerOk, DebtOf, AnswerTo, LockOk, WatcherOk, InFlight, ConveyorOk;
    About(g, a);
    At(g, 0, m, 0);
    if m in g.conveyor {
      AwaitedStep(g, a, m);
    }
  }

  lemma MessageStep(g: Gateway, a: Action, m: Id)
    requires Inv(g) && Enabled(g, a)
    ensures MessageOk(Do(g, a), m)
  {
    hide Inv, Do, Awaited;
    JobsStep(g, a, m);
    if m in Do(g, a).conveyor {
      QueuedStep(g, a, m);
    }
  }

  lemma WorkerStep(g: Gateway, a: Action, w: Id)
    requires Inv(g) && Enabled(g, a)
    ensures WorkerOk(Do(g, a), w)
  {
    hide Inv, Owed, OncePerTake, AnswerOk, DebtOf, AnswerTo, LockOk, WatcherOk, InFlight, Awaited;
    About(g, a);
    var h := Do(g, a);
    if Busy(WorkerOf(h, w)) {
      var m := WorkerOf(h, w).m;
      At(g, 0, m, w);
      AwaitedOnlyOnce(g, a);
      AwaitedStep(g, a, m);
    }
  }

  /** A message about to be queued is not awaited yet. */
  lemma AwaitedOnlyOnce(g: Gateway, a: Action)
    requires Inv(g) && Enabled(g, a)
    ensures a.Enqueue? ==> !Awaited(g, Subject(g, a).1)
  {
    hide Inv, Owed, OncePerTake, AnswerOk, DebtOf, AnswerTo, LockOk, WatcherOk, InFlight, WorkerOk;
    About(g, a);
  }

  /** What is awaited after a step was awaited before it, unless it has just been queued. */
  lemma AwaitedBefore(g: Gateway, a: Action, m: Id)
    requires Inv(g) && Enabled(g, a) && Awaited(Do(g, a), m) && !(a.Enqueue? && m == Subject(g, a).1)
    ensures Awaited(g, m) && !NotifiesAbout(g, a, m)
  {
    hide Inv, Owed, OncePerTake, AnswerOk, DebtOf, AnswerTo, InFlight, ConveyorOk, WorkerOk;
    About(g, a);
    At(g, OwnerOf(g, m), m, 0);
  }

  lemma InFlightStep(g: Gateway, a: Action, m: Id)
    requires Inv(g) && Enabled(g, a)
    ensures InFlight(Do(g, a), m)
  {
    hide Inv, Owed, OncePerTake, AnswerOk, DebtOf, AnswerTo, LockOk, WatcherOk, CallerOk, MessageOk, Awaited,
      ConveyorOk;
    if Awaited(Do(g, a), m) && !(a.Enqueue? && m == Subject(g, a).1) {
      AwaitedBefore(g, a, m);
      About(g, a);
      At(g, 0, m, TakerOf(g, m));
    }
  }

  lemma ConveyorStep(g: Gateway, a: Action)
    requires Inv(g) && Enabled(g, a)
    ensures ConveyorOk(Do(g, a))
  {
    hide Inv, Owed, OncePerTake, AnswerOk, DebtOf, AnswerTo;
    About(g, a);
    hide LockOk, InFlight, WorkerOk;
  }

  /** A message that is on its way keeps its session. */
  lemma OwnerStays(g: Gateway, a: Action, m: Id)
    requires Inv(g) && Enabled(g, a) && Awaited(g, m)
    ensures OwnerOf(Do(g, a), m) == OwnerOf(g, m)
  {
    hide Inv, Owed, OncePerTake, AnswerOk, DebtOf, AnswerTo, InFlight, ConveyorOk, WorkerOk, LockOk;
    At(g, OwnerOf(g, m), m, 0);
  }

  lemma OneMore(log: seq<Event>, e: Event, w: Id)
    ensures Owed(log + [e], w) == NextOwed(Owed(log, w), e, w)
    ensures OncePerTake(log + [e]) <==>
              OncePerTake(log) && match e
                                  case Put(_) => true
                                  case Took(v, _, _) => Owed(log, v) == None
                                  case Ended(v, m, _) =>
                                    Owed(log, v).Some? && Owed(log, v).value.m == m && Owed(log, v).value.note == None
                                  case Notified(v, m, note, to) =>
                                    Owed(log, v).Some? && Owed(log, v).value.m == m
                                    && Owed(log, v).value.note == Some(note)
                                    && (to.Session? ==> Owed(log, v).value.c == to.c)
  {
    hide NextOwed;
    assert (log + [e])[..|log + [e]| - 1] == log;
  }

  /** The entry an action adds to the log. */
  lemma LogGrows(g: Gateway, a: Action)
    requires Enabled(g, a)
    ensures var h := Do(g, a); h.log == g.log || (|h.log| > 0 && h.log == g.log + [h.log[|h.log| - 1]])
  {
    hide AnswerTo;
  }

  lemma LogStep(g: Gateway, a: Action, w: Id)
    requires Inv(g) && Enabled(g, a)
    ensures LogOk(Do(g, a), w)
  {
    hide CallerOk, WatcherOk, LockOk, MessageOk, ConveyorOk, InFlight, AnswerOk, AnswerTo, Inv, Owed, OncePerTake,
      Awaited;
    var h := Do(g, a);
    At(g, 0, 0, w);
    if h.log != g.log {
      LogGrows(g, a);
      OneMore(g.log, h.log[|h.log| - 1], w);
    }
    if Busy(WorkerOf(g, w)) {
      OwnerStays(g, a, WorkerOf(g, w).m);
    }
  }

  lemma OnceStep(g: Gateway, a: Action)
    requires Inv(g) && Enabled(g, a)
    ensures OncePerTake(Do(g, a).log)
  {
    hide CallerOk, WatcherOk, LockOk, MessageOk, ConveyorOk, InFlight, AnswerOk, AnswerTo, Inv, Owed, OncePerTake,
      Awaited, WorkerOk, NextOwed;
    LogIsOnce(g);
    var h := Do(g, a);
    At(g, 0, 0, WorkerIn(a));
    if h.log != g.log {
      LogGrows(g, a);
      OneMore(g.log, h.log[|h.log| - 1], 0);
    }
  }

  lemma AnswerStep(g: Gateway, a: Action, c: Id)
    requires Inv(g) && Enabled(g, a)
    ensures AnswerOk(Do(g, a), c)
  {
    hide CallerOk, WatcherOk, LockOk, MessageOk, ConveyorOk, InFlight, AnswerTo, Inv, Owed, OncePerTake, Awaited,
      WorkerOk, DebtOf;
    var h := Do(g, a);
    At(g, c, 0, 0);
    LogGrows(g, a);
    if CallerOf(h, c).Returned? && CallerOf(h, c) == CallerOf(g, c) && CallerOf(g, c).answer != TimeoutFailed {
      var e :| e in g.log && e.Notified? && e.to == Session(c) && CallerOf(g, c).answer == AnswerTo(e.note);
      assert e in h.log;
    } else if a.NotifyCaller? {
      assert h.log[|h.log| - 1] in h.log;
    }
  }

  lemma StepInv(g: Gateway, a: Action)
    requires Inv(g) && Enabled(g, a)
    ensures Inv(Do(g, a))
  {
    hide CallerOk, LockOk, AnswerOk, WatcherOk, MessageOk, InFlight, WorkerOk, LogOk, ConveyorOk, OncePerTake, Enabled,
      Do;
    var h := Do(g, a);
    forall c ensures CallerOk(h, c) && LockOk(h, c) && AnswerOk(h, c) {
      CallerStep(g, a, c);
      LockStep(g, a, c);
      AnswerStep(g, a, c);
    }
    forall m ensures WatcherOk(h, m) && MessageOk(h, m) && InFlight(h, m) {
      WatcherStep(g, a, m);
      MessageStep(g, a, m);
      InFlightStep(g, a, m);
    }
    forall w ensures WorkerOk(h, w) && LogOk(h, w) { WorkerStep(g, a, w); LogStep(g, a, w); }
    ConveyorStep(g, a);
    OnceStep(g, a);
  }

  // -------------------------------------------------------------- whole runs

  /** `h` is reached from `g` by these actions, in any interleaving. */
  predicate Reaches(g: Gateway, actions: seq<Action>, h: Gateway)
    decreases |actions|
  {
    if actions == [] then g == h
    else Enabled(g, actions[0]) && Reaches(Do(g, actions[0]), actions[1..], h)
  }

  lemma {:induction false} RunInv(g: Gateway, actions: seq<Action>, h: Gateway)
    requires Inv(g) && Reaches(g, actions, h)
    ensures Inv(h)
    decreases |actions|
  {
    hide Inv, Enabled, Do;
    if actions != [] {
      StepInv(g, actions[0]);
      RunInv(Do(g, actions[0]), actions[1..], h);
    }
  }

  /** A session gets past the envelope lock only when no save job for its envelope is queued or running. */
  lemma EnvelopeExclusion(g: Gateway, actions: seq<Action>, h: Gateway, c: Id)
    requires Init(g) && Reaches(g, actions, h) && Enabled(h, Reset(c))
    ensures forall w :: Busy(WorkerOf(h, w)) ==> WorkerOf(h, w).m in h.jobs && h.jobs[WorkerOf(h, w).m] != c
    ensures forall m :: m in h.conveyor ==> m in h.jobs && h.jobs[m] != c
  {
    hide Inv, Reaches, InFlight, ConveyorOk, OncePerTake, AnswerOk;
    InitInv(g);
    RunInv(g, actions, h);
    forall w | Busy(WorkerOf(h, w)) ensures WorkerOf(h, w).m in h.jobs && h.jobs[WorkerOf(h, w).m] != c {
      At(h, c, WorkerOf(h, w).m, w);
    }
    forall m | m in h.conveyor ensures m in h.jobs && h.jobs[m] != c {
      At(h, c, m, 0);
    }
  }

  /** A pooled message is nowhere else: not queued, with no worker, no session and no goroutine. */
  lemma PooledIsIdle(g: Gateway, actions: seq<Action>, h: Gateway, m: Id)
    requires Init(g) && Reaches(g, actions, h) && m in h.pool
    ensures m !in h.conveyor && m !in h.watchers
    ensures forall w :: !Holds(WorkerOf(h, w), m)
    ensures forall c :: InProcess(CallerOf(h, c)) ==> CallerOf(h, c).m != m
  {
    hide Inv, Reaches, InFlight, ConveyorOk, OncePerTake, AnswerOk, LockOk;
    InitInv(g);
    RunInv(g, actions, h);
    At(h, OwnerOf(h, m), m, 0);
    forall w ensures !Holds(WorkerOf(h, w), m) { At(h, 0, m, w); }
    forall c | InProcess(CallerOf(h, c)) ensures CallerOf(h, c).m != m { At(h, c, m, 0); }
  }

  /**
   * A worker that wants to notify finds its receiver: the session itself, the goroutine that took
   * over, or a timed-out session that can take the lock and leave the goroutine behind at once.
   */
  lemma NotificationIsReceived(g: Gateway, actions: seq<Action>, h: Gateway, w: Id)
    requires Init(g) && Reaches(g, actions, h) && w in h.workers && Delivers(h.workers[w])
    ensures var m := h.workers[w].m;
            || Enabled(h, NotifyCaller(w)) || Enabled(h, NotifyWatcher(w))
            || (m in h.jobs && Enabled(h, LockAndLeave(h.jobs[m]))
                && Enabled(Do(h, LockAndLeave(h.jobs[m])), NotifyWatcher(w)))
  {
    hide Inv, Reaches, InFlight, ConveyorOk, OncePerTake, AnswerOk;
    InitInv(g);
    RunInv(g, actions, h);
    var m := h.workers[w].m;
    At(h, OwnerOf(h, m), m, w);
  }

  function Takes(log: seq<Event>, w: Id, m: Id): nat {
    if log == [] then 0
    else
      var e := log[|log| - 1];
      Takes(log[..|log| - 1], w, m) + if e.Took? && e.w == w && e.m == m then 1 else 0
  }

  function Notifications(log: seq<Event>, w: Id, m: Id): nat {
    if log == [] then 0
    else
      var e := log[|log| - 1];
      Notifications(log[..|log| - 1], w, m) + if e.Notified? && e.w == w && e.m == m then 1 else 0
  }

  lemma {:induction false} OwedCounts(log: seq<Event>, w: Id, m: Id)
    requires OncePerTake(log)
    ensures Takes(log, w, m)
         == Notifications(log, w, m) + if Owed(log, w).Some? && Owed(log, w).value.m == m then 1 else 0
    decreases |log|
  {
    if log != [] {
      OwedCounts(log[..|log| - 1], w, m);
    }
  }

  /** Panics included, a worker has notified about a message as often as it took it, but for the one it has now. */
  lemma ExactlyOneNotification(g: Gateway, actions: seq<Action>, h: Gateway, w: Id, m: Id)
    requires Init(g) && Reaches(g, actions, h) && w in h.workers
    ensures Takes(h.log, w, m) == Notifications(h.log, w, m) + if Holds(h.workers[w], m) then 1 else 0
  {
    hide Inv, Reaches, InFlight, ConveyorOk, OncePerTake, LockOk, WatcherOk, MessageOk, CallerOk, WorkerOk, AnswerOk,
      Takes, Notifications, Owed;
    InitInv(g);
    RunInv(g, actions, h);
    At(h, 0, 0, w);
    LogIsOnce(h);
    OwedCounts(h.log, w, m);
  }

  lemma LogIsOnce(g: Gateway)
    requires Inv(g)
    ensures OncePerTake(g.log)
  {
  }

  // ----------------------------------------------------- what sessions are told

  /** What is owed was taken, and if processed, processed after that. */
  lemma {:induction false} DebtWasTaken(log: seq<Event>, w: Id) returns (i: nat, j: nat)
    requires OncePerTake(log) && Owed(log, w).Some?
    ensures var d := Owed(log, w).value;
            && i < |log| && log[i] == Took(w, d.m, d.c)
            && (d.note.Some? ==> i < j < |log| && log[j] == Ended(w, d.m, d.note.value))
    decreases |log|
  {
    var front, e := log[..|log| - 1], log[|log| - 1];
    if e.Put? || e.w != w {
      i, j := DebtWasTaken(front, w);
    } else if e.Took? {
      i, j := |front|, 0;
    } else {
      i, j := DebtWasTaken(front, w);
      j := |front|;
    }
  }

  lemma {:induction false} NotifiedWasOwed(log: seq<Event>, k: nat)
    requires OncePerTake(log) && k < |log| && log[k].Notified?
    ensures var e, before := log[k], log[..k];
            && OncePerTake(before) && Owed(before, e.w).Some?
            && Owed(before, e.w).value.m == e.m && Owed(before, e.w).value.note == Some(e.note)
            && (e.to.Session? ==> Owed(before, e.w).value.c == e.to.c)
    decreases |log|
  {
    if k < |log| - 1 {
      assert log[..|log| - 1][..k] == log[..k];
      NotifiedWasOwed(log[..|log| - 1], k);
    }
  }

  /**
   * A session that did not time out was told what came of its own message: some worker took a message
   * for this session, processed it, and notified the session of exactly that.
   */
  lemma AnswerIsItsOwn(g: Gateway, actions: seq<Action>, h: Gateway, c: Id)
    returns (i: nat, j: nat, k: nat)
    requires Init(g) && Reaches(g, actions, h)
    requires CallerOf(h, c).Returned? && CallerOf(h, c).answer != TimeoutFailed
    ensures i < j < k < |h.log| && h.log[i].Took? && h.log[j].Ended? && h.log[k].Notified?
    ensures h.log[i].c == c && h.log[k].to == Session(c)
    ensures h.log[i].w == h.log[j].w == h.log[k].w && h.log[i].m == h.log[j].m == h.log[k].m
    ensures h.log[j].note == h.log[k].note && CallerOf(h, c).answer == AnswerTo(h.log[j].note)
  {
    hide Inv, Reaches, InFlight, ConveyorOk, OncePerTake, LockOk, WatcherOk, MessageOk, CallerOk, WorkerOk, LogOk,
      AnswerTo, Owed;
    InitInv(g);
    RunInv(g, actions, h);
    At(h, c, 0, 0);
    LogIsOnce(h);
    var e :| e in h.log && e.Notified? && e.to == Session(c) && CallerOf(h, c).answer == AnswerTo(e.note);
    k :| 0 <= k < |h.log| && h.log[k] == e;
    NotifiedWasOwed(h.log, k);
    i, j := DebtWasTaken(h.log[..k], e.w);
  }

  /** A session is told that its message is queued only when processing it returned OK and a queue id. */
  lemma QueuedMeansSaved(g: Gateway, actions: seq<Action>, h: Gateway, c: Id, queuedId: Text)
    returns (i: nat, j: nat)
    requires Init(g) && Reaches(g, actions, h) && CallerOf(h, c) == Returned(MessageQueued(queuedId))
    ensures i < j < |h.log| && h.log[i].Took? && h.log[i].c == c
    ensures h.log[j].Ended? && h.log[j].w == h.log[i].w && h.log[j].m == h.log[i].m
    ensures h.log[j].note.result == Some(OkReply) && h.log[j].note.queuedId == queuedId != []
  {
    hide Reaches, Init;
    var k;
    i, j, k := AnswerIsItsOwn(g, actions, h, c);
  }

  /** A session whose job panics is told of a failure by the same worker, unless it times out before that. */
  lemma PanicIsFailure(g: Gateway, w: Id)
    requires Enabled(g, Panic(w)) && g.workers[w].m in g.jobs
    ensures var m, h := g.workers[w].m, Do(g, Panic(w));
            CallerOf(g, g.jobs[m]) == Waiting(m) ==>
              && Enabled(h, NotifyCaller(w))
              && CallerOf(Do(h, NotifyCaller(w)), g.jobs[m]) == Returned(TransactionFailed("storage failed"))
  {
    assert AnswerTo(PANIC_NOTE) == TransactionFailed("storage failed") by {
      var e: Text := "storage failed";
      assert e[..3][0] == 's' && e[..3][1] == 't';
    }
  }

  /** A result is passed on as it is, and without one the session is told of a failure. */
  lemma AnswersAre(note: Note)
    ensures AnswerTo(note).MessageQueued? <==> note.result == Some(OkReply) && note.queuedId != []
    ensures AnswerTo(note).MessageQueued? || AnswerTo(note).AsReturned? <==> note.result.Some?
    ensures AnswerTo(note).AsReturned? ==> note.result == Some(AnswerTo(note).result)
    ensures note == Note(None, None, note.queuedId) ==> AnswerTo(note).TransactionFailed?
    ensures AnswerTo(note).TransactionFailed? && note.err.Some? ==> AnswerTo(note).why == note.err.value
    ensures AnswerTo(note).AsError? ==> note.err == Some(AnswerTo(note).text) && IsDigit(AnswerTo(note).text[2])
    ensures AnswerTo(note).Crashed? <==> note.result.None? && note.err.Some? && |note.err.value| < 3
  {
  }

  // ------------------------------------------------------ order and progress

  function PutInto(log: seq<Event>): seq<Id> {
    if log == [] then []
    else
      var e := log[|log| - 1];
      PutInto(log[..|log| - 1]) + if e.Put? then [e.m] else []
  }

  function TakenFrom(log: seq<Event>): seq<Id> {
    if log == [] then []
    else
      var e := log[|log| - 1];
      TakenFrom(log[..|log| - 1]) + if e.Took? then [e.m] else []
  }

  lemma OneMorePut(log: seq<Event>, e: Event)
    ensures PutInto(log + [e]) == PutInto(log) + if e.Put? then [e.m] else []
    ensures TakenFrom(log + [e]) == TakenFrom(log) + if e.Took? then [e.m] else []
  {
    assert (log + [e])[..|log + [e]| - 1] == log;
  }

  lemma OrderStep(g: Gateway, a: Action)
    requires Enabled(g, a) && PutInto(g.log) == TakenFrom(g.log) + g.conveyor
    ensures var h := Do(g, a); PutInto(h.log) == TakenFrom(h.log) + h.conveyor
  {
    hide AnswerTo, PutInto, TakenFrom, Holds, OwnerOf;
    var h := Do(g, a);
    if h.log != g.log {
      LogGrows(g, a);
      OneMorePut(g.log, h.log[|h.log| - 1]);
    }
    QueueEnds(TakenFrom(g.log), g.conveyor);
  }

  lemma QueueEnds(taken: seq<Id>, conveyor: seq<Id>)
    ensures conveyor != [] ==> taken + conveyor == taken + [conveyor[0]] + conveyor[1..]
    ensures forall m: Id :: taken + conveyor + [m] == taken + (conveyor + [m])
    ensures taken + [] == taken
  {
  }

  lemma {:induction false} RunOrder(g: Gateway, actions: seq<Action>, h: Gateway)
    requires Reaches(g, actions, h) && PutInto(g.log) == TakenFrom(g.log) + g.conveyor
    ensures PutInto(h.log) == TakenFrom(h.log) + h.conveyor
    decreases |actions|
  {
    hide Enabled, Do, PutInto, TakenFrom;
    if actions != [] {
      OrderStep(g, actions[0]);
      RunOrder(Do(g, actions[0]), actions[1..], h);
    }
  }

  /** No message is lost on the conveyor, and they are taken in the order in which they were put there. */
  lemma FirstComeFirstServed(g: Gateway, actions: seq<Action>, h: Gateway)
    requires Init(g) && Reaches(g, actions, h)
    ensures PutInto(h.log) == TakenFrom(h.log) + h.conveyor
  {
    hide Reaches;
    RunOrder(g, actions, h);
  }

  /**
   * A locked envelope is not locked for ever: its goroutine can unlock it at once, or waits for a
   * message that is on the conveyor or with a worker.
   */
  lemma LockIsReleased(g: Gateway, actions: seq<Action>, h: Gateway, c: Id)
    requires Init(g) && Reaches(g, actions, h) && c in h.locks
    ensures var m := h.locks[c];
            || (Enabled(h, Unlock(m)) && c !in Do(h, Unlock(m)).locks)
            || (m in h.watchers && h.watchers[m] == Waits
                && (m in h.conveyor || (m in h.taker && Holds(WorkerOf(h, h.taker[m]), m))))
  {
    hide Inv, Reaches, ConveyorOk, OncePerTake, AnswerOk, CallerOk, WorkerOk, LogOk;
    InitInv(g);
    RunInv(g, actions, h);
    At(h, c, h.locks[c], 0);
  }
}
