/** Whole runs of the timer scheduler, with one-shot and periodic timers mixed: what every event does follows from the timers and keys
    before it, no timer is lost, and no turn of a periodic timer is skipped or taken twice. */
module TimerRuns {
  import opened Arith
  import opened Prq
  import opened Timer

  datatype Event =
    | Schedule(now: nat, frequency: nat, delay: nat, periodic: bool, callback: int)
    | Interrupt(now: nat)
    | Cancel(handle: nat)

  type Queued = map<TimerNode, Was>

  /** What an event did; an interrupt fires some timers and leaves others. */
  datatype Log =
    | Scheduled(handle: TimerNode, timer: ScheduledTimer)
    | Took(fired: seq<Firing>, left: Queued)
    | Cancelled(handle: TimerNode)
    | Ignored

  /** The timers waiting after some events, and their keys. */
  ghost function Pending(log: seq<Log>): Queued {
    if log == [] then map[] else Apply(Pending(log[..|log| - 1]), log[|log| - 1])
  }

  ghost function Apply(m: Queued, l: Log): Queued {
    match l
    case Scheduled(h, timer) => m[h := Was(timer, timer.count)]
    case Took(_, left) => left
    case Cancelled(h) => m - {h}
    case Ignored => m
  }

  ghost function Issued(log: seq<Log>): seq<TimerNode> {
    if log == [] then []
    else
      var last := log[|log| - 1];
      Issued(log[..|log| - 1]) + if last.Scheduled? then [last.handle] else []
  }

  // ----- What an interrupt does, on values -----

  ghost predicate Waits(left: Queued, n: TimerNode, now: nat) {
    n in left && left[n].timer.count <= now
  }

  ghost function TimerIn(was: Queued, left: Queued, n: TimerNode): ScheduledTimer
    requires n in was
  {
    if n in left then left[n].timer else was[n].timer
  }

  /** What is left of each timer: it is as it was but for a later count. */
  ghost predicate SameTimers(was: Queued, left: Queued) {
    && left.Keys <= was.Keys
    && (forall n :: n in left ==> Paced(left[n]) && left[n].timer == was[n].timer.(count := left[n].timer.count))
    && (forall n :: n in left ==>
          if was[n].timer.period == 0 then left[n].timer == was[n].timer
          else Onward(was[n].timer.count, was[n].timer.period, left[n].timer.count))
  }

  /** Which due timers are left waiting, as `Timers.Decided` says. */
  ghost predicate DecidedAs(was: Queued, left: Queued, now: nat) {
    && (forall n :: n in was && was[n].timer.count > now ==> n in left && left[n] == was[n])
    && (forall n :: n in was && was[n].timer.count <= now && Ahead(was, n, now) ==> !Waits(left, n, now))
    && (forall n, m :: n in was && m in was && was[n].timer.count <= now && Stops(was[m], now) && StopKey(was[m], now) < LastKey(was[n], now) ==>
          Waits(left, n, now))
    && (forall n :: n in was && was[n].timer.count <= now && !Waits(left, n, now) ==>
          if was[n].timer.period == 0 then n !in left
          else n in left && left[n].timer.count == Last(was[n].timer.count, was[n].timer.period, now) + was[n].timer.period)
  }

  /** The firings, each once. */
  ghost predicate RecordedAs(was: Queued, left: Queued, fired: seq<Firing>) {
    && (forall f :: f in fired ==> f.node in was && FiredAt(was[f.node], TimerIn(was, left, f.node), f.node in left, f.count))
    && (forall n, x :: n in was && FiredAt(was[n], TimerIn(was, left, n), n in left, x) ==> Firing(n, x) in fired)
    && (forall i, j :: 0 <= i < j < |fired| ==> fired[i] != fired[j])
  }

  /** Keys are exact and no periodic timer is due. */
  ghost predicate InOrder(m: Queued, now: nat) {
    forall n :: n in m ==> m[n].key == m[n].timer.count && (m[n].timer.count <= now ==> m[n].timer.period == 0)
  }

  /** Exactly the waiting timers due by `now`, each once, in nondecreasing order; the others are left as they were. */
  ghost predicate TookDue(m: Queued, left: Queued, fired: seq<Firing>, now: nat) {
    && (forall n :: n in m && m[n].timer.count <= now ==> n !in left && Firing(n, m[n].timer.count) in fired)
    && (forall n :: n in m && m[n].timer.count > now ==> n in left && left[n] == m[n])
    && (forall f :: f in fired ==> f.node in m && f.count == m[f.node].timer.count <= now)
    && (forall i, j :: 0 <= i < j < |fired| ==> fired[i].node != fired[j].node && fired[i].count <= fired[j].count)
  }

  ghost predicate Settled(was: Queued, left: Queued, fired: seq<Firing>, now: nat) {
    && SameTimers(was, left) && DecidedAs(was, left, now) && RecordedAs(was, left, fired) && (forall f :: f in fired ==> f.count <= now)
    && (InOrder(was, now) ==> TookDue(was, left, fired, now))
  }

  // ----- What an event does -----

  /** What an event does after `before`. */
  ghost predicate Right(e: Event, before: seq<Log>, l: Log) {
    match e
    case Schedule(now, frequency, delay, periodic, callback) =>
      var offset := Offset(frequency, delay);
      && l.Scheduled? && l.handle !in Issued(before) && CountOf(now, offset) <= INT32_MAX
      && l.timer == ScheduledTimer(CountOf(now, offset), if periodic then offset else 0, callback)
    case Interrupt(now) => l.Took? && Settled(Pending(before), l.left, l.fired, now)
    case Cancel(k) =>
      l == if k < |Issued(before)| && Issued(before)[k] in Pending(before) then Cancelled(Issued(before)[k]) else Ignored
  }

  ghost predicate Answered(events: seq<Event>, log: seq<Log>) {
    |log| <= |events| && forall i :: 0 <= i < |log| ==> Right(events[i], log[..i], log[i])
  }

  /** A kernel assert fails: of `schedule_timer`, or of a periodic timer that comes back. */
  ghost predicate Fails(e: Event, m: Queued) {
    match e
    case Schedule(now, frequency, delay, _, _) => CountOf(now, Offset(frequency, delay)) > INT32_MAX
    case Interrupt(now) => now > INT32_MAX && exists n :: n in m && m[n].timer.count <= now && m[n].timer.period > 0
    case Cancel(_) => false
  }

  ghost predicate InStep(t: Timers, m: Queued)
    reads t, t.queue, t.queue.heap, t.queue.nodes
  {
    t.Valid() && t.AllPaced() && t.Announced() && t.Snapshot() == m
  }

  /** Every run, up to a failing assert: each event does what the timers and keys before it decide, what is queued are exactly the timers
      waiting, and the registers announce the one in front. A handle is cancelled only while its timer is queued. */
  method Run(events: seq<Event>) returns (t: Timers, halted: bool, ghost log: seq<Log>)
    requires forall i :: 0 <= i < |events| && events[i].Schedule? ==> events[i].delay > 0
    ensures fresh(t) && t.Valid() && Answered(events, log)
    ensures !halted ==> |log| == |events| && InStep(t, Pending(log))
    ensures halted ==> |log| < |events| && Fails(events[|log|], Pending(log))
    ensures halted && events[|log|].Schedule? ==> InStep(t, Pending(log))
  {
    hide Prq.Queue.Linked, Prq.Queue.Valid, Timers.Announced, Timers.AllPaced, Timers.Snapshot, InStep, Answered, Pending, Issued, Right, Apply;
    hide Fails;
    t := new Timers();
    halted, log := false, [];
    var handles: seq<TimerNode>, pending: set<TimerNode> := [], {};
    NothingLogged(t, events);
    for i := 0 to |events|
      invariant fresh(t) && fresh(t.queue) && fresh(t.queue.heap) && t.Valid() && !halted
      invariant pending == t.queue.nodes && (forall n :: n in t.queue.nodes ==> fresh(n)) && forall h :: h in handles ==> fresh(h)
      invariant InStep(t, Pending(log)) && Answered(events, log) && |log| == i && handles == Issued(log)
    {
      ghost var l;
      handles, pending, halted, l := Step(t, events[i], handles, pending, log);
      if halted { return; }
      LogMore(events, log, l);
      log := log + [l];
    }
  }

  method Step(t: Timers, e: Event, handles: seq<TimerNode>, pending: set<TimerNode>, ghost log: seq<Log>)
    returns (handles': seq<TimerNode>, left: set<TimerNode>, halted: bool, ghost l: Log)
    requires InStep(t, Pending(log)) && pending == t.queue.nodes && handles == Issued(log) && (e.Schedule? ==> e.delay > 0)
    modifies t`cmp, t`masked, t.queue, t.queue.heap, t.queue.nodes
    ensures t.Valid() && (t.queue.heap == old(t.queue.heap) || fresh(t.queue.heap))
    ensures !halted ==> left == t.queue.nodes && forall n :: n in t.queue.nodes ==> n in old(t.queue.nodes) || fresh(n)
    ensures forall h :: h in handles' ==> h in handles || fresh(h)
    ensures !halted ==> InStep(t, Apply(Pending(log), l)) && Right(e, log, l)
    ensures !halted ==> handles' == Issued(log) + if l.Scheduled? then [l.handle] else []
    ensures halted ==> Fails(e, Pending(log)) && (e.Schedule? ==> InStep(t, Pending(log)))
  {
    hide Prq.Queue.Linked, Prq.Queue.Valid, Timers.Announced, Pending, Issued, Settled;
    handles', left, halted, l := handles, pending, false, Ignored;
    match e
    case Schedule(now, frequency, delay, periodic, callback) =>
      var h := t.Schedule(now, frequency, delay, periodic, callback);
      if h == null { return handles, pending, true, l; }
      handles', left, l := handles + [h], pending + {h}, Scheduled(h, h.data);
      assert t.Snapshot() == old(t.Snapshot())[h := Was(h.data, h.data.count)];
    case Interrupt(now) =>
      var fired;
      fired, halted, left := TakeInterrupt(t, now, pending);
      l := Took(fired, t.Snapshot());
    case Cancel(k) =>
      if k < |handles| && handles[k] in pending {
        t.Deschedule(handles[k]);
        left, l := pending - {handles[k]}, Cancelled(handles[k]);
        assert t.Snapshot() == old(t.Snapshot()) - {handles[k]};
      }
  }

  /** An interrupt, after which the client knows which of its handles are still good. */
  method TakeInterrupt(t: Timers, now: nat, pending: set<TimerNode>) returns (fired: seq<Firing>, halted: bool, left: set<TimerNode>)
    requires t.Valid() && t.AllPaced() && t.Announced() && pending == t.queue.nodes
    modifies t`cmp, t`masked, t.queue, t.queue.heap, t.queue.nodes
    ensures t.Valid() && t.queue.nodes <= old(t.queue.nodes) && (t.queue.heap == old(t.queue.heap) || fresh(t.queue.heap))
    ensures !halted ==> t.AllPaced() && t.Announced() && left == t.queue.nodes
    ensures !halted ==> Settled(old(t.Snapshot()), t.Snapshot(), fired, now)
    ensures halted ==> Fails(Interrupt(now), old(t.Snapshot()))
  {
    hide Prq.Queue.Linked, Prq.Queue.Valid, Timers.Announced, Timers.Armed, Timers.FiredDue, Timers.Exact, Timers.OneShotsDue, Timers.AllPaced;
    hide Timers.Decided, Timers.Recorded, Timers.Snapshot, NodesOf, Settled, Fails, InOrder;
    ghost var was, all := t.Snapshot(), t.queue.nodes;
    SnapshotNodes(t);
    DueBefore(t, now);
    fired, halted := t.HandleInterrupt(now);
    left := {};
    if !halted {
      left := set n | n in pending && !(n.data.period == 0 && Firing(n, n.data.count) in fired);
      Remaining(t, was, fired, now);
      SettledBy(t, was, fired, now);
    }
  }

  lemma SnapshotNodes(t: Timers)
    ensures t.Snapshot().Keys == t.queue.nodes && forall n :: n in t.queue.nodes ==> t.Snapshot()[n].timer == n.data
  {
  }

  /** The two readings of the queue before an interrupt. */
  lemma DueBefore(t: Timers, now: nat)
    ensures InOrder(t.Snapshot(), now) ==> t.Exact() && t.OneShotsDue(now)
    ensures now > INT32_MAX && !t.OneShotsDue(now) ==> Fails(Interrupt(now), t.Snapshot())
  {
    if InOrder(t.Snapshot(), now) {
      forall n | n in t.queue.nodes ensures n.priority == n.data.count && (n.data.count <= now ==> n.data.period == 0) {
        assert n in t.Snapshot();
      }
    }
    if !t.OneShotsDue(now) {
      var n :| n in t.queue.nodes && n.data.count <= now && n.data.period != 0;
      assert n in t.Snapshot();
    }
  }

  lemma Remaining(t: Timers, was: Queued, fired: seq<Firing>, now: nat)
    requires t.Decided(was, now) && t.Recorded(was, fired) && t.queue.nodes <= was.Keys
    ensures forall n :: n in was ==> (n in t.queue.nodes <==> !(n.data.period == 0 && Firing(n, n.data.count) in fired))
  {
    hide Ahead, LastKey, StopKey, Last, Onward;
  }

  lemma SettledBy(t: Timers, was: Queued, fired: seq<Firing>, now: nat)
    requires t.Decided(was, now) && t.Recorded(was, fired) && t.queue.nodes <= was.Keys && t.AllPaced()
    requires forall f :: f in fired ==> f.count <= now
    requires InOrder(was, now) ==> t.FiredDue(fired, was.Keys, now) && forall n :: n in was ==> n.data == was[n].timer
    ensures Settled(was, t.Snapshot(), fired, now)
  {
    hide Timers.Decided, Timers.Recorded, Timers.AllPaced, SameTimers, RecordedAs, FiredAt, Paced, Ahead, LastKey, StopKey, Last;
    DecidedBy(t, was, now);
    RecordedBy(t, was, fired);
    if InOrder(was, now) { assert TookDue(was, t.Snapshot(), fired, now); }
  }

  lemma DecidedBy(t: Timers, was: Queued, now: nat)
    requires t.Decided(was, now) && t.queue.nodes <= was.Keys && t.AllPaced()
    ensures SameTimers(was, t.Snapshot()) && DecidedAs(was, t.Snapshot(), now)
    ensures forall n :: n in was && n !in t.queue.nodes ==> n.data == was[n].timer
  {
    hide Ahead, LastKey, StopKey, Last, Onward, Paced;
  }

  lemma RecordedBy(t: Timers, was: Queued, fired: seq<Firing>)
    requires t.Recorded(was, fired) && t.queue.nodes <= was.Keys
    requires forall n :: n in was && n !in t.queue.nodes ==> n.data == was[n].timer
    ensures RecordedAs(was, t.Snapshot(), fired)
  {
    hide FiredAt;
    var left := t.Snapshot();
    assert forall n :: n in was ==> TimerIn(was, left, n) == n.data;
  }

  lemma NothingLogged(t: Timers, events: seq<Event>)
    requires t.queue.nodes == {} && t.Valid() && t.AllPaced() && t.Announced()
    ensures Answered(events, []) && InStep(t, Pending([])) && Issued([]) == []
  {
    hide Prq.Queue.Valid;
  }

  lemma LogMore(events: seq<Event>, log: seq<Log>, l: Log)
    requires Answered(events, log) && |log| < |events| && Right(events[|log|], log, l)
    ensures Answered(events, log + [l]) && Pending(log + [l]) == Apply(Pending(log), l)
    ensures Issued(log + [l]) == Issued(log) + if l.Scheduled? then [l.handle] else []
  {
    LogLast(log, l);
    hide Right, Apply, Pending, Issued;
    var more := log + [l];
    forall i | 0 <= i < |more| ensures Right(events[i], more[..i], more[i]) {
      assert more[..i] == log[..i];
      if i == |log| { assert log[..i] == log; }
    }
  }

  lemma LogLast(log: seq<Log>, l: Log)
    ensures Pending(log + [l]) == Apply(Pending(log), l)
    ensures Issued(log + [l]) == Issued(log) + if l.Scheduled? then [l.handle] else []
  {
    hide Apply;
    assert (log + [l])[..|log|] == log;
  }

  // ----- What a log means for its timers -----

  /** The timers that have been scheduled. */
  ghost function Given(log: seq<Log>): map<TimerNode, ScheduledTimer> {
    if log == [] then map[]
    else
      var given, last := Given(log[..|log| - 1]), log[|log| - 1];
      if last.Scheduled? then given[last.handle := last.timer] else given
  }

  /** The same timers with the counts that they have reached. */
  ghost function Reached(log: seq<Log>): map<TimerNode, ScheduledTimer> {
    if log == [] then map[]
    else
      var m, last := Reached(log[..|log| - 1]), log[|log| - 1];
      match last
      case Scheduled(h, timer) => m[h := timer]
      case Took(_, left) => map n | n in m :: if n in left then left[n].timer else m[n]
      case _ => m
  }

  /** All firings, in order. */
  ghost function Firings(log: seq<Log>): seq<Firing> {
    if log == [] then []
    else
      var last := log[|log| - 1];
      Firings(log[..|log| - 1]) + if last.Took? then last.fired else []
  }

  ghost function CancelledIn(log: seq<Log>): set<TimerNode> {
    if log == [] then {}
    else
      var last := log[|log| - 1];
      CancelledIn(log[..|log| - 1]) + if last.Cancelled? then {last.handle} else {}
  }

  /** A scheduled timer is waiting, or cancelled, or a one-shot timer that has fired. It has fired at exactly these counts: a one-shot
      timer at its own, unless it is waiting or cancelled; a periodic one at every due count before the one it has reached. */
  ghost predicate Accounted(log: seq<Log>, n: TimerNode) {
    && n in Given(log) && n in Reached(log) && !(n in Pending(log) && n in CancelledIn(log))
    && Along(Given(log)[n], Reached(log)[n]) && (n in Pending(log) ==> Pending(log)[n].timer == Reached(log)[n])
    && (n in Pending(log) || n in CancelledIn(log) || Given(log)[n].period == 0)
    && forall x: nat :: Firing(n, x) in Firings(log) <==> FiredBy(Given(log)[n], Reached(log)[n], n in Pending(log) || n in CancelledIn(log), x)
  }

  /** The same timer, later. */
  ghost predicate Along(g: ScheduledTimer, t: ScheduledTimer) {
    t == g.(count := t.count) && if g.period == 0 then t == g else Onward(g.count, g.period, t.count)
  }

  ghost predicate FiredBy(g: ScheduledTimer, t: ScheduledTimer, queued: bool, x: int) {
    FiredAt(Was(g, g.count), t, queued, x)
  }

  ghost predicate Unknown(log: seq<Log>, n: TimerNode) {
    n !in Given(log) && n !in Reached(log) && n !in Pending(log) && n !in CancelledIn(log) && forall x :: Firing(n, x) !in Firings(log)
  }

  /** No timer is lost, and no turn of a periodic timer is skipped: after every run each scheduled timer is accounted for, and nothing
      else is waiting, is cancelled or has fired. */
  lemma {:induction false} EveryTimer(events: seq<Event>, log: seq<Log>, n: TimerNode)
    requires Answered(events, log)
    ensures if n in Issued(log) then Accounted(log, n) else Unknown(log, n)
  {
    assert |log| <= |events|;
    hide Accounted, Unknown, Answered, Given, Reached, Pending, Issued, CancelledIn, Firings, Right;
    GivenIssued(log, n);
    if log == [] {
      NothingTold(n);
    } else {
      var e, before, l := events[|log| - 1], log[..|log| - 1], log[|log| - 1];
      AnsweredBefore(events, log);
      EveryTimer(events, before, n);
      GivenIssued(before, n);
      match l {
        case Scheduled(h, timer) =>
          RightSchedule(e, before, l);
          GivenIssued(before, h);
          ScheduledMore(log, n);
        case Took(fired, left) =>
          RightInterrupt(e, before, l);
          TookMore(log, n, e.now);
        case Cancelled(h) =>
          RightCancel(e, before, l);
          CancelledMore(log, n);
        case Ignored =>
          IgnoredMore(log, n);
      }
    }
  }

  lemma {:induction false} GivenIssued(log: seq<Log>, n: TimerNode)
    ensures n in Given(log) <==> n in Issued(log)
  {
    if log != [] { GivenIssued(log[..|log| - 1], n); }
  }

  lemma NothingTold(n: TimerNode)
    ensures Unknown([], n) && Issued([]) == []
  {
  }

  lemma RightSchedule(e: Event, before: seq<Log>, l: Log)
    requires Right(e, before, l) && l.Scheduled?
    ensures l.handle !in Issued(before)
  {
  }

  lemma RightInterrupt(e: Event, before: seq<Log>, l: Log)
    requires Right(e, before, l) && l.Took?
    ensures e.Interrupt? && Settled(Pending(before), l.left, l.fired, e.now)
  {
  }

  lemma RightCancel(e: Event, before: seq<Log>, l: Log)
    requires Right(e, before, l) && l.Cancelled?
    ensures l.handle in Pending(before)
  {
  }

  lemma AnsweredBefore(events: seq<Event>, log: seq<Log>)
    requires Answered(events, log) && log != []
    ensures Answered(events, log[..|log| - 1]) && Right(events[|log| - 1], log[..|log| - 1], log[|log| - 1])
  {
    hide Right;
    var before := log[..|log| - 1];
    assert forall i :: 0 <= i < |before| ==> before[..i] == log[..i];
  }

  ghost predicate Told(log: seq<Log>, n: TimerNode) {
    if n in Given(log) then Accounted(log, n) else Unknown(log, n)
  }

  lemma IgnoredMore(log: seq<Log>, n: TimerNode)
    requires log != [] && log[|log| - 1] == Ignored && Told(log[..|log| - 1], n)
    ensures Told(log, n)
  {
  }

  lemma ScheduledMore(log: seq<Log>, n: TimerNode)
    requires log != [] && log[|log| - 1].Scheduled? && Told(log[..|log| - 1], n) && log[|log| - 1].handle !in Given(log[..|log| - 1])
    ensures Told(log, n)
  {
    var h, timer := log[|log| - 1].handle, log[|log| - 1].timer;
    if n == h {
      if timer.period > 0 { OnwardSelf(timer.count, timer.period); }
      forall x ensures !FiredBy(timer, timer, true, x) { NotFired(Was(timer, timer.count), x); }
    }
  }

  lemma CancelledMore(log: seq<Log>, n: TimerNode)
    requires log != [] && log[|log| - 1].Cancelled? && Told(log[..|log| - 1], n) && log[|log| - 1].handle in Pending(log[..|log| - 1])
    ensures Told(log, n)
  {
  }

  lemma TookMore(log: seq<Log>, n: TimerNode, now: nat)
    requires log != [] && log[|log| - 1].Took? && Told(log[..|log| - 1], n)
    requires Settled(Pending(log[..|log| - 1]), log[|log| - 1].left, log[|log| - 1].fired, now)
    ensures Told(log, n)
  {
    var before, fired, left := log[..|log| - 1], log[|log| - 1].fired, log[|log| - 1].left;
    var was := Pending(before);
    hide Ahead, LastKey, StopKey, Stops, Last, InOrder;
    if n in was {
      var g := Given(before)[n];
      var t, t' := was[n].timer, TimerIn(was, left, n);
      AlongMore(g, t, t');
      forall x ensures FiredBy(g, t', n in left, x) <==> FiredBy(g, t, true, x) || FiredAt(was[n], t', n in left, x) {
        FiredByMore(g, was[n], t', n in left, x);
      }
    }
  }

  lemma AlongMore(g: ScheduledTimer, t: ScheduledTimer, t': ScheduledTimer)
    requires Along(g, t) && Along(t, t')
    ensures Along(g, t')
  {
    if g.period > 0 { OnwardChain(g.count, g.period, t.count, t'.count); }
  }

  /** From a due count, the due counts are the later ones. */
  lemma OnwardChain(count: nat, period: nat, c: int, x: int)
    requires period > 0 && Onward(count, period, c)
    ensures c >= 0 && (Onward(c, period, x) <==> Onward(count, period, x) && x >= c)
  {
    var j := (c - count) / period;
    assert c - count == period * j;
    if x >= c {
      var i, r := (x - c) / period, (x - c) % period;
      assert x - count == period * (i + j) + r;
      DivModUnique(x - count, period, i + j, r);
    }
  }

  /** What has fired by the next interrupt has fired before it or in it. */
  lemma FiredByMore(g: ScheduledTimer, w: Was, t': ScheduledTimer, queued: bool, x: int)
    requires Along(g, w.timer) && Along(w.timer, t') && (g.period > 0 ==> queued)
    ensures FiredBy(g, t', queued, x) <==> FiredBy(g, w.timer, true, x) || FiredAt(w, t', queued, x)
  {
    if g.period > 0 { OnwardChain(g.count, g.period, w.timer.count, x); }
  }

  /** Nothing fires twice at the same count. */
  lemma {:induction false} NoTurnTwice(events: seq<Event>, log: seq<Log>)
    requires Answered(events, log)
    ensures forall i, j :: 0 <= i < j < |Firings(log)| ==> Firings(log)[i] != Firings(log)[j]
  {
    if log != [] {
      var before, l := log[..|log| - 1], log[|log| - 1];
      AnsweredBefore(events, log);
      NoTurnTwice(events, before);
      if l.Took? {
        forall f | f in l.fired ensures f !in Firings(before) {
          EveryTimer(events, before, f.node);
          NotAgain(Pending(before), before, l.left, l.fired, f);
        }
      }
    }
  }

  lemma NotAgain(was: Queued, before: seq<Log>, left: Queued, fired: seq<Firing>, f: Firing)
    requires was == Pending(before) && Told(before, f.node) && RecordedAs(was, left, fired) && f in fired
    ensures f !in Firings(before)
  {
    assert Firing(f.node, f.count) == f;
  }

  lemma GivenLast(log: seq<Log>)
    requires log != []
    ensures
      var given, last := Given(log[..|log| - 1]), log[|log| - 1];
      Given(log) == if last.Scheduled? then given[last.handle := last.timer] else given
  {
  }

  /** A timer keeps what it was given when scheduled. */
  lemma {:induction false} GivenFor(events: seq<Event>, log: seq<Log>, i: nat)
    requires Answered(events, log) && i < |log| && log[i].Scheduled?
    ensures log[i].handle in Given(log) && Given(log)[log[i].handle] == log[i].timer
  {
    hide Answered, Right, Issued, Given;
    GivenLast(log);
    var before, l := log[..|log| - 1], log[|log| - 1];
    if i < |before| {
      assert before[i] == log[i];
      AnsweredBefore(events, log);
      GivenFor(events, before, i);
      GivenIssued(before, log[i].handle);
      if l.Scheduled? { NewHandle(events, log); }
    }
  }

  lemma NewHandle(events: seq<Event>, log: seq<Log>)
    requires Answered(events, log) && log != [] && log[|log| - 1].Scheduled?
    ensures log[|log| - 1].handle !in Issued(log[..|log| - 1])
  {
    hide Issued;
    assert Right(events[|log| - 1], log[..|log| - 1], log[|log| - 1]);
  }

  /** No timer fires before its time: an interrupt that fires it comes no earlier than the delay after the scheduling, and it fires at
      that count or, if it is periodic, a whole number of delays later. */
  lemma NotBefore(events: seq<Event>, log: seq<Log>, i: nat, j: nat, f: Firing)
    requires Answered(events, log) && i < j < |log| && log[i].Scheduled? && log[j].Took? && f in log[j].fired && f.node == log[i].handle
    ensures events[i].Schedule? && events[j].Interrupt? && f.count <= events[j].now
    ensures FiresOnTime(events[i], f.count)
  {
    assert |log| <= |events|;
    hide Answered, Right, Pending, Settled, Accounted, FiresOnTime;
    AnsweredUpTo(events, log, i);
    AnsweredUpTo(events, log, j);
    var before := log[..j];
    RightInterrupt(events[j], before, log[j]);
    FiringsOf(Pending(before), log[j].left, log[j].fired, events[j].now, f);
    GivenFor(events, before, i);
    EveryTimer(events, before, f.node);
    GivenIssued(before, f.node);
    AccountedAlong(before, f.node);
    ScheduledRight(events[i], log[..i], log[i]);
    FiredFrom(log[i].timer, Pending(before), log[j].left, log[j].fired, f);
    OnTime(events[i], log[i].timer, f.count);
  }

  /** The count is at least the delay after the scheduling, if nothing overflows, and for a periodic timer a whole number of delays more. */
  ghost predicate FiresOnTime(e: Event, count: nat)
    requires e.Schedule?
  {
    var ticks := e.frequency / 1000 * e.delay;
    ticks < 0x1_0000_0000 && e.now + ticks <= 0x7fff_ffff ==>
      if e.periodic && ticks > 0 then e.now + ticks <= count && (count - e.now) % ticks == 0 else count == e.now + ticks
  }

  lemma OnTime(e: Event, g: ScheduledTimer, count: nat)
    requires e.Schedule? && DueAfter(e.now, e.frequency, e.delay, e.periodic, g)
    requires if g.period == 0 then count == g.count else Onward(g.count, g.period, count)
    ensures FiresOnTime(e, count)
  {
    var ticks: nat := e.frequency / 1000 * e.delay;
    if ticks < 0x1_0000_0000 && e.now + ticks <= 0x7fff_ffff && e.periodic && ticks > 0 {
      DivModUnique(count - e.now, ticks, (count - g.count) / ticks + 1, 0);
    }
  }

  lemma FiringsOf(was: Queued, left: Queued, fired: seq<Firing>, now: nat, f: Firing)
    requires Settled(was, left, fired, now) && f in fired
    ensures f.count <= now && f.node in was && RecordedAs(was, left, fired)
  {
  }

  lemma AccountedAlong(log: seq<Log>, n: TimerNode)
    requires n in Pending(log) && Accounted(log, n)
    ensures n in Given(log) && Along(Given(log)[n], Pending(log)[n].timer)
  {
  }

  lemma ScheduledRight(e: Event, before: seq<Log>, l: Log)
    requires Right(e, before, l) && l.Scheduled?
    ensures e.Schedule? && DueAfter(e.now, e.frequency, e.delay, e.periodic, l.timer)
  {
    hide DueAfter;
    CountIsDue(e.now, e.frequency, e.delay, e.periodic, e.callback);
  }

  lemma FiredFrom(g: ScheduledTimer, was: Queued, left: Queued, fired: seq<Firing>, f: Firing)
    requires f in fired && RecordedAs(was, left, fired) && (f.node in was ==> Along(g, was[f.node].timer))
    ensures if g.period == 0 then f.count == g.count else Onward(g.count, g.period, f.count)
  {
    if g.period > 0 { OnwardChain(g.count, g.period, was[f.node].timer.count, f.count); }
  }

  ghost predicate OneShotEvents(events: seq<Event>) {
    forall e :: e in events && e.Schedule? ==> !e.periodic
  }

  /** All keys are exact and no timer is periodic. */
  ghost predicate OneShots(m: Queued) {
    forall n :: n in m ==> m[n].timer.period == 0 && m[n].key == m[n].timer.count
  }

  /** With one-shot timers alone the keys stay exact, so that every interrupt fires exactly the timers due, in order, and the registers
      announce the earliest. */
  lemma {:induction false} OneShotRuns(events: seq<Event>, log: seq<Log>, t: Timers)
    requires Answered(events, log) && OneShotEvents(events)
    ensures OneShots(Pending(log)) && (InStep(t, Pending(log)) ==> t.Exact() && t.Armed())
    ensures forall i :: 0 <= i < |log| && log[i].Took? ==>
      events[i].Interrupt? && TookDue(Pending(log[..i]), log[i].left, log[i].fired, events[i].now)
  {
    assert |log| <= |events|;
    hide Answered, Right, Settled, TookDue, InStep, Pending;
    forall i | 0 <= i < |log| && log[i].Took?
      ensures events[i].Interrupt? && TookDue(Pending(log[..i]), log[i].left, log[i].fired, events[i].now)
    {
      AnsweredUpTo(events, log, i);
      OneShotsPending(events, log[..i]);
      RightInterrupt(events[i], log[..i], log[i]);
      DueTaken(Pending(log[..i]), log[i].left, log[i].fired, events[i].now);
    }
    OneShotsPending(events, log);
    if InStep(t, Pending(log)) { ExactQueue(t, Pending(log)); }
  }

  lemma AnsweredUpTo(events: seq<Event>, log: seq<Log>, i: nat)
    requires Answered(events, log) && i < |log|
    ensures Answered(events, log[..i]) && Right(events[i], log[..i], log[i])
  {
    hide Right;
    assert forall k :: 0 <= k < i ==> log[..i][..k] == log[..k];
  }

  lemma DueTaken(was: Queued, left: Queued, fired: seq<Firing>, now: nat)
    requires Settled(was, left, fired, now) && OneShots(was)
    ensures TookDue(was, left, fired, now)
  {
  }

  lemma {:induction false} OneShotsPending(events: seq<Event>, log: seq<Log>)
    requires Answered(events, log) && OneShotEvents(events)
    ensures OneShots(Pending(log))
  {
    if log != [] {
      var e, before, l := events[|log| - 1], log[..|log| - 1], log[|log| - 1];
      AnsweredBefore(events, log);
      OneShotsPending(events, before);
      hide Answered, DecidedAs, RecordedAs, TookDue, Onward;
    }
  }

  lemma ExactQueue(t: Timers, m: Queued)
    requires InStep(t, m) && OneShots(m)
    ensures t.Exact() && t.Armed()
  {
    hide Prq.Queue.Valid;
    forall n | n in t.queue.nodes ensures n.priority == n.data.count { assert n in m; }
    t.AnnouncedExactly();
  }
}
