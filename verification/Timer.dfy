/** The timer scheduler (src/kernel/src/drivers/chipset/bcm2836/timer.c). The counter value is an input, the compare and mask registers
    are fields, a callback is the record of its call, and a failed assert halts. */
module Timer {
  import opened Arith
  import opened Prq

  const INT32_MAX: nat := 0x7fff_ffff

  /** `period` is 0 for a one-shot timer. */
  datatype ScheduledTimer = ScheduledTimer(count: nat, period: nat, callback: int)

  type TimerNode = Node<ScheduledTimer>

  datatype Firing = Firing(node: TimerNode, count: nat)

  ghost function NodesOf(fired: seq<Firing>): set<TimerNode> {
    set f | f in fired :: f.node
  }

  lemma NodesOfOne(f: Firing)
    ensures NodesOf([f]) == {f.node}
  {
  }

  lemma NodesAdd(fired: seq<Firing>, f: Firing)
    ensures NodesOf(fired + [f]) == NodesOf(fired) + {f.node}
  {
  }

  // ---- a bound on the work of one interrupt ----

  /** How often a timer due at `count` can still fire by `now`, at most. */
  function Budget(count: nat, now: nat): nat {
    if count <= now then now - count + 1 else 0
  }

  ghost function Sum(s: seq<nat>): nat {
    if s == [] then 0 else s[0] + Sum(s[1..])
  }

  lemma {:induction false} SumDecreases(s: seq<nat>, i: nat, x: nat)
    requires i < |s| && x < s[i]
    ensures Sum(s[i := x]) < Sum(s)
  {
    if i > 0 {
      assert s[i := x][1..] == s[1..][i - 1 := x];
      SumDecreases(s[1..], i - 1, x);
    } else {
      assert s[i := x][1..] == s[1..];
    }
  }

  // ---- how far a timer gets in one interrupt ----

  /** x is one of the counts at which a timer of this count and period falls due. */
  ghost predicate Onward(count: nat, period: nat, x: int)
    requires period > 0
  {
    x >= count && (x - count) % period == 0
  }

  /** The last such count that is not after `now`. */
  function Last(count: nat, period: nat, now: nat): nat
    requires period > 0 && count <= now
  {
    count + (now - count) / period * period
  }

  lemma OnwardStep(count: nat, period: nat, x: int)
    requires period > 0 && Onward(count, period, x)
    ensures Onward(count, period, x + period)
  {
    DivModUnique(x + period - count, period, (x - count) / period + 1, 0);
  }

  lemma OnwardApart(count: nat, period: nat, x: int, y: int)
    requires period > 0 && Onward(count, period, x) && Onward(count, period, y) && x < y
    ensures x + period <= y
  {
    var i, j := (x - count) / period, (y - count) / period;
    assert period * (j - i) == y - x;
    if j <= i { MulMonotone(j - i, 0, period); }
    MulAtLeast(period, j - i);
  }

  lemma LastIs(count: nat, period: nat, now: nat)
    requires period > 0 && count <= now
    ensures Onward(count, period, Last(count, period, now)) && Last(count, period, now) <= now < Last(count, period, now) + period
  {
    var q := (now - count) / period;
    MulMonotone(0, q, period);
    DivModUnique(q * period, period, q, 0);
  }

  /** A due count not after `now` is at most the last one, and is the last one if the next is after `now`. */
  lemma OnwardUpTo(count: nat, period: nat, x: int, now: nat)
    requires period > 0 && count <= now && Onward(count, period, x) && x <= now
    ensures x <= Last(count, period, now) && (x + period > now <==> x == Last(count, period, now))
  {
    LastIs(count, period, now);
    var last := Last(count, period, now);
    if x < last { OnwardApart(count, period, x, last); }
    if last < x { OnwardApart(count, period, last, x); }
  }

  /** A queued timer and its key as the interrupt finds them. */
  datatype Was = Was(timer: ScheduledTimer, key: int)

  /** Keyed by its count, or, once it has come back, by the count before. */
  ghost predicate Paced(w: Was) {
    w.key == w.timer.count || (w.timer.period > 0 && w.key == w.timer.count - w.timer.period)
  }

  /** A timer that is not due, or will be back, ends the loop once it is first. */
  predicate Stops(w: Was, now: nat) {
    w.timer.count > now || w.timer.period > 0
  }

  /** The key under which it does so. */
  function StopKey(w: Was, now: nat): int
    requires Stops(w, now)
  {
    if w.timer.count > now then w.key else Last(w.timer.count, w.timer.period, now)
  }

  /** The key under which a due timer makes its last firing due by `now`. */
  function LastKey(w: Was, now: nat): int
    requires w.timer.count <= now
  {
    if w.timer.period == 0 || Last(w.timer.count, w.timer.period, now) == w.timer.count then w.key
    else Last(w.timer.count, w.timer.period, now) - w.timer.period
  }

  /** How a timer can stand during the loop: untouched, fired and gone, or fired and back under its old count. */
  ghost predicate Course(w: Was, t: ScheduledTimer, key: int, queued: bool, now: nat) {
    || (queued && t == w.timer && key == w.key)
    || (!queued && w.timer.period == 0 && t == w.timer && t.count <= now)
    || (queued && CameBack(w, t, key, now))
  }

  ghost predicate CameBack(w: Was, t: ScheduledTimer, key: int, now: nat) {
    && w.timer.period > 0 && t == w.timer.(count := t.count) && w.timer.count < t.count
    && Onward(w.timer.count, t.period, t.count) && key == t.count - t.period <= now
  }

  ghost predicate HasFired(w: Was, t: ScheduledTimer, queued: bool) {
    !queued || t.count > w.timer.count
  }

  /** The key under which it last fired. */
  ghost function FromKey(w: Was, t: ScheduledTimer): int {
    if w.timer.period == 0 || t.count == w.timer.count + w.timer.period then w.key else t.count - 2 * w.timer.period
  }

  /** No key is ever beyond the one under which its timer stops the loop. */
  lemma KeyUpToStop(w: Was, t: ScheduledTimer, key: int, queued: bool, now: nat)
    requires Paced(w) && Stops(w, now) && Course(w, t, key, queued, now)
    ensures queued && key <= StopKey(w, now)
  {
    hide Onward, Last;
    if w.timer.count <= now { LastIs(w.timer.count, w.timer.period, now); OnwardSelf(w.timer.count, w.timer.period); }
    if w.timer.count <= now { OnwardUpTo(w.timer.count, w.timer.period, w.timer.count, now); }
    if queued && CameBack(w, t, key, now) {
      CameBackKey(w, t, key, now);
      OnwardUpTo(w.timer.count, w.timer.period, key, now);
    }
  }

  lemma OnwardSelf(count: nat, period: nat)
    requires period > 0
    ensures Onward(count, period, count)
  {
  }

  lemma CameBackKey(w: Was, t: ScheduledTimer, key: int, now: nat)
    requires CameBack(w, t, key, now)
    ensures w.timer.count <= key && Onward(w.timer.count, w.timer.period, key)
  {
    OnwardApart(w.timer.count, w.timer.period, w.timer.count, t.count);
    DivModUnique(key - w.timer.count, t.period, (t.count - w.timer.count) / t.period - 1, 0);
  }

  /** Firing a due timer. */
  lemma CourseFires(w: Was, t: ScheduledTimer, key: int, now: nat)
    requires Course(w, t, key, true, now) && t.count <= now
    ensures t.period == 0 ==> Course(w, t, key, false, now) && FromKey(w, t) == key
    ensures t.period > 0 ==> var t' := t.(count := t.count + t.period);
      Course(w, t', t.count, true, now) && FromKey(w, t') == key && t'.count > w.timer.count
  {
    hide Onward;
    if t.period > 0 {
      OnwardSelf(w.timer.count, t.period);
      OnwardStep(w.timer.count, t.period, t.count);
      if t.count > w.timer.count { OnwardApart(w.timer.count, t.period, w.timer.count, t.count); }
    }
  }

  /** A timer at the front that ends the loop has reached its stopping key. */
  lemma StopReached(w: Was, t: ScheduledTimer, key: int, now: nat)
    requires Course(w, t, key, true, now) && t.count > now
    ensures Stops(w, now) && key == StopKey(w, now)
  {
    hide Onward, Last;
    if CameBack(w, t, key, now) {
      CameBackKey(w, t, key, now);
      OnwardUpTo(w.timer.count, w.timer.period, key, now);
    }
  }

  /** A timer still due has not passed the key of its last firing. */
  lemma WaitsBeforeLast(w: Was, t: ScheduledTimer, key: int, now: nat)
    requires Paced(w) && Course(w, t, key, true, now) && t.count <= now
    ensures w.timer.count <= now && key <= LastKey(w, now)
  {
    hide Onward, Last;
    var c, p := w.timer.count, w.timer.period;
    if p > 0 {
      OnwardSelf(c, p);
      LastIs(c, p, now);
      OnwardUpTo(c, p, t.count, now);
      if t.count < Last(c, p, now) { OnwardApart(c, p, t.count, Last(c, p, now)); }
    }
  }

  /** A timer that was due and is not any more has made its last firing, under that key. */
  lemma DoneFromLast(w: Was, t: ScheduledTimer, key: int, queued: bool, now: nat)
    requires Course(w, t, key, queued, now) && w.timer.count <= now && (queued ==> t.count > now)
    ensures HasFired(w, t, queued) && FromKey(w, t) == LastKey(w, now)
    ensures queued ==> t.count == Last(w.timer.count, w.timer.period, now) + w.timer.period
  {
    hide Onward, Last;
    if queued {
      CameBackKey(w, t, key, now);
      OnwardUpTo(w.timer.count, w.timer.period, key, now);
    }
  }

  lemma NotDue(w: Was, t: ScheduledTimer, key: int, queued: bool, now: nat)
    requires Course(w, t, key, queued, now) && w.timer.count > now
    ensures queued && t == w.timer && key == w.key
  {
    if queued && CameBack(w, t, key, now) { CameBackKey(w, t, key, now); }
  }

  lemma QueuedIf(w: Was, t: ScheduledTimer, key: int, queued: bool, now: nat)
    requires Course(w, t, key, queued, now)
    ensures t == w.timer.(count := t.count) && (w.timer.period > 0 ==> queued)
    ensures w.timer.period == 0 ==> t == w.timer
    ensures t.period > 0 ==> Onward(w.timer.count, t.period, t.count)
  {
    if t.period > 0 { OnwardSelf(w.timer.count, t.period); }
  }

  /** Whether the timer has fired at x. */
  ghost predicate FiredAt(w: Was, t: ScheduledTimer, queued: bool, x: int) {
    if w.timer.period == 0 then !queued && x == w.timer.count else Onward(w.timer.count, w.timer.period, x) && x < t.count
  }

  lemma NotFired(w: Was, x: int)
    ensures !FiredAt(w, w.timer, true, x)
  {
  }

  lemma FiresAt(w: Was, t: ScheduledTimer, key: int, now: nat, x: int)
    requires Course(w, t, key, true, now) && t.count <= now
    ensures t.period == 0 ==> (FiredAt(w, t, false, x) <==> FiredAt(w, t, true, x) || x == t.count)
    ensures t.period > 0 ==> var t' := t.(count := t.count + t.period);
      FiredAt(w, t', true, x) <==> FiredAt(w, t, true, x) || x == t.count
    ensures !FiredAt(w, t, true, t.count)
  {
    hide Onward;
    if t.period > 0 {
      OnwardSelf(w.timer.count, t.period);
      if Onward(w.timer.count, t.period, x) && x > t.count { OnwardApart(w.timer.count, t.period, t.count, x); }
    }
  }

  /** A timer scheduled at `now` is due `frequency / 1000 * delay` counts later, the product taken in 32 bits and the sum in 64; with that
      distance as its period if it is periodic. */
  ghost predicate DueAfter(now: nat, frequency: nat, delay: nat, periodic: bool, timer: ScheduledTimer) {
    var ticks := frequency / 1000 * delay;
    && timer.count == (now + ticks % 0x1_0000_0000) % 0x1_0000_0000_0000_0000 <= 0x7fff_ffff
    && timer.period == (if periodic then ticks % 0x1_0000_0000 else 0)
    && (ticks < 0x1_0000_0000 && now + ticks <= 0x7fff_ffff ==>
          timer.count - now == ticks && timer.period == if periodic then ticks else 0)
  }

  ghost predicate TooLate(now: nat, frequency: nat, delay: nat) {
    var ticks := frequency / 1000 * delay;
    (now + ticks % 0x1_0000_0000) % 0x1_0000_0000_0000_0000 > 0x7fff_ffff && (ticks < 0x1_0000_0000 ==> now + ticks > 0x7fff_ffff)
  }

  lemma CountIsDue(now: nat, frequency: nat, delay: nat, periodic: bool, callback: int)
    ensures
      var offset := Offset(frequency, delay);
      var count := CountOf(now, offset);
      if count > INT32_MAX then TooLate(now, frequency, delay)
      else DueAfter(now, frequency, delay, periodic, ScheduledTimer(count, if periodic then offset else 0, callback))
  {
    var ticks: nat := frequency / 1000 * delay;
    assert ticks < 0x1_0000_0000 ==> ticks % 0x1_0000_0000 == ticks;
    assert now + ticks <= 0x7fff_ffff ==> (now + ticks) % 0x1_0000_0000_0000_0000 == now + ticks;
  }

  /** The count of `schedule_timer`, and what it makes the period of a periodic timer. */
  function Offset(frequency: nat, delay: nat): nat {
    frequency / 1000 * delay % 0x1_0000_0000
  }

  function CountOf(now: nat, offset: nat): nat {
    (now + offset) % 0x1_0000_0000_0000_0000
  }

  /** Every other timer stops the loop only after the last firing of this one. */
  ghost predicate Ahead(was: map<TimerNode, Was>, n: TimerNode, now: nat)
    requires n in was && was[n].timer.count <= now
  {
    forall m :: m in was && m != n && Stops(was[m], now) ==> LastKey(was[n], now) < StopKey(was[m], now)
  }

  class Timers {
    var queue: Queue<ScheduledTimer>
    /** The compare register. */
    var cmp: nat
    var masked: bool

    ghost predicate Valid()
      reads this`queue, queue, queue.heap, queue.nodes
    {
      queue.Valid()
    }

    /** Every node is keyed by its own timer's count. */
    ghost predicate Exact()
      reads this`queue, queue, queue.nodes
    {
      forall n :: n in queue.nodes ==> n.priority == n.data.count
    }

    /** The registers announce the earliest timer. */
    ghost predicate Armed()
      reads this, queue, queue.nodes
    {
      && (masked <==> queue.nodes == {})
      && (forall n :: n in queue.nodes ==> cmp <= n.data.count)
      && (queue.nodes != {} ==> exists n :: n in queue.nodes && n.data.count == cmp)
    }

    /** The interrupt is masked when nothing is queued, and otherwise asked for at the count of the timer in front. */
    ghost predicate Announced()
      reads this, queue, queue.nodes
    {
      && (masked <==> queue.nodes == {})
      && (queue.nodes != {} ==>
            exists n :: n in queue.nodes && n.data.count == cmp && forall m :: m in queue.nodes ==> n.priority <= m.priority)
    }

    /** With exact keys that is the earliest timer. */
    lemma AnnouncedExactly()
      requires Exact() && Announced()
      ensures Armed()
    {
    }

    /** `bcm2836_timer_init` */
    constructor ()
      ensures Valid() && Exact() && AllPaced() && Armed() && Announced() && queue.nodes == {} && fresh(queue) && fresh(queue.heap)
    {
      queue := new Queue(10);
      masked, cmp := true, 0;
    }

    /** One turn of the handler's loop: the first timer fires, and comes back if it is periodic. */
    method FireFirst(first: TimerNode, now: nat) returns (f: Firing, halted: bool)
      requires Valid() && first in queue.nodes && queue.heap[1] == first && first.data.count <= now
      modifies queue, queue.heap, queue.nodes
      ensures Valid() && f == Firing(first, old(first.data.count))
      ensures queue.nodes <= old(queue.nodes) && (queue.heap == old(queue.heap) || fresh(queue.heap))
      ensures old(first.data.period) == 0 ==> !halted && queue.nodes == old(queue.nodes) - {first}
      ensures old(first.data.period) == 0 ==> first.data == old(first.data) && first.priority == old(first.priority)
      ensures old(first.data.period) > 0 ==> halted == (f.count > 0x7fff_ffff)
      ensures old(first.data.period) > 0 && !halted ==> queue.nodes == old(queue.nodes) && first.priority == f.count
      ensures old(first.data.period) > 0 && !halted ==> first.data == old(first.data).(count := f.count + old(first.data.period))
      ensures forall n :: n in old(queue.nodes) && n != first ==> n.data == old(n.data) && n.priority == old(n.priority)
      ensures forall n :: n in old(queue.nodes) ==> old(first.priority) <= old(n.priority)
    {
      var top := queue.Dequeue();
      f, halted := Firing(first, first.data.count), false;
      if first.data.period > 0 {
        var count := first.data.count;
        first.data := first.data.(count := count + first.data.period);
        if count > INT32_MAX { return f, true; }
        Requeue(first, count);
      }
    }

    /** A periodic timer goes back under its old count. */
    method Requeue(first: TimerNode, count: nat)
      requires Valid() && first !in queue.nodes
      modifies queue, queue.heap, queue.nodes`index, first`index, first`priority
      ensures Valid() && queue.nodes == old(queue.nodes) + {first} && first.priority == count
      ensures queue.heap == old(queue.heap) || fresh(queue.heap)
    {
      first.priority := count;
      queue.Enqueue(first);
    }

    /** Every timer due by `now` is a one-shot timer. */
    ghost predicate OneShotsDue(now: nat)
      reads this`queue, queue, queue.nodes
    {
      forall n :: n in queue.nodes && n.data.count <= now ==> n.data.period == 0
    }

    /** While nothing has come back: the firings so far are the timers gone, in order, each before all that remain. */
    ghost predicate Clean(fired: seq<Firing>, all: set<TimerNode>, now: nat)
      reads this`queue, queue, queue.nodes, all
    {
      && Exact()
      && (forall n :: n in all ==> n in queue.nodes || Firing(n, n.data.count) in fired)
      && (forall f :: f in fired ==> f.node in all && f.node !in queue.nodes && f.count == f.node.data.count <= now && f.node.data.period == 0)
      && (forall f, n :: f in fired && n in queue.nodes ==> f.count <= n.data.count)
      && (forall i, j :: 0 <= i < j < |fired| ==> fired[i].node != fired[j].node && fired[i].count <= fired[j].count)
    }

    /** Some periodic timer has come back under its old count. */
    ghost predicate Lagging(p: TimerNode)
      reads this`queue, queue, p
    {
      p in queue.nodes && p.priority < p.data.count && p.data.period > 0
    }

    ghost function Snapshot(): map<TimerNode, Was>
      reads this`queue, queue, queue.nodes
    {
      map n | n in queue.nodes :: Was(n.data, n.priority)
    }

    ghost predicate AllPaced()
      reads this`queue, queue, queue.nodes
    {
      forall n :: n in queue.nodes ==> Paced(Was(n.data, n.priority))
    }

    /** Every timer is on its course, and none has fired under a key beyond the stopping key of any other. */
    ghost predicate OnCourse(was: map<TimerNode, Was>, now: nat)
      reads this`queue, queue, was.Keys
    {
      && (forall n :: n in was ==> Paced(was[n]) && Course(was[n], n.data, n.priority, n in queue.nodes, now))
      && (forall n, m :: n in was && m in was && HasFired(was[n], n.data, n in queue.nodes) && Stops(was[m], now) ==>
            FromKey(was[n], n.data) <= StopKey(was[m], now))
    }

    /** The firings, each once. */
    ghost predicate Recorded(was: map<TimerNode, Was>, fired: seq<Firing>)
      reads this`queue, queue, was.Keys
    {
      && (forall f :: f in fired ==> f.node in was && FiredAt(was[f.node], f.node.data, f.node in queue.nodes, f.count))
      && (forall n, x :: n in was && FiredAt(was[n], n.data, n in queue.nodes, x) ==> Firing(n, x) in fired)
      && (forall i, j :: 0 <= i < j < |fired| ==> fired[i] != fired[j])
    }

    /** The timer is still queued although it is due. */
    ghost predicate Waiting(n: TimerNode, now: nat)
      reads this`queue, queue, n
    {
      n in queue.nodes && n.data.count <= now
    }

    /** Which due timers are left waiting: none whose last key is below every other stopping key, and every one whose last key is above
        some stopping key. The others fire at all their due counts. */
    ghost predicate Decided(was: map<TimerNode, Was>, now: nat)
      reads this`queue, queue, was.Keys
    {
      && (forall n :: n in was ==> n.data == was[n].timer.(count := n.data.count) && (n.data.period == 0 ==> n.data == was[n].timer))
      && (forall n :: n in was && n.data.period > 0 ==> Onward(was[n].timer.count, n.data.period, n.data.count))
      && (forall n :: n in was && was[n].timer.count > now ==> n in queue.nodes && n.data == was[n].timer && n.priority == was[n].key)
      && (forall n :: n in was && was[n].timer.count <= now && Ahead(was, n, now) ==> !Waiting(n, now))
      && (forall n, m :: n in was && m in was && was[n].timer.count <= now && Stops(was[m], now) && StopKey(was[m], now) < LastKey(was[n], now) ==>
            Waiting(n, now))
      && (forall n :: n in was && was[n].timer.count <= now && !Waiting(n, now) ==>
            if was[n].timer.period == 0 then n !in queue.nodes
            else n in queue.nodes && n.data.count == Last(was[n].timer.count, was[n].timer.period, now) + was[n].timer.period)
    }

    lemma Decide(was: map<TimerNode, Was>, now: nat, next: Node?<ScheduledTimer>)
      requires OnCourse(was, now) && Front(next) && queue.nodes <= was.Keys && (next != null ==> next.data.count > now)
      ensures Decided(was, now)
    {
      hide Course, Paced, Stops, StopKey, LastKey, FromKey, HasFired, Last;
      forall n | n in was
        ensures n.data == was[n].timer.(count := n.data.count) && (n.data.period == 0 ==> n.data == was[n].timer)
        ensures n.data.period > 0 ==> Onward(was[n].timer.count, n.data.period, n.data.count)
      {
        QueuedIf(was[n], n.data, n.priority, n in queue.nodes, now);
      }
      forall n | n in was && was[n].timer.count > now
        ensures n in queue.nodes && n.data == was[n].timer && n.priority == was[n].key
      {
        NotDue(was[n], n.data, n.priority, n in queue.nodes, now);
      }
      forall n | n in was && was[n].timer.count <= now && Ahead(was, n, now) ensures !Waiting(n, now) {
        if Waiting(n, now) {
          WaitsBeforeLast(was[n], n.data, n.priority, now);
          StopReached(was[next], next.data, next.priority, now);
        }
      }
      forall n | n in was && was[n].timer.count <= now && !Waiting(n, now)
        ensures HasFired(was[n], n.data, n in queue.nodes) && FromKey(was[n], n.data) == LastKey(was[n], now)
        ensures if was[n].timer.period == 0 then n !in queue.nodes
          else n in queue.nodes && n.data.count == Last(was[n].timer.count, was[n].timer.period, now) + was[n].timer.period
      {
        DoneFromLast(was[n], n.data, n.priority, n in queue.nodes, now);
        QueuedIf(was[n], n.data, n.priority, n in queue.nodes, now);
      }
    }

    /** Budgets for the work left, one for each timer there was. */
    ghost predicate Budgeted(order: seq<TimerNode>, rest: seq<nat>, now: nat)
      reads this`queue, queue, queue.nodes
    {
      && |rest| == |order|
      && (forall n :: n in queue.nodes ==> n in order)
      && (forall i, j :: 0 <= i < j < |order| ==> order[i] != order[j])
      && (forall i :: 0 <= i < |order| && order[i] in queue.nodes ==> rest[i] == Budget(order[i].data.count, now))
    }

    ghost method Enumerate(now: nat) returns (order: seq<TimerNode>, rest: seq<nat>)
      requires Valid()
      ensures Budgeted(order, rest, now)
    {
      order, rest := [], [];
      for i := 1 to queue.count + 1
        invariant |order| == |rest| == i - 1
        invariant forall k :: 0 <= k < i - 1 ==> order[k] in queue.nodes && order[k].index == k + 1
        invariant forall k :: 0 <= k < i - 1 ==> rest[k] == Budget(order[k].data.count, now)
      {
        order := order + [queue.heap[i]];
        rest := rest + [Budget(queue.heap[i].data.count, now)];
      }
      forall n | n in queue.nodes ensures n in order {
        var m := order[n.index - 1];
        assert queue.heap[m.index] == m;
      }
    }

    /** What holds of the firings so far when the queue was exact at first; `odd` is the first timer that came back. */
    ghost predicate Tracked(fired: seq<Firing>, all: set<TimerNode>, now: nat, odd: Node?<ScheduledTimer>)
      reads this`queue, queue, queue.nodes, all, odd
    {
      if odd == null then Clean(fired, all, now) else Lagging(odd)
    }

    /** Timers that have not fired are as they were, and so are all as long as none has come back. */
    ghost predicate Kept(was: map<TimerNode, Was>, fired: seq<Firing>, odd: Node?<ScheduledTimer>)
      reads was.Keys
    {
      forall n :: n in was && (odd == null || n !in NodesOf(fired)) ==> n.data == was[n].timer
    }

    /** `next` is what prq_peek answers. */
    ghost predicate Front(next: Node?<ScheduledTimer>)
      reads this`queue, queue, queue.heap, queue.nodes
    {
      && (next == null <==> queue.nodes == {})
      && (next != null ==> next in queue.nodes && queue.heap.Length > 1 && queue.heap[1] == next)
      && (next != null ==> forall n :: n in queue.nodes ==> next.priority <= n.priority)
    }

    method Next() returns (next: Node?<ScheduledTimer>)
      requires Valid()
      ensures Front(next) && (next != null ==> next in queue.nodes)
    {
      hide Prq.Queue.Linked, Prq.Queue.Valid;
      next := queue.Peek();
    }

    /** Firing the first timer keeps every timer on its course. */
    method FireOnCourse(first: TimerNode, now: nat, ghost was: map<TimerNode, Was>, ghost fired: seq<Firing>, ghost paced: bool)
      returns (f: Firing, halted: bool)
      requires Valid() && Front(first) && first.data.count <= now
      requires queue.nodes <= was.Keys && (paced ==> OnCourse(was, now) && Recorded(was, fired))
      modifies queue, queue.heap, queue.nodes
      ensures Valid() && f == Firing(first, old(first.data.count))
      ensures queue.nodes <= old(queue.nodes) && (queue.heap == old(queue.heap) || fresh(queue.heap))
      ensures old(first.data.period) == 0 ==> !halted && queue.nodes == old(queue.nodes) - {first}
      ensures old(first.data.period) == 0 ==> first.data == old(first.data) && first.priority == old(first.priority)
      ensures old(first.data.period) > 0 ==> halted == (f.count > 0x7fff_ffff)
      ensures old(first.data.period) > 0 && !halted ==> queue.nodes == old(queue.nodes) && first.priority == f.count
      ensures old(first.data.period) > 0 && !halted ==> first.data == old(first.data).(count := f.count + old(first.data.period))
      ensures forall n :: n in old(queue.nodes) && n != first ==> n.data == old(n.data) && n.priority == old(n.priority)
      ensures forall n :: n in old(queue.nodes) ==> old(first.priority) <= old(n.priority)
      ensures !halted && paced ==> OnCourse(was, now) && Recorded(was, fired + [f])
    {
      hide Course, Paced, Stops, StopKey, FromKey, HasFired, FiredAt, Prq.Queue.Linked, Prq.Queue.Valid;
      if paced {
        CourseFires(was[first], first.data, first.priority, now);
        FiresOnce(was, fired, first, now);
        forall m | m in was && Stops(was[m], now) ensures m in queue.nodes && first.priority <= StopKey(was[m], now) {
          KeyUpToStop(was[m], m.data, m.priority, m in queue.nodes, now);
        }
        forall x ensures
          && (first.data.period == 0 ==>
                (FiredAt(was[first], first.data, false, x) <==> FiredAt(was[first], first.data, true, x) || x == first.data.count))
          && (first.data.period > 0 ==>
                (FiredAt(was[first], first.data.(count := first.data.count + first.data.period), true, x) <==>
                 FiredAt(was[first], first.data, true, x) || x == first.data.count))
        {
          FiresAt(was[first], first.data, first.priority, now, x);
        }
      }
      f, halted := FireFirst(first, now);
    }

    lemma FiresOnce(was: map<TimerNode, Was>, fired: seq<Firing>, first: TimerNode, now: nat)
      requires OnCourse(was, now) && Recorded(was, fired) && first in was && first in queue.nodes && first.data.count <= now
      ensures Firing(first, first.data.count) !in fired
    {
      FiresAt(was[first], first.data, first.priority, now, first.data.count);
    }

    /** Firing the first timer keeps the record of the firings. */
    method FireTracked(first: TimerNode, now: nat, ghost fired: seq<Firing>, ghost all: set<TimerNode>, ghost odd0: Node?<ScheduledTimer>,
                       ghost exact: bool, ghost was: map<TimerNode, Was>, ghost paced: bool)
      returns (f: Firing, halted: bool, ghost odd: Node?<ScheduledTimer>)
      requires Valid() && Front(first) && first.data.count <= now
      requires queue.nodes <= all && (exact ==> Tracked(fired, all, now, odd0))
      requires queue.nodes <= was.Keys && Kept(was, fired, odd0) && (paced ==> OnCourse(was, now) && Recorded(was, fired))
      modifies queue, queue.heap, queue.nodes
      ensures Valid() && queue.nodes <= old(queue.nodes) && f == Firing(first, old(first.data.count)) && first in old(queue.nodes)
      ensures queue.heap == old(queue.heap) || fresh(queue.heap)
      ensures !halted && exact ==> Tracked(fired + [f], all, now, odd)
      ensures !halted && paced ==> OnCourse(was, now) && Recorded(was, fired + [f])
      ensures old(OneShotsDue(now)) ==> !halted && odd == odd0 && OneShotsDue(now)
      ensures (halted ==> f.count > INT32_MAX) && Kept(was, fired + [f], odd)
      ensures !halted && first in queue.nodes ==> first.data.count > f.count
      ensures forall n :: n in queue.nodes && n != first ==> n.data == old(n.data)
    {
      hide Prq.Queue.Linked, Prq.Queue.Valid, OnCourse, Recorded, NodesOf;
      f, halted := FireOnCourse(first, now, was, fired, paced);
      odd := if odd0 == null && old(first.data.period) > 0 then first else odd0;
      NodesAdd(fired, f);
    }

    /** A turn of the loop: it uses up budget. */
    method Turn(first: TimerNode, now: nat, ghost order: seq<TimerNode>, ghost rest0: seq<nat>, ghost fired: seq<Firing>,
                ghost all: set<TimerNode>, ghost odd0: Node?<ScheduledTimer>, ghost exact: bool, ghost was: map<TimerNode, Was>, ghost paced: bool)
      returns (f: Firing, halted: bool, ghost rest: seq<nat>, ghost odd: Node?<ScheduledTimer>)
      requires Valid() && Front(first) && first.data.count <= now && first in queue.nodes
      requires Budgeted(order, rest0, now) && queue.nodes <= all && (exact ==> Tracked(fired, all, now, odd0))
      requires queue.nodes <= was.Keys && Kept(was, fired, odd0) && (paced ==> OnCourse(was, now) && Recorded(was, fired))
      modifies queue, queue.heap, queue.nodes
      ensures Valid() && queue.nodes <= old(queue.nodes) && f == Firing(first, old(first.data.count)) && first in old(queue.nodes)
      ensures queue.heap == old(queue.heap) || fresh(queue.heap)
      ensures !halted ==> Budgeted(order, rest, now) && Sum(rest) < Sum(rest0)
      ensures !halted && exact ==> Tracked(fired + [f], all, now, odd)
      ensures !halted && paced ==> OnCourse(was, now) && Recorded(was, fired + [f])
      ensures old(OneShotsDue(now)) ==> !halted && odd == odd0 && OneShotsDue(now)
      ensures (halted ==> f.count > INT32_MAX) && Kept(was, fired + [f], odd)
    {
      hide Sum, Prq.Queue.Linked, Prq.Queue.Valid, OnCourse, Recorded, NodesOf, Tracked, Kept, OneShotsDue;
      ghost var j :| 0 <= j < |order| && order[j] == first;
      f, halted, odd := FireTracked(first, now, fired, all, odd0, exact, was, paced);
      rest := rest0[j := if first in queue.nodes then Budget(first.data.count, now) else 0];
      if !halted { SumDecreases(rest0, j, rest[j]); }
    }

    /** The loop of `timer_handle_interrupt`. It ends for every mix of timers: each firing uses up budget. */
    method Process(now: nat) returns (fired: seq<Firing>, halted: bool, next: Node?<ScheduledTimer>, ghost odd: Node?<ScheduledTimer>)
      requires Valid()
      modifies queue, queue.heap, queue.nodes
      ensures Valid() && queue.nodes <= old(queue.nodes) && (queue.heap == old(queue.heap) || fresh(queue.heap))
      ensures forall f :: f in fired ==> f.node in old(queue.nodes) && f.count <= now
      ensures !halted ==> Front(next) && (next != null ==> next in queue.nodes && next.data.count > now)
      ensures !halted && old(Exact()) ==> Tracked(fired, old(queue.nodes), now, odd)
      ensures !halted && old(AllPaced()) ==> OnCourse(old(Snapshot()), now) && Recorded(old(Snapshot()), fired)
      ensures halted ==> now > 0x7fff_ffff
      ensures forall n :: n in old(queue.nodes) && n !in NodesOf(fired) ==> n.data == old(n.data)
      ensures old(OneShotsDue(now)) ==> odd == null && !halted
      ensures odd == null && !halted ==> forall n :: n in old(queue.nodes) ==> n.data == old(n.data)
    {
      hide Budgeted, Tracked, Sum, Prq.Queue.Linked, Prq.Queue.Valid, OneShotsDue, Exact;
      hide Front, NodesOf, AllPaced, OnCourse, Recorded, Kept;
      ghost var was, paced := Snapshot(), AllPaced();
      ghost var all, exact, oneShots := queue.nodes, Exact(), OneShotsDue(now);
      ghost var order, rest := Enumerate(now);
      fired, halted, odd := [], false, null;
      next := Next();
      Begin(now);
      KeptAtFirst();
      while next != null && next.data.count <= now
        invariant Valid() && queue.nodes <= all && (queue.heap == old(queue.heap) || fresh(queue.heap))
        invariant Front(next) && (next != null ==> next in queue.nodes)
        invariant paced ==> OnCourse(was, now) && Recorded(was, fired)
        invariant Budgeted(order, rest, now) && (exact ==> Tracked(fired, all, now, odd))
        invariant forall f :: f in fired ==> f.node in all && f.count <= now
        invariant Kept(was, fired, odd)
        invariant oneShots ==> odd == null && OneShotsDue(now)
        decreases Sum(rest)
      {
        var f;
        f, halted, rest, odd := Turn(next, now, order, rest, fired, all, odd, exact, was, paced);
        fired := fired + [f];
        if halted {
          KeptMeans(was, fired, odd);
          return;
        }
        next := Next();
      }
      KeptMeans(was, fired, odd);
    }

    lemma KeptMeans(was: map<TimerNode, Was>, fired: seq<Firing>, odd: Node?<ScheduledTimer>)
      requires Kept(was, fired, odd)
      ensures forall n :: n in was && (odd == null || n !in NodesOf(fired)) ==> n.data == was[n].timer
    {
    }

    lemma KeptAtFirst()
      ensures Kept(Snapshot(), [], null) && Snapshot().Keys == queue.nodes
    {
    }

    lemma Begin(now: nat)
      ensures Exact() ==> Tracked([], queue.nodes, now, null)
      ensures AllPaced() ==> OnCourse(Snapshot(), now) && Recorded(Snapshot(), [])
    {
      hide Stops, StopKey, FromKey, Paced, FiredAt;
      forall n, x | n in queue.nodes ensures !FiredAt(Snapshot()[n], n.data, true, x) { NotFired(Snapshot()[n], x); }
    }

    /** `timer_handle_interrupt`. Which timers fire, and which due ones are left waiting, is decided by their keys, but for ties. If all
        keys are exact, they stay exact if and only if every due timer is one-shot, and then exactly the due timers fire, in order of
        their counts. In every case the next interrupt asked for lies in the future. */
    method HandleInterrupt(now: nat) returns (fired: seq<Firing>, halted: bool)
      requires Valid()
      modifies this`cmp, this`masked, queue, queue.heap, queue.nodes
      ensures Valid() && queue.nodes <= old(queue.nodes) && (queue.heap == old(queue.heap) || fresh(queue.heap))
      ensures forall f :: f in fired ==> f.node in old(queue.nodes) && f.count <= now
      ensures !halted ==> if queue.nodes == {} then masked else cmp > now && masked == old(masked)
      ensures !halted && queue.nodes != {} ==> exists n :: n in queue.nodes && n.data.count == cmp
      ensures halted ==> now > 0x7fff_ffff
      ensures !halted && old(AllPaced()) ==> AllPaced() && Decided(old(Snapshot()), now) && Recorded(old(Snapshot()), fired)
      ensures forall n :: n in old(queue.nodes) && n !in NodesOf(fired) ==> n.data == old(n.data)
      ensures !halted && old(Exact()) ==> (Exact() <==> old(OneShotsDue(now)))
      ensures old(Exact() && OneShotsDue(now)) ==> !halted && FiredDue(fired, old(queue.nodes), now)
      ensures old(Exact() && OneShotsDue(now)) ==> forall n :: n in old(queue.nodes) ==> n.data == old(n.data)
      ensures old(Exact() && OneShotsDue(now) && Armed()) ==> Armed()
      ensures (old(OneShotsDue(now)) ==> !halted) && (!halted && old(Announced()) ==> Announced())
    {
      hide Prq.Queue.Linked, Prq.Queue.Valid, Tracked, Front, Clean, FiredDue, Exact, Armed, NodesOf, AllPaced, OnCourse, Recorded, Decided;
      hide Announced;
      ArmedMask();
      var next;
      ghost var odd;
      fired, halted, next, odd := Process(now);
      if halted { return; }
      FrontEmpty(next);
      if next == null {
        masked := true;
      } else {
        cmp := next.data.count;
      }
      FrontAnnounced(next);
      if old(AllPaced()) {
        Decide(old(Snapshot()), now, next);
        PacedStill(old(Snapshot()), now);
      }
      if old(Exact()) { Outcome(fired, old(queue.nodes), now, next, odd); }
    }

    lemma PacedStill(was: map<TimerNode, Was>, now: nat)
      requires OnCourse(was, now) && queue.nodes <= was.Keys
      ensures AllPaced()
    {
    }

    /** Without ties, no due timer is left waiting exactly when each makes its last firing before any other timer stops the loop. */
    lemma NoneWaitingWhen(was: map<TimerNode, Was>, now: nat)
      requires Decided(was, now)
      requires forall n, m :: n in was && m in was && n != m && was[n].timer.count <= now && Stops(was[m], now) ==>
        LastKey(was[n], now) != StopKey(was[m], now)
      ensures (forall n :: n in was ==> !Waiting(n, now)) <==> (forall n :: n in was && was[n].timer.count <= now ==> Ahead(was, n, now))
    {
      hide LastKey, StopKey, Stops;
    }

    lemma ArmedMask()
      ensures (Armed() || Announced()) && masked ==> queue.nodes == {}
    {
    }

    lemma FrontAnnounced(next: Node?<ScheduledTimer>)
      requires Front(next)
      ensures (if next == null then masked else !masked && cmp == next.data.count) ==> Announced()
    {
    }

    lemma FrontEmpty(next: Node?<ScheduledTimer>)
      requires Front(next)
      ensures next == null <==> queue.nodes == {}
    {
    }

    lemma Outcome(fired: seq<Firing>, all: set<TimerNode>, now: nat, next: Node?<ScheduledTimer>, odd: Node?<ScheduledTimer>)
      requires Tracked(fired, all, now, odd) && Front(next) && queue.nodes <= all
      requires next != null ==> next in queue.nodes && next.data.count > now
      ensures Exact() <==> odd == null
      ensures odd == null ==> FiredDue(fired, all, now) && forall n :: n in all && n.data.count <= now ==> n.data.period == 0
      ensures odd == null && (if next == null then masked else cmp == next.data.count && !masked) ==> Armed()
    {
    }

    /** Exactly the timers due by `now` have fired, each once, in nondecreasing order, and exactly the others remain. */
    ghost predicate FiredDue(fired: seq<Firing>, all: set<TimerNode>, now: nat)
      reads this`queue, queue, queue.nodes, all
    {
      && (forall n :: n in all ==> (n in queue.nodes <==> n.data.count > now))
      && (forall n :: n in all && n.data.count <= now ==> Firing(n, n.data.count) in fired)
      && (forall f :: f in fired ==> f.node in all && f.count == f.node.data.count <= now)
      && (forall i, j :: 0 <= i < j < |fired| ==> fired[i].node != fired[j].node && fired[i].count <= fired[j].count)
    }

    /** `schedule_timer`. The product of frequency and delay is taken in 32 bits; a count above INT32_MAX halts. */
    method Schedule(now: nat, frequency: nat, delay: nat, periodic: bool, callback: int) returns (handle: Node?<ScheduledTimer>)
      requires Valid() && delay > 0
      modifies this`cmp, this`masked, queue, queue.heap, queue.nodes
      ensures Valid() && (queue.heap == old(queue.heap) || fresh(queue.heap))
      ensures var offset := Offset(frequency, delay);
        var count := CountOf(now, offset);
        if count > INT32_MAX then handle == null && queue.nodes == old(queue.nodes)
        else && handle != null && fresh(handle) && queue.nodes == old(queue.nodes) + {handle}
             && handle.data == ScheduledTimer(count, if periodic then offset else 0, callback)
      ensures if handle == null then TooLate(now, frequency, delay) else DueAfter(now, frequency, delay, periodic, handle.data)
      ensures forall n :: n in old(queue.nodes) ==> n.data == old(n.data)
      ensures (old(Exact()) ==> Exact()) && (old(AllPaced()) ==> AllPaced())
      ensures old(Exact()) && (handle != null || old(Armed())) ==> Armed()
      ensures if handle == null then unchanged(this) && unchanged(queue) && unchanged(queue.nodes) else Announced()
      ensures handle != null ==> handle.priority == handle.data.count && forall n :: n in old(queue.nodes) ==> n.priority == old(n.priority)
    {
      hide Prq.Queue.Linked, Prq.Queue.Valid;
      hide Offset, CountOf, DueAfter, TooLate;
      CountIsDue(now, frequency, delay, periodic, callback);
      var offset := Offset(frequency, delay);
      var count := CountOf(now, offset);
      if count > INT32_MAX { return null; }
      handle := new Node(count, ScheduledTimer(count, if periodic then offset else 0, callback));
      queue.Enqueue(handle);
      var next := queue.Peek();
      cmp := next.data.count;
      masked := false;
    }

    /** `bcm2836_deschedule_timer` */
    method Deschedule(handle: TimerNode)
      requires Valid() && handle in queue.nodes
      modifies this`cmp, this`masked, queue, queue.heap, queue.nodes
      ensures Valid() && queue.nodes == old(queue.nodes) - {handle}
      ensures queue.heap == old(queue.heap) && forall n :: n in old(queue.nodes) ==> n.data == old(n.data) && n.priority == old(n.priority)
      ensures (old(Exact()) ==> Exact()) && (old(AllPaced()) ==> AllPaced())
      ensures old(Exact() && Armed()) ==> Armed()
      ensures old(Announced()) ==> Announced()
    {
      hide Prq.Queue.Linked, Prq.Queue.Valid;
      queue.Remove(handle);
      var next := queue.Peek();
      if next == null {
        masked := true;
      } else {
        cmp := next.data.count;
      }
    }
  }

  /** A periodic timer due every 10 counts and a one-shot due at 15. */
  method TwoTimers() returns (t: Timers, every: TimerNode, once: TimerNode)
    ensures fresh(t) && fresh(t.queue) && fresh(t.queue.heap) && fresh(every) && fresh(once) && t.Valid()
    ensures t.queue.nodes == {every, once} && every != once && t.Exact()
    ensures every.data == ScheduledTimer(10, 10, 1) && once.data == ScheduledTimer(15, 0, 2)
  {
    hide Prq.Queue.Linked, Prq.Queue.Valid, t.Armed;
    t := new Timers();
    var e := t.Schedule(0, 1000, 10, true, 1);
    var o := t.Schedule(0, 1000, 15, false, 2);
    every, once := e, o;
  }

  /** The keys of the two: the periodic timer stops the loop at 10, before the other's turn at 15. */
  lemma TwoKeys()
    ensures var e, o := Was(ScheduledTimer(10, 10, 1), 10), Was(ScheduledTimer(15, 0, 2), 15);
      && Stops(e, 18) && StopKey(e, 18) == 10 && LastKey(e, 18) == 10 && Last(10, 10, 18) == 10 && LastKey(o, 18) == 15 && !Stops(o, 18)
  {
    hide Last;
    TwoLast();
  }

  lemma TwoLast()
    ensures Last(10, 10, 18) == 10
  {
    DivModUnique(18 - 10, 10, 0, 8);
  }

  lemma TwoSnapshot(t: Timers, every: TimerNode, once: TimerNode)
    requires t.queue.nodes == {every, once} && every != once && t.Exact()
    requires every.data == ScheduledTimer(10, 10, 1) && once.data == ScheduledTimer(15, 0, 2)
    ensures t.AllPaced() && t.Snapshot() == map[every := Was(ScheduledTimer(10, 10, 1), 10), once := Was(ScheduledTimer(15, 0, 2), 15)]
  {
  }

  /** An interrupt taken at 18 fires the periodic timer and leaves the other, due since 15, waiting: none is asked for before 20. */
  method DueTimerLeftWaiting() returns (t: Timers, once: TimerNode, fired: seq<Firing>)
    ensures fresh(t) && t.Valid() && t.cmp == 20 && |fired| == 1
    ensures once in t.queue.nodes && once.data == ScheduledTimer(15, 0, 2) && fired[0].node != once
  {
    hide Prq.Queue.Linked, Prq.Queue.Valid, t.Armed, t.FiredDue, t.OneShotsDue, t.Exact;
    hide t.AllPaced, t.Snapshot, t.Decided, t.Recorded, NodesOf;
    var every, halted;
    t, every, once := TwoTimers();
    ghost var was := t.Snapshot();
    TwoSnapshot(t, every, once);
    fired, halted := t.HandleInterrupt(18);
    TwoFired(t, was, every, once, fired);
    NodesOfOne(fired[0]);
  }

  lemma FirstFiring()
    ensures Onward(10, 10, 10)
  {
  }

  lemma SingleFiring(x: int)
    requires Onward(10, 10, x) && x < 20
    ensures x == 10
  {
  }

  lemma OnlyOne(fired: seq<Firing>, f: Firing)
    requires f in fired && (forall i :: 0 <= i < |fired| ==> fired[i] == f) && forall i, j :: 0 <= i < j < |fired| ==> fired[i] != fired[j]
    ensures fired == [f]
  {
    assert fired[0] == fired[|fired| - 1];
  }

  lemma TwoFired(t: Timers, was: map<TimerNode, Was>, every: TimerNode, once: TimerNode, fired: seq<Firing>)
    requires was == map[every := Was(ScheduledTimer(10, 10, 1), 10), once := Was(ScheduledTimer(15, 0, 2), 15)] && every != once
    requires t.Decided(was, 18) && t.Recorded(was, fired)
    ensures t.Waiting(once, 18) && every in t.queue.nodes && every.data.count == 20 && fired == [Firing(every, 10)]
  {
    TwoKeys();
    hide Stops, StopKey, LastKey, Last;
    assert every in was && once in was && Stops(was[every], 18) && StopKey(was[every], 18) < LastKey(was[once], 18);
    assert t.Waiting(once, 18);
    assert Ahead(was, every, 18);
    assert every.data.count == 20 && once in t.queue.nodes;
    FirstFiring();
    var f := Firing(every, 10);
    assert FiredAt(was[every], every.data, every in t.queue.nodes, 10) && f in fired;
    forall i | 0 <= i < |fired| ensures fired[i] == f {
      var g := fired[i];
      assert g in fired;
      if g.node == every { SingleFiring(g.count); }
    }
    OnlyOne(fired, f);
  }
}
