/** The ASID stamps (src/kernel/src/vm/asid_allocator.c). A descriptor is current while nobody else with its ASID has been stamped. */
module Asid {

  class Descriptor {
    const asid: nat
    var iteration: nat

    constructor (asid: nat, iteration: nat)
      ensures this.asid == asid && this.iteration == iteration
    {
      this.asid, this.iteration := asid, iteration;
    }
  }

  /** How often an ASID has been stamped. */
  ghost function Count(log: seq<Descriptor>, asid: nat): nat {
    if log == [] then 0
    else Count(log[..|log| - 1], asid) + if log[|log| - 1].asid == asid then 1 else 0
  }

  /** How often the ASID of d has been stamped since d itself was. */
  ghost function Since(log: seq<Descriptor>, d: Descriptor): nat {
    if log == [] || log[|log| - 1] == d then 0
    else Since(log[..|log| - 1], d) + if log[|log| - 1].asid == d.asid then 1 else 0
  }

  lemma {:induction false} SinceWithin(log: seq<Descriptor>, d: Descriptor)
    ensures Since(log, d) <= Count(log, d.asid)
  {
    if log != [] { SinceWithin(log[..|log| - 1], d); }
  }

  /** The number, among the stamps of its ASID, of the last stamp that d got. */
  ghost function Own(log: seq<Descriptor>, d: Descriptor): nat {
    SinceWithin(log, d);
    Count(log, d.asid) - Since(log, d)
  }

  lemma Stamped(log: seq<Descriptor>, x: Descriptor)
    ensures forall a :: Count(log + [x], a) == Count(log, a) + if x.asid == a then 1 else 0
    ensures forall d: Descriptor :: Own(log + [x], d) == if x == d then Count(log, x.asid) + 1 else Own(log, d)
  {
  }

  /** The value of a uint8_t that has been incremented n times. */
  function Byte(n: nat): nat {
    n % 256
  }

  lemma ByteNext(n: nat)
    ensures Byte(n + 1) == (Byte(n) + 1) % 256 && Byte(n) == n % 256
  {
  }

  lemma ByteSame(count: nat, since: nat)
    requires since <= count
    ensures Byte(count - since) == Byte(count) <==> since % 256 == 0
  {
  }

  /** The descriptor stamped last for an ASID. */
  ghost function LastFor(log: seq<Descriptor>, asid: nat): Descriptor?
  {
    if log == [] then null else if log[|log| - 1].asid == asid then log[|log| - 1] else LastFor(log[..|log| - 1], asid)
  }

  /** No stamp since its own: nobody else holds the latest stamp. */
  lemma {:induction false} NoneSince(log: seq<Descriptor>, d: Descriptor)
    requires d in log
    ensures Since(log, d) == 0 <==> LastFor(log, d.asid) == d
  {
    var n := |log| - 1;
    if log[n].asid != d.asid { NoneSince(log[..n], d); }
  }

  /** Of all descriptors with an ASID at most one has seen no stamp since its own. */
  lemma {:induction false} OneCurrent(log: seq<Descriptor>, d: Descriptor, e: Descriptor)
    requires d in log && e in log && d.asid == e.asid && Since(log, d) == 0 && Since(log, e) == 0
    ensures d == e
  {
    var n := |log| - 1;
    if log[n] != d && log[n] != e {
      OneCurrent(log[..n], d, e);
    }
  }

  class Allocator {
    var curr: nat
    const ids: array<nat>
    var everythingAllocated: bool
    ghost var requests: nat
    /** Who has been stamped, in order. */
    ghost var log: seq<Descriptor>

    ghost predicate Valid()
      reads this, ids, log
    {
      && ids.Length == 256 && curr == Byte(requests) < 256
      && (everythingAllocated <==> requests >= 256)
      && (forall a :: 0 <= a < 256 ==> ids[a] == Byte(Count(log, a)))
      && (forall d :: d in log ==> d.asid < 256 && d.iteration == Byte(Own(log, d)))
    }

    constructor ()
      ensures Valid() && log == [] && requests == 0 && fresh(ids)
    {
      curr, everythingAllocated, requests, log := 0, false, 0, [];
      ids := new nat[256](_ => 0);
    }

    /** `asid_request_descriptor`: the ASIDs are handed out in turn, and the flag says when none is left unused. */
    method Request() returns (d: Descriptor)
      requires Valid()
      modifies this, ids
      ensures Valid() && fresh(d) && requests == old(requests) + 1 && d.asid == old(requests) % 256
      ensures log == old(log) + [d]
    {
      hide Byte, Count, Own;
      d := Stamp(curr);
      ByteNext(requests);
      AllUsed(requests);
      curr := (curr + 1) % 256;
      if d.asid == 255 { everythingAllocated := true; }
      requests := requests + 1;
    }

    method Stamp(asid: nat) returns (d: Descriptor)
      requires Valid() && asid < 256
      modifies this`log, ids
      ensures Valid() && fresh(d) && d.asid == asid && log == old(log) + [d]
    {
      hide Byte, Count, Own;
      ByteNext(Count(log, asid));
      ids[asid] := (ids[asid] + 1) % 256;
      d := new Descriptor(asid, ids[asid]);
      Stamped(log, d);
      log := log + [d];
    }

    /** `asid_check_and_update`: false, no flush needed, exactly when the stamps of the ASID since the descriptor's own number a multiple
        of 256. If true, the descriptor is stamped again. */
    method Check(d: Descriptor) returns (flush: bool)
      requires Valid() && d in log
      modifies this`log, ids, d
      ensures Valid() && (flush <==> Since(old(log), d) % 256 != 0)
      ensures log == if flush then old(log) + [d] else old(log)
    {
      hide Byte, Count, Own;
      Numbers(log, d);
      ByteSame(Count(log, d.asid), Since(log, d));
      if d.iteration != ids[d.asid] {
        ByteNext(Count(log, d.asid));
        Stamped(log, d);
        ids[d.asid] := (ids[d.asid] + 1) % 256;
        d.iteration := ids[d.asid];
        log := log + [d];
        return true;
      }
      return false;
    }
  }

  lemma Numbers(log: seq<Descriptor>, d: Descriptor)
    ensures Since(log, d) <= Count(log, d.asid) && Own(log, d) == Count(log, d.asid) - Since(log, d)
  {
  }

  lemma AllUsed(n: nat)
    ensures n + 1 >= 256 <==> n >= 256 || Byte(n) == 255
  {
  }

  // ---- whole runs ----

  datatype Event = RequestEvent | CheckEvent(who: nat)

  /** What an event did: a descriptor was issued, the one issued as number `who` was checked, or there is none of that number. */
  datatype Answer = Issued(d: Descriptor) | Checked(d: Descriptor, flush: bool) | Ignored

  /** Who was stamped, in order: everyone when issued, and everyone told to flush. */
  ghost function LogOf(answers: seq<Answer>): seq<Descriptor> {
    if answers == [] then [] else LogOf(answers[..|answers| - 1]) + StampedBy(answers[|answers| - 1])
  }

  ghost function StampedBy(a: Answer): seq<Descriptor> {
    if a.Issued? || (a.Checked? && a.flush) then [a.d] else []
  }

  ghost function IssuedBy(answers: seq<Answer>): seq<Descriptor> {
    if answers == [] then []
    else
      var before := IssuedBy(answers[..|answers| - 1]);
      var last := answers[|answers| - 1];
      if last.Issued? then before + [last.d] else before
  }

  /** The answer to an event after `before`. With fewer than 256 stamps since its own, a descriptor is told to flush exactly when
      another one was stamped last. */
  ghost predicate Right(e: Event, before: seq<Answer>, a: Answer) {
    match e
    case RequestEvent => a.Issued? && a.d !in IssuedBy(before) && a.d.asid == |IssuedBy(before)| % 256
    case CheckEvent(who) =>
      if who >= |IssuedBy(before)| then a == Ignored
      else
        && a.Checked? && a.d == IssuedBy(before)[who]
        && (a.flush <==> Since(LogOf(before), a.d) % 256 != 0)
        && (Since(LogOf(before), a.d) < 256 ==> (a.flush <==> LastFor(LogOf(before), a.d.asid) != a.d))
  }

  ghost predicate Answered(events: seq<Event>, answers: seq<Answer>) {
    |answers| <= |events| && forall i :: 0 <= i < |answers| ==> Right(events[i], answers[..i], answers[i])
  }

  /** Any interleaving of requests and checks: every event is answered rightly, and at most one descriptor of an ASID is current. */
  method Run(events: seq<Event>) returns (m: Allocator, answers: seq<Answer>)
    ensures fresh(m) && m.Valid() && m.log == LogOf(answers)
    ensures |answers| == |events| && Answered(events, answers)
    ensures forall d, e :: d in m.log && e in m.log && d.asid == e.asid && Since(m.log, d) == 0 && Since(m.log, e) == 0 ==> d == e
  {
    hide Count, Own, Byte, Right, Answered, LogOf, IssuedBy;
    m := new Allocator();
    var issued: seq<Descriptor> := [];
    answers := [];
    NothingAnswered(events);
    for i := 0 to |events|
      invariant fresh(m) && fresh(m.ids) && m.Valid() && (forall k :: 0 <= k < |issued| ==> issued[k] in m.log && fresh(issued[k]))
      invariant |answers| == i && Answered(events, answers) && m.log == LogOf(answers)
      invariant issued == IssuedBy(answers) && m.requests == |issued|
    {
      var a := Ignored;
      match events[i] {
        case RequestEvent =>
          var d := m.Request();
          a := Issued(d);
          RequestAnswered(answers, a);
          issued := issued + [d];
        case CheckEvent(who) =>
          if who < |issued| {
            var flush := m.Check(issued[who]);
            a := Checked(issued[who], flush);
            CheckAnswered(answers, who, a);
          } else {
            Ignoring(answers, who);
          }
      }
      AnswerMore(events, answers, a);
      answers := answers + [a];
    }
    forall d, e | d in m.log && e in m.log && d.asid == e.asid && Since(m.log, d) == 0 && Since(m.log, e) == 0 ensures d == e {
      OneCurrent(m.log, d, e);
    }
  }

  lemma NothingAnswered(events: seq<Event>)
    ensures Answered(events, []) && LogOf([]) == [] && IssuedBy([]) == []
  {
  }

  lemma LastAnswer(before: seq<Answer>, a: Answer)
    ensures LogOf(before + [a]) == LogOf(before) + StampedBy(a)
    ensures IssuedBy(before + [a]) == if a.Issued? then IssuedBy(before) + [a.d] else IssuedBy(before)
  {
    assert (before + [a])[..|before|] == before;
  }

  lemma RequestAnswered(before: seq<Answer>, a: Answer)
    requires a.Issued? && a.d !in IssuedBy(before) && a.d.asid == |IssuedBy(before)| % 256
    ensures Right(RequestEvent, before, a)
  {
  }

  lemma CheckAnswered(before: seq<Answer>, who: nat, a: Answer)
    requires who < |IssuedBy(before)| && a.Checked? && a.d == IssuedBy(before)[who] && a.d in LogOf(before)
    requires a.flush <==> Since(LogOf(before), a.d) % 256 != 0
    ensures Right(CheckEvent(who), before, a)
  {
    hide Since, LastFor, LogOf, IssuedBy;
    var since := Since(LogOf(before), a.d);
    NoneSince(LogOf(before), a.d);
    Remainder(since);
  }

  lemma Remainder(n: nat)
    ensures n < 256 ==> n % 256 == n
  {
  }

  lemma Ignoring(before: seq<Answer>, who: nat)
    requires who >= |IssuedBy(before)|
    ensures Right(CheckEvent(who), before, Ignored)
  {
  }

  lemma AnswerMore(events: seq<Event>, answers: seq<Answer>, a: Answer)
    requires Answered(events, answers) && |answers| < |events| && Right(events[|answers|], answers, a)
    ensures Answered(events, answers + [a])
    ensures LogOf(answers + [a]) == LogOf(answers) + StampedBy(a)
    ensures IssuedBy(answers + [a]) == if a.Issued? then IssuedBy(answers) + [a.d] else IssuedBy(answers)
  {
    LastAnswer(answers, a);
    hide Right, LogOf, IssuedBy;
    var more := answers + [a];
    forall i | 0 <= i < |more| ensures Right(events[i], more[..i], more[i]) {
      assert more[..i] == answers[..i];
      if i == |answers| { assert answers[..i] == answers; }
    }
  }

  /** After 65536 further requests the ASID of the first descriptor has been stamped 256 more times, and the check does not notice. */
  method WrapsUnnoticed() returns (d: Descriptor, flush: bool, ghost log: seq<Descriptor>)
    ensures !flush && d in log && Since(log, d) == 256 && LastFor(log, d.asid) != d
  {
    hide Count, Own, Byte;
    var m := new Allocator();
    d := m.Request();
    assert d in m.log;
    OnlyOwn(m.log, d);
    for i := 0 to 65536
      invariant fresh(m) && fresh(m.ids) && m.Valid() && m.requests == i + 1 && d in m.log && d.asid == 0 && fresh(d)
      invariant Since(m.log, d) == i / 256
    {
      ghost var before := m.log;
      var e := m.Request();
      assert m.log[..|before|] == before;
    }
    log := m.log;
    NoneSince(log, d);
    flush := m.Check(d);
  }

  lemma OnlyOwn(log: seq<Descriptor>, d: Descriptor)
    requires log == [d]
    ensures Since(log, d) == 0
  {
  }
}
