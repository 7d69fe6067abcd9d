/** The lock-free hand-off from a radio callback to one async task: a bounded queue and a single-slot
    waker, as interleaved atomic steps of a producer and a consumer.

    Two producers share the protocol. The ESP-NOW pool drops the new frame when full and wakes in
    any case. CSI delivery wakes after a successful enqueue; when full it counts the overflow and,
    under drop-oldest, discards the oldest frame and tries again. */
module Handoff {
  import opened Bytes

  datatype Config = Config(capacity: nat, pool: bool)

  /** A frame is known by the run it belongs to and its stream number in that run. */
  datatype Tag = Tag(run: nat, seqNo: nat)

  predicate Before(a: Tag, b: Tag) { a.run < b.run || (a.run == b.run && a.seqNo < b.seqNo) }

  /** The producer is between frames, about to wake, about to discard the oldest frame, or about to
      try its own again. */
  datatype Producer =
    | Waiting
    | Waking
    | Discarding(tag: Tag)
    | Retrying(tag: Tag)

  /** The consumer is in user code, about to look at the queue, about to register its waker, about to
      look again, or parked. */
  datatype Consumer = Busy | Looking | Registering | Rechecking | Parked

  datatype State = State(
    queue: seq<Tag>, producer: Producer, consumer: Consumer,
    registered: bool, scheduled: bool,
    run: nat, next: nat,
    received: seq<Tag>,
    offered: nat, lost: nat, overflows: nat, emptyDiscards: nat, takenInRetry: nat)

  datatype Step =
    | BeginRun
    | Offer(dropOldest: bool)
    | Wake(keepsWaker: bool)
    | Discard
    | Retry
    | Await
    | Look
    | Register
    | Recheck
    | Resume
    | Abandon

  /** What is to run when the node starts: nothing queued, nobody waiting. */
  const START: State :=
    State([], Waiting, Busy, false, false, 0, 0, [], 0, 0, 0, 0, 0)

  // ----- the steps; one that is not enabled changes nothing -----

  function Offered(c: Config, s: State, dropOldest: bool): State {
    var x := Tag(s.run, s.next);
    var t := s.(next := s.next + 1, offered := s.offered + 1);
    if |s.queue| < c.capacity then t.(queue := s.queue + [x], producer := Waking)
    else if c.pool then t.(lost := s.lost + 1, producer := Waking)
    else
      var u := t.(overflows := s.overflows + 1, takenInRetry := 0);
      if dropOldest then u.(producer := Discarding(x)) else u.(lost := s.lost + 1)
  }

  function Discarded(s: State): State
    requires s.producer.Discarding?
  {
    var t := s.(producer := Retrying(s.producer.tag));
    if s.queue == [] then t.(emptyDiscards := s.emptyDiscards + 1)
    else t.(queue := s.queue[1..], lost := s.lost + 1)
  }

  function Retried(c: Config, s: State): State
    requires s.producer.Retrying?
  {
    if |s.queue| < c.capacity then
      s.(queue := s.queue + [s.producer.tag], producer := Waking)
    else s.(producer := Waiting, lost := s.lost + 1)
  }

  /** Take the oldest frame if there is one, else go on to `otherwise`. */
  function TakeOr(s: State, otherwise: Consumer): State {
    if s.queue == [] then s.(consumer := otherwise)
    else s.(queue := s.queue[1..], received := s.received + [s.queue[0]], consumer := Busy,
            takenInRetry := s.takenInRetry + 1)
  }

  function Apply(c: Config, s: State, step: Step): State {
    match step
    case BeginRun =>
      // The stream counter restarts; the queue keeps whatever the last run left in it.
      if s.producer == Waiting then s.(run := s.run + 1, next := 0) else s
    case Offer(dropOldest) =>
      if s.producer == Waiting then Offered(c, s, dropOldest) else s
    case Wake(keepsWaker) =>
      if s.producer == Waking then
        s.(producer := Waiting, scheduled := s.scheduled || s.registered,
           registered := s.registered && keepsWaker)
      else s
    case Discard => if s.producer.Discarding? then Discarded(s) else s
    case Retry => if s.producer.Retrying? then Retried(c, s) else s
    case Await => if s.consumer == Busy then s.(consumer := Looking) else s
    case Look => if s.consumer == Looking then TakeOr(s, Registering) else s
    case Register =>
      if s.consumer == Registering then s.(registered := true, consumer := Rechecking) else s
    case Recheck => if s.consumer == Rechecking then TakeOr(s, Parked) else s
    case Resume =>
      // The executor polls a parked task that was scheduled.
      if s.consumer == Parked && s.scheduled then s.(scheduled := false, consumer := Looking) else s
    case Abandon =>
      // The future is dropped, as when a `select` picks its other branch.
      if s.consumer == Parked then s.(consumer := Busy) else s
  }

  function Run(c: Config, steps: seq<Step>): State {
    if steps == [] then START
    else Apply(c, Run(c, steps[..|steps| - 1]), steps[|steps| - 1])
  }

  // ----- no lost wake-up -----

  /** A consumer that is parked and not scheduled has nothing to take, unless the producer is about
      to wake it. */
  predicate NoLostWakeUp(s: State) {
    s.consumer == Parked && !s.scheduled ==> s.queue == [] || s.producer == Waking
  }

  predicate WakeInv(s: State) {
    && NoLostWakeUp(s)
    && (s.consumer == Rechecking || s.consumer == Parked ==> s.registered || s.scheduled)
  }

  lemma RunSnoc(c: Config, steps: seq<Step>, step: Step)
    ensures Run(c, steps + [step]) == Apply(c, Run(c, steps), step)
  {
  }

  lemma WakeStep(c: Config, s: State, step: Step)
    requires c.capacity > 0 && WakeInv(s)
    ensures WakeInv(Apply(c, s, step))
  {
  }

  /** No wake-up is lost, in any interleaving, under either overflow policy and for both producers. */
  lemma {:induction false} EveryRunWakes(c: Config, steps: seq<Step>)
    requires c.capacity > 0
    ensures WakeInv(Run(c, steps))
  {
    if steps != [] {
      EveryRunWakes(c, steps[..|steps| - 1]);
      WakeStep(c, Run(c, steps[..|steps| - 1]), steps[|steps| - 1]);
    }
  }

  /** The re-check is what makes it so: a consumer that parked straight after registering could
      sleep on a frame already queued and already announced. */
  lemma RecheckIsNeeded(c: Config)
    requires c.capacity > 0
    ensures exists steps :: var s := Run(c, steps);
              s.consumer == Rechecking && !NoLostWakeUp(s.(consumer := Parked))
  {
    RunSnoc(c, [], Await);
    var steps := Extend(c, [] + [Await], [Look, Offer(false), Wake(true), Register]);
    var s := Run(c, steps);
    assert s.consumer == Rechecking && s.queue != [] && !s.scheduled;
    assert !NoLostWakeUp(s.(consumer := Parked));
  }

  // ----- order -----

  predicate Sorted(ts: seq<Tag>) {
    forall i, j | 0 <= i < j < |ts| :: Before(ts[i], ts[j])
  }

  /** The frame the producer holds, if any. */
  function InHand(p: Producer): seq<Tag> {
    match p case Discarding(t) => [t] case Retrying(t) => [t] case _ => []
  }

  /** Everything received, queued and in hand, oldest first. */
  function Line(s: State): seq<Tag> { s.received + s.queue + InHand(s.producer) }

  predicate OrderInv(s: State) {
    Sorted(Line(s)) && forall t | t in Line(s) :: Before(t, Tag(s.run, s.next))
  }

  lemma SortedDrop(a: seq<Tag>, b: seq<Tag>, x: Tag)
    requires Sorted(a + [x] + b)
    ensures Sorted(a + b)
  {
    var s, t := a + [x] + b, a + b;
    assert forall i | 0 <= i < |a| :: t[i] == s[i];
    assert forall i | |a| <= i < |t| :: t[i] == s[i + 1];
  }

  lemma SortedSnoc(a: seq<Tag>, x: Tag)
    requires Sorted(a) && forall t | t in a :: Before(t, x)
    ensures Sorted(a + [x])
  {
  }

  /** A step leaves the line as it is, appends the frame just numbered, or removes one frame. */
  datatype Change = Same | Appended | Removed(a: seq<Tag>, x: Tag, b: seq<Tag>)

  predicate Changes(s: State, t: State, how: Change) {
    match how
    case Same => Line(t) == Line(s) && NotEarlier(s, t)
    case Appended => Line(t) == Line(s) + [Tag(s.run, s.next)] && t.run == s.run && t.next == s.next + 1
    case Removed(a, x, b) => Line(s) == a + [x] + b && Line(t) == a + b && NotEarlier(s, t)
  }

  /** The numbering only moves on. */
  predicate NotEarlier(s: State, t: State) {
    t.run > s.run || (t.run == s.run && t.next >= s.next)
  }

  lemma OfferChanges(c: Config, s: State, dropOldest: bool) returns (how: Change)
    requires s.producer == Waiting
    ensures Changes(s, Offered(c, s, dropOldest), how)
  {
    var t, x := Offered(c, s, dropOldest), Tag(s.run, s.next);
    how := if Line(t) == Line(s) then Same else Appended;
    assert s.received + (s.queue + [x]) + [] == Line(s) + [x];
    assert s.received + s.queue + [x] == Line(s) + [x];
  }

  lemma DiscardChanges(s: State) returns (how: Change)
    requires s.producer.Discarding?
    ensures Changes(s, Discarded(s), how)
  {
    if s.queue == [] {
      how := Same;
    } else {
      var rest := s.queue[1..] + InHand(s.producer);
      how := Removed(s.received, s.queue[0], rest);
      assert Line(s) == s.received + [s.queue[0]] + rest;
      assert Line(Discarded(s)) == s.received + rest;
    }
  }

  lemma RetryChanges(c: Config, s: State) returns (how: Change)
    requires s.producer.Retrying?
    ensures Changes(s, Retried(c, s), how)
  {
    var held := s.received + s.queue;
    if |s.queue| < c.capacity {
      how := Same;
      assert Line(Retried(c, s)) == held + [s.producer.tag];
    } else {
      how := Removed(held, s.producer.tag, []);
      assert Line(s) == held + [s.producer.tag] + [];
      assert Line(Retried(c, s)) == held + [];
    }
  }

  lemma TakeChanges(s: State, otherwise: Consumer)
    ensures Changes(s, TakeOr(s, otherwise), Same)
  {
  }

  lemma StepChanges(c: Config, s: State, step: Step) returns (how: Change)
    ensures Changes(s, Apply(c, s, step), how)
  {
    how := Same;
    match step {
      case Offer(drop) => if s.producer == Waiting { how := OfferChanges(c, s, drop); }
      case Discard => if s.producer.Discarding? { how := DiscardChanges(s); }
      case Retry => if s.producer.Retrying? { how := RetryChanges(c, s); }
      case Look => TakeChanges(s, Registering);
      case Recheck => TakeChanges(s, Parked);
      case _ =>
    }
  }

  lemma OrderStep(c: Config, s: State, step: Step)
    requires OrderInv(s)
    ensures OrderInv(Apply(c, s, step))
  {
    var how := StepChanges(c, s, step);
    hide Line;
    hide Apply;
    match how
    case Same =>
    case Appended => SortedSnoc(Line(s), Tag(s.run, s.next));
    case Removed(a, x, b) =>
      SortedDrop(a, b, x);
      assert forall y | y in a + b :: y in a + [x] + b;
  }

  /** The consumer sees every frame at most once and in order: stream numbers strictly increase
      within a run, and no frame of a run comes after one of a later run. */
  lemma {:induction false} ReceivedInOrder(c: Config, steps: seq<Step>)
    ensures OrderInv(Run(c, steps)) && Sorted(Run(c, steps).received)
  {
    if steps != [] {
      ReceivedInOrder(c, steps[..|steps| - 1]);
      OrderStep(c, Run(c, steps[..|steps| - 1]), steps[|steps| - 1]);
    }
    var s := Run(c, steps);
    assert forall i | 0 <= i < |s.received| :: Line(s)[i] == s.received[i];
  }

  /** Stream numbers alone do not order what is received: each run starts them again. */
  lemma NumbersRestart(c: Config)
    requires c.capacity > 0
    ensures exists steps, i, j :: var r := Run(c, steps).received;
              0 <= i < j < |r| && r[i].seqNo > r[j].seqNo
  {
    var steps := Extend(c, [], [Offer(false), Wake(true), Await, Look]);
    FirstIsReceived(c);
    var more := Extend(c, steps, [Offer(false), Wake(true), BeginRun, Await]);
    SecondIsLeft(c, Run(c, steps));
    hide Apply;
    OldThenNew(c, more);
  }

  lemma FirstIsReceived(c: Config)
    requires c.capacity > 0
    ensures var s := Apply(c, Apply(c, Apply(c, Apply(c, START, Offer(false)), Wake(true)), Await), Look);
            && s.queue == [] && s.received == [Tag(0, 0)] && s.producer == Waiting && s.consumer == Busy
            && s.run == 0 && s.next == 1
  {
  }

  lemma SecondIsLeft(c: Config, s: State)
    requires c.capacity > 0 && s.queue == [] && s.producer == Waiting && s.consumer == Busy
    ensures var t := Apply(c, Apply(c, Apply(c, Apply(c, s, Offer(false)), Wake(true)), BeginRun), Await);
            && t.queue == [Tag(s.run, s.next)] && t.received == s.received && t.producer == Waiting
            && t.consumer == Looking && t.run == s.run + 1 && t.next == 0
  {
  }

  /** With an old frame left, the consumer receives it and then the first of the new run. */
  lemma OldThenNew(c: Config, steps: seq<Step>)
    requires c.capacity > 0
    requires var s := Run(c, steps);
             && s.queue == [Tag(0, 1)] && s.received == [Tag(0, 0)] && s.producer == Waiting
             && s.consumer == Looking && s.run == 1 && s.next == 0
    ensures exists steps, i, j :: var r := Run(c, steps).received;
              0 <= i < j < |r| && r[i].seqNo > r[j].seqNo
  {
    var more := Extend(c, steps, [Look, Offer(false), Wake(true), Await]);
    assert Run(c, more).queue == [Tag(1, 0)];
    RunSnoc(c, more, Look);
    var r := Run(c, more + [Look]).received;
    assert r == [Tag(0, 0), Tag(0, 1), Tag(1, 0)];
    assert r[1].seqNo > r[2].seqNo;
  }

  // ----- stale frames -----

  function Onward(c: Config, s: State, steps: seq<Step>): State
    decreases |steps|
  {
    if steps == [] then s else Onward(c, Apply(c, s, steps[0]), steps[1..])
  }

  /** Received since `s`, in the later state `t`, and numbered in a run before the one `s` is in. */
  predicate ReceivesStale(s: State, t: State) {
    exists j :: |s.received| <= j < |t.received| && t.received[j].run < s.run
  }

  /** Nothing of a run before `run` is left to be received, nor was received from place `from` on. */
  predicate FreshSince(s: State, run: nat, from: nat) {
    && s.run >= run && from <= |s.received|
    && (forall t | t in s.queue + InHand(s.producer) :: t.run >= run)
    && forall j | from <= j < |s.received| :: s.received[j].run >= run
  }

  lemma FreshStep(c: Config, s: State, step: Step, run: nat, from: nat)
    requires FreshSince(s, run, from)
    ensures FreshSince(Apply(c, s, step), run, from)
  {
    match step
    case Offer(drop) => if s.producer == Waiting { FreshOffered(c, s, drop, run, from); }
    case Discard => if s.producer.Discarding? { FreshDiscarded(s, run, from); }
    case Retry => if s.producer.Retrying? { FreshRetried(c, s, run, from); }
    case Look => FreshTaken(s, Registering, run, from);
    case Recheck => FreshTaken(s, Parked, run, from);
    case _ =>
  }

  lemma FreshOffered(c: Config, s: State, dropOldest: bool, run: nat, from: nat)
    requires FreshSince(s, run, from) && s.producer == Waiting
    ensures FreshSince(Offered(c, s, dropOldest), run, from)
  {
  }

  lemma FreshDiscarded(s: State, run: nat, from: nat)
    requires FreshSince(s, run, from) && s.producer.Discarding?
    ensures FreshSince(Discarded(s), run, from)
  {
  }

  lemma FreshRetried(c: Config, s: State, run: nat, from: nat)
    requires FreshSince(s, run, from) && s.producer.Retrying?
    ensures FreshSince(Retried(c, s), run, from)
  {
  }

  lemma FreshTaken(s: State, otherwise: Consumer, run: nat, from: nat)
    requires FreshSince(s, run, from)
    ensures FreshSince(TakeOr(s, otherwise), run, from)
  {
  }

  lemma {:induction false} FreshRun(c: Config, s: State, steps: seq<Step>, run: nat, from: nat)
    requires FreshSince(s, run, from)
    ensures FreshSince(Onward(c, s, steps), run, from)
    decreases |steps|
  {
    hide Apply;
    hide FreshSince;
    if steps != [] {
      FreshStep(c, s, steps[0], run, from);
      FreshRun(c, Apply(c, s, steps[0]), steps[1..], run, from);
    }
  }

  /** The consumer's own steps to its next look at a queue that holds something. */
  function WayToTheQueue(consumer: Consumer): seq<Step> {
    match consumer
    case Busy => [Await, Look]
    case Looking => [Look]
    case Registering => [Register, Recheck]
    case Rechecking => [Recheck]
    case Parked => [Abandon, Await, Look]
  }

  lemma TakesTheOldest(c: Config, s: State)
    requires s.queue != []
    ensures Onward(c, s, WayToTheQueue(s.consumer)).received == s.received + [s.queue[0]]
  {
    var way := WayToTheQueue(s.consumer);
    var s1 := Apply(c, s, way[0]);
    assert Onward(c, s, way) == Onward(c, s1, way[1..]);
    if |way| > 1 {
      var s2 := Apply(c, s1, way[1]);
      assert Onward(c, s1, way[1..]) == Onward(c, s2, way[1..][1..]) && way[1..][1..] == way[2..];
      if |way| > 2 {
        assert Onward(c, s2, way[2..]) == Onward(c, Apply(c, s2, way[2]), way[2..][1..]);
      }
    }
  }

  /** A run's consumer can be handed a frame of an earlier run exactly if the queue held something when
      the run began: nothing clears it in between. */
  lemma StaleFramesIff(c: Config, steps: seq<Step>)
    requires c.capacity > 0 && Run(c, steps).producer == Waiting
    ensures var s := Apply(c, Run(c, steps), BeginRun);
            (exists more :: ReceivesStale(s, Onward(c, s, more))) <==> Run(c, steps).queue != []
  {
    var was := Run(c, steps);
    var s := Apply(c, was, BeginRun);
    if was.queue == [] {
      assert FreshSince(s, s.run, |s.received|);
      forall more ensures !ReceivesStale(s, Onward(c, s, more)) {
        FreshRun(c, s, more, s.run, |s.received|);
      }
    } else {
      ReceivedInOrder(c, steps);
      assert Line(was)[|was.received|] == was.queue[0];
      assert was.queue[0] in Line(was);
      TakesTheOldest(c, s);
      var t := Onward(c, s, WayToTheQueue(s.consumer));
      assert t.received[|s.received|].run < s.run;
      assert ReceivesStale(s, t);
    }
  }

  /** Four more steps. */
  lemma Extend(c: Config, steps: seq<Step>, more: seq<Step>) returns (all: seq<Step>)
    requires |more| == 4
    ensures Run(c, all) ==
            Apply(c, Apply(c, Apply(c, Apply(c, Run(c, steps), more[0]), more[1]), more[2]), more[3])
  {
    RunSnoc(c, steps, more[0]);
    RunSnoc(c, steps + [more[0]], more[1]);
    RunSnoc(c, steps + [more[0]] + [more[1]], more[2]);
    RunSnoc(c, steps + [more[0]] + [more[1]] + [more[2]], more[3]);
    all := steps + [more[0]] + [more[1]] + [more[2]] + [more[3]];
  }

  // ----- counting what is dropped -----

  predicate CountInv(c: Config, s: State) {
    && |s.queue| <= c.capacity
    && s.offered == |s.received| + |s.queue| + |InHand(s.producer)| + s.lost
    && (s.producer.Discarding? ==> |s.queue| + s.takenInRetry == c.capacity)
    && (s.producer.Retrying? ==> |s.queue| < c.capacity)
    && (if c.pool then s.overflows == 0 && InHand(s.producer) == []
        else s.overflows == s.lost + s.emptyDiscards + if s.producer.Discarding? then 1 else 0)
  }

  lemma CountStep(c: Config, s: State, step: Step)
    requires c.capacity > 0 && CountInv(c, s)
    ensures CountInv(c, Apply(c, s, step))
  {
  }

  /** Every frame offered is received, queued, in hand or lost. For CSI delivery the queue-full
      count is the true number of drops, plus one for each overflow in which the consumer emptied
      the queue before the producer came to discard from it: the retry itself never fails. */
  lemma {:induction false} DropsAreCounted(c: Config, steps: seq<Step>)
    requires c.capacity > 0
    ensures CountInv(c, Run(c, steps))
  {
    if steps != [] {
      DropsAreCounted(c, steps[..|steps| - 1]);
      CountStep(c, Run(c, steps[..|steps| - 1]), steps[|steps| - 1]);
    }
  }

  /** An overflow is over-counted exactly when the consumer took every queued frame inside it; so
      when the consumer takes no step inside an overflow, the count is exact. */
  lemma OverCountedIff(c: Config, steps: seq<Step>)
    requires c.capacity > 0 && Run(c, steps).producer.Discarding?
    ensures var s := Run(c, steps);
            Apply(c, s, Discard).emptyDiscards == s.emptyDiscards + 1 <==>
            s.takenInRetry == c.capacity
  {
    DropsAreCounted(c, steps);
  }

  /** Over-counting does happen under drop-oldest, whatever the capacity. */
  lemma {:induction false} FillQueue(c: Config, n: nat) returns (steps: seq<Step>)
    requires n <= c.capacity
    ensures var s := Run(c, steps);
            |s.queue| == n && s.producer == Waiting && s.consumer == Busy && s.lost == 0 &&
            s.overflows == 0 && s.emptyDiscards == 0 && s.received == []
  {
    steps := [];
    var i := 0;
    while i < n
      invariant i <= n
      invariant var s := Run(c, steps);
        |s.queue| == i && s.producer == Waiting && s.consumer == Busy && s.lost == 0 &&
        s.overflows == 0 && s.emptyDiscards == 0 && s.received == []
    {
      RunSnoc(c, steps, Offer(true));
      RunSnoc(c, steps + [Offer(true)], Wake(true));
      steps := steps + [Offer(true)] + [Wake(true)];
      i := i + 1;
    }
  }

  lemma OverCountHappens(c: Config)
    requires c.capacity > 0 && !c.pool
    ensures exists steps :: Run(c, steps).overflows == 1 && Run(c, steps).lost == 0
                            && Run(c, steps).producer == Waking
  {
    var steps := FillQueue(c, c.capacity);
    RunSnoc(c, steps, Offer(true));
    steps := steps + [Offer(true)];
    var n := c.capacity;
    while n > 0
      invariant var s := Run(c, steps);
        |s.queue| == n && s.producer.Discarding? && s.consumer == Busy && s.lost == 0 &&
        s.overflows == 1 && s.emptyDiscards == 0
    {
      RunSnoc(c, steps, Await);
      RunSnoc(c, steps + [Await], Look);
      steps := steps + [Await] + [Look];
      n := n - 1;
    }
    RunSnoc(c, steps, Discard);
    RunSnoc(c, steps + [Discard], Retry);
    assert Run(c, steps + [Discard] + [Retry]).overflows == 1;
  }

  // ----- delivery without interference -----

  /** A queue after one delivery the consumer takes no part in, and whether it overflowed. */
  function Uninterrupted<T>(queue: seq<T>, x: T, capacity: nat, dropOldest: bool): (seq<T>, bool) {
    if |queue| < capacity then (queue + [x], false)
    else if dropOldest && queue != [] then (queue[1..] + [x], true)
    else (queue, true)
  }

  /** The producer's steps, taken together, are that delivery; each overflow loses one frame and
      counts one. */
  lemma UninterruptedDelivery(c: Config, s: State, dropOldest: bool)
    requires !c.pool && c.capacity > 0 && s.producer == Waiting && |s.queue| <= c.capacity
    ensures var t := Apply(c, Apply(c, Apply(c, Apply(c, s, Offer(dropOldest)), Discard), Retry), Wake(true));
            var (queue, overflow) := Uninterrupted(s.queue, Tag(s.run, s.next), c.capacity, dropOldest);
            && t.producer == Waiting && t.queue == queue && t.received == s.received
            && t.overflows - s.overflows == t.lost - s.lost == if overflow then 1 else 0
  {
  }

  /** The queue after a run of such deliveries with nothing taken, and how many overflowed. */
  function Backlog<T>(queue: seq<T>, xs: seq<T>, capacity: nat, dropOldest: bool): (seq<T>, nat) {
    if xs == [] then (queue, 0)
    else
      var (before, n) := Backlog(queue, xs[..|xs| - 1], capacity, dropOldest);
      var (after, overflow) := Uninterrupted(before, xs[|xs| - 1], capacity, dropOldest);
      (after, n + if overflow then 1 else 0)
  }

  /** Drop-oldest keeps the last frames that fit, in order, the other policy the first ones; what does not fit
      is counted. */
  lemma {:induction false} BacklogIs<T>(queue: seq<T>, xs: seq<T>, capacity: nat, dropOldest: bool)
    requires 0 < capacity && |queue| <= capacity
    ensures var all, (after, overflows) := queue + xs, Backlog(queue, xs, capacity, dropOldest);
            if |all| <= capacity then after == all && overflows == 0
            else
              && after == (if dropOldest then all[|all| - capacity..] else all[..capacity])
              && overflows == |all| - capacity
  {
    if xs == [] {
      assert queue + xs == queue;
    } else {
      var init, x := xs[..|xs| - 1], xs[|xs| - 1];
      assert queue + xs == queue + init + [x];
      BacklogIs(queue, init, capacity, dropOldest);
    }
  }
}
