/** The ping floods: a loop that keeps a rate over a bounded send buffer, and its burst form that
    serves every target on each tick. The clock and the send buffer answer as they please. */
module Flood {
  import opened Arith
  import opened Bytes

  const CATCH_UP_BURST: nat := 16
  const U64_MAX: u64 := 0xFFFF_FFFF_FFFF_FFFF

  /** Microseconds between datagrams. */
  function Interval(frequencyHz: Option<u16>): (r: nat)
    ensures 15 <= r <= 1_000_000
  {
    match frequencyHz
    case None => 10_000
    case Some(hz) =>
      var target := if hz == 0 then 1 else hz;
      DivBelow(1_000_000, target, 15);
      DivBelow(1_000_000, target, 1_000_001);
      1_000_000 / target
  }

  /** The rate asked for, as a period rounded down: 100 Hz by default, and at least 1 Hz. */
  lemma IntervalIs(hz: u16)
    ensures Interval(None) * 100 == 1_000_000 && Interval(Some(0)) == 1_000_000
    ensures hz > 0 ==> Interval(Some(hz)) * hz <= 1_000_000 < (Interval(Some(hz)) + 1) * hz
  {
    if hz > 0 { DivBounds(1_000_000, hz); }
  }

  function SatAdd(x: u64, y: u64): u64 { if x + y > U64_MAX then U64_MAX else x + y }
  function SatSub(x: u64, y: u64): u64 { if x < y then 0 else x - y }

  /** The send buffer took a datagram, and the clock read this afterwards; or it was full. */
  datatype Answer = Taken(now: u64) | Full

  /** One wake of the loop: the clock at its start, and the answers to what it tries to send. When the
      answers run out, the loop has not got further yet. */
  datatype Wake = Wake(now: u64, answers: seq<Answer>)

  /** What the loop has done: its next deadline, and the clock readings it sent on. */
  datatype Paced = Paced(next: u64, sent: seq<u64>)

  /** A burst's worth of ticks. */
  function MaxDebt(interval: nat): nat { 16 * interval }

  /** The backlog a stall leaves is at most one burst. */
  function Clamped(interval: u64, next: u64, now: u64): (r: u64)
    requires interval <= 1_000_000
    ensures r >= next && r >= now - MaxDebt(interval)
    ensures r > next ==> r <= now
  {
    var floor := SatSub(now, MaxDebt(interval));
    if next < floor then floor else next
  }

  function Sending(interval: u64, budget: nat, next: u64, now: u64, answers: seq<Answer>): Paced
    decreases budget
  {
    if now < next || budget == 0 || answers == [] || answers[0].Full? then Paced(next, [])
    else
      var p := Sending(interval, budget - 1, SatAdd(next, interval), answers[0].now, answers[1..]);
      Paced(p.next, [now] + p.sent)
  }

  function Woken(interval: u64, next: u64, w: Wake): Paced
    requires interval <= 1_000_000
  {
    Sending(interval, CATCH_UP_BURST, Clamped(interval, next, w.now), w.now, w.answers)
  }

  /** A sequence number after `n` more attempts. */
  function Later(seqNo: u16, n: nat): u16 { (seqNo + n) % 0x1_0000 }

  lemma LaterSucc(seqNo: u16, n: nat)
    ensures Later(seqNo, 0) == seqNo
    ensures Later(seqNo, n + 1) == if Later(seqNo, n) == 0xFFFF then 0 else Later(seqNo, n) + 1
  {
    ModSucc(seqNo + n, 0x1_0000);
  }

  class Flooder {
    const interval: u64
    var nextTx: u64
    var seqCounter: u16

    predicate Valid() { interval <= 1_000_000 }

    constructor (frequencyHz: Option<u16>, now: u64)
      ensures Valid() && interval == Interval(frequencyHz)
      ensures nextTx == SatAdd(now, interval) && seqCounter == 0
    {
      interval := Interval(frequencyHz);
      nextTx := SatAdd(now, Interval(frequencyHz));
      seqCounter := 0;
    }

    /** One pass of the flood loop. Every attempt uses up a sequence number, a refused one too. */
    method Pass(now: u64, answers: seq<Answer>) returns (enqueued: nat, blocked: bool, ghost log: seq<u64>)
      requires Valid()
      modifies this
      ensures Woken(interval, old(nextTx), Wake(now, answers)) == Paced(nextTx, log)
      ensures enqueued == |log| <= CATCH_UP_BURST
      ensures seqCounter == Later(old(seqCounter), enqueued + if blocked then 1 else 0)
      ensures blocked ==> enqueued < |answers| && answers[enqueued].Full?
    {
      WokenIsSending(interval, nextTx, now, answers);
      hide *;
      var floor := SatSub(now, MaxDebt(interval));
      if nextTx < floor { nextTx := floor; }
      enqueued, blocked, log := Send(now, answers);
    }

    /** The inner loop: send while a datagram is due and the burst lasts. */
    method Send(now: u64, answers: seq<Answer>) returns (enqueued: nat, blocked: bool, ghost log: seq<u64>)
      modifies this
      ensures Sending(interval, CATCH_UP_BURST, old(nextTx), now, answers) == Paced(nextTx, log)
      ensures enqueued == |log| <= CATCH_UP_BURST
      ensures seqCounter == Later(old(seqCounter), enqueued + if blocked then 1 else 0)
      ensures blocked ==> enqueued < |answers| && answers[enqueued].Full?
    {
      hide *;
      LaterSucc(seqCounter, 0);
      var now: u64 := now;
      var budget: nat := CATCH_UP_BURST;
      enqueued, blocked, log := 0, false, [];
      ghost var result := Sending(interval, budget, nextTx, now, answers);
      OnwardFromHere(result);
      assert answers[0..] == answers;
      while now >= nextTx && budget > 0 && enqueued < |answers|
        invariant enqueued == |log| <= |answers| && enqueued + budget == CATCH_UP_BURST
        invariant seqCounter == Later(old(seqCounter), enqueued)
        invariant result == Onward(log, Sending(interval, budget, nextTx, now, answers[enqueued..]))
        decreases budget
      {
        SendingOn(log, interval, budget, nextTx, now, answers[enqueued..]);
        LaterSucc(old(seqCounter), enqueued);
        budget := budget - 1;
        seqCounter := if seqCounter == 0xFFFF then 0 else seqCounter + 1;
        if answers[enqueued].Full? {
          OnwardStops(log, nextTx);
          blocked := true;
          return;
        }
        assert answers[enqueued..][1..] == answers[enqueued + 1..];
        log := log + [now];
        now := answers[enqueued].now;
        enqueued := enqueued + 1;
        nextTx := SatAdd(nextTx, interval);
      }
      SendingStops(interval, budget, nextTx, now, answers[enqueued..]);
      OnwardStops(log, nextTx);
    }
  }

  lemma WokenIsSending(interval: u64, next: u64, now: u64, answers: seq<Answer>)
    requires interval <= 1_000_000
    ensures var floor := SatSub(now, MaxDebt(interval));
            Woken(interval, next, Wake(now, answers)) ==
            Sending(interval, CATCH_UP_BURST, if next < floor then floor else next, now, answers)
  {
  }

  /** What was sent before, and then the rest. */
  ghost function Onward(log: seq<u64>, p: Paced): Paced { Paced(p.next, log + p.sent) }

  lemma OnwardFromHere(p: Paced)
    ensures Onward([], p) == p
  {
  }

  lemma SendingOn(log: seq<u64>, interval: u64, budget: nat, next: u64, now: u64, answers: seq<Answer>)
    requires now >= next && budget > 0 && answers != []
    ensures Onward(log, Sending(interval, budget, next, now, answers)) ==
            match answers[0]
            case Full => Onward(log, Paced(next, []))
            case Taken(t) =>
              Onward(log + [now], Sending(interval, budget - 1, SatAdd(next, interval), t, answers[1..]))
  {
  }

  lemma SendingStops(interval: u64, budget: nat, next: u64, now: u64, answers: seq<Answer>)
    requires now < next || budget == 0 || answers == []
    ensures Sending(interval, budget, next, now, answers) == Paced(next, [])
  {
  }

  lemma OnwardStops(log: seq<u64>, next: u64)
    ensures Onward(log, Paced(next, [])) == Paced(next, log)
  {
  }

  // ----- the rate bound -----

  /** Every reading of the clock leaves room for one more interval. */
  predicate Readable(interval: u64, w: Wake) {
    w.now + interval <= U64_MAX && forall i | 0 <= i < |w.answers| && w.answers[i].Taken? ::
      w.answers[i].now + interval <= U64_MAX
  }

  /** All that is sent over a run of wakes. */
  function Sent(interval: u64, next: u64, wakes: seq<Wake>): seq<u64>
    requires interval <= 1_000_000
    decreases |wakes|
  {
    if wakes == [] then []
    else
      var p := Woken(interval, next, wakes[0]);
      p.sent + Sent(interval, p.next, wakes[1..])
  }

  /** The `k`-th datagram leaves `k` intervals after `base`, or later. */
  predicate Spaced(sent: seq<u64>, base: int, interval: nat) {
    forall k | 0 <= k < |sent| :: sent[k] >= base + k * interval
  }

  lemma {:induction false} SendingIsSpaced(interval: u64, budget: nat, next: u64, now: u64, answers: seq<Answer>)
    requires Readable(interval, Wake(now, answers))
    ensures var p := Sending(interval, budget, next, now, answers);
            && |p.sent| <= budget
            && Spaced(p.sent, next, interval)
            && p.next == next + |p.sent| * interval
    decreases budget
  {
    if !(now < next || budget == 0 || answers == [] || answers[0].Full?) {
      var next', rest := SatAdd(next, interval), answers[1..];
      assert answers[0].now + interval <= U64_MAX;
      forall i | 0 <= i < |rest| && rest[i].Taken? ensures rest[i].now + interval <= U64_MAX {
        assert rest[i] == answers[i + 1];
      }
      SendingIsSpaced(interval, budget - 1, next', answers[0].now, rest);
      var q := Sending(interval, budget - 1, next', answers[0].now, rest);
      SpacedCons(q.sent, next, interval, now);
      Distribute(1, |q.sent|, interval);
    }
  }

  lemma SpacedCons(sent: seq<u64>, base: int, interval: nat, now: u64)
    requires now >= base && Spaced(sent, base + interval, interval)
    ensures Spaced([now] + sent, base, interval)
  {
    var all := [now] + sent;
    forall k | 0 <= k < |all| ensures all[k] >= base + k * interval {
      if k > 0 { Distribute(k - 1, 1, interval); assert all[k] == sent[k - 1]; }
    }
  }

  lemma SpacedAppend(a: seq<u64>, b: seq<u64>, base: int, interval: nat)
    requires Spaced(a, base, interval) && Spaced(b, base + |a| * interval, interval)
    ensures Spaced(a + b, base, interval)
  {
    var all := a + b;
    forall k | 0 <= k < |all| ensures all[k] >= base + k * interval {
      if k >= |a| { Distribute(|a|, k - |a|, interval); assert all[k] == b[k - |a|]; }
    }
  }

  /** From any loop state whose deadline is not before `base`, whatever stalls, full buffers and clock
      readings follow: no datagram runs ahead of its place in a schedule that starts at `base`. */
  lemma {:induction false} RunIsSpaced(interval: u64, next: u64, wakes: seq<Wake>, base: int)
    requires interval <= 1_000_000 && next >= base
    requires forall i | 0 <= i < |wakes| :: Readable(interval, wakes[i])
    ensures Spaced(Sent(interval, next, wakes), base, interval)
    decreases |wakes|
  {
    hide Sending;
    hide Readable;
    if wakes != [] {
      var w := wakes[0];
      var start := Clamped(interval, next, w.now);
      var p := Woken(interval, next, w);
      assert Readable(interval, wakes[0]);
      ReadableAgain(interval, w);
      SendingIsSpaced(interval, CATCH_UP_BURST, start, w.now, w.answers);
      SpacedLater(p.sent, start, base, interval);
      RunIsSpaced(interval, p.next, wakes[1..], base + |p.sent| * interval);
      hide Spaced;
      SpacedAppend(p.sent, Sent(interval, p.next, wakes[1..]), base, interval);
    }
  }

  lemma ReadableAgain(interval: u64, w: Wake)
    requires Readable(interval, w)
    ensures Readable(interval, Wake(w.now, w.answers))
  {
  }

  lemma SpacedLater(sent: seq<u64>, base: int, earlier: int, interval: nat)
    requires Spaced(sent, base, interval) && earlier <= base
    ensures Spaced(sent, earlier, interval)
  {
  }

  function CountUpTo(sent: seq<u64>, t: u64): nat {
    if sent == [] then 0
    else CountUpTo(sent[..|sent| - 1], t) + if sent[|sent| - 1] <= t then 1 else 0
  }

  lemma {:induction false} CountSpaced(sent: seq<u64>, base: int, interval: nat, t: u64)
    requires interval > 0 && base <= t && Spaced(sent, base, interval)
    ensures CountUpTo(sent, t) <= (t - base) / interval + 1
    ensures CountUpTo(sent, t) <= |sent|
  {
    if sent != [] {
      var k := |sent| - 1;
      var before := sent[..k];
      assert Spaced(before, base, interval) by {
        forall j | 0 <= j < k ensures before[j] >= base + j * interval { assert before[j] == sent[j]; }
      }
      CountSpaced(before, base, interval, t);
      if sent[k] <= t {
        assert sent[k] >= base + k * interval;
        DivBelow(t - base, interval, k);
      }
    }
  }

  /** From the start `s` of any pass of the loop up to any later time `t`, at most
      `(t - s) / interval + 17` datagrams are sent, whatever happened before and happens since. */
  lemma RateBound(interval: u64, next: u64, wakes: seq<Wake>, t: u64)
    requires 0 < interval <= 1_000_000 && wakes != [] && wakes[0].now <= t
    requires forall i | 0 <= i < |wakes| :: Readable(interval, wakes[i])
    ensures CountUpTo(Sent(interval, next, wakes), t) <= (t - wakes[0].now) / interval + 17
  {
    var s := wakes[0].now;
    var base := s - MaxDebt(interval);
    StartIsClamped(interval, next, wakes);
    hide *;
    RunIsSpaced(interval, Clamped(interval, next, s), wakes, base);
    CountSpaced(Sent(interval, next, wakes), base, interval, t);
    assert t - base == t - s + MaxDebt(interval);
    BurstAhead(t - s, interval);
  }

  /** A burst of debt is sixteen intervals. */
  lemma BurstAhead(elapsed: nat, interval: nat)
    requires interval > 0
    ensures (elapsed + MaxDebt(interval)) / interval == elapsed / interval + 16
  {
    var q := elapsed / interval;
    DivBounds(elapsed, interval);
    Distribute(q, 16, interval);
    Distribute(q + 1, 16, interval);
    DivBelow(elapsed + MaxDebt(interval), interval, q + 16);
    DivBelow(elapsed + MaxDebt(interval), interval, q + 1 + 16);
  }

  lemma StartIsClamped(interval: u64, next: u64, wakes: seq<Wake>)
    requires interval <= 1_000_000 && wakes != []
    ensures Sent(interval, Clamped(interval, next, wakes[0].now), wakes) == Sent(interval, next, wakes)
  {
  }

  /** From its very start the flood never runs ahead of the target rate. */
  lemma NeverAheadFromTheStart(interval: u64, start: u64, wakes: seq<Wake>, t: u64)
    requires 0 < interval <= 1_000_000 && start <= t && start + interval <= U64_MAX
    requires forall i | 0 <= i < |wakes| :: Readable(interval, wakes[i])
    ensures CountUpTo(Sent(interval, SatAdd(start, interval), wakes), t) <= (t - start) / interval
  {
    hide Readable;
    hide Sending;
    hide Sent;
    hide Spaced;
    var sent := Sent(interval, SatAdd(start, interval), wakes);
    RunIsSpaced(interval, start + interval, wakes, start + interval);
    if t < start + interval {
      SpacedAbove(sent, start + interval, interval, t);
    } else {
      CountSpaced(sent, start + interval, interval, t);
      var q := (t - start - interval) / interval;
      DivBounds(t - start - interval, interval);
      Distribute(q, 1, interval);
      DivBelow(t - start, interval, q + 1);
    }
  }

  lemma {:induction false} SpacedAbove(sent: seq<u64>, base: int, interval: nat, t: u64)
    requires Spaced(sent, base, interval) && t < base
    ensures CountUpTo(sent, t) == 0
  {
    if sent != [] {
      var k := |sent| - 1;
      var before := sent[..k];
      forall j | 0 <= j < k ensures before[j] >= base + j * interval { assert before[j] == sent[j]; }
      Product(k, interval);
      SpacedAbove(before, base, interval, t);
    }
  }

  /** The answers of a buffer with room whose clock stands still. */
  function AllTaken(n: nat, now: u64): (r: seq<Answer>)
    ensures |r| == n && forall i | 0 <= i < n :: r[i] == Taken(now)
  {
    seq(n, i => Taken(now))
  }

  lemma {:induction false} SendAllDue(interval: u64, budget: nat, next: u64, now: u64)
    requires now + interval <= U64_MAX
    requires budget > 0 ==> next + (budget - 1) * interval <= now
    ensures Sending(interval, budget, next, now, AllTaken(budget, now)) ==
            Paced(if budget == 0 then next else next + budget * interval, seq(budget, i => now))
  {
    if budget > 0 {
      assert AllTaken(budget, now)[1..] == AllTaken(budget - 1, now);
      Distribute(budget - 1, 1, interval);
      Product(budget - 1, interval);
      if budget > 1 { Distribute(budget - 2, 1, interval); }
      SendAllDue(interval, budget - 1, next + interval, now);
      assert [now] + seq(budget - 1, i => now) == seq(budget, i => now);
    }
  }

  /** The bound is met: after a long stall the loop sends 17 datagrams in no time, 16 in one pass and
      one in the next. */
  lemma BoundIsMet(interval: u64, next: u64, s: u64)
    requires 0 < interval <= 1_000_000 && s + interval <= U64_MAX
    requires next + MaxDebt(interval) <= s
    ensures var wakes := [Wake(s, AllTaken(16, s)), Wake(s, AllTaken(1, s))];
            Sent(interval, next, wakes) == seq(17, i => s)
  {
    var w0, w1 := Wake(s, AllTaken(16, s)), Wake(s, AllTaken(1, s));
    var base := s - MaxDebt(interval);
    assert Clamped(interval, next, s) == base;
    SendAllDue(interval, CATCH_UP_BURST, base, s);
    assert Woken(interval, next, w0) == Paced(s, seq(16, i => s));
    assert Woken(interval, s, w1) == Paced(s + interval, [s]) by {
      assert AllTaken(1, s)[1..] == [];
    }
    hide Woken;
    assert [w0, w1][1..] == [w1] && [w1][1..] == [];
    assert Sent(interval, s, [w1]) == [s] + [];
    assert seq(16, i => s) + [s] == seq(17, i => s);
  }

  /** Every answer is a datagram taken, no earlier than `from`. */
  predicate TakenSince(interval: u64, answers: seq<Answer>, from: u64) {
    forall i | 0 <= i < |answers| :: answers[i].Taken? && from <= answers[i].now <= U64_MAX - interval
  }

  /** Sending goes on until nothing is due or the budget is used up. */
  lemma {:induction false} SendingIsDiligent(interval: u64, budget: nat, next: u64, now: u64, answers: seq<Answer>,
                                             from: u64)
    requires from <= now <= U64_MAX - interval
    requires |answers| >= budget && TakenSince(interval, answers, from)
    ensures var p := Sending(interval, budget, next, now, answers);
            p.next > from || p.next == next + budget * interval
    decreases budget
  {
    if now >= next && budget > 0 {
      var rest := answers[1..];
      assert answers[0].Taken?;
      forall i | 0 <= i < |rest|
        ensures rest[i].Taken? && from <= rest[i].now <= U64_MAX - interval
      {
        assert rest[i] == answers[i + 1];
      }
      SendingIsDiligent(interval, budget - 1, SatAdd(next, interval), answers[0].now, rest, from);
      Distribute(budget - 1, 1, interval);
    }
  }

  /** A pass that meets no full buffer leaves no debt older than itself, however long the stall before
      it was. */
  lemma PassRepaysTheDebt(interval: u64, next: u64, w: Wake)
    requires interval <= 1_000_000 && w.now <= U64_MAX - interval
    requires |w.answers| >= CATCH_UP_BURST && TakenSince(interval, w.answers, w.now)
    ensures Woken(interval, next, w).next >= w.now
  {
    SendingIsDiligent(interval, CATCH_UP_BURST, Clamped(interval, next, w.now), w.now, w.answers, w.now);
  }
}
