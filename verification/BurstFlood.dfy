/** The burst flood: one datagram to every target on each tick, resuming after a full buffer at the
    first target that missed out. Targets are known by their position in the list. */
module BurstFlood {
  import opened Arith
  import opened Bytes
  import Flood

  /** How many datagrams the send buffer takes before it is full. */
  function Room(takes: seq<bool>): (r: nat)
    ensures r <= |takes|
    ensures forall i | 0 <= i < r :: takes[i]
    ensures r < |takes| ==> !takes[r]
  {
    if takes == [] || !takes[0] then 0 else 1 + Room(takes[1..])
  }

  /** Positions served by `count` datagrams from `start` on, around the list. */
  function Cyclic(n: nat, start: nat, count: nat): (r: seq<nat>)
    requires n > 0
    ensures |r| == count && forall k | 0 <= k < count :: r[k] == (start + k) % n < n
  {
    seq(count, k requires 0 <= k => (start + k) % n)
  }

  /** Where the burst after one that served `room` targets starts. */
  function Resume(n: nat, start: nat, room: nat): (r: nat)
    requires n > 0
    ensures r < n
  {
    if room < n then (start + room) % n else 0
  }

  class Burster {
    const interval: u64
    var targets: seq<u32>
    var nextTx: u64
    var seqCounter: u16
    var burstStart: nat

    predicate Valid()
      reads this
    {
      targets != [] && burstStart < |targets| && interval <= 1_000_000
    }

    constructor (targets: seq<u32>, frequencyHz: Option<u16>, now: u64)
      requires targets != []
      ensures Valid() && this.targets == targets && burstStart == 0 && seqCounter == 0
      ensures interval == Flood.Interval(frequencyHz) && nextTx == Flood.SatAdd(now, interval)
    {
      interval := Flood.Interval(frequencyHz);
      nextTx := Flood.SatAdd(now, Flood.Interval(frequencyHz));
      this.targets, burstStart, seqCounter := targets, 0, 0;
    }

    /** One tick: serve the targets in turn until one is refused. */
    method Fire(takes: seq<bool>) returns (enqueued: nat, blocked: bool, ghost served: seq<nat>)
      requires Valid() && |takes| == |targets|
      modifies this`burstStart, this`seqCounter
      ensures Valid()
      ensures enqueued == Room(takes) && blocked == (Room(takes) < |targets|)
      ensures served == Cyclic(|targets|, old(burstStart), Room(takes))
      ensures burstStart == Resume(|targets|, old(burstStart), Room(takes))
      ensures seqCounter == Flood.Later(old(seqCounter), enqueued + if blocked then 1 else 0)
    {
      hide Flood.Later;
      var n := |targets|;
      enqueued, blocked, served := 0, false, [];
      Flood.LaterSucc(seqCounter, 0);
      ghost var attempts: nat := 0;
      while enqueued < n && !blocked
        invariant enqueued <= n && attempts == enqueued + (if blocked then 1 else 0)
        invariant forall j | 0 <= j < enqueued :: takes[j]
        invariant blocked ==> enqueued < n && !takes[enqueued]
        invariant served == Cyclic(n, old(burstStart), enqueued)
        invariant burstStart == if blocked then (old(burstStart) + enqueued) % n else old(burstStart)
        invariant seqCounter == Flood.Later(old(seqCounter), attempts)
        decreases n - enqueued, !blocked
      {
        Flood.LaterSucc(old(seqCounter), attempts);
        seqCounter := if seqCounter == 0xFFFF then 0 else seqCounter + 1;
        attempts := attempts + 1;
        if takes[enqueued] {
          served := served + [(burstStart + enqueued) % n];
          enqueued := enqueued + 1;
        } else {
          blocked := true;
          burstStart := (burstStart + enqueued) % n;
        }
      }
      if enqueued > 0 && !blocked { burstStart := 0; }
    }

    /** One pass of the loop: a burst if one is due, at most one interval's worth of ticks repaid. The
        deadline moves on whether or not the buffer was full. */
    method Pass(now: u64, takes: seq<bool>) returns (fired: bool, blocked: bool, ghost served: seq<nat>)
      requires Valid() && |takes| == |targets|
      modifies this`nextTx, this`burstStart, this`seqCounter
      ensures Valid()
      ensures fired == (now >= Flood.Clamped(interval, old(nextTx), now))
      ensures fired ==> nextTx == Flood.SatAdd(Flood.Clamped(interval, old(nextTx), now), interval)
      ensures fired ==> served == Cyclic(|targets|, old(burstStart), Room(takes))
                        && burstStart == Resume(|targets|, old(burstStart), Room(takes))
                        && blocked == (Room(takes) < |targets|)
      ensures !fired ==> served == [] && !blocked && burstStart == old(burstStart) && seqCounter == old(seqCounter)
                         && nextTx == Flood.Clamped(interval, old(nextTx), now)
    {
      nextTx := Flood.Clamped(interval, nextTx, now);
      fired, blocked, served := now >= nextTx, false, [];
      if fired {
        var enqueued: nat;
        enqueued, blocked, served := Fire(takes);
        nextTx := Flood.SatAdd(nextTx, interval);
      }
    }
  }

  // ----- fairness -----

  /** All positions served by a run of bursts, given how many targets each one reached. */
  function Served(n: nat, start: nat, rooms: seq<nat>): seq<nat>
    requires n > 0
    decreases |rooms|
  {
    if rooms == [] then []
    else Cyclic(n, start, rooms[0]) + Served(n, Resume(n, start, rooms[0]), rooms[1..])
  }

  function Total(rooms: seq<nat>): nat
    decreases |rooms|
  {
    if rooms == [] then 0 else rooms[0] + Total(rooms[1..])
  }

  function Count(served: seq<nat>, x: nat): nat {
    if served == [] then 0
    else Count(served[..|served| - 1], x) + if served[|served| - 1] == x then 1 else 0
  }

  lemma {:induction false} CountAppend(a: seq<nat>, b: seq<nat>, x: nat)
    ensures Count(a + b, x) == Count(a, x) + Count(b, x)
    decreases |b|
  {
    if b == [] {
      assert a + b == a;
    } else {
      var k := |b| - 1;
      assert (a + b)[..|a + b| - 1] == a + b[..k];
      CountAppend(a, b[..k], x);
    }
  }

  lemma ModShift(n: nat, start: nat, a: nat, k: nat)
    requires n > 0
    ensures ((start + a) % n + k) % n == (start + a + k) % n
  {
    ModAdd(start + a, k, n);
  }

  lemma CyclicAppend(n: nat, start: nat, a: nat, b: nat)
    requires n > 0
    ensures Cyclic(n, start, a) + Cyclic(n, (start + a) % n, b) == Cyclic(n, start, a + b)
  {
    var l, r := Cyclic(n, start, a) + Cyclic(n, (start + a) % n, b), Cyclic(n, start, a + b);
    forall k | 0 <= k < a + b ensures l[k] == r[k] {
      if k >= a { ModShift(n, start, a, k - a); }
    }
  }

  /** Over a stretch of bursts that were all cut short, the targets are served strictly in turn, as if
      by one endless round. */
  lemma {:induction false} BlockedBurstsGoRound(n: nat, start: nat, rooms: seq<nat>)
    requires n > 0 && start < n && forall i | 0 <= i < |rooms| :: rooms[i] < n
    ensures Served(n, start, rooms) == Cyclic(n, start, Total(rooms))
    decreases |rooms|
  {
    if rooms != [] {
      var next := (start + rooms[0]) % n;
      BlockedBurstsGoRound(n, next, rooms[1..]);
      CyclicAppend(n, start, rooms[0], Total(rooms[1..]));
    }
  }

  /** Position `x` comes up `(start - x) mod n` datagrams into the round, and every `n` after that. */
  lemma {:induction false} CountCyclic(n: nat, start: nat, count: nat, x: nat)
    requires start < n && x < n
    ensures var wait := (x + n - start) % n;
            Count(Cyclic(n, start, count), x) == (count + n - 1 - wait) / n
  {
    var wait := (x + n - start) % n;
    if count == 0 {
      DivBelow(n - 1 - wait, n, 1);
    } else {
      var k := count - 1;
      CountCyclic(n, start, k, x);
      var all := Cyclic(n, start, count);
      assert all[..k] == Cyclic(n, start, k);
      Meets(n, start, k, x);
      Carries(k, n, wait);
    }
  }

  /** The `k`-th datagram of a round goes to `x` exactly if `k` is `x`'s wait, up to whole rounds. */
  lemma Meets(n: nat, start: nat, k: nat, x: nat)
    requires start < n && x < n
    ensures (start + k) % n == x <==> k % n == (x + n - start) % n
  {
    ModAdd(k, start, n);
    SmallMod(k % n + start, n);
    SmallMod(x + n - start, n);
  }

  lemma SmallMod(t: nat, n: nat)
    requires 0 < n && t < 2 * n
    ensures t % n == if t < n then t else t - n
  {
    if t < n { ModUnique(t, n, 0, t); } else { ModUnique(t, n, 1, t - n); }
  }

  lemma Carries(k: nat, n: nat, wait: nat)
    requires wait < n
    ensures (k + n - wait) / n == (k + n - 1 - wait) / n + if k % n == wait then 1 else 0
  {
    assert k == k / n * n + k % n;
    CarriesAt(k, k / n, k % n, n, wait);
  }

  lemma CarriesAt(k: nat, q: nat, r: nat, n: nat, wait: nat)
    requires wait < n && r < n && k == q * n + r
    ensures (k + n - wait) / n == (k + n - 1 - wait) / n + if r == wait then 1 else 0
  {
    Distribute(q, 1, n);
    if r < wait {
      DivUnique(k + n - wait, n, q, n + r - wait);
      DivUnique(k + n - 1 - wait, n, q, n + r - wait - 1);
    } else {
      DivUnique(k + n - wait, n, q + 1, r - wait);
      if r == wait {
        DivUnique(k + n - 1 - wait, n, q, n - 1);
      } else {
        DivUnique(k + n - 1 - wait, n, q + 1, r - wait - 1);
      }
    }
  }

  /** One burst serves a target once, if it gets that far. */
  lemma OneBurst(n: nat, start: nat, room: nat, x: nat)
    requires start < n && room <= n && x < n
    ensures var wait := if x < start then x + n - start else x - start;
            Count(Cyclic(n, start, room), x) == if wait < room then 1 else 0
  {
    CountCyclic(n, start, room, x);
    SmallMod(x + n - start, n);
    var wait := (x + n - start) % n;
    if wait < room {
      DivUnique(room + n - 1 - wait, n, 1, room - 1 - wait);
    } else {
      DivUnique(room + n - 1 - wait, n, 0, room + n - 1 - wait);
    }
  }

  /** Where the burst after a run of bursts starts. */
  function End(n: nat, start: nat, rooms: seq<nat>): (r: nat)
    requires start < n
    ensures r < n
    decreases |rooms|
  {
    if rooms == [] then start else End(n, Resume(n, start, rooms[0]), rooms[1..])
  }

  function OneIf(b: bool): nat { if b then 1 else 0 }

  /** Complete bursts that begin after `x` and not after `y`. */
  function Crossings(n: nat, start: nat, rooms: seq<nat>, x: nat, y: nat): nat
    requires n > 0
    decreases |rooms|
  {
    if rooms == [] then 0
    else OneIf(rooms[0] >= n && x < start <= y) + Crossings(n, Resume(n, start, rooms[0]), rooms[1..], x, y)
  }

  /** Complete bursts that begin away from the head of the list. */
  function Misaligned(n: nat, start: nat, rooms: seq<nat>): nat
    requires n > 0
    decreases |rooms|
  {
    if rooms == [] then 0
    else OneIf(rooms[0] >= n && start != 0) + Misaligned(n, Resume(n, start, rooms[0]), rooms[1..])
  }

  lemma BurstGap(n: nat, start: nat, room: nat, x: nat, y: nat)
    requires x <= y < n && start < n && room <= n
    ensures Count(Cyclic(n, start, room), x) - Count(Cyclic(n, start, room), y) ==
            OneIf(room >= n && x < start <= y) + OneIf(x < Resume(n, start, room) <= y) - OneIf(x < start <= y)
  {
    OneBurst(n, start, room, x);
    OneBurst(n, start, room, y);
    if room < n { SmallMod(start + room, n); }
    hide Count;
    hide Cyclic;
  }

  /** How far one target is ahead of a later one, exactly: one for every complete burst that began
      between them, and one more if the next burst begins there, but none for where the run began. */
  lemma {:induction false} PairGap(n: nat, start: nat, rooms: seq<nat>, x: nat, y: nat)
    requires x <= y < n && start < n && forall i | 0 <= i < |rooms| :: rooms[i] <= n
    ensures var served := Served(n, start, rooms);
            Count(served, x) - Count(served, y) ==
            Crossings(n, start, rooms, x, y) + OneIf(x < End(n, start, rooms) <= y) - OneIf(x < start <= y)
    decreases |rooms|
  {
    if rooms != [] {
      hide Count;
      hide Cyclic;
      var next, rest := Resume(n, start, rooms[0]), rooms[1..];
      BurstGap(n, start, rooms[0], x, y);
      PairGap(n, next, rest, x, y);
      CountAppend(Cyclic(n, start, rooms[0]), Served(n, next, rest), x);
      CountAppend(Cyclic(n, start, rooms[0]), Served(n, next, rest), y);
      hide Resume;
      hide OneIf;
    }
  }

  /** No pair counts more of the complete bursts than the first and the last target. */
  lemma {:induction false} CrossingsAtMost(n: nat, start: nat, rooms: seq<nat>, x: nat, y: nat)
    requires x <= y < n && start < n
    ensures Crossings(n, start, rooms, x, y) <= Misaligned(n, start, rooms) == Crossings(n, start, rooms, 0, n - 1)
    decreases |rooms|
  {
    if rooms != [] { CrossingsAtMost(n, Resume(n, start, rooms[0]), rooms[1..], x, y); }
  }

  /** The first target's lead over the last one is the number of complete bursts that began away from
      the head of the list, up to where the run began and where it stands. */
  lemma EdgeGap(n: nat, start: nat, rooms: seq<nat>)
    requires start < n && forall i | 0 <= i < |rooms| :: rooms[i] <= n
    ensures var served := Served(n, start, rooms);
            Count(served, 0) - Count(served, n - 1) ==
            Misaligned(n, start, rooms) + OneIf(End(n, start, rooms) != 0) - OneIf(start != 0)
  {
    PairGap(n, start, rooms, 0, n - 1);
    CrossingsAtMost(n, start, rooms, 0, n - 1);
  }

  /** How far apart two targets' counts are. */
  function Spread(served: seq<nat>, x: nat, y: nat): nat { AbsDiff(Count(served, x), Count(served, y)) }

  /** No pair is further apart than that: an earlier target leads by at most the complete bursts that
      began away from the head and one for where the run stands, and trails by at most one for where
      the run began. */
  lemma SpreadBound(n: nat, start: nat, rooms: seq<nat>, x: nat, y: nat)
    requires x <= y < n && start < n && forall i | 0 <= i < |rooms| :: rooms[i] <= n
    ensures var served := Served(n, start, rooms);
            && Count(served, x) - Count(served, y) <= Misaligned(n, start, rooms) + OneIf(End(n, start, rooms) != 0)
            && Count(served, y) - Count(served, x) <= OneIf(start != 0)
  {
    PairGap(n, start, rooms, x, y);
    CrossingsAtMost(n, start, rooms, x, y);
    hide Count;
    hide Served;
  }

  /** Coverage of a run from the head of the list is fair, every pair of targets within one datagram,
      exactly if no more than one complete burst began away from the head, the next burst counting as
      one if it is to begin there. */
  lemma FairIff(n: nat, rooms: seq<nat>)
    requires n > 0 && forall i | 0 <= i < |rooms| :: rooms[i] <= n
    ensures (forall x, y | 0 <= x < n && 0 <= y < n :: Spread(Served(n, 0, rooms), x, y) <= 1) <==>
            Misaligned(n, 0, rooms) + OneIf(End(n, 0, rooms) != 0) <= 1
  {
    hide Count;
    hide Served;
    var served := Served(n, 0, rooms);
    EdgeGap(n, 0, rooms);
    assert Spread(served, 0, n - 1) == Misaligned(n, 0, rooms) + OneIf(End(n, 0, rooms) != 0);
    forall x: nat, y: nat | x < n && y < n
      ensures Spread(served, x, y) <= Spread(served, 0, n - 1)
    {
      if x <= y { SpreadBound(n, 0, rooms, x, y); } else { SpreadBound(n, 0, rooms, y, x); }
    }
  }

  /** Over a stretch of bursts that were all cut short, no target gets more than one datagram ahead of
      another. */
  lemma FairWhileBlocked(n: nat, start: nat, rooms: seq<nat>, x: nat, y: nat)
    requires start < n && x < n && y < n && forall i | 0 <= i < |rooms| :: rooms[i] < n
    ensures Spread(Served(n, start, rooms), x, y) <= 1
  {
    NoneMisaligned(n, start, rooms);
    if x <= y { SpreadBound(n, start, rooms, x, y); } else { SpreadBound(n, start, rooms, y, x); }
    hide Count;
    hide Served;
  }

  lemma {:induction false} NoneMisaligned(n: nat, start: nat, rooms: seq<nat>)
    requires start < n && forall i | 0 <= i < |rooms| :: rooms[i] < n
    ensures Misaligned(n, start, rooms) == 0
    decreases |rooms|
  {
    if rooms != [] { NoneMisaligned(n, Resume(n, start, rooms[0]), rooms[1..]); }
  }

  /** A burst cut short after one target, then a complete one, `k` times over. */
  function Alternating(n: nat, k: nat): seq<nat> {
    if k == 0 then [] else [1, n] + Alternating(n, k - 1)
  }

  /** Coverage does not stay fair across complete bursts, because each of them forgets where the round
      was: the first target is then served twice as often as the second. */
  lemma {:induction false} CompleteBurstsForget(n: nat, k: nat)
    requires n >= 2
    ensures var served := Served(n, 0, Alternating(n, k));
            Count(served, 0) == 2 * k && Count(served, 1) == k
  {
    if k > 0 {
      var rest := Alternating(n, k - 1);
      CompleteBurstsForget(n, k - 1);
      TwoBursts(n, rest);
      FirstTwo(n, 0);
      FirstTwo(n, 1);
      hide Count;
      hide Cyclic;
      hide Served;
      var a, b, tail := Cyclic(n, 0, 1), Cyclic(n, 1, n), Served(n, 0, rest);
      CountAppend(b, tail, 0);
      CountAppend(b, tail, 1);
      CountAppend(a, b + tail, 0);
      CountAppend(a, b + tail, 1);
    }
  }

  lemma TwoBursts(n: nat, rest: seq<nat>)
    requires n >= 2
    ensures Served(n, 0, [1, n] + rest) == Cyclic(n, 0, 1) + (Cyclic(n, 1, n) + Served(n, 0, rest))
  {
    hide Cyclic;
    var rooms := [1, n] + rest;
    assert rooms[1..] == [n] + rest && ([n] + rest)[1..] == rest;
    SmallMod(1, n);
  }

  lemma FirstTwo(n: nat, x: nat)
    requires n >= 2 && x < 2
    ensures Count(Cyclic(n, 0, 1), x) == 1 - x
    ensures Count(Cyclic(n, 1, n), x) == 1
  {
    SmallMod(0, n);
    assert Cyclic(n, 0, 1) == [0] && [0][..0] == [];
    CountCyclic(n, 1, n, x);
    SmallMod(x + n - 1, n);
    DivUnique(n + n - 1 - (x + n - 1) % n, n, 1, n - 1 - (x + n - 1) % n);
  }
}
