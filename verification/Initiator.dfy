/** The initiator's side of the ESP-NOW pair: the responders it knows, the address it sounds to, its
    sounding counter and its adaptive pacing. */
module Initiator {
  import opened Arith
  import opened Bytes
  import opened Magic

  const BROADCAST: Mac := [0xFF, 0xFF, 0xFF, 0xFF, 0xFF, 0xFF]
  const TRACKED_PEERS: nat := 16
  const UP_EVERY: nat := 32

  // ----- who is known -----

  /** A reply counts from the configured responder, or, when pairing is automatic, behind the
      responder's magic; the reply itself carries nothing. */
  predicate IsReply(peerMac: Option<Mac>, src: Mac, data: seq<byte>) {
    match peerMac
    case Some(expected) => src == expected
    case None => |data| >= 4 && data[..4] == RESPONDER_MAGIC
  }

  /** Manual pairing judges the sender alone, automatic pairing the first four bytes alone. */
  lemma ReplyIs(peerMac: Option<Mac>, src: Mac, data: seq<byte>)
    ensures IsReply(peerMac, src, data) <==>
            match peerMac case Some(expected) => src == expected case None => [0x0F, 0xD4, 0x6E, 0x57] <= data
  {
    assert |data| >= 4 ==> (data[..4] == RESPONDER_MAGIC <==> RESPONDER_MAGIC <= data);
  }

  /** A full table is cleared to make room. */
  function Learned(known: seq<Mac>, src: Mac): seq<Mac> {
    if src in known then known
    else if |known| < TRACKED_PEERS then known + [src]
    else [src]
  }

  /** The table after hearing a run of responders. */
  function Known(heard: seq<Mac>): seq<Mac> {
    if heard == [] then [] else Learned(Known(heard[..|heard| - 1]), heard[|heard| - 1])
  }

  /** The address control frames go to. */
  function Downlink(peerMac: Option<Mac>, known: seq<Mac>): Mac {
    match peerMac
    case Some(mac) => mac
    case None => if |known| == 1 then known[0] else BROADCAST
  }

  /** The configured responder; else the only one known; else everybody. */
  lemma DownlinkIs(mac: Mac, known: seq<Mac>)
    ensures Downlink(Some(mac), known) == mac && Downlink(None, [mac]) == mac
    ensures |known| != 1 ==> Downlink(None, known) == [0xFF, 0xFF, 0xFF, 0xFF, 0xFF, 0xFF]
  {
  }

  predicate Distinct(s: seq<Mac>) { forall i, j | 0 <= i < j < |s| :: s[i] != s[j] }

  function Elements(s: seq<Mac>): set<Mac> { set m | m in s }

  lemma {:induction false} KnownIsDistinct(heard: seq<Mac>)
    ensures Distinct(Known(heard)) && |Known(heard)| <= TRACKED_PEERS
    ensures Elements(Known(heard)) <= Elements(heard)
    ensures heard != [] ==> heard[|heard| - 1] in Known(heard)
  {
    if heard != [] {
      KnownIsDistinct(heard[..|heard| - 1]);
      ElementsInit(heard);
    }
  }

  lemma ElementsInit(heard: seq<Mac>)
    requires heard != []
    ensures Elements(heard) == Elements(heard[..|heard| - 1]) + {heard[|heard| - 1]}
  {
  }

  lemma {:induction false} DistinctSize(s: seq<Mac>)
    requires Distinct(s)
    ensures |Elements(s)| == |s|
  {
    if s == [] {
      assert Elements(s) == {};
    } else {
      var k := |s| - 1;
      DistinctSize(s[..k]);
      ElementsInit(s);
      assert s[k] !in s[..k];
    }
  }

  /** Until a seventeenth responder is heard, the table holds everybody heard. */
  lemma {:induction false} EverybodyIsKnown(heard: seq<Mac>)
    requires |Elements(heard)| <= TRACKED_PEERS
    ensures Elements(Known(heard)) == Elements(heard)
  {
    if heard != [] {
      var k := |heard| - 1;
      var before, src := heard[..k], heard[k];
      ElementsInit(heard);
      CardLe(Elements(before), Elements(heard));
      EverybodyIsKnown(before);
      KnownIsDistinct(before);
      DistinctSize(Known(before));
      if src !in Known(before) {
        assert src !in Elements(before);
        assert |Elements(heard)| == |Elements(before)| + 1;
        ElementsInit(Known(before) + [src]);
        assert (Known(before) + [src])[..|Known(before)|] == Known(before);
      } else {
        assert src in Elements(before);
      }
    }
  }

  /** With no more than sixteen responders about, the downlink is unicast exactly while a single
      responder has been heard, and then it goes to that one. */
  lemma UnicastIffOneResponder(heard: seq<Mac>)
    requires |Elements(heard)| <= TRACKED_PEERS && BROADCAST !in heard
    ensures Downlink(None, Known(heard)) != BROADCAST <==> |Elements(heard)| == 1
    ensures |Elements(heard)| == 1 ==> Downlink(None, Known(heard)) == heard[0]
  {
    var known := Known(heard);
    EverybodyIsKnown(heard);
    KnownIsDistinct(heard);
    DistinctSize(known);
    if |known| == 1 {
      assert known[0] in Elements(known);
      assert known[0] in heard;
      assert heard[0] in Elements(heard);
      assert heard[0] in Elements(known);
    }
  }

  /** A seventeenth responder turns the downlink unicast again, to that responder alone, although all
      the others are there to be reached only by broadcast. */
  lemma OverflowTurnsUnicast(heard: seq<Mac>, newcomer: Mac)
    requires |Elements(heard)| == TRACKED_PEERS && newcomer !in heard
    ensures Downlink(None, Known(heard + [newcomer])) == newcomer
  {
    EverybodyIsKnown(heard);
    KnownIsDistinct(heard);
    DistinctSize(Known(heard));
    assert newcomer !in Elements(heard);
    assert forall m | m in Known(heard) :: m in Elements(Known(heard));
    assert (heard + [newcomer])[..|heard|] == heard;
  }

  /** Replies from somebody not in the table at the time. */
  function Discoveries(heard: seq<Mac>): nat {
    if heard == [] then 0
    else
      var before := heard[..|heard| - 1];
      Discoveries(before) + if heard[|heard| - 1] in Known(before) then 0 else 1
  }

  /** How many a table holds after `n` discoveries: it starts over after every sixteenth. */
  function Filled(n: nat): nat { if n == 0 then 0 else (n - 1) % 16 + 1 }

  lemma FilledSucc(n: nat)
    ensures Filled(n) <= 16 && Filled(n + 1) == if Filled(n) == 16 then 1 else Filled(n) + 1
    ensures Filled(n) == 1 <==> n % 16 == 1
  {
    if n > 0 { ModSucc(n - 1, 16); }
  }

  lemma {:induction false} KnownCountsDiscoveries(heard: seq<Mac>)
    ensures |Known(heard)| == Filled(Discoveries(heard))
  {
    if heard != [] {
      var before := heard[..|heard| - 1];
      KnownCountsDiscoveries(before);
      FilledSucc(Discoveries(before));
      hide Filled;
    }
  }

  /** Whoever is about, the downlink is unicast exactly while the last discovery is the first one or a
      multiple of sixteen after it. */
  lemma UnicastIff(heard: seq<Mac>)
    requires BROADCAST !in heard
    ensures Downlink(None, Known(heard)) != BROADCAST <==> Discoveries(heard) % 16 == 1
  {
    KnownCountsDiscoveries(heard);
    KnownIsDistinct(heard);
    FilledSucc(Discoveries(heard));
    hide Filled;
    var known := Known(heard);
    if |known| == 1 {
      assert known[0] in Elements(known);
      assert known[0] in heard;
    }
  }

  // ----- adaptive pacing -----

  datatype Pace = Pace(hz: nat, ok: nat)

  /** The ceiling of the pacing for a configured rate, and its floor. */
  function MaxHz(frequencyHz: Option<u16>): (r: nat)
    ensures 1 <= r <= 8_000
  {
    match frequencyHz
    case None => 8_000
    case Some(hz) => if hz < 1 then 1 else if hz > 8_000 then 8_000 else hz
  }

  function MinHz(max: nat): (r: nat)
    requires 1 <= max
    ensures 1 <= r <= max && (r == max || r >= 100) && max <= 8 * r + 7
  {
    var low := if max / 8 < 100 then 100 else max / 8;
    if low > max then max else low
  }

  function Period(hz: nat): (r: nat)
    ensures 1 <= r <= 1_000_000
    ensures 1 <= hz <= 8_000 ==> 125 <= r
  {
    if hz == 0 then 1_000_000
    else
      DivBelow(1_000_000, hz, 125);
      DivBelow(1_000_000, hz, 1_000_001);
      var r := 1_000_000 / hz;
      if r < 1 then 1 else r
  }

  function Climbed(hz: nat, max: nat): nat {
    var step := if hz * 10 / 100 < 1 then 1 else hz * 10 / 100;
    if hz + step > max then max else hz + step
  }

  function Dropped(hz: nat, min: nat): nat {
    var step := if hz * 25 / 100 < 1 then 1 else hz * 25 / 100;
    var left := if hz < step then 0 else hz - step;
    if left < min then min else left
  }

  /** A success counts; every thirty-second in a row climbs. */
  function Succeeded(p: Pace, max: nat): Pace {
    if p.ok + 1 >= UP_EVERY then Pace(Climbed(p.hz, max), 0) else p.(ok := p.ok + 1)
  }

  /** A full buffer or a failed send backs off. */
  function Failed(p: Pace, min: nat): Pace { Pace(Dropped(p.hz, min), 0) }

  /** What a send came to. Another driver error breaks the run of successes but does not back off. */
  datatype Outcome = Ok | Backpressure | OtherError

  function Paced(p: Pace, max: nat, outcome: Outcome): Pace
    requires max >= 1
  {
    match outcome
    case Ok => Succeeded(p, max)
    case Backpressure => Failed(p, MinHz(max))
    case OtherError => p.(ok := 0)
  }

  /** The ceiling is the configured rate, between 1 and 8000 Hz, and 8000 Hz by default; the floor an eighth of
      it, but no less than 100 Hz unless the ceiling is. */
  lemma RangeIs(frequencyHz: Option<u16>)
    ensures var max := MaxHz(frequencyHz);
            && (match frequencyHz
                case None => max == 8_000
                case Some(hz) => (hz == 0 ==> max == 1) && (1 <= hz <= 8_000 ==> max == hz)
                                 && (hz > 8_000 ==> max == 8_000))
            && (max <= 100 ==> MinHz(max) == max) && (100 <= max < 800 ==> MinHz(max) == 100)
            && (max >= 800 ==> 8 * MinHz(max) <= max < 8 * MinHz(max) + 8)
  {
  }

  /** The period is the microseconds in a second over the rate, rounded down. */
  lemma PeriodIs(hz: nat)
    ensures hz == 0 ==> Period(hz) == 1_000_000
    ensures 0 < hz <= 1_000_000 ==> Period(hz) * hz <= 1_000_000 < (Period(hz) + 1) * hz
    ensures hz > 1_000_000 ==> Period(hz) == 1
  {
    if hz > 0 {
      DivBounds(1_000_000, hz);
      DivBelow(1_000_000, hz, 1);
    }
  }

  /** What an outcome does to the pace. The thirty-second success in a row raises the rate by a tenth, a full
      buffer or failed send lowers it by a quarter, each by at least 1 Hz and within the range; any other error
      only breaks the row. */
  lemma PacedIs(p: Pace, max: nat, outcome: Outcome)
    requires max >= 1 && p.ok < 32
    ensures Paced(p, max, outcome) ==
            match outcome
            case OtherError => Pace(p.hz, 0)
            case Ok =>
              if p.ok < 31 then Pace(p.hz, p.ok + 1)
              else
                var up := p.hz + if p.hz < 20 then 1 else p.hz / 10;
                Pace(if up > max then max else up, 0)
            case Backpressure =>
              var down := p.hz - if p.hz < 8 then 1 else p.hz / 4;
              Pace(if down < MinHz(max) then MinHz(max) else down, 0)
  {
  }

  class Driver {
    const peerMac: Option<Mac>
    const reports: bool
    const adaptive: bool
    const max: nat
    var sequence: u32
    var pace: Pace
    var interval: nat
    var nextTx: u64
    var known: seq<Mac>

    ghost predicate Valid()
      reads this
    {
      && 1 <= max <= 8_000
      && MinHz(max) <= pace.hz <= max && pace.ok < UP_EVERY
      && 1 <= interval <= 1_000_000
      && (adaptive ==> interval == Period(pace.hz))
      && |known| <= TRACKED_PEERS && Distinct(known)
    }

    constructor (peerMac: Option<Mac>, reports: bool, frequencyHz: Option<u16>, rx: bool, tx: bool, now: u64)
      ensures Valid() && this.peerMac == peerMac && this.reports == reports
      ensures adaptive == (rx && tx) && max == MaxHz(frequencyHz)
      ensures sequence == 0 && pace == Pace(max, 0) && known == []
      ensures interval == Period(if rx then max else match frequencyHz case None => 0xFFFF case Some(hz) => hz)
      ensures nextTx == if now + interval > 0xFFFF_FFFF_FFFF_FFFF then 0xFFFF_FFFF_FFFF_FFFF else now + interval
    {
      this.peerMac, this.reports, adaptive := peerMac, reports, rx && tx;
      max := MaxHz(frequencyHz);
      var freq := match frequencyHz case None => 0xFFFF case Some(hz) => if hz < 1 then 1 else hz;
      var interval := Period(if rx then MaxHz(frequencyHz) else freq);
      this.interval := interval;
      sequence, pace, known := 0, Pace(MaxHz(frequencyHz), 0), [];
      nextTx := if now + interval > 0xFFFF_FFFF_FFFF_FFFF then 0xFFFF_FFFF_FFFF_FFFF else now + interval;
    }

    method HandleReply(src: Mac, data: seq<byte>)
      requires Valid()
      modifies this`known
      ensures Valid()
      ensures known == if IsReply(peerMac, src, data) then Learned(old(known), src) else old(known)
      ensures known == old(known) || known == old(known) + [src] || (|old(known)| == 16 && known == [src])
    {
      match peerMac {
        case Some(expected) => if src != expected { return; }
        case None => if |data| < 4 || data[..4] != RESPONDER_MAGIC { return; }
      }
      if src !in known {
        if |known| == TRACKED_PEERS { known := []; }
        known := known + [src];
      }
    }

    /** One sounding: the packet it carries, and what its outcome does to the counter and the pace. */
    method Sound(outcome: Outcome) returns (target: Mac, packet: ControlPacket)
      requires Valid()
      modifies this`sequence, this`pace, this`interval, this`nextTx
      ensures Valid()
      ensures target == Downlink(peerMac, known) && packet == ControlPacket(reports, old(sequence))
      ensures sequence == if outcome == Ok then (if old(sequence) == 0xFFFF_FFFF then 0 else old(sequence) + 1)
                          else old(sequence)
      ensures adaptive ==> pace == Paced(old(pace), max, outcome)
      ensures !adaptive ==> pace.hz == old(pace.hz) && interval == old(interval)
      ensures nextTx == if old(nextTx) + interval > 0xFFFF_FFFF_FFFF_FFFF then 0xFFFF_FFFF_FFFF_FFFF
                        else old(nextTx) + interval
    {
      target, packet := Downlink(peerMac, known), ControlPacket(reports, sequence);
      match outcome {
        case Ok =>
          sequence := if sequence == 0xFFFF_FFFF then 0 else sequence + 1;
          if adaptive {
            pace := pace.(ok := pace.ok + 1);
            if pace.ok >= UP_EVERY {
              pace := Pace(Climbed(pace.hz, max), 0);
              interval := Period(pace.hz);
            }
          }
        case Backpressure =>
          pace := pace.(ok := 0);
          if adaptive {
            pace := pace.(hz := Dropped(pace.hz, MinHz(max)));
            interval := Period(pace.hz);
          }
        case OtherError => pace := pace.(ok := 0);
      }
      nextTx := if nextTx + interval > 0xFFFF_FFFF_FFFF_FFFF then 0xFFFF_FFFF_FFFF_FFFF else nextTx + interval;
    }
  }

  function Outcomes(p: Pace, max: nat, outcomes: seq<Outcome>): Pace
    requires max >= 1
    decreases |outcomes|
  {
    if outcomes == [] then p else Outcomes(Paced(p, max, outcomes[0]), max, outcomes[1..])
  }

  /** Whatever the sends come to, the rate stays between the floor and the configured ceiling. */
  lemma {:induction false} PaceStaysInRange(p: Pace, max: nat, outcomes: seq<Outcome>)
    requires 1 <= max && MinHz(max) <= p.hz <= max && p.ok < UP_EVERY
    ensures var q := Outcomes(p, max, outcomes);
            MinHz(max) <= q.hz <= max && q.ok < UP_EVERY
    decreases |outcomes|
  {
    if outcomes != [] { PaceStaysInRange(Paced(p, max, outcomes[0]), max, outcomes[1..]); }
  }

  lemma DropBounds(hz: nat, min: nat)
    requires min <= hz
    ensures min <= Dropped(hz, min) && (Dropped(hz, min) == min || 4 * Dropped(hz, min) <= 3 * hz + 3)
    ensures hz == min ==> Dropped(hz, min) == min
  {
  }

  function Drops(hz: nat, min: nat, n: nat): (r: nat)
    requires min <= hz
    ensures min <= r
  {
    if n == 0 then hz else Dropped(Drops(hz, min, n - 1), min)
  }

  /** Above the floor each failure leaves three quarters of the rate, up to rounding. */
  lemma {:induction false} DropsShrink(hz: nat, min: nat, n: nat)
    requires min <= hz
    ensures Drops(hz, min, n) == min || Power(4, n) * (Drops(hz, min, n) - 3) <= Power(3, n) * (hz - 3)
  {
    if n > 0 {
      var h, h' := Drops(hz, min, n - 1), Drops(hz, min, n);
      DropsShrink(hz, min, n - 1);
      DropBounds(h, min);
      if h' != min {
        ShrinkStep(Power(4, n - 1), Power(3, n - 1), h, h', hz);
      }
    }
  }

  lemma ShrinkStep(p: nat, q: nat, h: int, h': int, hz: int)
    requires p * (h - 3) <= q * (hz - 3) && 4 * h' <= 3 * h + 3
    ensures (p * 4) * (h' - 3) <= (q * 3) * (hz - 3)
  {
    Scale(p, q, 4, 3, h - 3, h' - 3, hz - 3);
  }

  /** Two bounds on ratios multiply. */
  lemma Scale(p: nat, q: nat, a: nat, b: nat, x: int, x': int, y: int)
    requires p * x <= q * y && a * x' <= b * x
    ensures (p * a) * x' <= (q * b) * y
  {
    MulMonotone(p, a * x', b * x);
    MulMonotone(b, p * x, q * y);
    MulAssoc(p, a, x');
    MulAssoc(p, b, x);
    MulCommute(p, b);
    MulAssoc(b, p, x);
    MulAssoc(b, q, y);
    MulCommute(b, q);
  }

  function Power(b: nat, n: nat): nat { if n == 0 then 1 else Power(b, n - 1) * b }

  lemma Powers()
    ensures Power(3, 8) == 6561 && Power(4, 8) == 65536
  {
  }

  lemma EightDropsReachTheFloor(hz: nat, max: nat)
    requires 1 <= max <= 8_000 && MinHz(max) <= hz <= max
    ensures Drops(hz, MinHz(max), 8) == MinHz(max)
  {
    DropsShrink(hz, MinHz(max), 8);
    Powers();
    hide Drops;
    hide Power;
  }

  lemma {:induction false} OutcomesAppend(p: Pace, max: nat, a: seq<Outcome>, b: seq<Outcome>)
    requires max >= 1
    ensures Outcomes(p, max, a + b) == Outcomes(Outcomes(p, max, a), max, b)
    decreases |a|
  {
    hide Paced;
    if a == [] {
      assert a + b == b;
    } else {
      assert (a + b)[1..] == a[1..] + b;
      OutcomesAppend(Paced(p, max, a[0]), max, a[1..], b);
    }
  }

  lemma {:induction false} FailuresDrop(p: Pace, max: nat, n: nat)
    requires 1 <= max && MinHz(max) <= p.hz
    ensures Outcomes(p, max, seq(n, i => Backpressure)).hz == Drops(p.hz, MinHz(max), n)
  {
    if n > 0 {
      FailuresDrop(p, max, n - 1);
      assert seq(n, i => Backpressure) == seq(n - 1, i => Backpressure) + [Backpressure];
      OutcomesAppend(p, max, seq(n - 1, i => Backpressure), [Backpressure]);
      var q := Outcomes(p, max, seq(n - 1, i => Backpressure));
      assert [Backpressure][1..] == [] && Outcomes(q, max, [Backpressure]) == Paced(q, max, Backpressure);
    }
  }

  /** Eight failures in a row take any rate all the way down to the floor. */
  lemma EightFailuresReachTheFloor(p: Pace, max: nat)
    requires 1 <= max <= 8_000 && MinHz(max) <= p.hz <= max
    ensures Outcomes(p, max, seq(8, i => Backpressure)).hz == MinHz(max)
  {
    EightDropsReachTheFloor(p.hz, max);
    FailuresDrop(p, max, 8);
  }

  lemma ClimbBounds(hz: nat, max: nat)
    requires hz <= max
    ensures Climbed(hz, max) <= max && (Climbed(hz, max) == max || 10 * Climbed(hz, max) >= 11 * hz - 9)
    ensures hz == max ==> Climbed(hz, max) == max
  {
  }

  /** The rate after `n` whole runs of thirty-two successes. */
  function Climbs(hz: nat, max: nat, n: nat): (r: nat)
    requires hz <= max
    ensures r <= max
  {
    if n == 0 then hz else Climbed(Climbs(hz, max, n - 1), max)
  }

  /** Thirty-two successes in a row are one climb. */
  lemma {:induction false} SuccessesClimb(hz: nat, max: nat, ok: nat, n: nat)
    requires 1 <= max && hz <= max && ok + n == UP_EVERY && n > 0
    ensures Outcomes(Pace(hz, ok), max, seq(n, i => Ok)) == Pace(Climbed(hz, max), 0)
    decreases n
  {
    var all := seq(n, i => Ok);
    assert all[0] == Ok && all[1..] == seq(n - 1, i => Ok);
    if n > 1 { SuccessesClimb(hz, max, ok + 1, n - 1); } else { assert all[1..] == []; }
  }

  lemma {:induction false} ClimbsGrow(hz: nat, max: nat, n: nat)
    requires hz <= max
    ensures Climbs(hz, max, n) == max || Power(10, n) * (Climbs(hz, max, n) - 9) >= Power(11, n) * (hz - 9)
  {
    if n > 0 {
      var h, h' := Climbs(hz, max, n - 1), Climbs(hz, max, n);
      ClimbsGrow(hz, max, n - 1);
      ClimbBounds(h, max);
      if h' != max {
        GrowStep(Power(10, n - 1), Power(11, n - 1), h, h', hz);
      }
    }
  }

  lemma GrowStep(p: nat, q: nat, h: int, h': int, hz: int)
    requires p * (h - 9) >= q * (hz - 9) && 10 * h' >= 11 * h - 9
    ensures (p * 10) * (h' - 9) >= (q * 11) * (hz - 9)
  {
    Negate(p, h - 9);
    Negate(q, hz - 9);
    Negate(p * 10, h' - 9);
    Negate(q * 11, hz - 9);
    Scale(p, q, 10, 11, 9 - h, 9 - h', 9 - hz);
  }

  lemma Negate(x: int, y: int)
    ensures x * -y == -(x * y)
  {
  }

  lemma MorePowers()
    ensures Power(10, 8) == 100_000_000 && Power(11, 8) == 214_358_881
  {
  }

  lemma {:induction false} ClimbsAdd(hz: nat, max: nat, m: nat, n: nat)
    requires hz <= max
    ensures Climbs(hz, max, m + n) == Climbs(Climbs(hz, max, m), max, n)
  {
    if n > 0 { ClimbsAdd(hz, max, m, n - 1); }
  }

  lemma EightClimbsDouble(hz: nat, max: nat)
    requires 100 <= hz <= max
    ensures Climbs(hz, max, 8) == max || Climbs(hz, max, 8) >= 2 * hz + 4
  {
    ClimbsGrow(hz, max, 8);
    MorePowers();
    hide Climbs;
    hide Power;
  }

  lemma {:induction false} CeilingHolds(max: nat, n: nat)
    ensures Climbs(max, max, n) == max
  {
    if n > 0 { CeilingHolds(max, n - 1); ClimbBounds(max, max); }
  }

  lemma TwentyFourClimbsReachTheCeiling(hz: nat, max: nat)
    requires 1 <= max <= 8_000 && MinHz(max) <= hz <= max
    ensures Climbs(hz, max, 24) == max
  {
    hide Climbs;
    if hz == max {
      CeilingHolds(max, 24);
    } else {
      var h8 := Climbs(hz, max, 8);
      var h16 := Climbs(h8, max, 8);
      ClimbsAdd(hz, max, 8, 8);
      ClimbsAdd(hz, max, 16, 8);
      EightClimbsDouble(hz, max);
      CeilingHolds(max, 8);
      if h8 != max {
        EightClimbsDouble(h8, max);
        if h16 != max { EightClimbsDouble(h16, max); }
      }
    }
  }

  lemma {:induction false} RunsOfSuccessesClimb(hz: nat, max: nat, n: nat)
    requires 1 <= max && hz <= max
    ensures Outcomes(Pace(hz, 0), max, seq(32 * n, i => Ok)) == Pace(Climbs(hz, max, n), 0)
  {
    if n > 0 {
      var before, run := seq(32 * (n - 1), i => Ok), seq(32, i => Ok);
      RunsOfSuccessesClimb(hz, max, n - 1);
      assert seq(32 * n, i => Ok) == before + run;
      OutcomesAppend(Pace(hz, 0), max, before, run);
      SuccessesClimb(Climbs(hz, max, n - 1), max, 0, 32);
    } else {
      assert seq(0, i => Ok) == [];
    }
  }

  /** 768 sends without a failure take any rate back to the configured ceiling. */
  lemma SuccessesReachTheCeiling(hz: nat, max: nat)
    requires 1 <= max <= 8_000 && MinHz(max) <= hz <= max
    ensures Outcomes(Pace(hz, 0), max, seq(768, i => Ok)) == Pace(max, 0)
  {
    RunsOfSuccessesClimb(hz, max, 24);
    TwentyFourClimbsReachTheCeiling(hz, max);
  }
}
