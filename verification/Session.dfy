/** Session context: the receive clock that does not wrap, the stream counter and the session
    announcement. */
module Session {
  import opened Bytes
  import Wire

  const HALF: nat := 0x7FFF_FFFF
  const WRAP: nat := 0x1_0000_0000

  // ----- widening, as a function of its two words of state -----

  datatype Clock = Clock(last: u32, wraps: u32)

  const START: Clock := Clock(0, 0)

  function WrappingSucc(n: u32): u32 { (n + 1) % WRAP }

  /** The clock after a raw timestamp, and the 64-bit time given to it. */
  function Widen(c: Clock, raw: u32): (Clock, u64) {
    if raw < c.last then
      if c.last - raw > HALF then
        var wraps := WrappingSucc(c.wraps);
        (Clock(raw, wraps), wraps * WRAP + raw)
      else (c, c.wraps * WRAP + raw)
    else if raw - c.last > HALF && c.wraps > 0 then
      (c, (c.wraps - 1) * WRAP + raw)
    else
      (Clock(raw, c.wraps), c.wraps * WRAP + raw)
  }

  /** The time the clock has reached. */
  function Reached(c: Clock): u64 { c.wraps * WRAP + c.last }

  /** What the radio reports of a true time. */
  function Raw(t: u64): u32 { t % WRAP }

  lemma SplitTime(t: u64)
    ensures 0 <= t / WRAP < WRAP && t == t / WRAP * WRAP + Raw(t)
  {
  }

  /** The true times a clock recovers, and no others: within half a range of the time reached, all of them;
      exactly half a range away, those in the neighbouring epoch; in the first epoch, any later time of that
      epoch; once the wrap counter itself has wrapped, the start of time. */
  lemma WidenExactIff(c: Clock, t: u64)
    ensures var m, epoch := c.wraps * 0x1_0000_0000 + c.last, t / 0x1_0000_0000;
            Widen(c, t % 0x1_0000_0000).1 == t <==>
            || m - 0x8000_0000 < t < m + 0x8000_0000
            || ((t == m + 0x8000_0000 || t + 0x8000_0000 == m) && epoch != c.wraps)
            || (c.wraps == 0 && epoch == 0 && m <= t)
            || (c.wraps == 0xFFFF_FFFF && epoch == 0 && t + 0x8000_0000 <= c.last)
  {
    SplitTime(t);
  }

  // ----- a whole run -----

  function Widened(c: Clock, ts: seq<u64>): seq<u64>
    decreases |ts|
  {
    if ts == [] then []
    else
      var (c', t) := Widen(c, Raw(ts[0]));
      [t] + Widened(c', ts[1..])
  }

  /** Each time is within half a range of the latest so far, earlier or later. */
  predicate Close(latest: u64, ts: seq<u64>)
    decreases |ts|
  {
    ts == [] ||
    (latest - HALF <= ts[0] <= latest + HALF && Close(Max(latest, ts[0]), ts[1..]))
  }

  function Max(a: u64, b: u64): u64 { if a < b then b else a }

  /** A recovered step leaves the clock at the latest time. */
  lemma WidenTracksLatest(c: Clock, t: u64)
    requires Reached(c) - HALF <= t <= Reached(c) + HALF
    ensures var (c', w) := Widen(c, Raw(t)); w == t && Reached(c') == Max(Reached(c), t)
  {
    WidenExactIff(c, t);
    SplitTime(t);
  }

  lemma {:induction false} CloseIsExact(c: Clock, ts: seq<u64>)
    requires Close(Reached(c), ts)
    ensures Widened(c, ts) == ts
    decreases |ts|
  {
    if ts != [] {
      WidenTracksLatest(c, ts[0]);
      CloseIsExact(Widen(c, Raw(ts[0])).0, ts[1..]);
    }
  }

  /** A run that starts in the first 71.6 minutes of the node's clock and whose frames are never
      more than half a range from the latest is timed exactly, across any number of wraps. */
  lemma RunIsExact(ts: seq<u64>)
    requires ts != [] ==> ts[0] < WRAP && Close(ts[0], ts[1..])
    ensures Widened(START, ts) == ts
  {
    if ts != [] {
      SplitTime(ts[0]);
      CloseIsExact(Widen(START, Raw(ts[0])).0, ts[1..]);
    }
  }

  lemma WidenedStep(c: Clock, t: u64, ts: seq<u64>)
    ensures Widened(c, [t] + ts) == [Widen(c, Raw(t)).1] + Widened(Widen(c, Raw(t)).0, ts)
  {
  }

  /** The bound is tight: a frame one microsecond further back than half a range can be mistimed. */
  lemma TooEarly()
    ensures Widened(START, [HALF + 1, 0]) != [HALF + 1, 0]
  {
  }

  /** Nor can a frame be one microsecond further ahead. */
  lemma TooLate()
    ensures Close(0, [HALF, 2 * HALF, WRAP])
    ensures Widened(START, [0, HALF, 2 * HALF, WRAP, WRAP + HALF + 1]) != [0, HALF, 2 * HALF, WRAP, WRAP + HALF + 1]
  {
    assert Close(2 * HALF, [WRAP]);
    assert [2 * HALF, WRAP][1..] == [WRAP] && [HALF, 2 * HALF, WRAP][1..] == [2 * HALF, WRAP];
    hide Close;
    var next: u64 := WRAP + HALF + 1;
    WidenedStep(Clock(0, 1), next, []);
    WidenedStep(Clock(2 * HALF, 0), WRAP, [next]);
    WidenedStep(Clock(HALF, 0), 2 * HALF, [WRAP, next]);
    WidenedStep(START, HALF, [2 * HALF, WRAP, next]);
    WidenedStep(START, 0, [HALF, 2 * HALF, WRAP, next]);
    hide Widened;
    assert [next] + [] == [next] && [WRAP] + [next] == [WRAP, next];
    assert [2 * HALF] + [WRAP, next] == [2 * HALF, WRAP, next];
    assert [HALF] + [2 * HALF, WRAP, next] == [HALF, 2 * HALF, WRAP, next];
    assert [0] + [HALF, 2 * HALF, WRAP, next] == [0, HALF, 2 * HALF, WRAP, next];
    assert Widened(START, [0, HALF, 2 * HALF, WRAP, next])[4] == HALF + 1;
  }

  // ----- the process-wide context -----

  class Context {
    var nodeId: Mac
    var sessionId: u32
    var pinned: bool
    var epoch: Option<(u64, u64)>
    var streamSeq: u32
    var tsLastRaw: u32
    var tsWraps: u32
    var anchorPending: bool
    var controlled: bool
    var setupId: u8
    var soundingInstance: u32
    var headerDigest: bool

    constructor (node: Mac)
      ensures nodeId == node && !pinned && epoch == None && !anchorPending
    {
      nodeId, sessionId, pinned, epoch := node, 0, false, None;
      streamSeq, tsLastRaw, tsWraps, anchorPending := 0, 0, 0, false;
      controlled, setupId, soundingInstance, headerDigest := false, 0, 0, false;
    }

    ghost function Now(): Clock
      reads this
    {
      Clock(tsLastRaw, tsWraps)
    }

    /** Pin the session; `epochUs` is paired with the monotonic time `nowUs` it was given at. */
    method SetSession(id: u32, epochUs: Option<u64>, nowUs: u64)
      modifies this`sessionId, this`pinned, this`epoch
      ensures sessionId == id && pinned
      ensures epoch == match epochUs case None => None case Some(us) => Some((us, nowUs))
    {
      sessionId, pinned := id, true;
      epoch := match epochUs case None => None case Some(us) => Some((us, nowUs));
    }

    /** Start a run. `random` is the drawn id, used only when none is pinned; `controlled` says whether
        the mode sounds the channel itself. */
    method BeginRun(random: u32, controlled: bool, headerDigest: bool)
      modifies this
      ensures this.controlled == controlled && this.headerDigest == headerDigest
      ensures setupId == 0 && soundingInstance == 0
      ensures sessionId == if old(pinned) then old(sessionId) else random
      ensures streamSeq == 0 && Now() == START && anchorPending
      ensures nodeId == old(nodeId) && pinned == old(pinned) && epoch == old(epoch)
    {
      if !pinned { sessionId := random; }
      streamSeq, tsLastRaw, tsWraps, anchorPending := 0, 0, 0, true;
      this.controlled, setupId, soundingInstance, this.headerDigest := controlled, 0, 0, headerDigest;
    }

    method SetSoundingInstance(instance: u32)
      modifies this`soundingInstance
      ensures soundingInstance == instance
    {
      soundingInstance := instance;
    }

    /** What excited the channel for a frame from `ta`: in a controlled run the sounding whose number the
        frame itself carries, else the last one recorded; the number is cut to 16 bits. */
    function StimulusOf(ta: Mac, instance: Option<u32>): Wire.Stimulus
      reads this`controlled, this`setupId, this`soundingInstance
    {
      if !controlled then Wire.Ambient(ta)
      else
        var number := match instance case None => soundingInstance case Some(n) => n;
        Wire.Controlled(setupId, number % 0x1_0000, ta)
    }

    method WidenTimestamp(raw: u32) returns (t: u64)
      modifies this`tsLastRaw, this`tsWraps
      ensures (Now(), t) == Widen(old(Now()), raw)
    {
      var last, wraps := tsLastRaw, tsWraps;
      if raw < last {
        if last - raw > HALF {
          wraps := WrappingSucc(wraps);
          tsWraps := wraps;
          tsLastRaw := raw;
        }
      } else if raw - last > HALF && wraps > 0 {
        return (wraps - 1) * WRAP + raw;
      } else {
        tsLastRaw := raw;
      }
      t := wraps * WRAP + raw;
    }

    method NextEnvelope(source: Wire.SourceKind) returns (e: Wire.Envelope)
      modifies this`streamSeq
      ensures e == Wire.Envelope(Wire.WIRE_VERSION, nodeId, sessionId, source, old(streamSeq))
      ensures streamSeq == WrappingSucc(old(streamSeq))
    {
      e := Wire.Envelope(Wire.WIRE_VERSION, nodeId, sessionId, source, streamSeq);
      streamSeq := WrappingSucc(streamSeq);
    }

    /** What a run does not change: the node, the session and the epoch. */
    function Identity(): (Mac, u32, Option<(u64, u64)>)
      reads this
    {
      (nodeId, sessionId, epoch)
    }

    /** Monotonic time since the epoch was supplied. */
    function Elapsed(nowUs: u64): u64
      requires epoch.Some?
      reads this`epoch
    {
      if nowUs > epoch.value.1 then nowUs - epoch.value.1 else 0
    }

    /** The announcement, once per run. The wall-clock anchor is the controller's epoch advanced by
        the time since it was given; the sum must fit 64 bits, which the program's addition relies on. */
    method TakeAnnouncement(chip: Wire.Chip, crate: (u8, u8, u8), timestampUs: u64, nowUs: u64)
      returns (info: Option<Wire.SessionInfo>)
      requires epoch.Some? ==> epoch.value.0 + Elapsed(nowUs) < 0x1_0000_0000_0000_0000
      modifies this`anchorPending
      ensures !anchorPending
      ensures info ==
              if !old(anchorPending) then None
              else if epoch == None then Some(Wire.SessionInfo(chip, crate, timestampUs, None))
              else Some(Wire.SessionInfo(chip, crate, timestampUs,
                                         Some(epoch.value.0 + if nowUs > epoch.value.1 then nowUs - epoch.value.1
                                                              else 0)))
    {
      if !anchorPending { return None; }
      anchorPending := false;
      var anchor: Option<u64> := None;
      if epoch.Some? { anchor := Some(epoch.value.0 + Elapsed(nowUs)); }
      info := Some(Wire.SessionInfo(chip, crate, timestampUs, anchor));
    }
  }
}
