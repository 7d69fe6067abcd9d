/** CSI delivery: the gates, filters and reporting policy a captured frame passes, and the one path
    it leaves by. */
module Delivery {
  import opened Arith
  import opened Bytes
  import opened Wire
  import Magic
  import Policy
  import Session
  import Stats
  import Handoff

  const QUEUE_CAPACITY: nat := 32
  /** The all-zero address: no filter. */
  const ANY_MAC: Mac := [0, 0, 0, 0, 0, 0]
  const U64_RANGE: nat := 0x1_0000_0000_0000_0000

  datatype Mode = Off | Callback | Async

  datatype Reporting =
    | Report(local: bool)
    | ThresholdBased(level: u16, holdMs: u16, variationOnly: bool)
    | Decimate(n: u16)
    | Silent

  /** What the radio hands to the callback. The mapping of its receive-control fields to `meta` is
      the crate's `rx_meta`; the timestamp in it is overwritten by the widened one. */
  datatype Info = Info(mac: Mac, sigMode: u8, rawTimestamp: u32, buf: seq<i8>, meta: RxMeta,
                       payload: seq<byte>, header: Option<HeaderDigest>, chip: Chip,
                       layout: LayoutId, firstWordInvalid: bool)

  /** The one thing that happens to a callback frame. */
  datatype Fate = Raw | Gated | Filtered | Suppressed | Oversize | Delivered(packet: Packet)

  datatype Kind = RawKind | GatedKind | FilteredKind | SuppressedKind | OversizeKind | DeliveredKind

  function KindOf(f: Fate): Kind {
    match f
    case Raw => RawKind case Gated => GatedKind case Filtered => FilteredKind
    case Suppressed => SuppressedKind case Oversize => OversizeKind case Delivered(_) => DeliveredKind
  }

  /** Frames that met a fate of the kind. */
  function Tally(fates: seq<Fate>, kind: Kind): nat {
    if fates == [] then 0
    else Tally(fates[..|fates| - 1], kind) + if KindOf(fates[|fates| - 1]) == kind then 1 else 0
  }

  lemma TallySnoc(fates: seq<Fate>, f: Fate, kind: Kind)
    ensures Tally(fates + [f], kind) == Tally(fates, kind) + if KindOf(f) == kind then 1 else 0
  {
  }

  /** The six kinds partition the frames. */
  lemma {:induction false} FatesPartition(fates: seq<Fate>)
    ensures |fates| == Tally(fates, RawKind) + Tally(fates, GatedKind) + Tally(fates, FilteredKind)
                     + Tally(fates, SuppressedKind) + Tally(fates, OversizeKind)
                     + Tally(fates, DeliveredKind)
  {
    if fates != [] { FatesPartition(fates[..|fates| - 1]); }
  }

  /** A 32-bit counter that is bumped for every frame of a kind. */
  lemma CounterFollows(counter: u32, n: nat)
    requires counter == n % Stats.U32_RANGE
    ensures Stats.WrapAdd(counter, 1) == (n + 1) % Stats.U32_RANGE
  {
    ModSucc(n, Stats.U32_RANGE);
  }

  function IsRetry(h: HeaderDigest): bool { h.frameControl / 0x800 % 2 == 1 }

  /** The sequence number of the ESP32-C5 is not usable for counting gaps. */
  function HeardOf(f: CsiFrame, onC5: bool): Stats.Heard {
    Stats.Heard(Transmitter(f), if onC5 then None else f.meta.frameSeq,
                match f.header case None => None case Some(h) => Some(IsRetry(h)))
  }

  /** What the statistics are told of a frame: the transmitter its header names, else the one its stimulus
      names; its sequence number, except on the ESP32-C5; and bit 11 of the frame control field. */
  lemma HeardIs(f: CsiFrame, onC5: bool)
    ensures var n := if onC5 then None else f.meta.frameSeq;
            HeardOf(f, onC5) ==
            match f.header
            case None => Stats.Heard(f.stimulus.ta, n, None)
            case Some(h) => Stats.Heard(h.addr2, n, Some(h.frameControl % 0x1000 >= 0x800))
  {
  }

  /** The queue after an uninterrupted delivery, and whether it overflowed. */
  function Enqueued(queue: seq<Packet>, p: Packet, dropOldest: bool): (seq<Packet>, bool) {
    Handoff.Uninterrupted(queue, p, QUEUE_CAPACITY, dropOldest)
  }

  /** The attribution filter, and whether it is set at all. */
  datatype Filter = Filter(active: bool, peer: Mac, minSigMode: u8)

  predicate Passes(f: Filter, i: Info) {
    !f.active || ((f.peer == ANY_MAC || f.peer == i.mac) && (f.minSigMode == 0 || i.sigMode >= f.minSigMode))
  }

  /** What the policy makes of a buffer: what it remembers then, whether it admits the buffer, its score. */
  function Policed(policy: Reporting, d: Policy.Detector, buf: seq<i8>, nowUs: u64): (r: (Policy.Detector, bool, u16))
    requires |d.base| == Policy.SAMPLED
    ensures |r.0.base| == Policy.SAMPLED
  {
    match policy
    case ThresholdBased(level, holdMs, _) =>
      var (e, score) := Policy.Scored(d, buf);
      var (hold, keep) := Policy.Decided(e.hold, Policy.Sample(score, nowUs), level, holdMs);
      (e.(hold := hold), keep, score)
    case Decimate(n) =>
      var (count, keep) := Policy.Ticked(d.count, n);
      (d.(count := count), keep, 0)
    case _ => (d, true, 0)
  }

  /** What stops a frame before it is built, in the order the callback asks. */
  predicate Decides(fate: Fate, raw: bool, open: bool, passes: bool, admits: bool) {
    && (fate.Raw? <==> raw)
    && (fate.Gated? <==> !raw && !open)
    && (fate.Filtered? <==> !raw && open && !passes)
    && (fate.Suppressed? <==> !raw && open && passes && !admits)
  }

  /** The 32-bit counters agree with the fates so far. */
  predicate Tallied(fates: seq<Fate>, filtered: u32, suppressed: u32, oversize: u32) {
    && filtered == Tally(fates, FilteredKind) % Stats.U32_RANGE
    && suppressed == Tally(fates, SuppressedKind) % Stats.U32_RANGE
    && oversize == Tally(fates, OversizeKind) % Stats.U32_RANGE
  }

  /** One more fate moves its own counter and no other. */
  lemma TalliedSnoc(fates: seq<Fate>, f: Fate, filtered: u32, suppressed: u32, oversize: u32)
    requires Tallied(fates, filtered, suppressed, oversize)
    ensures Tallied(fates + [f],
                    if f.Filtered? then Stats.WrapAdd(filtered, 1) else filtered,
                    if f.Suppressed? then Stats.WrapAdd(suppressed, 1) else suppressed,
                    if f.Oversize? then Stats.WrapAdd(oversize, 1) else oversize)
  {
    TallySnoc(fates, f, FilteredKind);
    TallySnoc(fates, f, SuppressedKind);
    TallySnoc(fates, f, OversizeKind);
    if f.Filtered? { CounterFollows(filtered, Tally(fates, FilteredKind)); }
    if f.Suppressed? { CounterFollows(suppressed, Tally(fates, SuppressedKind)); }
    if f.Oversize? { CounterFollows(oversize, Tally(fates, OversizeKind)); }
  }

  class CsiDelivery {
    /** The chip the program is built for is the ESP32-C5. */
    const onC5: bool
    // Gates.
    var rawCallback: bool
    var userIntent: bool
    var reports: bool
    var outputEnabled: bool
    var publishEnabled: bool
    // Signals to the tasks.
    var outputChanged: bool
    var reportingChanged: bool
    // Attribution filter.
    var peerFilter: Mac
    var minSigMode: u8
    var filterActive: bool
    // Reporting policy.
    var policy: Reporting
    var policyReset: bool
    const threshold: Policy.ThresholdState
    const decimator: Policy.Decimator
    // Routes.
    var mode: Mode
    var callback: bool
    var inlineLog: bool
    var dropOldest: bool
    var seqDropDetection: bool
    var queue: seq<Packet>
    var woken: nat
    var calledBack: seq<Packet>
    var logged: seq<Packet>
    // Context and counters.
    const context: Session.Context
    const stats: Stats.Statistics
    ghost var fates: seq<Fate>

    constructor (node: Mac, onC5: bool)
      ensures this.onC5 == onC5
      ensures Valid() && fates == [] && queue == [] && !publishEnabled
      ensures fresh(context) && fresh(stats) && fresh(threshold) && fresh(threshold.base)
      ensures fresh(decimator)
    {
      this.onC5 := onC5;
      rawCallback, userIntent, reports, outputEnabled, publishEnabled := false, false, false, true, false;
      peerFilter, minSigMode, filterActive := ANY_MAC, 0, false;
      policy, policyReset := Silent, false;
      outputChanged, reportingChanged := false, false;
      threshold := new Policy.ThresholdState();
      decimator := new Policy.Decimator();
      mode, callback, inlineLog, dropOldest, seqDropDetection := Off, false, false, false, false;
      queue, woken, calledBack, logged := [], 0, [], [];
      context := new Session.Context(node);
      stats := new Stats.Statistics();
      fates := [];
    }

    /** The cached gate is the conjunction of its three inputs, and the cached filter flag says
        whether a filter is set. */
    ghost predicate Configured()
      reads this, threshold, threshold.base, decimator
    {
      && publishEnabled == (userIntent && reports && outputEnabled)
      && filterActive == (peerFilter != ANY_MAC || minSigMode != 0)
      && reports == !policy.Silent?
      && threshold.Valid() && decimator.count < 0xFFFF
      && |queue| <= QUEUE_CAPACITY
    }

    /** Every counter agrees with the fates so far. */
    ghost predicate Counted()
      reads this`fates, stats
    {
      && stats.rxCount == |fates|
      && Tallied(fates, stats.rxFiltered, stats.rxPolicySuppressed, stats.rxOversize)
      && stats.DropsAgree()
    }

    ghost predicate Valid()
      reads this, threshold, threshold.base, decimator, stats
    {
      Configured() && Counted()
    }

    /** The counters account for every callback frame: those filtered, suppressed and oversize are counted
        as such, and the others went to the raw callback, met a closed gate or were delivered. */
    lemma FatesAreCounted()
      requires Valid() && |fates| < Stats.U32_RANGE
      ensures stats.rxCount == Tally(fates, RawKind) + Tally(fates, GatedKind) + Tally(fates, DeliveredKind)
                               + stats.rxFiltered + stats.rxPolicySuppressed + stats.rxOversize
    {
      FatesPartition(fates);
    }

    lemma ThresholdIsValid()
      requires Valid()
      ensures threshold.Valid()
    {
    }

    method ApplyPublishGate()
      modifies this`publishEnabled
      ensures publishEnabled == (userIntent && reports && outputEnabled)
    {
      publishEnabled := userIntent && reports && outputEnabled;
    }

    // ----- the writers of the gate's inputs: each leaves the gate in agreement -----

    method SetCsiLoggingEnabled(enabled: bool)
      requires Valid()
      modifies this`inlineLog, this`userIntent, this`publishEnabled
      ensures Valid() && inlineLog == enabled && userIntent == enabled
    {
      hide Counted;
      inlineLog, userIntent := enabled, enabled;
      ApplyPublishGate();
    }

    method SetCsiCallback()
      requires Valid()
      modifies this`callback, this`mode, this`userIntent, this`publishEnabled
      ensures Valid() && callback && mode == Callback && userIntent
    {
      hide Counted;
      callback, mode, userIntent := true, Callback, true;
      ApplyPublishGate();
    }

    method ClearCsiCallback()
      requires Valid()
      modifies this`callback, this`mode
      ensures Valid() && !callback && mode == Off
    {
      hide Counted;
      mode, callback := Off, false;
    }

    method SetCsiRawCallback()
      requires Valid()
      modifies this`rawCallback, this`userIntent, this`publishEnabled
      ensures Valid() && rawCallback && userIntent
    {
      hide Counted;
      rawCallback, userIntent := true, true;
      ApplyPublishGate();
    }

    method SetCsiOutputEnabled(enabled: bool)
      requires Valid()
      modifies this`outputEnabled, this`publishEnabled, this`outputChanged
      ensures Valid() && outputEnabled == enabled && outputChanged
    {
      hide Counted;
      outputEnabled := enabled;
      ApplyPublishGate();
      outputChanged := true;
    }

    /** The rate task's answer to the toggle: the sequence tracker resyncs before it counts again. */
    method TakeOutputChanged()
      requires Valid()
      modifies this`outputChanged, stats`resetSeqTracker
      ensures Valid() && !outputChanged
      ensures stats.resetSeqTracker == (old(stats.resetSeqTracker) || old(outputChanged))
    {
      if outputChanged {
        outputChanged := false;
        stats.resetSeqTracker := true;
      }
    }

    /** Change the reporting; a factor of 0 is 1. The policy's state restarts at the next frame. */
    method SetRuntimeReporting(to: Reporting)
      requires Valid()
      modifies this`policy, this`policyReset, this`reports, this`publishEnabled, this`reportingChanged
      ensures Valid() && reportingChanged && policyReset && reports == !to.Silent?
      ensures policy == if to == Decimate(0) then Decimate(1) else to
    {
      hide Counted;
      hide Policy.ThresholdState.Valid;
      policy, policyReset := if to == Decimate(0) then Decimate(1) else to, true;
      assert threshold.Valid() && Counted();
      reports, reportingChanged := !to.Silent?, true;
      assert threshold.Valid() && Counted();
      ApplyPublishGate();
    }

    /** The first await of the async queue: switches from `Off` only. */
    method OpenQueue()
      requires Valid()
      modifies this`mode, this`userIntent, this`publishEnabled
      ensures Valid() && mode == (if old(mode) == Off then Async else old(mode))
      ensures old(mode) != Off ==> publishEnabled == old(publishEnabled)
    {
      hide Counted;
      if mode == Off {
        mode, userIntent := Async, true;
        ApplyPublishGate();
      }
    }

    /** Between runs: every gate closes, the queue and the filters stay as they are. */
    method ResetGates()
      requires Valid()
      modifies this`inlineLog, this`userIntent, this`publishEnabled, this`outputEnabled, this`mode,
               this`callback
      ensures Valid() && !publishEnabled && mode == Off && !callback && !inlineLog && outputEnabled
    {
      hide Counted;
      hide Policy.ThresholdState.Valid;
      inlineLog, userIntent, publishEnabled := false, false, false;
      assert threshold.Valid() && Counted();
      outputEnabled, mode, callback := true, Off, false;
    }

    method SetPeerFilter(mac: Mac)
      requires Valid()
      modifies this`peerFilter, this`filterActive
      ensures Valid() && peerFilter == mac
    {
      hide Counted;
      peerFilter := mac;
      filterActive := peerFilter != ANY_MAC || minSigMode != 0;
    }

    method SetMinSigMode(min: u8)
      requires Valid()
      modifies this`minSigMode, this`filterActive
      ensures Valid() && minSigMode == min
    {
      hide Counted;
      minSigMode := min;
      filterActive := peerFilter != ANY_MAC || minSigMode != 0;
    }

    // ----- the capture path -----

    predicate PassesFilter(i: Info)
      reads this`filterActive, this`peerFilter, this`minSigMode
    {
      Passes(Filter(filterActive, peerFilter, minSigMode), i)
    }

    /** What stops a frame, in the configured fields. The raw callback takes every frame. A closed gate is a
        consumer missing, a node that does not report, or output switched off. A set peer filter lets only
        that peer through, and a set minimum only frames of at least that mode. */
    lemma FateIs(fate: Fate, i: Info, admits: bool)
      requires Configured() && Decides(fate, rawCallback, publishEnabled, PassesFilter(i), admits)
      ensures var open := userIntent && reports && outputEnabled;
              var rejected := (peerFilter != [0, 0, 0, 0, 0, 0] && i.mac != peerFilter)
                              || (minSigMode != 0 && i.sigMode < minSigMode);
              && (fate.Raw? <==> rawCallback)
              && (fate.Gated? <==> !rawCallback && !open)
              && (fate.Filtered? <==> !rawCallback && open && rejected)
              && (fate.Suppressed? <==> !rawCallback && open && !rejected && !admits)
    {
    }

    /** What the policy remembers, a pending reset already taken into account. */
    ghost function Detector(): (d: Policy.Detector)
      requires threshold.Valid()
      reads this`policyReset, threshold, threshold.base, decimator
      ensures |d.base| == Policy.SAMPLED
    {
      if policyReset then Policy.FreshDetector()
      else Policy.Detector(threshold.base[..], threshold.bufLen, threshold.holdUntilUs, decimator.count)
    }

    /** The score of a buffer against the policy's state, as the next call will compute it. */
    ghost function NextScore(buf: seq<i8>): u16
      requires threshold.Valid()
      reads this, threshold, threshold.base, decimator
    {
      Policed(policy, Detector(), buf, 0).2
    }

    /** Whether the reporting policy admits a buffer now. */
    ghost predicate Admits(buf: seq<i8>, nowUs: u64)
      requires threshold.Valid()
      reads this, threshold, threshold.base, decimator
    {
      Policed(policy, Detector(), buf, nowUs).1
    }

    /** A pending reset takes effect first; then the policy in force steps as specified. */
    method PolicyAdmits(buf: seq<i8>, nowUs: u64) returns (keep: bool, score: u16)
      requires Configured() && nowUs < U64_RANGE - 0x1_0000_0000
      modifies this`policyReset, threshold, threshold.base, decimator
      ensures Configured() && !policyReset
      ensures (Detector(), keep, score) == Policed(policy, old(Detector()), buf, nowUs)
    {
      ghost var was := Detector();
      if policyReset {
        policyReset := false;
        threshold.Reset();
        decimator.Reset();
        assert threshold.base[..] == Policy.FreshDetector().base;
      }
      assert Detector() == was;
      match policy {
        case ThresholdBased(level, holdMs, _) =>
          keep, score := JudgeScore(buf, level, holdMs, nowUs);
        case Decimate(n) =>
          keep := decimator.Tick(n);
          score := 0;
        case _ =>
          keep, score := true, 0;
      }
    }

    method JudgeScore(buf: seq<i8>, level: u16, holdMs: u16, nowUs: u64) returns (keep: bool, score: u16)
      requires threshold.Valid() && !policyReset && nowUs < U64_RANGE - 0x1_0000_0000
      modifies threshold, threshold.base
      ensures threshold.Valid()
      ensures (Detector(), keep, score) == Policed(ThresholdBased(level, holdMs, false), old(Detector()), buf, nowUs)
    {
      hide Policy.Profile;
      hide Policy.ShapeScore;
      hide Policy.Averaged;
      ghost var n := if |buf| < 2 then 0 else Policy.Taken(|buf|);
      score := threshold.Score(buf);
      assert threshold.base[..] == threshold.base[..n] + threshold.base[n..];
      keep := threshold.Decide(score, level, holdMs, nowUs);
    }

    /** The async queue: a full one counts an overflow and, under drop-oldest, makes room. */
    method DeliverAsync(p: Packet)
      requires |queue| <= QUEUE_CAPACITY
      modifies this`queue, this`woken, stats`rxOversize, stats`rxQueueFull, stats`rxSeqGap, stats`rxDropCount
      ensures queue == Enqueued(old(queue), p, dropOldest).0 && |queue| <= QUEUE_CAPACITY
      ensures queue == if |old(queue)| < 32 then old(queue) + [p]
                       else if dropOldest then old(queue)[1..] + [p] else old(queue)
      ensures woken == old(woken) + if |old(queue)| < QUEUE_CAPACITY || dropOldest then 1 else 0
      ensures stats.rxQueueFull == Stats.WrapAdd(old(stats.rxQueueFull),
                                     if Enqueued(old(queue), p, dropOldest).1 then 1 else 0)
      ensures stats.rxOversize == old(stats.rxOversize)
      ensures old(stats.DropsAgree()) ==> stats.DropsAgree()
    {
      if |queue| < QUEUE_CAPACITY {
        queue, woken := queue + [p], woken + 1;
      } else {
        stats.RecordLoss(Stats.QueueFull, 1);
        if dropOldest {
          queue := queue[1..];
          queue, woken := queue + [p], woken + 1;
        }
      }
    }

    /** Exactly one of the callback, the queue and the log. */
    method Dispatch(p: Packet)
      requires |queue| <= QUEUE_CAPACITY
      modifies this`queue, this`woken, this`calledBack, this`logged,
               stats`rxOversize, stats`rxQueueFull, stats`rxSeqGap, stats`rxDropCount
      ensures queue == (if mode == Async then Enqueued(old(queue), p, dropOldest).0 else old(queue))
      ensures |queue| <= QUEUE_CAPACITY
      ensures calledBack == old(calledBack) + if mode == Callback && callback then [p] else []
      ensures logged == old(logged)
                        + if mode == Off && inlineLog && policy != Report(true) then [p] else []
      ensures stats.rxQueueFull == Stats.WrapAdd(old(stats.rxQueueFull),
                if mode == Async && Enqueued(old(queue), p, dropOldest).1 then 1 else 0)
      ensures stats.rxOversize == old(stats.rxOversize)
      ensures old(stats.DropsAgree()) ==> stats.DropsAgree()
    {
      match mode {
        case Callback =>
          if callback { calledBack := calledBack + [p]; }
        case Async =>
          DeliverAsync(p);
        case Off =>
          if inlineLog && policy != Report(true) { logged := logged + [p]; }
      }
    }

    /** Per-transmitter statistics, then dispatch. */
    method Deliver(p: Packet)
      requires |queue| <= QUEUE_CAPACITY
      modifies this`queue, this`woken, this`calledBack, this`logged,
               stats`perTx, stats`perTxClock, stats`resetSeqTracker,
               stats`rxOversize, stats`rxQueueFull, stats`rxSeqGap, stats`rxDropCount
      ensures queue == (if mode == Async then Enqueued(old(queue), p, dropOldest).0 else old(queue))
      ensures |queue| <= QUEUE_CAPACITY
      ensures calledBack == old(calledBack) + if mode == Callback && callback then [p] else []
      ensures logged == old(logged)
                        + if mode == Off && inlineLog && policy != Report(true) then [p] else []
      ensures stats.rxQueueFull == Stats.WrapAdd(old(stats.rxQueueFull),
                if mode == Async && Enqueued(old(queue), p, dropOldest).1 then 1 else 0)
      ensures stats.rxOversize == old(stats.rxOversize)
      ensures stats.perTx == if !seqDropDetection then old(stats.perTx)
                             else Stats.Recorded(old(stats.perTx), old(stats.perTxClock),
                                                 old(stats.resetSeqTracker), HeardOf(p.frame, onC5)).0
      ensures old(stats.DropsAgree()) ==> stats.DropsAgree()
    {
      hide Stats.Recorded;
      hide Enqueued;
      if seqDropDetection { stats.RecordTxFrame(HeardOf(p.frame, onC5)); }
      Dispatch(p);
    }

    /** The frame as built at a widened time. A controlled run reads the sounding's number off the measured
        frame itself, if it is one of the initiator's. */
    function Built(i: Info, time: u64): CsiFrame
      requires |i.buf| <= MAX_CSI_BYTES
      reads context`controlled, context`setupId, context`soundingInstance, context`headerDigest
    {
      var instance := if context.controlled then Magic.ControlSequenceIn(i.payload) else None;
      CsiFrame(i.meta.(timestampUs := time), context.StimulusOf(i.mac, instance),
               if context.headerDigest then i.header else None,
               EspRaw(i.chip, i.layout, i.firstWordInvalid, i.buf))
    }

    /** A measured control frame is labelled with its own sounding, whichever one the node recorded last:
        behind any prefix without the magic and before any padding. */
    lemma ControlFrameNamesItself(i: Info, time: u64, prefix: seq<byte>, p: Magic.ControlPacket, pad: seq<byte>)
      requires |i.buf| <= MAX_CSI_BYTES && context.controlled && forall k :: !Magic.MagicAt(prefix, k)
      requires i.payload == prefix + Magic.Framed(Magic.PutControl(p, []), Magic.INITIATOR_MAGIC, true) + pad
      ensures Built(i, time).stimulus == Controlled(context.setupId, p.sequenceNumber % 0x1_0000, i.mac)
    {
      Magic.FindsOwnNumber(prefix, p, pad);
      hide Magic.ControlSequenceIn;
    }

    /** Build the packet: the frame is stamped, announced if it is the run's first, and numbered.
        `None` if the buffer is too long; then nothing is stamped. */
    method BuildPacket(i: Info, crate: (u8, u8, u8), nowUs: u64) returns (p: Option<Packet>)
      requires context.epoch.Some? ==> context.epoch.value.0 + context.Elapsed(nowUs) < U64_RANGE
      modifies context
      ensures p.Some? <==> |i.buf| <= MAX_CSI_BYTES
      ensures p.None? ==> context.streamSeq == old(context.streamSeq)
                          && context.anchorPending == old(context.anchorPending)
                          && context.Now() == old(context.Now())
      ensures p.Some? ==>
                var (clock, time) := Session.Widen(old(context.Now()), i.rawTimestamp);
                && context.Now() == clock
                && p.value.envelope == Envelope(WIRE_VERSION, context.nodeId, context.sessionId,
                                                EspVendor, old(context.streamSeq))
                && p.value.frame == Built(i, time)
                && p.value.session ==
                   (if !old(context.anchorPending) then None
                    else Some(SessionInfo(i.chip, crate, time,
                                          match old(context.epoch)
                                          case None => None
                                          case Some((us, at)) => Some(us + if nowUs > at then nowUs - at else 0))))
                && !context.anchorPending
                && context.streamSeq == Session.WrappingSucc(old(context.streamSeq))
      ensures context.Identity() == old(context.Identity())
    {
      if |i.buf| > MAX_CSI_BYTES { return None; }
      var time := context.WidenTimestamp(i.rawTimestamp);
      var session := context.TakeAnnouncement(i.chip, crate, time, nowUs);
      var envelope := context.NextEnvelope(EspVendor);
      p := Some(Packet(envelope, Built(i, time), session));
    }

    /** A variation-only report carries the score in place of the buffer. */
    function Reported(p: Packet, score: u16): Packet
      reads this
    {
      if policy.ThresholdBased? && policy.variationOnly then
        p.(frame := p.frame.(payload := Variation(score)))
      else p
    }

    /** Whether a frame is to be built at all: what stops it, if anything, and its score. */
    method Judge(i: Info, nowUs: u64) returns (stopped: Option<Fate>, score: u16)
      requires Configured() && nowUs < U64_RANGE - 0x1_0000_0000
      modifies this`policyReset, threshold, threshold.base, decimator
      ensures Configured()
      ensures forall f: Fate :: (stopped == Some(f) || (stopped == None && (f.Oversize? || f.Delivered?))) ==>
                Decides(f, rawCallback, publishEnabled, old(PassesFilter(i)), old(Admits(i.buf, nowUs)))
      ensures stopped in {None, Some(Raw), Some(Gated), Some(Filtered), Some(Suppressed)}
      ensures old(Counting()) ==> Counting()
      ensures Detector() == old(After(i, nowUs, Detector()))
      ensures stopped == None ==> score == if policy.ThresholdBased? then old(NextScore(i.buf)) else 0
    {
      score := 0;
      if rawCallback { return Some(Raw), 0; }
      if !publishEnabled { return Some(Gated), 0; }
      if !PassesFilter(i) { return Some(Filtered), 0; }
      stopped := None;
      if !policy.Report? {
        var admitted;
        admitted, score := PolicyAdmits(i.buf, nowUs);
        if !admitted { stopped := Some(Suppressed); }
      }
    }

    /** What the policy remembers after a frame: it only ever sees one that the gates and the filter let
        through. */
    ghost function After(i: Info, nowUs: u64, d: Policy.Detector): Policy.Detector
      requires |d.base| == Policy.SAMPLED
      reads this
    {
      if !rawCallback && publishEnabled && PassesFilter(i) then Policed(policy, d, i.buf, nowUs).0 else d
    }

    /** The packet a frame becomes: stamped at the widened time and, for a variation-only report,
        carrying the score in place of the buffer. */
    ghost predicate IsPacketOf(p: Packet, i: Info, score: u16, before: Session.Clock, seqNo: u32)
      reads this, context
    {
      var time := Session.Widen(before, i.rawTimestamp).1;
      && |i.buf| <= MAX_CSI_BYTES
      && p.envelope == Envelope(WIRE_VERSION, context.nodeId, context.sessionId, EspVendor, seqNo)
      && p.frame == if policy.ThresholdBased? && policy.variationOnly then
                      Built(i, time).(payload := Variation(score))
                    else Built(i, time)
    }

    /** The run's first packet announces the chip, the version, the frame's own time and the wall-clock time it
        stands for: the epoch supplied, advanced by the time since. No other announces anything. */
    ghost predicate Announces(p: Packet, pending: bool, chip: Chip, crate: (u8, u8, u8), nowUs: u64)
      reads context`epoch
    {
      match p.session
      case None => !pending
      case Some(info) =>
        && pending && info.chip == chip && info.crateVersion == crate
        && info.timestampUs == p.frame.meta.timestampUs
        && match context.epoch
           case None => info.epochUnixUs == None
           case Some((us, at)) =>
             info.epochUnixUs.Some? && info.epochUnixUs.value == us + if nowUs > at then nowUs - at else 0
    }

    lemma AnnouncesIff(p: Packet, pending: bool, chip: Chip, crate: (u8, u8, u8), nowUs: u64)
      requires Announces(p, pending, chip, crate, nowUs)
      ensures p.session.Some? <==> pending
    {
    }

    /** That packet, part by part. Its stimulus names the frame's source; in a controlled run also the sounding
        the frame itself names, else the one last recorded, cut to 16 bits. */
    lemma PacketIs(p: Packet, i: Info, score: u16, before: Session.Clock, seqNo: u32)
      requires IsPacketOf(p, i, score, before, seqNo)
      ensures p.envelope == Envelope(1, context.nodeId, context.sessionId, EspVendor, seqNo)
      ensures p.frame.meta == i.meta.(timestampUs := Session.Widen(before, i.rawTimestamp).1)
      ensures p.frame.header == if context.headerDigest then i.header else None
      ensures p.frame.payload == if policy.ThresholdBased? && policy.variationOnly then Variation(score)
                                 else EspRaw(i.chip, i.layout, i.firstWordInvalid, i.buf)
      ensures p.frame.stimulus ==
              if !context.controlled then Ambient(i.mac)
              else
                var named := Magic.ControlSequenceIn(i.payload);
                Controlled(context.setupId,
                           (if named.Some? then named.value else context.soundingInstance) % 0x1_0000, i.mac)
    {
    }

    /** A frame has been counted and has not met its fate yet. */
    ghost predicate Counting()
      reads this`fates, stats
    {
      && stats.rxCount == |fates| + 1
      && Tallied(fates, stats.rxFiltered, stats.rxPolicySuppressed, stats.rxOversize)
      && stats.DropsAgree()
    }

    method CountFrame()
      requires Valid()
      modifies stats`rxCount
      ensures Configured() && Counting()
    {
      stats.rxCount := stats.rxCount + 1;
    }

    /** The frame goes no further; a filtered or suppressed one is counted as such. */
    method Stop(f: Fate)
      requires Configured() && Counting() && !f.Oversize? && !f.Delivered?
      modifies stats`rxFiltered, stats`rxPolicySuppressed, this`fates
      ensures Configured() && Counted() && fates == old(fates) + [f]
      ensures Routed(queue, calledBack, logged, f)
      ensures Noted(old(stats.perTx), old(stats.perTxClock), old(stats.resetSeqTracker), old(queue),
                    old(stats.rxQueueFull), f)
    {
      TalliedSnoc(fates, f, stats.rxFiltered, stats.rxPolicySuppressed, stats.rxOversize);
      hide Tallied;
      if f.Filtered? {
        stats.rxFiltered := Stats.WrapAdd(stats.rxFiltered, 1);
      } else if f.Suppressed? {
        stats.rxPolicySuppressed := Stats.WrapAdd(stats.rxPolicySuppressed, 1);
      }
      fates := fates + [f];
    }

    method DropOversize()
      requires Configured() && Counting()
      modifies this`fates, stats`rxOversize, stats`rxQueueFull, stats`rxSeqGap, stats`rxDropCount
      ensures Configured() && Counted() && fates == old(fates) + [Oversize]
      ensures Routed(queue, calledBack, logged, Oversize)
      ensures Noted(old(stats.perTx), old(stats.perTxClock), old(stats.resetSeqTracker), old(queue),
                    old(stats.rxQueueFull), Oversize)
    {
      TalliedSnoc(fates, Oversize, stats.rxFiltered, stats.rxPolicySuppressed, stats.rxOversize);
      hide Tallied;
      stats.RecordLoss(Stats.Oversize, 1);
      fates := fates + [Oversize];
    }

    method DeliverCounted(p: Packet)
      requires Configured() && Counting()
      modifies this`fates, this`queue, this`woken, this`calledBack, this`logged,
               stats`perTx, stats`perTxClock, stats`resetSeqTracker,
               stats`rxOversize, stats`rxQueueFull, stats`rxSeqGap, stats`rxDropCount
      ensures Configured() && Counted() && fates == old(fates) + [Delivered(p)]
      ensures Routed(old(queue), old(calledBack), old(logged), Delivered(p))
      ensures Noted(old(stats.perTx), old(stats.perTxClock), old(stats.resetSeqTracker), old(queue),
                    old(stats.rxQueueFull), Delivered(p))
    {
      hide Enqueued;
      hide Stats.Recorded;
      hide HeardOf;
      hide Tallied;
      TalliedSnoc(fates, Delivered(p), stats.rxFiltered, stats.rxPolicySuppressed, stats.rxOversize);
      fates := fates + [Delivered(p)];
      Deliver(p);
    }

    /** The frame is admitted: build it and deliver it, unless its buffer is too long. */
    method Emit(i: Info, crate: (u8, u8, u8), nowUs: u64, score: u16) returns (ghost fate: Fate)
      requires Configured() && Counting()
      requires context.epoch.Some? ==> context.epoch.value.0 + context.Elapsed(nowUs) < U64_RANGE
      modifies this`fates, this`queue, this`woken, this`calledBack, this`logged, context, stats
      ensures Configured() && Counted() && fates == old(fates) + [fate]
      ensures fate.Oversize? || fate.Delivered?
      ensures fate.Delivered? <==> |i.buf| <= 612
      ensures fate.Delivered? ==>
                IsPacketOf(fate.packet, i, score, old(context.Now()), old(context.streamSeq))
      ensures context.streamSeq == if fate.Delivered? then Session.WrappingSucc(old(context.streamSeq))
                                   else old(context.streamSeq)
      ensures context.Identity() == old(context.Identity())
      ensures context.anchorPending == (old(context.anchorPending) && !fate.Delivered?)
      ensures fate.Delivered? ==> Announces(fate.packet, old(context.anchorPending), i.chip, crate, nowUs)
      ensures Routed(old(queue), old(calledBack), old(logged), fate)
      ensures Noted(old(stats.perTx), old(stats.perTxClock), old(stats.resetSeqTracker), old(queue),
                    old(stats.rxQueueFull), fate)
    {
      hide Enqueued;
      hide Configured;
      hide Tallied;
      hide Routed;
      hide Noted;
      var built := BuildPacket(i, crate, nowUs);
      match built {
        case None =>
          fate := Oversize;
          DropOversize();
        case Some(packet) =>
          var p := Reported(packet, score);
          fate := Delivered(p);
          DeliverCounted(p);
      }
    }

    /** A delivered frame leaves by the one path the mode selects; any other leaves by none. */
    ghost predicate Routed(queue0: seq<Packet>, calledBack0: seq<Packet>, logged0: seq<Packet>, fate: Fate)
      reads this
    {
      var out := fate.Delivered?;
      && queue == (if out && mode == Async then Enqueued(queue0, fate.packet, dropOldest).0 else queue0)
      && calledBack == (if out && mode == Callback && callback then calledBack0 + [fate.packet]
                        else calledBack0)
      && logged == (if out && mode == Off && inlineLog && policy != Report(true)
                    then logged0 + [fate.packet] else logged0)
    }

    /** Only a delivered frame is recorded for its transmitter, if sequence statistics are on, and only a
        frame for a full queue counts as an overflow. */
    ghost predicate Noted(table0: Stats.Table, clock0: u32, resync0: bool, queue0: seq<Packet>, full0: u32,
                          fate: Fate)
      reads this, stats
    {
      && stats.perTx == (if fate.Delivered? && seqDropDetection
                         then Stats.Recorded(table0, clock0, resync0, HeardOf(fate.packet.frame, onC5)).0 else table0)
      && stats.rxQueueFull == Stats.WrapAdd(full0,
           if fate.Delivered? && mode == Async && Enqueued(queue0, fate.packet, dropOldest).1 then 1 else 0)
    }

    /** The radio's callback: one frame, one fate, which `FateIs` puts in the configured fields. Only a delivered
        frame takes a stream number, and it takes the next one. */
    method Capture(i: Info, crate: (u8, u8, u8), nowUs: u64) returns (ghost fate: Fate)
      requires Valid() && nowUs < U64_RANGE - 0x1_0000_0000
      requires context.epoch.Some? ==> context.epoch.value.0 + context.Elapsed(nowUs) < U64_RANGE
      modifies this`fates, this`policyReset,
               this`queue, this`woken, this`calledBack, this`logged,
               threshold, threshold.base, decimator, context, stats
      ensures Valid() && fates == old(fates) + [fate]
      ensures Decides(fate, rawCallback, publishEnabled, old(PassesFilter(i)), old(Admits(i.buf, nowUs)))
      ensures Detector() == old(After(i, nowUs, Detector()))
      ensures fate.Oversize? ==> |i.buf| > 612
      ensures fate.Delivered? ==>
                IsPacketOf(fate.packet, i, if policy.ThresholdBased? then old(NextScore(i.buf)) else 0,
                           old(context.Now()), old(context.streamSeq))
      ensures context.streamSeq == if fate.Delivered? then Session.WrappingSucc(old(context.streamSeq))
                                   else old(context.streamSeq)
      ensures context.Identity() == old(context.Identity())
      ensures context.anchorPending == (old(context.anchorPending) && !fate.Delivered?)
      ensures fate.Delivered? ==> Announces(fate.packet, old(context.anchorPending), i.chip, crate, nowUs)
      ensures Routed(old(queue), old(calledBack), old(logged), fate)
      ensures Noted(old(stats.perTx), old(stats.perTxClock), old(stats.resetSeqTracker), old(queue),
                    old(stats.rxQueueFull), fate)
    {
      hide IsPacketOf;
      hide Announces;
      hide Decides;
      hide Tallied;
      hide Routed;
      hide Noted;
      hide Admits;
      hide PassesFilter;
      hide NextScore;
      hide Detector;
      hide After;
      hide Configured;
      hide Counting;
      hide Counted;
      hide Session.WrappingSucc;
      hide Enqueued;
      CountFrame();
      var stopped, score := Judge(i, nowUs);
      if stopped.Some? {
        fate := stopped.value;
        Stop(stopped.value);
      } else {
        fate := Emit(i, crate, nowUs, score);
      }
    }
  }
}
