/** From the radio's callback to the host's summary: what a run of captured frames becomes on the
    other side of the serialized link. */
module EndToEnd {
  import opened Bytes
  import opened Wire
  import Delivery
  import Policy
  import Session
  import Stream

  /** One call of the radio's callback. */
  datatype Call = Call(info: Delivery.Info, nowUs: u64)

  /** The clock leaves room for a hold window and for the session's epoch. */
  predicate InTime(epoch: Option<(u64, u64)>, c: Call) {
    && c.nowUs < Delivery.U64_RANGE - 0x1_0000_0000
    && (epoch.Some? ==> epoch.value.0 + c.nowUs < Delivery.U64_RANGE)
  }

  function DeliveredOf(fates: seq<Delivery.Fate>): seq<Packet> {
    if fates == [] then []
    else
      var k := |fates| - 1;
      DeliveredOf(fates[..k]) + if fates[k].Delivered? then [fates[k].packet] else []
  }

  /** A run's packets: one session, numbered from 0, the first of them announcing it. */
  predicate Numbered(ps: seq<Packet>, sessionId: u32) {
    forall k | 0 <= k < |ps| ::
      && ps[k].envelope.version == WIRE_VERSION && ps[k].envelope.sessionId == sessionId
      && ps[k].envelope.streamSeq == k % 0x1_0000_0000
      && (ps[k].session.Some? <==> k == 0)
  }

  lemma DeliveredSnoc(fates: seq<Delivery.Fate>, f: Delivery.Fate)
    ensures DeliveredOf(fates + [f]) == DeliveredOf(fates) + if f.Delivered? then [f.packet] else []
  {
    assert (fates + [f])[..|fates|] == fates;
  }

  lemma NumberedNone(sessionId: u32)
    ensures Numbered([], sessionId)
  {
  }

  lemma NumberedSnoc(ps: seq<Packet>, p: Packet, sessionId: u32)
    requires Numbered(ps, sessionId)
    requires p.envelope.version == WIRE_VERSION && p.envelope.sessionId == sessionId
    requires p.envelope.streamSeq == |ps| % 0x1_0000_0000 && (p.session.Some? <==> |ps| == 0)
    ensures Numbered(ps + [p], sessionId)
    ensures Session.WrappingSucc(p.envelope.streamSeq) == |ps + [p]| % 0x1_0000_0000
  {
  }

  // ----- the policy over a run -----

  /** What a run of callbacks leaves alone: the gates, the policy and the filter. */
  datatype Setup = Setup(raw: bool, open: bool, policy: Delivery.Reporting, filter: Delivery.Filter)

  /** Whether a frame gets as far as the policy. */
  predicate Reaches(u: Setup, c: Call) { !u.raw && u.open && Delivery.Passes(u.filter, c.info) }

  /** What the policy remembers after a run of callbacks that began with `d0`. */
  function Remembered(u: Setup, calls: seq<Call>, d0: Policy.Detector): (d: Policy.Detector)
    requires |d0.base| == Policy.SAMPLED
    ensures |d.base| == Policy.SAMPLED
  {
    if calls == [] then d0
    else
      var k := |calls| - 1;
      var d := Remembered(u, calls[..k], d0);
      if Reaches(u, calls[k]) then Delivery.Policed(u.policy, d, calls[k].info.buf, calls[k].nowUs).0 else d
  }

  /** What the policy makes of the `k`-th frame, should it get that far. */
  function Verdict(u: Setup, calls: seq<Call>, k: nat, d0: Policy.Detector): (Policy.Detector, bool, u16)
    requires |d0.base| == Policy.SAMPLED && k < |calls|
  {
    Delivery.Policed(u.policy, Remembered(u, calls[..k], d0), calls[k].info.buf, calls[k].nowUs)
  }

  /** Frames that got as far as the policy. */
  function Judged(u: Setup, calls: seq<Call>): nat {
    if calls == [] then 0
    else Judged(u, calls[..|calls| - 1]) + if Reaches(u, calls[|calls| - 1]) then 1 else 0
  }

  lemma {:induction false} TicksAreCounted(u: Setup, calls: seq<Call>, n: u16)
    requires u.policy == Delivery.Decimate(n)
    ensures Remembered(u, calls, Policy.FreshDetector()).count == Policy.CountAfter(n, Judged(u, calls))
  {
    if calls != [] { TicksAreCounted(u, calls[..|calls| - 1], n); }
  }

  /** Under decimation, of the frames the gates and the filter let through exactly the first of every `n`
      is admitted, whatever else is captured between them. */
  lemma OneInNIsAdmitted(u: Setup, calls: seq<Call>, k: nat, n: u16)
    requires u.policy == Delivery.Decimate(n) && k < |calls|
    ensures Verdict(u, calls, k, Policy.FreshDetector()).1 <==>
            Judged(u, calls[..k]) % (if n > 1 then n else 1) == 0
  {
    TicksAreCounted(u, calls[..k], n);
    Policy.KeepsOneInN(n, Judged(u, calls[..k]));
  }

  /** The scores the policy gave to the frames that got so far, and when. */
  function Samples(u: Setup, calls: seq<Call>, d0: Policy.Detector): seq<Policy.Sample>
    requires |d0.base| == Policy.SAMPLED
  {
    if calls == [] then []
    else
      var k := |calls| - 1;
      Samples(u, calls[..k], d0) +
      if Reaches(u, calls[k]) then
        [Policy.Sample(Delivery.Policed(u.policy, Remembered(u, calls[..k], d0), calls[k].info.buf, calls[k].nowUs).2,
                       calls[k].nowUs)]
      else []
  }

  predicate InOrder(calls: seq<Call>) {
    forall i, j | 0 <= i < j < |calls| :: calls[i].nowUs <= calls[j].nowUs
  }

  lemma {:induction false} SamplesAreOrdered(u: Setup, calls: seq<Call>, d0: Policy.Detector)
    requires |d0.base| == Policy.SAMPLED && InOrder(calls)
    ensures Policy.Ordered(Samples(u, calls, d0))
    ensures forall i | 0 <= i < |Samples(u, calls, d0)| ::
              calls != [] && Samples(u, calls, d0)[i].nowUs <= calls[|calls| - 1].nowUs
  {
    hide Delivery.Policed;
    hide Remembered;
    hide Reaches;
    if calls != [] {
      var k := |calls| - 1;
      SamplesAreOrdered(u, calls[..k], d0);
      if k > 0 { assert calls[..k][k - 1].nowUs <= calls[k].nowUs; }
    }
  }

  lemma HoldSnoc(ss: seq<Policy.Sample>, s: Policy.Sample, level: u16, holdMs: u16)
    ensures Policy.HoldAfter(ss + [s], level, holdMs) ==
            Policy.Decided(Policy.HoldAfter(ss, level, holdMs), s, level, holdMs).0
  {
    assert (ss + [s])[..|ss|] == ss;
  }

  lemma ThresholdHolds(d: Policy.Detector, buf: seq<i8>, nowUs: u64, level: u16, holdMs: u16, only: bool)
    requires |d.base| == Policy.SAMPLED
    ensures var (e, keep, score) := Delivery.Policed(Delivery.ThresholdBased(level, holdMs, only), d, buf, nowUs);
            (e.hold, keep) == Policy.Decided(d.hold, Policy.Sample(score, nowUs), level, holdMs)
  {
    hide Policy.Scored;
  }

  lemma {:induction false} HoldIsRemembered(u: Setup, calls: seq<Call>, d0: Policy.Detector, level: u16, holdMs: u16,
                                            only: bool)
    requires u.policy == Delivery.ThresholdBased(level, holdMs, only)
    requires |d0.base| == Policy.SAMPLED && d0.hold == 0
    ensures Remembered(u, calls, d0).hold == Policy.HoldAfter(Samples(u, calls, d0), level, holdMs)
  {
    hide Delivery.Policed;
    if calls != [] {
      var k := |calls| - 1;
      var ss, d := Samples(u, calls[..k], d0), Remembered(u, calls[..k], d0);
      HoldIsRemembered(u, calls[..k], d0, level, holdMs, only);
      if Reaches(u, calls[k]) {
        var (e, _, score) := Delivery.Policed(u.policy, d, calls[k].info.buf, calls[k].nowUs);
        assert Remembered(u, calls, d0) == e;
        assert Samples(u, calls, d0) == ss + [Policy.Sample(score, calls[k].nowUs)];
        HoldSnoc(ss, Policy.Sample(score, calls[k].nowUs), level, holdMs);
        ThresholdHolds(d, calls[k].info.buf, calls[k].nowUs, level, holdMs, only);
      } else {
        assert Samples(u, calls, d0) == ss + [];
        assert ss + [] == ss;
      }
    }
  }

  /** Under a threshold, a frame the gates and the filter let through is admitted exactly if its score
      crosses the level or an earlier such frame's crossing still holds. */
  lemma CrossingOrHeldIsAdmitted(u: Setup, calls: seq<Call>, k: nat, level: u16, holdMs: u16, only: bool)
    requires u.policy == Delivery.ThresholdBased(level, holdMs, only) && k < |calls| && InOrder(calls)
    ensures var d0 := Policy.FreshDetector();
            var (_, admitted, score) := Verdict(u, calls, k, d0);
            var ss := Samples(u, calls[..k], d0);
            admitted <==>
            score >= level
            || exists j | 0 <= j < |ss| :: ss[j].score >= level && calls[k].nowUs < ss[j].nowUs + holdMs * 1000
  {
    SamplesAreOrdered(u, calls[..k], Policy.FreshDetector());
    HoldIsRemembered(u, calls[..k], Policy.FreshDetector(), level, holdMs, only);
    Policy.HoldCovers(Samples(u, calls[..k], Policy.FreshDetector()), level, holdMs, calls[k].nowUs);
    hide Policy.Scored;
    hide Remembered;
    hide Samples;
    hide Policy.HoldAfter;
    var ss := Samples(u, calls[..k], Policy.FreshDetector());
    if j :| 0 <= j < |ss| && ss[j].score >= level && calls[k].nowUs < ss[j].nowUs + holdMs * 1000 {
      assert Policy.Holds(ss, j, level, holdMs, calls[k].nowUs);
    }
  }

  // ----- the run -----

  function SetupOf(d: Delivery.CsiDelivery): Setup
    reads d
  {
    Setup(d.rawCallback, d.publishEnabled, d.policy,
          Delivery.Filter(d.filterActive, d.peerFilter, d.minSigMode))
  }

  /** What stopped the `k`-th frame of a run, if anything, is what the gates, the filter and the policy
      say of it. */
  predicate StoppedRightly(u: Setup, calls: seq<Call>, fates: seq<Delivery.Fate>, d0: Policy.Detector)
    requires |d0.base| == Policy.SAMPLED && |fates| <= |calls|
  {
    forall k | 0 <= k < |fates| ::
      Delivery.Decides(fates[k], u.raw, u.open, Delivery.Passes(u.filter, calls[k].info), Verdict(u, calls, k, d0).1)
  }

  lemma StoppedSnoc(u: Setup, calls: seq<Call>, fates: seq<Delivery.Fate>, f: Delivery.Fate, d0: Policy.Detector,
                    admits: bool)
    requires |d0.base| == Policy.SAMPLED && |fates| < |calls| && StoppedRightly(u, calls, fates, d0)
    requires Delivery.Decides(f, u.raw, u.open, Delivery.Passes(u.filter, calls[|fates|].info), admits)
    requires !u.raw && u.open ==> admits == Verdict(u, calls, |fates|, d0).1
    ensures StoppedRightly(u, calls, fates + [f], d0)
  {
  }

  lemma NothingStopped(u: Setup, calls: seq<Call>, d0: Policy.Detector)
    requires |d0.base| == Policy.SAMPLED
    ensures StoppedRightly(u, calls, [], d0) && Remembered(u, calls[..0], d0) == d0 && DeliveredOf([]) == []
  {
  }

  lemma RememberedSnoc(u: Setup, calls: seq<Call>, k: nat, d0: Policy.Detector)
    requires |d0.base| == Policy.SAMPLED && k < |calls|
    ensures Remembered(u, calls[..k + 1], d0) ==
            if Reaches(u, calls[k]) then Verdict(u, calls, k, d0).0 else Remembered(u, calls[..k], d0)
  {
    assert calls[..k + 1][..k] == calls[..k];
  }

  /** Every delivered packet is of the frame at its place: its stimulus names that frame's source. */
  predicate Sourced(calls: seq<Call>, fates: seq<Delivery.Fate>)
    requires |fates| <= |calls|
  {
    forall k | 0 <= k < |fates| :: fates[k].Delivered? ==> fates[k].packet.frame.stimulus.ta == calls[k].info.mac
  }

  lemma SourcedSnoc(calls: seq<Call>, fates: seq<Delivery.Fate>, f: Delivery.Fate)
    requires |fates| < |calls| && Sourced(calls, fates)
    requires f.Delivered? ==> f.packet.frame.stimulus.ta == calls[|fates|].info.mac
    ensures Sourced(calls, fates + [f])
  {
  }

  /** What stopped each frame of a run, in the configured fields. */
  lemma RunIsFiltered(d: Delivery.CsiDelivery, calls: seq<Call>, run: seq<Delivery.Fate>, d0: Policy.Detector, k: nat)
    requires |d0.base| == Policy.SAMPLED && |run| == |calls| && k < |run|
    requires d.Valid() && StoppedRightly(SetupOf(d), calls, run, d0)
    ensures var i := calls[k].info;
            var open := !d.rawCallback && d.userIntent && d.reports && d.outputEnabled;
            run[k].Filtered? <==> open && ((d.peerFilter != [0, 0, 0, 0, 0, 0] && i.mac != d.peerFilter)
                                           || (d.minSigMode != 0 && i.sigMode < d.minSigMode))
    ensures run[k].Delivered? && d.peerFilter != [0, 0, 0, 0, 0, 0] ==> calls[k].info.mac == d.peerFilter
  {
    d.FateIs(run[k], calls[k].info, Verdict(SetupOf(d), calls, k, d0).1);
    hide Verdict;
    hide Delivery.Passes;
  }

  lemma {:induction false} DeliveredIn(fates: seq<Delivery.Fate>, p: Packet) returns (k: nat)
    requires p in DeliveredOf(fates)
    ensures k < |fates| && fates[k] == Delivery.Delivered(p)
  {
    var init, last := fates[..|fates| - 1], fates[|fates| - 1];
    if last == Delivery.Delivered(p) { k := |fates| - 1; } else { k := DeliveredIn(init, p); }
  }

  lemma WholeRunIsFiltered(d: Delivery.CsiDelivery, calls: seq<Call>, run: seq<Delivery.Fate>, d0: Policy.Detector)
    requires |d0.base| == Policy.SAMPLED && |run| == |calls|
    requires d.Valid() && StoppedRightly(SetupOf(d), calls, run, d0) && Sourced(calls, run)
    ensures forall k | 0 <= k < |run| ::
              run[k].Filtered? <==>
              && !d.rawCallback && d.userIntent && d.reports && d.outputEnabled
              && ((d.peerFilter != [0, 0, 0, 0, 0, 0] && calls[k].info.mac != d.peerFilter)
                  || (d.minSigMode != 0 && calls[k].info.sigMode < d.minSigMode))
    ensures d.peerFilter != [0, 0, 0, 0, 0, 0] ==>
              forall p | p in DeliveredOf(run) :: p.frame.stimulus.ta == d.peerFilter
  {
    hide Delivery.CsiDelivery.Valid;
    hide SetupOf;
    hide StoppedRightly;
    hide DeliveredOf;
    forall k: nat | k < |run| { RunIsFiltered(d, calls, run, d0, k); }
    if d.peerFilter != [0, 0, 0, 0, 0, 0] {
      forall p | p in DeliveredOf(run) ensures p.frame.stimulus.ta == d.peerFilter {
        var k := DeliveredIn(run, p);
        RunIsFiltered(d, calls, run, d0, k);
      }
    }
  }

  /** Which frames get as far as the policy, in the configured fields. */
  lemma ReachesIff(d: Delivery.CsiDelivery, c: Call)
    requires d.Valid()
    ensures Reaches(SetupOf(d), c) <==>
            && !d.rawCallback && d.userIntent && d.reports && d.outputEnabled
            && (d.peerFilter == [0, 0, 0, 0, 0, 0] || c.info.mac == d.peerFilter)
            && (d.minSigMode == 0 || c.info.sigMode >= d.minSigMode)
  {
  }

  ghost function Reaching(u: Setup, calls: seq<Call>): set<int> {
    set j | 0 <= j < |calls| && Reaches(u, calls[j])
  }

  lemma ReachingSnoc(u: Setup, calls: seq<Call>, c: Call)
    ensures |Reaching(u, calls + [c])| == |Reaching(u, calls)| + if Reaches(u, c) then 1 else 0
  {
    hide Reaches;
    var n, a, b := |calls|, Reaching(u, calls), Reaching(u, calls + [c]);
    assert forall j | 0 <= j < n :: (calls + [c])[j] == calls[j];
    assert (calls + [c])[n] == c;
    assert n !in a && (n in b <==> Reaches(u, c));
    assert forall j | j != n :: j in b <==> j in a;
    hide Reaching;
    assert b == if n in b then a + {n} else a;
  }

  lemma {:induction false} JudgedAre(u: Setup, calls: seq<Call>)
    ensures Judged(u, calls) == |set j | 0 <= j < |calls| && Reaches(u, calls[j])|
  {
    if calls == [] {
      assert Reaching(u, calls) == {};
    } else {
      var init, c := calls[..|calls| - 1], calls[|calls| - 1];
      assert calls == init + [c];
      JudgedAre(u, init);
      ReachingSnoc(u, init, c);
    }
    assert Reaching(u, calls) == set j | 0 <= j < |calls| && Reaches(u, calls[j]);
    hide Reaches;
    hide Reaching;
  }

  /** Under decimation a frame of a run is suppressed exactly if it gets as far as the policy and is not the
      first of `n` that did. */
  lemma OneInNOfTheRun(u: Setup, calls: seq<Call>, run: seq<Delivery.Fate>, k: nat, n: u16)
    requires u.policy == Delivery.Decimate(n) && k < |run| <= |calls|
    requires StoppedRightly(u, calls, run, Policy.FreshDetector())
    ensures run[k].Suppressed? <==>
            && Reaches(u, calls[k])
            && |set j | 0 <= j < k && Reaches(u, calls[j])| % (if n > 1 then n else 1) != 0
  {
    OneInNIsAdmitted(u, calls, k, n);
    JudgedAre(u, calls[..k]);
    assert (set j | 0 <= j < k && Reaches(u, calls[j])) ==
           set j | 0 <= j < |calls[..k]| && Reaches(u, calls[..k][j]);
    hide Verdict;
    hide Delivery.Passes;
  }

  /** A run so far: what was delivered is numbered, every frame was stopped rightly, and the context is where
      the delivered packets leave it. */
  predicate Ran(u: Setup, calls: seq<Call>, run: seq<Delivery.Fate>, d0: Policy.Detector, sessionId: u32, next: u32,
                pending: bool)
    requires |d0.base| == Policy.SAMPLED && |run| <= |calls|
  {
    var packets := DeliveredOf(run);
    && Numbered(packets, sessionId) && next == |packets| % 0x1_0000_0000 && pending == (packets == [])
    && StoppedRightly(u, calls, run, d0) && Sourced(calls, run)
  }

  lemma NothingRan(u: Setup, calls: seq<Call>, d0: Policy.Detector, sessionId: u32)
    requires |d0.base| == Policy.SAMPLED
    ensures Ran(u, calls, [], d0, sessionId, 0, true) && Remembered(u, calls[..0], d0) == d0
  {
    NumberedNone(sessionId);
    NothingStopped(u, calls, d0);
  }

  lemma RanIs(u: Setup, calls: seq<Call>, run: seq<Delivery.Fate>, d0: Policy.Detector, sessionId: u32, next: u32,
              pending: bool)
    requires |d0.base| == Policy.SAMPLED && |run| <= |calls| && Ran(u, calls, run, d0, sessionId, next, pending)
    ensures Numbered(DeliveredOf(run), sessionId) && StoppedRightly(u, calls, run, d0) && Sourced(calls, run)
  {
  }

  lemma RanSnoc(u: Setup, calls: seq<Call>, run: seq<Delivery.Fate>, d0: Policy.Detector, sessionId: u32, next: u32,
                pending: bool, fate: Delivery.Fate, admits: bool)
    requires |d0.base| == Policy.SAMPLED && |run| < |calls| && Ran(u, calls, run, d0, sessionId, next, pending)
    requires Delivery.Decides(fate, u.raw, u.open, Delivery.Passes(u.filter, calls[|run|].info), admits)
    requires !u.raw && u.open ==> admits == Verdict(u, calls, |run|, d0).1
    requires fate.Delivered? ==>
               && fate.packet.envelope.version == WIRE_VERSION && fate.packet.envelope.sessionId == sessionId
               && fate.packet.envelope.streamSeq == next && (fate.packet.session.Some? <==> pending)
               && fate.packet.frame.stimulus.ta == calls[|run|].info.mac
    ensures Ran(u, calls, run + [fate], d0, sessionId,
                if fate.Delivered? then Session.WrappingSucc(next) else next, pending && !fate.Delivered?)
  {
    hide Delivery.Decides;
    hide Delivery.Passes;
    hide Verdict;
    hide StoppedRightly;
    hide Sourced;
    hide Numbered;
    hide DeliveredOf;
    hide Session.WrappingSucc;
    DeliveredSnoc(run, fate);
    StoppedSnoc(u, calls, run, fate, d0, admits);
    SourcedSnoc(calls, run, fate);
    if fate.Delivered? { NumberedSnoc(DeliveredOf(run), fate.packet, sessionId); }
    assert DeliveredOf(run) + [] == DeliveredOf(run);
  }

  /** One callback of a run. */
  method CaptureNext(d: Delivery.CsiDelivery, crate: (u8, u8, u8), calls: seq<Call>, i: nat,
                     ghost run: seq<Delivery.Fate>, ghost d0: Policy.Detector)
    returns (ghost fate: Delivery.Fate)
    requires |d0.base| == Policy.SAMPLED && |run| == i < |calls|
    requires d.Valid() && d.threshold.Valid() && InTime(d.context.epoch, calls[|run|])
    requires Ran(SetupOf(d), calls, run, d0, d.context.sessionId, d.context.streamSeq, d.context.anchorPending)
    requires !d.rawCallback && d.publishEnabled ==> d.Detector() == Remembered(SetupOf(d), calls[..|run|], d0)
    modifies d`fates, d`policyReset, d`queue, d`woken, d`calledBack, d`logged,
             d.threshold, d.threshold.base, d.decimator, d.context, d.stats
    ensures d.Valid() && d.threshold.Valid() && d.fates == old(d.fates) + [fate]
    ensures d.context.Identity() == old(d.context.Identity())
    ensures Ran(SetupOf(d), calls, run + [fate], d0, d.context.sessionId, d.context.streamSeq, d.context.anchorPending)
    ensures !d.rawCallback && d.publishEnabled ==> d.Detector() == Remembered(SetupOf(d), calls[..|run| + 1], d0)
  {
    hide Delivery.CsiDelivery.Configured;
    hide Delivery.CsiDelivery.Counted;
    hide Delivery.CsiDelivery.NextScore;
    hide Delivery.CsiDelivery.Detector;
    hide Delivery.Policed;
    hide Delivery.Passes;
    hide Delivery.Decides;
    hide StoppedRightly;
    hide Remembered;
    hide DeliveredOf;
    hide Session.WrappingSucc;
    hide Delivery.CsiDelivery.Routed;
    hide Delivery.CsiDelivery.Noted;
    hide Numbered;
    hide Delivery.CsiDelivery.IsPacketOf;
    hide Delivery.CsiDelivery.Announces;
    hide Sourced;
    hide Ran;
    var c := calls[i];
    ghost var u, admits := SetupOf(d), d.Admits(c.info.buf, c.nowUs);
    ghost var score := if d.policy.ThresholdBased? then d.NextScore(c.info.buf) else 0;
    ghost var now, next, pending := d.context.Now(), d.context.streamSeq, d.context.anchorPending;
    fate := d.Capture(c.info, crate, c.nowUs);
    RememberedSnoc(u, calls, i, d0);
    if fate.Delivered? {
      d.PacketIs(fate.packet, c.info, score, now, next);
      d.AnnouncesIff(fate.packet, pending, c.info.chip, crate, c.nowUs);
    }
    RanSnoc(u, calls, run, d0, d.context.sessionId, next, pending, fate, admits);
    d.ThresholdIsValid();
  }

  /** Any run of callbacks, whatever is gated, filtered, suppressed or oversize among the frames: what is
      delivered is one session, numbered without gaps, and each frame is stopped exactly by what the gates,
      the filter and the policy say of it. */
  method CaptureRun(d: Delivery.CsiDelivery, crate: (u8, u8, u8), calls: seq<Call>)
    returns (ghost packets: seq<Packet>)
    requires d.Valid() && d.context.streamSeq == 0 && d.context.anchorPending
    requires forall c | c in calls :: InTime(d.context.epoch, c)
    modifies d`fates, d`policyReset, d`queue, d`woken, d`calledBack, d`logged,
             d.threshold, d.threshold.base, d.decimator, d.context, d.stats
    ensures d.Valid() && |d.fates| == |old(d.fates)| + |calls| && old(d.fates) <= d.fates
    ensures packets == DeliveredOf(d.fates[|old(d.fates)|..])
    ensures Numbered(packets, d.context.sessionId) && d.context.Identity() == old(d.context.Identity())
    ensures StoppedRightly(SetupOf(d), calls, d.fates[|old(d.fates)|..], old(d.Detector()))
    ensures var run := d.fates[|old(d.fates)|..];
            forall k | 0 <= k < |run| ::
              run[k].Filtered? <==>
              && !d.rawCallback && d.userIntent && d.reports && d.outputEnabled
              && ((d.peerFilter != [0, 0, 0, 0, 0, 0] && calls[k].info.mac != d.peerFilter)
                  || (d.minSigMode != 0 && calls[k].info.sigMode < d.minSigMode))
    ensures d.peerFilter != [0, 0, 0, 0, 0, 0] ==> forall p | p in packets :: p.frame.stimulus.ta == d.peerFilter
  {
    hide Delivery.CsiDelivery.Configured;
    hide Delivery.CsiDelivery.Counted;
    hide Delivery.CsiDelivery.Detector;
    hide StoppedRightly;
    hide Remembered;
    hide DeliveredOf;
    hide Numbered;
    hide Sourced;
    hide Ran;
    ghost var before := d.fates;
    assert d.fates[|before|..] == [];
    d.ThresholdIsValid();
    ghost var u, d0 := SetupOf(d), d.Detector();
    NothingRan(u, calls, d0, d.context.sessionId);
    var i := 0;
    while i < |calls|
      invariant 0 <= i <= |calls| && d.Valid() && d.threshold.Valid()
      invariant |d.fates| == |before| + i && before <= d.fates
      invariant d.context.Identity() == old(d.context.Identity())
      invariant SetupOf(d) == u
      invariant Ran(u, calls, d.fates[|before|..], d0, d.context.sessionId, d.context.streamSeq,
                    d.context.anchorPending)
      invariant !u.raw && u.open ==> d.Detector() == Remembered(u, calls[..i], d0)
    {
      assert InTime(d.context.epoch, calls[i]);
      ghost var run := d.fates[|before|..];
      ghost var fate := CaptureNext(d, crate, calls, i, run, d0);
      assert d.fates[|before|..] == run + [fate];
      i := i + 1;
    }
    ghost var run := d.fates[|before|..];
    packets := DeliveredOf(run);
    RanIs(u, calls, run, d0, d.context.sessionId, d.context.streamSeq, d.context.anchorPending);
    WholeRunIsFiltered(d, calls, run, d0);
  }

  /** Packets of a run that got through, by their places in it. */
  predicate Kept(kept: seq<Packet>, ps: seq<Packet>, places: seq<nat>) {
    && |kept| == |places|
    && (forall i | 0 <= i < |places| :: places[i] < |ps| && kept[i] == ps[places[i]])
    && forall i, j | 0 <= i < j < |places| :: places[i] < places[j]
  }

  /** Whatever packets of a run are lost on their way and whatever log lines run between the others, the
      host counts every packet that got through, and as lost exactly the run's packets between the
      first and the last of them that did not. */
  lemma HostCountsTheLosses(items: seq<Stream.Item>, ps: seq<Packet>, places: seq<nat>, sessionId: u32)
    requires Numbered(ps, sessionId) && |ps| <= 0x1_0000_0000 && Kept(Stream.Packets(items), ps, places)
    requires forall i | i in items && i.Text? :: Stream.Quiet(i.message)
    ensures var r := Stream.Fold(Stream.EMPTY, Stream.Slots(Stream.StreamBytes(items)));
            && r.csi == |places| && r.seqResets == 0
            && (places != [] ==> r.seqLost == places[|places| - 1] - places[0] + 1 - |places|)
  {
    hide *;
    KeptIsOneSession(Stream.Packets(items), ps, places, sessionId);
    Stream.OneSessionAccounts(items);
  }

  lemma KeptIsOneSession(kept: seq<Packet>, ps: seq<Packet>, places: seq<nat>, sessionId: u32)
    requires Numbered(ps, sessionId) && |ps| <= 0x1_0000_0000 && Kept(kept, ps, places)
    ensures Stream.OneSession(kept) && |kept| == |places|
    ensures places != [] ==> kept[0].envelope.streamSeq == places[0]
                             && kept[|kept| - 1].envelope.streamSeq == places[|places| - 1]
  {
  }

  /** With nothing lost, the host's summary is the run: every packet, none missed, one session. */
  lemma HostSeesTheRun(items: seq<Stream.Item>, sessionId: u32)
    requires Numbered(Stream.Packets(items), sessionId) && |Stream.Packets(items)| <= 0x1_0000_0000
    requires forall i | i in items && i.Text? :: Stream.Quiet(i.message)
    ensures var ps := Stream.Packets(items);
            var r := Stream.Fold(Stream.EMPTY, Stream.Slots(Stream.StreamBytes(items)));
            && r.csi == |ps| && (ps != [] ==> r.seqLost == 0) && r.seqResets == 0
            && |r.sessions| == if ps == [] then 0 else 1
  {
    var ps := Stream.Packets(items);
    assert Kept(ps, ps, seq(|ps|, i => i));
    HostCountsTheLosses(items, ps, seq(|ps|, i => i), sessionId);
    OneAnnouncement(ps, sessionId);
    NumberedIsOneSession(ps, sessionId);
    hide *;
    Stream.OneSessionAccounts(items);
  }

  lemma NumberedIsOneSession(ps: seq<Packet>, sessionId: u32)
    requires Numbered(ps, sessionId) && |ps| <= 0x1_0000_0000
    ensures Stream.OneSession(ps)
  {
  }

  lemma {:induction false} OneAnnouncement(ps: seq<Packet>, sessionId: u32)
    requires Numbered(ps, sessionId)
    ensures |Stream.Announcements(ps)| == if ps == [] then 0 else 1
  {
    if ps != [] { NoAnnouncement(ps[1..]); }
  }

  lemma {:induction false} NoAnnouncement(ps: seq<Packet>)
    requires forall p | p in ps :: p.session == None
    ensures Stream.Announcements(ps) == []
  {
    if ps != [] { NoAnnouncement(ps[1..]); }
  }
}
