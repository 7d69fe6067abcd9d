/** The ESP-NOW pair: a responder that locks on to its initiator and reports in its place when it is
    silent, over a network that may lose, duplicate and reorder frames. */
module EspNow {
  import opened Bytes
  import opened Magic

  // ----- addresses in a word -----

  /** A MAC in the low 48 bits of a word, first byte lowest. */
  function MacToWord(m: Mac): nat {
    m[0] as int + 0x100 * (m[1] as int + 0x100 * (m[2] as int + 0x100 * (m[3] as int
      + 0x100 * (m[4] as int + 0x100 * m[5] as int))))
  }

  function WordToMac(v: nat): Mac {
    [(v % 0x100) as byte, (v / 0x100 % 0x100) as byte, (v / 0x1_0000 % 0x100) as byte,
     (v / 0x100_0000 % 0x100) as byte, (v / 0x1_0000_0000 % 0x100) as byte,
     (v / 0x100_0000_0000 % 0x100) as byte]
  }

  lemma MacInWord(m: Mac)
    ensures WordToMac(MacToWord(m)) == m
  {
    var v := MacToWord(m);
    var v1 := m[1] as int + 0x100 * (m[2] as int + 0x100 * (m[3] as int + 0x100 * (m[4] as int + 0x100 * m[5] as int)));
    var v2 := m[2] as int + 0x100 * (m[3] as int + 0x100 * (m[4] as int + 0x100 * m[5] as int));
    var v3 := m[3] as int + 0x100 * (m[4] as int + 0x100 * m[5] as int);
    var v4 := m[4] as int + 0x100 * m[5] as int;
    assert v / 0x100 == v1 && v1 / 0x100 == v2 && v2 / 0x100 == v3 && v3 / 0x100 == v4;
    assert v / 0x1_0000 == v2 && v / 0x100_0000 == v3 && v / 0x1_0000_0000 == v4;
    assert v / 0x100_0000_0000 == m[5] as int;
  }

  // ----- the responder -----

  const MODE_SWITCH_HYSTERESIS: u8 := 3

  datatype Config = Config(peerMac: Option<Mac>, txEnabled: bool, rawListen: bool)

  datatype Responder = Responder(
    isConnected: bool, reports: bool, initiatorMac: nat, healthcheck: u16, pending: bool,
    lastSilent: bool, streak: u8,
    lastSequence: u32, sequenceKnown: bool, misses: nat, accepted: nat, instance: u32)

  /** Manual pairing starts locked on to the configured peer. */
  function StartResponder(c: Config, reports: bool): Responder {
    Responder(c.peerMac.Some?, reports, (match c.peerMac case None => 0 case Some(m) => MacToWord(m)),
              0, false, false, 0, 0, false, 0, 0, 0)
  }

  /** The packet a received frame is accepted as, if it is. */
  function Accepts(c: Config, r: Responder, src: Mac, data: seq<byte>): Option<ControlPacket> {
    if c.rawListen then None
    else if r.isConnected && WordToMac(r.initiatorMac) != src then None
    else Parse(data, INITIATOR_MAGIC, c.peerMac.None?)
  }

  /** Forward jumps of the counter are misses; anything else resyncs silently. */
  function Sequenced(r: Responder, seqNo: u32): Responder {
    var gap := seqNo - r.lastSequence;
    r.(lastSequence := seqNo, sequenceKnown := true, accepted := r.accepted + 1, instance := seqNo,
       misses := r.misses + if r.sequenceKnown && gap > 1 then gap - 1 else 0)
  }

  /** Lock on to the first valid initiator that can be added as a peer; owe it a beacon. */
  function Locked(c: Config, r: Responder, src: Mac, peerAdded: bool): Responder {
    if !c.txEnabled then r
    else if !r.isConnected then
      if peerAdded then
        r.(isConnected := true, initiatorMac := MacToWord(src), healthcheck := 0, pending := true)
      else r.(pending := true)
    else r.(healthcheck := if r.healthcheck == 0xFFFF then 0 else r.healthcheck + 1, pending := true)
  }

  /** Only an initiator that is silent three times in a row makes the responder report. */
  function Followed(r: Responder, silent: bool): Responder {
    if silent != r.lastSilent then r.(lastSilent := silent, streak := 1)
    else
      var streak := if r.streak == 0xFF then 0xFF else r.streak + 1;
      r.(streak := streak, reports := r.reports || (streak == MODE_SWITCH_HYSTERESIS && silent))
  }

  function Ingested(c: Config, r: Responder, src: Mac, data: seq<byte>, peerAdded: bool): Responder {
    match Accepts(c, r, src, data)
    case None => r
    case Some(p) =>
      Followed(Locked(c, Sequenced(r, p.sequenceNumber), src, peerAdded), !p.initiatorReports)
  }

  class Shared {
    const config: Config
    var isConnected: bool
    var reports: bool
    var runtimeReports: bool
    var initiatorMac: nat
    var healthcheck: u16
    var pending: bool
    var lastSilent: bool
    var streak: u8
    var lastSequence: u32
    var sequenceKnown: bool
    var misses: nat
    var accepted: nat
    var instance: u32

    constructor (c: Config, configured: bool)
      ensures config == c && State() == StartResponder(c, configured) && runtimeReports == configured
    {
      config := c;
      isConnected, reports, runtimeReports := c.peerMac.Some?, configured, configured;
      initiatorMac := match c.peerMac case None => 0 case Some(m) => MacToWord(m);
      healthcheck, pending, lastSilent, streak := 0, false, false, 0;
      lastSequence, sequenceKnown, misses, accepted, instance := 0, false, 0, 0, 0;
    }

    function State(): Responder
      reads this
    {
      Responder(isConnected, reports, initiatorMac, healthcheck, pending, lastSilent, streak,
                lastSequence, sequenceKnown, misses, accepted, instance)
    }

    method Sequence(seqNo: u32)
      modifies this`instance, this`accepted, this`misses, this`sequenceKnown, this`lastSequence
      ensures State() == Sequenced(old(State()), seqNo)
    {
      instance := seqNo;
      accepted := accepted + 1;
      if sequenceKnown {
        var gap := seqNo - lastSequence;
        if gap > 1 { misses := misses + (gap - 1); }
      } else {
        sequenceKnown := true;
      }
      lastSequence := seqNo;
    }

    method Lock(src: Mac, peerAdded: bool)
      modifies this`initiatorMac, this`healthcheck, this`isConnected, this`pending
      ensures State() == Locked(config, old(State()), src, peerAdded)
    {
      if config.txEnabled {
        if !isConnected {
          if peerAdded {
            initiatorMac, healthcheck, isConnected := MacToWord(src), 0, true;
          }
        } else {
          healthcheck := if healthcheck == 0xFFFF then 0 else healthcheck + 1;
        }
        pending := true;
      }
    }

    /** The node's own reporting follows the promotion. */
    method Follow(silent: bool)
      modifies this`lastSilent, this`streak, this`reports, this`runtimeReports
      ensures State() == Followed(old(State()), silent)
      ensures old(runtimeReports == reports) ==> runtimeReports == reports
    {
      if silent != lastSilent {
        lastSilent, streak := silent, 1;
      } else {
        streak := if streak == 0xFF then 0xFF else streak + 1;
        if streak == MODE_SWITCH_HYSTERESIS && silent && !reports {
          runtimeReports, reports := true, true;
        }
      }
    }

    /** Parse and ingest one received frame. `peerAdded` is the driver's answer when asked to add
        the sender as a peer. */
    method IngestControlPacket(src: Mac, data: seq<byte>, peerAdded: bool)
      modifies this
      ensures State() == Ingested(config, old(State()), src, data, peerAdded)
      ensures old(runtimeReports == reports) ==> runtimeReports == reports
    {
      hide Sequenced;
      hide Locked;
      hide Followed;
      hide Parse;
      hide WordToMac;
      if config.rawListen { return; }
      if isConnected && WordToMac(initiatorMac) != src { return; }
      var parsed := Parse(data, INITIATOR_MAGIC, config.peerMac.None?);
      if parsed.None? { return; }
      Sequence(parsed.value.sequenceNumber);
      Lock(src, peerAdded);
      Follow(!parsed.value.initiatorReports);
    }
  }

  // ----- any run of received frames -----

  datatype Frame = Frame(src: Mac, data: seq<byte>, peerAdded: bool)

  function Received(c: Config, reports: bool, frames: seq<Frame>): Responder {
    if frames == [] then StartResponder(c, reports)
    else
      var f := frames[|frames| - 1];
      Ingested(c, Received(c, reports, frames[..|frames| - 1]), f.src, f.data, f.peerAdded)
  }

  /** The packets accepted, in order. */
  function Accepted(c: Config, reports: bool, frames: seq<Frame>): seq<ControlPacket> {
    if frames == [] then []
    else
      var before, f := frames[..|frames| - 1], frames[|frames| - 1];
      Accepted(c, reports, before) +
      match Accepts(c, Received(c, reports, before), f.src, f.data)
      case None => []
      case Some(p) => [p]
  }

  /** The responder stays with the initiator it locked on to, whatever it receives. */
  lemma {:induction false} LockIsForever(c: Config, reports: bool, frames: seq<Frame>, more: seq<Frame>)
    requires Received(c, reports, frames).isConnected
    ensures var r := Received(c, reports, frames + more);
            r.isConnected && r.initiatorMac == Received(c, reports, frames).initiatorMac
    decreases |more|
  {
    hide Accepts;
    hide Parse;
    if more == [] {
      assert frames + more == frames;
    } else {
      var all := frames + more;
      assert all[..|all| - 1] == frames + more[..|more| - 1];
      LockIsForever(c, reports, frames, more[..|more| - 1]);
    }
  }

  predicate SameCounts(t: Responder, u: Responder) {
    && u.misses == t.misses && u.lastSequence == t.lastSequence && u.sequenceKnown == t.sequenceKnown
    && u.instance == t.instance && u.accepted == t.accepted
  }

  lemma LockedKeepsCounts(c: Config, t: Responder, f: Frame, p: ControlPacket)
    ensures SameCounts(t, Followed(Locked(c, t, f.src, f.peerAdded), !p.initiatorReports))
  {
    LockKeepsCounts(c, t, f);
    FollowKeepsCounts(Locked(c, t, f.src, f.peerAdded), !p.initiatorReports);
    hide Locked;
    hide Followed;
  }

  lemma LockKeepsCounts(c: Config, t: Responder, f: Frame)
    ensures SameCounts(t, Locked(c, t, f.src, f.peerAdded))
  {
    hide MacToWord;
  }

  lemma FollowKeepsCounts(t: Responder, silent: bool)
    ensures SameCounts(t, Followed(t, silent))
  {
  }

  /** The last accepted packet is the one whose number the responder remembers and charges to what it measures. */
  lemma {:induction false} LastIsHistory(c: Config, reports: bool, frames: seq<Frame>)
    ensures var r, ps := Received(c, reports, frames), Accepted(c, reports, frames);
            && (r.sequenceKnown <==> ps != [])
            && r.instance == r.lastSequence == (if ps == [] then 0 else ps[|ps| - 1].sequenceNumber)
            && r.accepted == |ps|
  {
    hide Accepts;
    if frames != [] {
      var before, f := frames[..|frames| - 1], frames[|frames| - 1];
      LastIsHistory(c, reports, before);
      var r := Received(c, reports, before);
      match Accepts(c, r, f.src, f.data)
      case None =>
      case Some(p) => LockedKeepsCounts(c, Sequenced(r, p.sequenceNumber), f, p);
      hide Locked;
      hide Followed;
    }
  }

  lemma FollowedKeepsLock(r: Responder, silent: bool)
    ensures var s := Followed(r, silent);
            && s.isConnected == r.isConnected && s.initiatorMac == r.initiatorMac
            && s.healthcheck == r.healthcheck && s.pending == r.pending && s.accepted == r.accepted
  {
  }

  /** What one frame does to the lock: an unconnected responder that transmits locks on to the sender of what
      it accepted if the driver could add the peer, and owes a beacon either way. */
  lemma IngestLocks(c: Config, r: Responder, f: Frame)
    ensures var s := Ingested(c, r, f.src, f.data, f.peerAdded);
            if c.rawListen || Parse(f.data, INITIATOR_MAGIC, c.peerMac.None?) == None
               || (r.isConnected && f.src != WordToMac(r.initiatorMac)) || !c.txEnabled then
              && s.isConnected == r.isConnected && s.initiatorMac == r.initiatorMac
              && s.healthcheck == r.healthcheck && s.pending == r.pending
            else
              && s.pending
              && s.isConnected == (r.isConnected || f.peerAdded)
              && (r.isConnected ==> s.initiatorMac == r.initiatorMac
                                    && s.healthcheck == (if r.healthcheck == 0xFFFF then 0 else r.healthcheck + 1))
              && (!r.isConnected && f.peerAdded ==> WordToMac(s.initiatorMac) == f.src && s.healthcheck == 0)
  {
    MacInWord(f.src);
    match Accepts(c, r, f.src, f.data)
    case None =>
    case Some(p) =>
      FollowedKeepsLock(Locked(c, Sequenced(r, p.sequenceNumber), f.src, f.peerAdded), !p.initiatorReports);
    hide Followed;
    hide Parse;
    hide MacToWord;
    hide WordToMac;
  }

  /** One more frame after any history. It is accepted exactly if the responder is not in raw listening, it
      parses, and it comes from the initiator if one is locked on to; otherwise it changes nothing. Accepted,
      it is charged with the numbers skipped since the last one, on a forward jump only. */
  lemma FrameIs(c: Config, reports: bool, frames: seq<Frame>, f: Frame)
    ensures var r, s := Received(c, reports, frames), Received(c, reports, frames + [f]);
            var ps, qs := Accepted(c, reports, frames), Accepted(c, reports, frames + [f]);
            var packet := Parse(f.data, INITIATOR_MAGIC, c.peerMac.None?);
            if c.rawListen || packet.None? || (r.isConnected && f.src != WordToMac(r.initiatorMac)) then
              s == r && qs == ps
            else
              var n := packet.value.sequenceNumber;
              && qs == ps + [packet.value] && s.instance == n
              && s.misses == r.misses + (if ps != [] && n > ps[|ps| - 1].sequenceNumber + 1
                                         then n - ps[|ps| - 1].sequenceNumber - 1 else 0)
  {
    assert (frames + [f])[..|frames|] == frames;
    LastIsHistory(c, reports, frames);
    var r := Received(c, reports, frames);
    match Accepts(c, r, f.src, f.data)
    case None =>
    case Some(p) => LockedKeepsCounts(c, Sequenced(r, p.sequenceNumber), f, p);
    hide Locked;
    hide Followed;
    hide Parse;
    hide WordToMac;
  }

  /** Whether a frame can be locked on to in automatic pairing. */
  predicate CanLock(f: Frame) { f.peerAdded && Parse(f.data, INITIATOR_MAGIC, true).Some? }

  /** Without a configured peer and without such a frame nothing is locked on to. */
  lemma {:induction false} NoLock(c: Config, reports: bool, frames: seq<Frame>)
    requires c.peerMac.None?
    requires c.txEnabled && !c.rawListen ==> forall f | f in frames :: !CanLock(f)
    ensures !Received(c, reports, frames).isConnected
  {
    if frames != [] {
      var before, f := frames[..|frames| - 1], frames[|frames| - 1];
      NoLock(c, reports, before);
      IngestLocks(c, Received(c, reports, before), f);
      assert f in frames;
      hide Ingested;
      hide Parse;
    }
  }

  /** From the first frame it could lock on to, the responder is that sender's. */
  lemma {:induction false} LockedAt(c: Config, reports: bool, frames: seq<Frame>, k: nat)
    requires c.peerMac.None? && c.txEnabled && !c.rawListen
    requires k < |frames| && CanLock(frames[k]) && forall f | f in frames[..k] :: !CanLock(f)
    ensures var r := Received(c, reports, frames);
            r.isConnected && WordToMac(r.initiatorMac) == frames[k].src
  {
    var before, f := frames[..|frames| - 1], frames[|frames| - 1];
    IngestLocks(c, Received(c, reports, before), f);
    if k == |frames| - 1 {
      assert before == frames[..k] && frames[..k + 1] == frames;
      NoLock(c, reports, before);
    } else {
      assert before[..k] == frames[..k] && before[..k + 1] == frames[..k + 1];
      LockedAt(c, reports, before, k);
    }
    hide Received;
    hide Ingested;
    hide Parse;
    hide WordToMac;
  }

  /** Connected and transmitting, the counter follows what is accepted, modulo 2^16. */
  lemma CountStep(c: Config, reports: bool, frames: seq<Frame>, a: nat)
    requires c.txEnabled && frames != []
    requires var r := Received(c, reports, frames[..|frames| - 1]);
             r.isConnected && Counts(r.healthcheck, r.accepted, a)
    ensures var s := Received(c, reports, frames);
            Counts(s.healthcheck, s.accepted, a)
  {
    OneMore(c, reports, frames);
    IngestCounts(c, Received(c, reports, frames[..|frames| - 1]), frames[|frames| - 1], a);
  }

  lemma IngestCounts(c: Config, r: Responder, f: Frame, a: nat)
    requires c.txEnabled && r.isConnected && Counts(r.healthcheck, r.accepted, a)
    ensures var s := Ingested(c, r, f.src, f.data, f.peerAdded); Counts(s.healthcheck, s.accepted, a)
  {
    CountsOneMore(r.healthcheck, r.accepted, a);
    match Accepts(c, r, f.src, f.data)
    case None =>
    case Some(p) =>
      FollowedKeepsLock(Locked(c, Sequenced(r, p.sequenceNumber), f.src, f.peerAdded), !p.initiatorReports);
    hide Followed;
    hide Parse;
    hide Counts;
    hide MacToWord;
    hide WordToMac;
  }

  predicate Counts(h: nat, accepted: nat, a: nat) { accepted >= a && h == (accepted - a) % 0x1_0000 }

  lemma CountsOneMore(h: nat, accepted: nat, a: nat)
    requires Counts(h, accepted, a)
    ensures Counts(if h == 0xFFFF then 0 else h + 1, accepted + 1, a)
  {
  }

  /** From then on it counts what it accepts. */
  lemma {:induction false} CountsSinceLock(c: Config, reports: bool, frames: seq<Frame>, k: nat)
    requires c.peerMac.None? && c.txEnabled && !c.rawListen
    requires k < |frames| && CanLock(frames[k]) && forall f | f in frames[..k] :: !CanLock(f)
    ensures var r, a := Received(c, reports, frames), Received(c, reports, frames[..k + 1]).accepted;
            r.accepted >= a && r.healthcheck == (r.accepted - a) % 0x1_0000
  {
    var before, f := frames[..|frames| - 1], frames[|frames| - 1];
    if k == |frames| - 1 {
      IngestLocks(c, Received(c, reports, before), f);
      assert before == frames[..k] && frames[..k + 1] == frames;
      NoLock(c, reports, before);
    } else {
      assert before[..k] == frames[..k] && before[..k + 1] == frames[..k + 1];
      LockedAt(c, reports, before, k);
      CountsSinceLock(c, reports, before, k);
      CountStep(c, reports, frames, Received(c, reports, frames[..k + 1]).accepted);
    }
    hide Received;
    hide Ingested;
    hide Parse;
    hide WordToMac;
  }

  /** The accepted frames are counted one by one. */
  lemma OneMore(c: Config, reports: bool, frames: seq<Frame>)
    requires frames != []
    ensures var before, f := frames[..|frames| - 1], frames[|frames| - 1];
            var r, s := Received(c, reports, before), Received(c, reports, frames);
            && s == Ingested(c, r, f.src, f.data, f.peerAdded)
            && s.accepted == r.accepted + if c.rawListen || Parse(f.data, INITIATOR_MAGIC, c.peerMac.None?).None?
                                             || (r.isConnected && f.src != WordToMac(r.initiatorMac)) then 0 else 1
  {
    var before, f := frames[..|frames| - 1], frames[|frames| - 1];
    assert before + [f] == frames;
    FrameIs(c, reports, before, f);
    LastIsHistory(c, reports, before);
    LastIsHistory(c, reports, frames);
    hide Parse;
    hide WordToMac;
    hide Accepted;
  }

  /** A configured responder is its peer's from the start, and counts what it accepts if it transmits. */
  lemma {:induction false} ManualLock(c: Config, reports: bool, frames: seq<Frame>)
    requires c.peerMac.Some?
    ensures var r := Received(c, reports, frames);
            && r.isConnected && WordToMac(r.initiatorMac) == c.peerMac.value
            && r.healthcheck == (if c.txEnabled then r.accepted % 0x1_0000 else 0)
  {
    if frames == [] {
      StartsLocked(c, reports);
    } else {
      var before, f := frames[..|frames| - 1], frames[|frames| - 1];
      var r := Received(c, reports, before);
      ManualLock(c, reports, before);
      IngestLocks(c, r, f);
      if c.txEnabled { CountStep(c, reports, frames, 0); } else { OneMore(c, reports, frames); }
    }
    hide Received;
    hide Ingested;
    hide Parse;
    hide WordToMac;
  }

  lemma StartsLocked(c: Config, reports: bool)
    requires c.peerMac.Some?
    ensures var r := Received(c, reports, []);
            && r.isConnected && WordToMac(r.initiatorMac) == c.peerMac.value && r.healthcheck == r.accepted == 0
  {
    MacInWord(c.peerMac.value);
    hide MacToWord;
    hide WordToMac;
  }

  /** A beacon is owed once something was accepted, if the responder transmits at all. */
  lemma {:induction false} BeaconOwed(c: Config, reports: bool, frames: seq<Frame>)
    ensures var r := Received(c, reports, frames); r.pending <==> c.txEnabled && r.accepted > 0
  {
    if frames != [] {
      var before, f := frames[..|frames| - 1], frames[|frames| - 1];
      BeaconOwed(c, reports, before);
      IngestLocks(c, Received(c, reports, before), f);
      OneMore(c, reports, frames);
      hide Received;
      hide Ingested;
      hide Parse;
      hide WordToMac;
    }
  }

  /** What the responder is locked on to, said of the frames alone. It is connected if and only if it was
      configured with a peer or, transmitting and not in raw listening, got a frame that parses behind the
      magic and whose sender the driver could add; it then belongs to that peer, or to the sender of the first
      such frame. */
  lemma LockIs(c: Config, reports: bool, frames: seq<Frame>)
    ensures var r := Received(c, reports, frames);
            && (r.isConnected <==>
                  c.peerMac.Some? ||
                  (c.txEnabled && !c.rawListen &&
                   exists k | 0 <= k < |frames| ::
                     frames[k].peerAdded && Parse(frames[k].data, INITIATOR_MAGIC, true).Some?))
            && (c.peerMac.Some? ==> WordToMac(r.initiatorMac) == c.peerMac.value)
            && (c.peerMac.None? && r.isConnected ==>
                  exists k | 0 <= k < |frames| ::
                    && frames[k].peerAdded && Parse(frames[k].data, INITIATOR_MAGIC, true).Some?
                    && WordToMac(r.initiatorMac) == frames[k].src
                    && forall j | 0 <= j < k ::
                         !(frames[j].peerAdded && Parse(frames[j].data, INITIATOR_MAGIC, true).Some?))
  {
    hide Received;
    hide Parse;
    hide WordToMac;
    if c.peerMac.Some? {
      ManualLock(c, reports, frames);
    } else if c.txEnabled && !c.rawListen && exists f :: f in frames && CanLock(f) {
      var k := FirstLock(frames);
      LockedAt(c, reports, frames, k);
      assert frames[k].peerAdded;
    } else {
      NoLock(c, reports, frames);
      if c.txEnabled && !c.rawListen {
        forall k | 0 <= k < |frames| ensures !CanLock(frames[k]) { assert frames[k] in frames; }
      }
    }
  }

  lemma {:induction false} FirstLock(frames: seq<Frame>) returns (k: nat)
    requires exists f :: f in frames && CanLock(f)
    ensures k < |frames| && CanLock(frames[k]) && forall j | 0 <= j < k :: !CanLock(frames[j])
  {
    hide CanLock;
    k := 0;
    while !CanLock(frames[k])
      invariant k < |frames| && forall j | 0 <= j < k :: !CanLock(frames[j])
      decreases |frames| - k
    {
      k := k + 1;
    }
  }

  /** Length of the run of equal flags an accepted history ends in. */
  function TrailingRun(ps: seq<ControlPacket>): (n: nat)
    ensures n <= |ps| && (ps != [] ==> n > 0)
    ensures forall i | |ps| - n <= i < |ps| :: ps[i].initiatorReports == ps[|ps| - 1].initiatorReports
    ensures n < |ps| ==> ps[|ps| - n - 1].initiatorReports != ps[|ps| - 1].initiatorReports
  {
    if ps == [] then 0
    else if |ps| == 1 then 1
    else if ps[|ps| - 2].initiatorReports == ps[|ps| - 1].initiatorReports then
      TrailingRun(ps[..|ps| - 1]) + 1
    else 1
  }

  /** Three accepted packets in a row, the last of them the `i`-th, were silent. */
  predicate SilentThrice(ps: seq<ControlPacket>, i: int) {
    2 <= i < |ps| && !ps[i].initiatorReports && !ps[i - 1].initiatorReports && !ps[i - 2].initiatorReports
  }

  /** The mode state is a function of the accepted history: the streak is the length of its trailing
      run of equal flags, saturated, and the responder reports if and only if it was configured to
      or three consecutive accepted packets were silent. */
  lemma {:induction false} ModeIsHistory(c: Config, reports: bool, frames: seq<Frame>)
    ensures var r, ps := Received(c, reports, frames), Accepted(c, reports, frames);
            && r.accepted == |ps|
            && r.streak == (if TrailingRun(ps) > 0xFF then 0xFF else TrailingRun(ps))
            && r.lastSilent == (ps != [] && !ps[|ps| - 1].initiatorReports)
            && (r.reports <==> reports || exists i :: SilentThrice(ps, i))
  {
    hide Accepts;
    hide TrailingRun;
    hide SilentThrice;
    hide Followed;
    if frames != [] {
      var before, f := frames[..|frames| - 1], frames[|frames| - 1];
      ModeIsHistory(c, reports, before);
      var r, ps := Received(c, reports, before), Accepted(c, reports, before);
      match Accepts(c, r, f.src, f.data)
      case None => assert Accepted(c, reports, frames) == ps;
      case Some(p) =>
        var t := Locked(c, Sequenced(r, p.sequenceNumber), f.src, f.peerAdded);
        assert t.accepted == r.accepted + 1;
        FollowedIsHistory(t, ps, p, reports);
    } else {
      NothingSilent();
    }
  }

  lemma NothingSilent()
    ensures TrailingRun([]) == 0 && forall i :: !SilentThrice([], i)
  {
  }

  lemma TrailingRunSnoc(ps: seq<ControlPacket>, p: ControlPacket)
    ensures TrailingRun(ps + [p]) ==
            if ps != [] && ps[|ps| - 1].initiatorReports == p.initiatorReports then TrailingRun(ps) + 1
            else 1
  {
  }

  lemma SilentSnoc(ps: seq<ControlPacket>, p: ControlPacket)
    ensures forall i | i < |ps| :: SilentThrice(ps + [p], i) <==> SilentThrice(ps, i)
    ensures SilentThrice(ps + [p], |ps|) <==> !p.initiatorReports && TrailingRun(ps + [p]) >= 3
    ensures !p.initiatorReports && TrailingRun(ps + [p]) > 3 ==> SilentThrice(ps, |ps| - 1)
    ensures forall i | i > |ps| :: !SilentThrice(ps + [p], i)
    ensures forall i | SilentThrice(ps, i) :: i < |ps|
  {
    var qs, n := ps + [p], TrailingRun(ps + [p]);
    assert forall i | 0 <= i < |ps| :: qs[i] == ps[i];
    TrailingRunEnds(qs);
    hide TrailingRun;
    assert n >= 3 ==> qs[|ps|].initiatorReports == qs[|ps| - 1].initiatorReports == qs[|ps| - 2].initiatorReports;
    assert n > 3 ==> qs[|ps| - 3].initiatorReports == qs[|ps|].initiatorReports;
  }

  lemma TrailingRunEnds(ps: seq<ControlPacket>)
    requires ps != []
    ensures var n, last := TrailingRun(ps), ps[|ps| - 1].initiatorReports;
            && 0 < n <= |ps|
            && (forall i | |ps| - n <= i < |ps| :: ps[i].initiatorReports == last)
            && (n < |ps| ==> ps[|ps| - n - 1].initiatorReports != last)
  {
  }

  lemma FollowedIsHistory(r: Responder, ps: seq<ControlPacket>, p: ControlPacket, reports: bool)
    requires r.streak == (if TrailingRun(ps) > 0xFF then 0xFF else TrailingRun(ps))
    requires r.lastSilent == (ps != [] && !ps[|ps| - 1].initiatorReports)
    requires r.reports <==> reports || exists i :: SilentThrice(ps, i)
    ensures var s, qs := Followed(r, !p.initiatorReports), ps + [p];
            && s.accepted == r.accepted
            && s.streak == (if TrailingRun(qs) > 0xFF then 0xFF else TrailingRun(qs))
            && s.lastSilent == !p.initiatorReports
            && (s.reports <==> reports || exists i :: SilentThrice(qs, i))
  {
    TrailingRunSnoc(ps, p);
    SilentSnoc(ps, p);
    if ps == [] { NothingSilent(); }
    hide TrailingRun;
    hide SilentThrice;
    var s, qs := Followed(r, !p.initiatorReports), ps + [p];
    if i :| SilentThrice(ps, i) { assert SilentThrice(qs, i); }
    if s.reports && !r.reports { assert SilentThrice(qs, |ps|); }
    if i :| SilentThrice(qs, i) {
      if i < |ps| {
        assert SilentThrice(ps, i);
      } else {
        assert i == |ps| && TrailingRun(qs) >= 3;
        if TrailingRun(qs) > 3 { assert SilentThrice(ps, |ps| - 1); }
      }
    }
  }

  // ----- misses -----

  predicate Increasing(ps: seq<ControlPacket>) {
    forall i, j | 0 <= i < j < |ps| :: ps[i].sequenceNumber < ps[j].sequenceNumber
  }

  /** The counters account for an accepted history of soundings. */
  predicate Conserved(r: Responder, ps: seq<ControlPacket>) {
    && (r.sequenceKnown <==> ps != [])
    && (ps == [] ==> r.misses == 0)
    && (ps != [] ==> r.lastSequence == ps[|ps| - 1].sequenceNumber
                     && |ps| + r.misses == r.lastSequence - ps[0].sequenceNumber + 1)
  }

  /** Accepted in strictly increasing order, what was received and what was missed add up to the
      range of soundings. */
  lemma {:induction false} MissesConserve(c: Config, reports: bool, frames: seq<Frame>)
    requires Increasing(Accepted(c, reports, frames))
    ensures Conserved(Received(c, reports, frames), Accepted(c, reports, frames))
  {
    hide Accepts;
    hide Followed;
    hide Locked;
    hide Sequenced;
    hide Increasing;
    hide Conserved;
    if frames == [] {
      NothingMissed(c, reports);
    } else {
      var before, f := frames[..|frames| - 1], frames[|frames| - 1];
      var r, ps := Received(c, reports, before), Accepted(c, reports, before);
      match Accepts(c, r, f.src, f.data)
      case None =>
        assert Accepted(c, reports, frames) == ps;
        MissesConserve(c, reports, before);
      case Some(p) =>
        IncreasingInit(ps, p);
        MissesConserve(c, reports, before);
        ConservedSnoc(c, r, ps, f, p);
    }
  }

  lemma NothingMissed(c: Config, reports: bool)
    ensures Conserved(StartResponder(c, reports), [])
  {
  }

  lemma IncreasingInit(ps: seq<ControlPacket>, p: ControlPacket)
    requires Increasing(ps + [p])
    ensures Increasing(ps) && (ps != [] ==> ps[|ps| - 1].sequenceNumber < p.sequenceNumber)
  {
    var qs := ps + [p];
    assert forall i | 0 <= i < |ps| :: qs[i] == ps[i];
    if ps != [] { assert qs[|ps| - 1].sequenceNumber < qs[|ps|].sequenceNumber; }
  }

  lemma ConservedSnoc(c: Config, r: Responder, ps: seq<ControlPacket>, f: Frame, p: ControlPacket)
    requires Conserved(r, ps) && (ps != [] ==> ps[|ps| - 1].sequenceNumber < p.sequenceNumber)
    ensures Conserved(Followed(Locked(c, Sequenced(r, p.sequenceNumber), f.src, f.peerAdded), !p.initiatorReports),
                      ps + [p])
  {
    LockedKeepsCounts(c, Sequenced(r, p.sequenceNumber), f, p);
    hide Locked;
    hide Followed;
    assert ps != [] ==> (ps + [p])[0] == ps[0];
  }

  // ----- the pair -----

  datatype Pair = Pair(reports: bool, controlSequence: u32, air: set<ControlPacket>,
                       frames: seq<Frame>)

  datatype Event =
    | Sent
    | SendFailed
    | Delivered(packet: ControlPacket, pad: seq<byte>, peerAdded: bool)
    | Stray(frame: Frame)

  /** The bytes of the initiator's frame for a packet, padded. */
  function FrameOf(c: Config, mac: Mac, p: ControlPacket, pad: seq<byte>, peerAdded: bool): Frame {
    Frame(mac, Framed(PutControl(p, []), INITIATOR_MAGIC, c.peerMac.None?) + pad, peerAdded)
  }

  /** What the network may do. A sent packet can arrive any number of times, at any time, or never.
      With one initiator, nothing else that arrives parses as a control frame, or, in manual pairing,
      it comes from somebody else. */
  predicate Allowed(c: Config, mac: Mac, p: Pair, ev: Event) {
    match ev
    case Delivered(packet, _, _) => packet in p.air
    case Stray(f) =>
      Parse(f.data, INITIATOR_MAGIC, c.peerMac.None?) == None || (c.peerMac == Some(mac) && f.src != mac)
    case _ => true
  }

  /** A packet carries the number of the sounding; the number advances when the driver took it. A
      failed send may still have reached the air. */
  function Happens(c: Config, mac: Mac, p: Pair, ev: Event): Pair {
    match ev
    case Sent =>
      p.(air := p.air + {ControlPacket(p.reports, p.controlSequence)},
         controlSequence := if p.controlSequence == 0xFFFF_FFFF then 0 else p.controlSequence + 1)
    case SendFailed => p.(air := p.air + {ControlPacket(p.reports, p.controlSequence)})
    case Delivered(packet, pad, peerAdded) =>
      p.(frames := p.frames + [FrameOf(c, mac, packet, pad, peerAdded)])
    case Stray(f) => p.(frames := p.frames + [f])
  }

  predicate AllAllowed(c: Config, mac: Mac, p: Pair, evs: seq<Event>)
    decreases |evs|
  {
    evs == [] || (Allowed(c, mac, p, evs[0]) && AllAllowed(c, mac, Happens(c, mac, p, evs[0]), evs[1..]))
  }

  function PairAfter(c: Config, mac: Mac, p: Pair, evs: seq<Event>): Pair
    decreases |evs|
  {
    if evs == [] then p else PairAfter(c, mac, Happens(c, mac, p, evs[0]), evs[1..])
  }

  /** Everything on the air, and everything accepted, carries the initiator's flag; the responder is
      locked on to nobody else. */
  ghost predicate PairInv(c: Config, mac: Mac, responderReports: bool, p: Pair) {
    && (c.peerMac == None || c.peerMac == Some(mac))
    && (forall q | q in p.air :: q.initiatorReports == p.reports)
    && (var ps := Accepted(c, responderReports, p.frames);
        forall i | 0 <= i < |ps| :: ps[i].initiatorReports == p.reports)
    && var r := Received(c, responderReports, p.frames);
       && (r.isConnected ==> r.initiatorMac == MacToWord(mac))
       && (c.peerMac.Some? ==> r.isConnected)
  }

  /** One more frame: what it does to the accepted history and to the lock. */
  lemma FrameStep(c: Config, mac: Mac, responderReports: bool, p: Pair, f: Frame)
    requires PairInv(c, mac, responderReports, p)
    requires match Parse(f.data, INITIATOR_MAGIC, c.peerMac.None?)
             case None => true
             case Some(q) => (q.initiatorReports == p.reports && f.src == mac)
                             || (c.peerMac == Some(mac) && f.src != mac)
    ensures PairInv(c, mac, responderReports, p.(frames := p.frames + [f]))
  {
    hide Parse;
    hide Followed;
    hide MacToWord;
    var r := Received(c, responderReports, p.frames);
    MacInWord(mac);
    assert (p.frames + [f])[..|p.frames|] == p.frames;
    match Accepts(c, r, f.src, f.data)
    case None =>
      assert Accepted(c, responderReports, p.frames + [f]) == Accepted(c, responderReports, p.frames);
    case Some(q) =>
      FollowedKeepsLock(Locked(c, Sequenced(r, q.sequenceNumber), f.src, f.peerAdded), !q.initiatorReports);
  }

  lemma PairStep(c: Config, mac: Mac, responderReports: bool, p: Pair, ev: Event)
    requires PairInv(c, mac, responderReports, p) && Allowed(c, mac, p, ev)
    ensures PairInv(c, mac, responderReports, Happens(c, mac, p, ev))
  {
    hide Received;
    hide Accepted;
    hide Parse;
    match ev
    case Delivered(packet, pad, peerAdded) =>
      ParseSerialized(packet, INITIATOR_MAGIC, c.peerMac.None?, pad);
      FrameStep(c, mac, responderReports, p, FrameOf(c, mac, packet, pad, peerAdded));
    case Stray(f) => FrameStep(c, mac, responderReports, p, f);
    case _ =>
  }

  lemma {:induction false} PairInvHolds(c: Config, mac: Mac, responderReports: bool, p: Pair, evs: seq<Event>)
    requires PairInv(c, mac, responderReports, p) && AllAllowed(c, mac, p, evs)
    ensures PairInv(c, mac, responderReports, PairAfter(c, mac, p, evs))
    ensures PairAfter(c, mac, p, evs).reports == p.reports
    decreases |evs|
  {
    if evs != [] {
      PairStep(c, mac, responderReports, p, evs[0]);
      PairInvHolds(c, mac, responderReports, Happens(c, mac, p, evs[0]), evs[1..]);
    }
  }

  /** The packets the network delivered, in order. */
  function Deliveries(evs: seq<Event>): seq<ControlPacket> {
    if evs == [] then []
    else (match evs[0] case Delivered(packet, _, _) => [packet] case _ => []) + Deliveries(evs[1..])
  }

  /** One event: what is accepted of it, and whether it locks the responder on. */
  lemma EventIs(c: Config, mac: Mac, responderReports: bool, p: Pair, ev: Event)
    requires PairInv(c, mac, responderReports, p) && Allowed(c, mac, p, ev) && !c.rawListen
    ensures var q := Happens(c, mac, p, ev);
            && Accepted(c, responderReports, q.frames) == Accepted(c, responderReports, p.frames) + Deliveries([ev])
            && (Received(c, responderReports, q.frames).isConnected <==>
                Received(c, responderReports, p.frames).isConnected || (c.txEnabled && ev.Delivered? && ev.peerAdded))
  {
    hide Parse;
    hide WordToMac;
    hide MacToWord;
    hide Ingested;
    MacInWord(mac);
    assert forall s: seq<ControlPacket> :: s + [] == s;
    match ev
    case Delivered(packet, pad, peerAdded) =>
      var f := FrameOf(c, mac, packet, pad, peerAdded);
      ParseSerialized(packet, INITIATOR_MAGIC, c.peerMac.None?, pad);
      FrameIs(c, responderReports, p.frames, f);
      IngestLocks(c, Received(c, responderReports, p.frames), f);
      assert (p.frames + [f])[..|p.frames|] == p.frames;
    case Stray(f) => FrameIs(c, responderReports, p.frames, f);
    case _ =>
  }

  /** Every delivered packet is accepted, in the order of delivery, and nothing else is. */
  lemma {:induction false} DeliveredIsAccepted(c: Config, mac: Mac, responderReports: bool, p: Pair, evs: seq<Event>)
    requires PairInv(c, mac, responderReports, p) && AllAllowed(c, mac, p, evs) && !c.rawListen
    ensures Accepted(c, responderReports, PairAfter(c, mac, p, evs).frames) ==
            Accepted(c, responderReports, p.frames) + Deliveries(evs)
    decreases |evs|
  {
    hide Accepted;
    hide Received;
    hide Allowed;
    hide Happens;
    if evs != [] {
      var q := Happens(c, mac, p, evs[0]);
      EventIs(c, mac, responderReports, p, evs[0]);
      PairStep(c, mac, responderReports, p, evs[0]);
      hide PairInv;
      DeliveredIsAccepted(c, mac, responderReports, q, evs[1..]);
      Appended(Accepted(c, responderReports, p.frames), evs);
    }
  }

  lemma Appended(ps: seq<ControlPacket>, evs: seq<Event>)
    requires evs != []
    ensures ps + Deliveries([evs[0]]) + Deliveries(evs[1..]) == ps + Deliveries(evs)
  {
    assert Deliveries([evs[0]]) == (match evs[0] case Delivered(packet, _, _) => [packet] case _ => []) + [];
    Regrouped(ps, Deliveries([evs[0]]), Deliveries(evs[1..]));
    assert Deliveries(evs) == Deliveries([evs[0]]) + Deliveries(evs[1..]);
    hide Deliveries;
  }

  lemma Regrouped(a: seq<ControlPacket>, b: seq<ControlPacket>, c: seq<ControlPacket>)
    ensures a + b + c == a + (b + c) && b + [] == b
  {
  }

  /** In automatic pairing the first delivery whose sender the driver can add locks the responder on. */
  lemma {:induction false} DeliveryLocks(c: Config, mac: Mac, responderReports: bool, p: Pair, evs: seq<Event>)
    requires PairInv(c, mac, responderReports, p) && AllAllowed(c, mac, p, evs) && !c.rawListen
    ensures Received(c, responderReports, PairAfter(c, mac, p, evs).frames).isConnected <==>
            Received(c, responderReports, p.frames).isConnected ||
            (c.txEnabled && exists ev | ev in evs :: ev.Delivered? && ev.peerAdded)
    decreases |evs|
  {
    hide Accepted;
    hide Received;
    hide Allowed;
    hide Happens;
    if evs != [] {
      EventIs(c, mac, responderReports, p, evs[0]);
      PairStep(c, mac, responderReports, p, evs[0]);
      hide PairInv;
      DeliveryLocks(c, mac, responderReports, Happens(c, mac, p, evs[0]), evs[1..]);
      assert evs[0] in evs && forall ev :: ev in evs <==> ev == evs[0] || ev in evs[1..];
    }
  }

  /** Whatever the network loses, repeats or reorders: the responder accepts exactly what is delivered to it,
      is only ever locked on to the initiator, and is so once a delivery let it; and once three packets got
      through, at least one end reports. It reports itself exactly if it was configured to, or the initiator is
      silent and three packets got through. */
  lemma SomebodyReports(c: Config, mac: Mac, initiatorReports: bool, responderReports: bool, evs: seq<Event>)
    requires c.peerMac == None || c.peerMac == Some(mac)
    requires AllAllowed(c, mac, Pair(initiatorReports, 0, {}, []), evs)
    ensures var p := PairAfter(c, mac, Pair(initiatorReports, 0, {}, []), evs);
            var r := Received(c, responderReports, p.frames);
            && (r.isConnected ==> WordToMac(r.initiatorMac) == mac)
            && (r.reports <==> responderReports || (!initiatorReports && r.accepted >= 3))
            && (r.accepted >= 3 ==> initiatorReports || r.reports)
            && r.accepted == (if c.rawListen then 0 else |Deliveries(evs)|)
            && (r.isConnected <==>
                  c.peerMac == Some(mac) ||
                  (c.txEnabled && !c.rawListen && exists ev | ev in evs :: ev.Delivered? && ev.peerAdded))
  {
    var start := Pair(initiatorReports, 0, {}, []);
    PairInvHolds(c, mac, responderReports, start, evs);
    var p := PairAfter(c, mac, start, evs);
    ReportsIff(c, mac, responderReports, p);
    if c.rawListen {
      NothingHeard(c, responderReports, p.frames);
    } else {
      DeliveredIsAccepted(c, mac, responderReports, start, evs);
      DeliveryLocks(c, mac, responderReports, start, evs);
      LastIsHistory(c, responderReports, p.frames);
      assert [] + Deliveries(evs) == Deliveries(evs);
    }
    hide Received;
    hide PairInv;
    hide PairAfter;
  }

  lemma ReportsIff(c: Config, mac: Mac, responderReports: bool, p: Pair)
    requires PairInv(c, mac, responderReports, p)
    ensures var r := Received(c, responderReports, p.frames);
            && (r.isConnected ==> WordToMac(r.initiatorMac) == mac)
            && (r.reports <==> responderReports || (!p.reports && r.accepted >= 3))
  {
    ModeIsHistory(c, responderReports, p.frames);
    MacInWord(mac);
    var ps := Accepted(c, responderReports, p.frames);
    if !p.reports && |ps| >= 3 { assert SilentThrice(ps, 2); }
    if i :| SilentThrice(ps, i) { assert ps[i].initiatorReports == p.reports; }
    hide WordToMac;
    hide MacToWord;
  }

  /** In raw listening nothing is accepted. */
  lemma {:induction false} NothingHeard(c: Config, reports: bool, frames: seq<Frame>)
    requires c.rawListen
    ensures Received(c, reports, frames) == StartResponder(c, reports)
  {
    if frames != [] { NothingHeard(c, reports, frames[..|frames| - 1]); }
  }
}
