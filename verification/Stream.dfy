/** The serialized console: packets and log lines on one link, and the host that takes it apart.

    Packets go out as delimited COBS frames. A log line shares the link, so in serialized mode it is
    bracketed by delimiters. The host splits the capture at zero bytes and decodes every non-empty
    slot. */
module Stream {
  import opened Bytes
  import opened Wire
  import Cobs
  import Postcard

  datatype Item = Measured(packet: Packet) | Text(message: seq<byte>)

  // ----- the device -----

  /** The frames of a packet, in the order they are written. Both carry the packet's envelope. */
  function Frames(p: Packet): seq<seq<byte>> {
    (match p.session case None => [] case Some(info) => [Frame(p.envelope, Body.Session(info))])
    + [Frame(p.envelope, Body.Csi(p.frame))]
  }

  function Delimited(frames: seq<seq<byte>>): seq<byte> {
    if frames == [] then [] else frames[0] + [0] + Delimited(frames[1..])
  }

  lemma {:induction false} DelimitedAppend(frames: seq<seq<byte>>, f: seq<byte>)
    ensures Delimited(frames + [f]) == Delimited(frames) + f + [0]
  {
    if frames == [] {
      assert frames + [f] == [f] && [f][1..] == [];
      assert Delimited([f]) == f + [0] + [];
    } else {
      var all, tail := frames + [f], Delimited(frames[1..]);
      assert all[0] == frames[0] && all[1..] == frames[1..] + [f];
      DelimitedAppend(frames[1..], f);
      assert frames[0] + [0] + (tail + f + [0]) == frames[0] + [0] + tail + f + [0];
    }
  }

  function ItemBytes(i: Item): seq<byte> {
    match i case Measured(p) => Delimited(Frames(p)) case Text(m) => [0] + m + [0]
  }

  function StreamBytes(items: seq<Item>): seq<byte> {
    if items == [] then [] else ItemBytes(items[0]) + StreamBytes(items[1..])
  }

  /** The console in serialized mode. */
  class Console {
    var sent: seq<byte>

    constructor ()
      ensures sent == []
    {
      sent := [];
    }

    method Write(bytes: seq<byte>)
      modifies this
      ensures sent == old(sent) + bytes
    {
      sent := sent + bytes;
    }

    method WriteTextFramed(message: seq<byte>)
      modifies this
      ensures sent == old(sent) + [0] + message + [0]
      ensures sent == old(sent) + ItemBytes(Text(message))
    {
      Write([0]);
      Write(message);
      Write([0]);
    }

    /** Encode one frame into a `MAX_ENCODED_LEN` buffer and write it; this never fails. */
    method WriteFrame(e: Envelope, b: Body, buf: array<byte>)
      requires buf.Length == MAX_ENCODED_LEN
      modifies this, buf
      ensures sent == old(sent) + Frame(e, b) + [0]
    {
      hide Wire.Frame;
      var used := EncodeCobs(e, b, buf);
      match used case None => case Some(n) => Write(buf[..n]);
    }

    method WritePacket(p: Packet)
      modifies this
      ensures sent == old(sent)
                      + (match p.session
                         case None => []
                         case Some(info) => Frame(p.envelope, Body.Session(info)) + [0])
                      + Frame(p.envelope, Body.Csi(p.frame)) + [0]
      ensures sent == old(sent) + ItemBytes(Measured(p))
    {
      hide Wire.Frame;
      var buf := new byte[MAX_ENCODED_LEN];
      match p.session {
        case None =>
        case Some(info) => WriteFrame(p.envelope, Body.Session(info), buf);
      }
      WriteFrame(p.envelope, Body.Csi(p.frame), buf);
      ghost var first := Frames(p)[..|Frames(p)| - 1];
      DelimitedAppend(first, Frame(p.envelope, Body.Csi(p.frame)));
      if p.session.Some? { DelimitedAppend([], first[0]); }
    }
  }

  // ----- splitting at delimiters -----

  /** As Rust's `split`: `n` zeros give `n + 1` pieces. */
  function Split(s: seq<byte>): (r: seq<seq<byte>>)
    ensures r != []
  {
    if s == [] then [[]]
    else
      var rest := Split(s[1..]);
      if s[0] == 0 then [[]] + rest else [[s[0]] + rest[0]] + rest[1..]
  }

  function NonEmpty(pieces: seq<seq<byte>>): seq<seq<byte>> {
    if pieces == [] then []
    else (if pieces[0] == [] then [] else [pieces[0]]) + NonEmpty(pieces[1..])
  }

  /** The slots a host looks at. */
  function Slots(s: seq<byte>): seq<seq<byte>> { NonEmpty(Split(s)) }

  lemma {:induction false} SplitAtZero(a: seq<byte>, b: seq<byte>)
    ensures Split(a + [0] + b) == Split(a) + Split(b)
  {
    var s := a + [0] + b;
    if a == [] {
      assert s[1..] == b;
    } else {
      assert s[1..] == a[1..] + [0] + b;
      SplitAtZero(a[1..], b);
    }
  }

  lemma {:induction false} NonEmptyConcat(p: seq<seq<byte>>, q: seq<seq<byte>>)
    ensures NonEmpty(p + q) == NonEmpty(p) + NonEmpty(q)
  {
    if p == [] {
      assert p + q == q;
    } else {
      assert (p + q)[1..] == p[1..] + q;
      NonEmptyConcat(p[1..], q);
    }
  }

  lemma SlotsAtZero(a: seq<byte>, b: seq<byte>)
    ensures Slots(a + [0] + b) == Slots(a) + Slots(b)
  {
    SplitAtZero(a, b);
    NonEmptyConcat(Split(a), Split(b));
  }

  lemma {:induction false} SplitNonZero(s: seq<byte>)
    requires Cobs.NonZero(s)
    ensures Split(s) == [s]
  {
    if s != [] {
      assert s[0] != 0;
      SplitNonZero(s[1..]);
      assert s == [s[0]] + s[1..];
    }
  }

  lemma SlotsNonZero(s: seq<byte>)
    requires Cobs.NonZero(s)
    ensures Slots(s) == if s == [] then [] else [s]
  {
    SplitNonZero(s);
    assert NonEmpty([s][1..]) == [];
  }

  lemma SlotsOfFrame(f: seq<byte>, rest: seq<byte>)
    requires f != [] && Cobs.NonZero(f)
    ensures Slots(f + [0] + rest) == [f] + Slots(rest)
  {
    SlotsAtZero(f, rest);
    SlotsNonZero(f);
  }

  lemma {:induction false} SlotsOfFrames(frames: seq<seq<byte>>, rest: seq<byte>)
    requires forall f | f in frames :: f != [] && Cobs.NonZero(f)
    ensures Slots(Delimited(frames) + rest) == frames + Slots(rest)
  {
    hide Slots;
    if frames == [] {
      assert Delimited(frames) + rest == rest;
    } else {
      var more := Delimited(frames[1..]) + rest;
      assert Delimited(frames) + rest == frames[0] + [0] + more;
      assert frames[0] in frames;
      SlotsOfFrame(frames[0], more);
      forall f | f in frames[1..] ensures f != [] && Cobs.NonZero(f) { assert f in frames; }
      SlotsOfFrames(frames[1..], rest);
      assert frames == [frames[0]] + frames[1..];
    }
  }

  /** The slots an item ought to produce: one per frame of a packet; for a log line, whatever its
      own zero bytes cut it into. */
  function ItemSlots(i: Item): seq<seq<byte>> {
    match i case Measured(p) => Frames(p) case Text(m) => Slots(m)
  }

  function StreamSlots(items: seq<Item>): seq<seq<byte>> {
    if items == [] then [] else ItemSlots(items[0]) + StreamSlots(items[1..])
  }

  lemma FramesAreSlots(p: Packet)
    ensures forall f | f in Frames(p) :: f != [] && Cobs.NonZero(f)
  {
    hide Wire.Frame;
    FrameIsClean(p.envelope, Body.Csi(p.frame));
    if p.session.Some? { FrameIsClean(p.envelope, Body.Session(p.session.value)); }
  }

  /** Bracketing keeps a log line out of the framing: for every interleaving of packets and
      messages, zero bytes in the messages included, the host sees every packet frame as a slot of
      its own, in order, and nothing else but pieces of messages. */
  lemma {:induction false} HostSeesEveryFrame(items: seq<Item>)
    ensures Slots(StreamBytes(items)) == StreamSlots(items)
  {
    hide Wire.Frame;
    if items != [] {
      var rest := StreamBytes(items[1..]);
      HostSeesEveryFrame(items[1..]);
      match items[0]
      case Measured(p) =>
        FramesAreSlots(p);
        SlotsOfFrames(Frames(p), rest);
      case Text(m) =>
        assert StreamBytes(items) == [] + [0] + (m + [0] + rest);
        SlotsAtZero([], m + [0] + rest);
        SlotsAtZero(m, rest);
    }
  }

  /** Without the bracketing the property fails: an unframed line swallows the frame after it. */
  lemma UnframedTextLosesAPacket(m: seq<byte>, e: Envelope, b: Body)
    requires m != [] && Cobs.NonZero(m)
    ensures Slots(m + Frame(e, b) + [0]) == [m + Frame(e, b)]
    ensures Frame(e, b) !in Slots(m + Frame(e, b) + [0])
  {
    hide Wire.Frame;
    var merged := m + Frame(e, b);
    FrameIsClean(e, b);
    SlotsNonZero(merged);
    SlotsNonZero([]);
    SlotsAtZero(merged, []);
    assert merged + [0] + [] == merged + [0];
  }

  // ----- the host's summary -----

  datatype Summary = Summary(
    csi: nat, sessions: seq<(Envelope, SessionInfo)>, decodeErrors: nat, versionErrors: nat,
    texts: seq<seq<byte>>, seqGaps: nat, seqLost: nat, seqResets: nat,
    lastSeq: Option<(u32, u32)>)

  const EMPTY: Summary := Summary(0, [], 0, 0, [], 0, 0, 0, None)

  predicate PrintableByte(b: byte) { b == 9 || b == 10 || b == 13 || 0x20 <= b < 0x7f }

  predicate Printable(s: seq<byte>) { s != [] && forall i | 0 <= i < |s| :: PrintableByte(s[i]) }

  /** Account for one measurement frame. Numbers are unbounded here; in the program `last + 1` overflows
      when the largest 32-bit number is received twice in a row. */
  function CountCsi(s: Summary, e: Envelope): Summary {
    var counted := s.(csi := s.csi + 1, lastSeq := Some((e.sessionId, e.streamSeq)));
    match s.lastSeq
    case None => counted
    case Some((session, last)) =>
      if session != e.sessionId || e.streamSeq < last then
        counted.(seqResets := s.seqResets + 1)
      else if e.streamSeq > last + 1 then
        counted.(seqGaps := s.seqGaps + 1, seqLost := s.seqLost + (e.streamSeq - last - 1))
      else counted
  }

  function Account(s: Summary, slot: seq<byte>): Summary {
    match DecodeFrame(slot)
    case Ok(e, Session(info)) => s.(sessions := s.sessions + [(e, info)])
    case Ok(e, Csi(_)) => CountCsi(s, e)
    case UnsupportedVersion(_) => s.(versionErrors := s.versionErrors + 1)
    case Malformed =>
      if Printable(slot) then s.(texts := s.texts + [slot])
      else s.(decodeErrors := s.decodeErrors + 1)
  }

  function Fold(s: Summary, slots: seq<seq<byte>>): Summary
    decreases |slots|
  {
    if slots == [] then s else Fold(Account(s, slots[0]), slots[1..])
  }

  /** The end of the piece of `data` that starts at `from`. */
  method FindZero(data: seq<byte>, from: nat) returns (end: nat)
    requires from <= |data|
    ensures from <= end <= |data| && Cobs.NonZero(data[from..end])
    ensures end < |data| ==> data[end] == 0
  {
    end := from;
    while end < |data| && data[end] != 0
      invariant from <= end <= |data| && forall k | from <= k < end :: data[k] != 0
    {
      end := end + 1;
    }
  }

  /** Decode one slot in place and account for it; the raw bytes are kept for text. */
  method AccountSlot(s: Summary, raw: seq<byte>) returns (t: Summary)
    ensures t == Account(s, raw)
  {
    var frame := new byte[|raw|](i requires 0 <= i < |raw| => raw[i]);
    assert frame[..] == raw;
    var d := DecodeCobs(frame);
    t := s;
    match d {
      case Ok(e, Session(info)) => t := s.(sessions := s.sessions + [(e, info)]);
      case Ok(e, Csi(_)) => t := CountCsi(s, e);
      case UnsupportedVersion(_) => t := s.(versionErrors := s.versionErrors + 1);
      case Malformed =>
        if Printable(raw) { t := s.(texts := s.texts + [raw]); }
        else { t := s.(decodeErrors := s.decodeErrors + 1); }
    }
  }

  /** The slots of what is left at `at`, by the next piece. */
  lemma SlotsFrom(data: seq<byte>, at: nat, end: nat)
    requires at <= end <= |data| && Cobs.NonZero(data[at..end])
    requires end < |data| ==> data[end] == 0
    ensures Slots(data[at..]) ==
            (if at == end then [] else [data[at..end]])
            + (if end < |data| then Slots(data[end + 1..]) else [])
  {
    var raw := data[at..end];
    SlotsNonZero(raw);
    if end < |data| {
      assert data[at..] == raw + [0] + data[end + 1..];
      SlotsAtZero(raw, data[end + 1..]);
    } else {
      assert data[at..] == raw;
    }
  }

  /** The host program: one pass over the capture. */
  method Summarise(data: seq<byte>) returns (s: Summary)
    ensures s == Fold(EMPTY, Slots(data))
  {
    hide Account;
    hide Slots;
    s := EMPTY;
    var at := 0;
    ghost var left := Slots(data);
    assert data[0..] == data;
    while at <= |data|
      invariant 0 <= at <= |data| + 1
      invariant left == if at <= |data| then Slots(data[at..]) else []
      invariant Fold(EMPTY, Slots(data)) == Fold(s, left)
    {
      var end := FindZero(data, at);
      SlotsFrom(data, at, end);
      if at < end {
        s := AccountSlot(s, data[at..end]);
        left := left[1..];
      }
      at := end + 1;
    }
  }

  // ----- what the summary says about the run -----

  /** The summary without the three counters log lines can touch. */
  function Core(s: Summary): Summary {
    s.(decodeErrors := 0, versionErrors := 0, texts := [])
  }

  function Packets(items: seq<Item>): seq<Packet> {
    if items == [] then []
    else (match items[0] case Measured(p) => [p] case Text(_) => []) + Packets(items[1..])
  }

  /** What a packet adds: its announcement, if any, and one measurement. */
  function CountPacket(s: Summary, p: Packet): Summary {
    var announced := match p.session
                     case None => s
                     case Some(info) => s.(sessions := s.sessions + [(p.envelope, info)]);
    CountCsi(announced, p.envelope)
  }

  function CountPackets(s: Summary, ps: seq<Packet>): Summary
    decreases |ps|
  {
    if ps == [] then s else CountPackets(CountPacket(s, ps[0]), ps[1..])
  }

  /** A message whose pieces never decode as frames of this version. */
  ghost predicate Quiet(m: seq<byte>) {
    forall f | f in Slots(m) :: !DecodeFrame(f).Ok?
  }

  lemma {:induction false} FoldConcat(s: Summary, a: seq<seq<byte>>, b: seq<seq<byte>>)
    ensures Fold(s, a + b) == Fold(Fold(s, a), b)
    decreases |a|
  {
    hide Account;
    if a == [] {
      assert a + b == b;
    } else {
      assert (a + b)[1..] == a[1..] + b;
      FoldConcat(Account(s, a[0]), a[1..], b);
    }
  }

  lemma FoldPacket(s: Summary, p: Packet)
    requires p.envelope.version == WIRE_VERSION
    ensures Fold(s, Frames(p)) == CountPacket(s, p)
  {
    hide Wire.Frame;
    hide Wire.DecodeFrame;
    var csi := Frame(p.envelope, Body.Csi(p.frame));
    DecodeFrameOfFrame(p.envelope, Body.Csi(p.frame));
    assert forall t :: Fold(t, [csi]) == Fold(Account(t, csi), []) by { assert [csi][1..] == []; }
    match p.session
    case None =>
    case Some(info) =>
      var announcement := Frame(p.envelope, Body.Session(info));
      DecodeFrameOfFrame(p.envelope, Body.Session(info));
      assert Frames(p)[1..] == [csi];
  }

  lemma DecodeFrameOfFrame(e: Envelope, b: Body)
    requires e.version == WIRE_VERSION
    ensures DecodeFrame(Frame(e, b)) == Ok(e, b)
  {
    hide Wire.Frame;
    hide Wire.DecodeFrame;
    DecodeAfterEncode(e, b, []);
    assert Frame(e, b) + [] == Frame(e, b);
  }

  lemma {:induction false} FoldQuiet(s: Summary, slots: seq<seq<byte>>)
    requires forall f | f in slots :: !DecodeFrame(f).Ok?
    ensures Core(Fold(s, slots)) == Core(s)
    decreases |slots|
  {
    hide Wire.DecodeFrame;
    if slots != [] {
      assert slots[0] in slots;
      forall f | f in slots[1..] ensures !DecodeFrame(f).Ok? { assert f in slots; }
      FoldQuiet(Account(s, slots[0]), slots[1..]);
    }
  }

  lemma {:induction false} CountPacketsCore(s: Summary, t: Summary, ps: seq<Packet>)
    requires Core(s) == Core(t)
    ensures Core(CountPackets(s, ps)) == Core(CountPackets(t, ps))
    decreases |ps|
  {
    if ps != [] { CountPacketsCore(CountPacket(s, ps[0]), CountPacket(t, ps[0]), ps[1..]); }
  }

  /** Log lines change nothing the host concludes about the measurements. */
  lemma {:induction false} TextIsInvisible(s: Summary, items: seq<Item>)
    requires forall p | p in Packets(items) :: p.envelope.version == WIRE_VERSION
    requires forall i | i in items && i.Text? :: Quiet(i.message)
    ensures Core(Fold(s, StreamSlots(items))) == Core(CountPackets(s, Packets(items)))
    decreases |items|
  {
    hide Wire.Frame;
    hide Account;
    if items != [] {
      var first, rest := ItemSlots(items[0]), items[1..];
      var t := Fold(s, first);
      FoldConcat(s, first, StreamSlots(rest));
      assert items[0] in items;
      assert forall i | i in rest :: i in items;
      assert forall p | p in Packets(rest) :: p in Packets(items);
      TextIsInvisible(t, rest);
      match items[0]
      case Measured(p) =>
        assert p in Packets(items);
        FoldPacket(s, p);
        assert Packets(items)[1..] == Packets(rest);
      case Text(m) =>
        FoldQuiet(s, first);
        CountPacketsCore(t, s, Packets(rest));
        assert Packets(items) == Packets(rest);
    }
  }

  /** One session's packets, in the order of their sequence numbers. */
  predicate OneSession(ps: seq<Packet>) {
    && (forall p | p in ps :: p.envelope.version == WIRE_VERSION
                              && p.envelope.sessionId == ps[0].envelope.sessionId)
    && forall i, j | 0 <= i < j < |ps| :: ps[i].envelope.streamSeq < ps[j].envelope.streamSeq
  }

  /** One more packet of the session accounts for every sequence number since the last. */
  lemma CountNext(s: Summary, p: Packet)
    requires s.lastSeq.Some? ==>
               s.lastSeq.value.0 == p.envelope.sessionId && s.lastSeq.value.1 < p.envelope.streamSeq
    ensures var t := CountPacket(s, p);
            && t.csi == s.csi + 1 && t.seqResets == s.seqResets
            && t.lastSeq == Some((p.envelope.sessionId, p.envelope.streamSeq))
            && t.csi + t.seqLost - s.csi - s.seqLost ==
               if s.lastSeq.Some? then p.envelope.streamSeq - s.lastSeq.value.1 else 1
  {
  }

  lemma {:induction false} CountsConserve(s: Summary, ps: seq<Packet>)
    requires OneSession(ps)
    requires match s.lastSeq
             case None => true
             case Some((session, last)) =>
               forall p | p in ps :: p.envelope.sessionId == session && last < p.envelope.streamSeq
    ensures var r := CountPackets(s, ps);
            && r.csi == s.csi + |ps|
            && r.seqResets == s.seqResets
            && (ps != [] ==>
                 var last := ps[|ps| - 1].envelope.streamSeq;
                 r.csi + r.seqLost - s.csi - s.seqLost ==
                   match s.lastSeq
                   case None => last - ps[0].envelope.streamSeq + 1
                   case Some((_, before)) => last - before)
    decreases |ps|
  {
    if ps != [] {
      hide CountPacket;
      var t, rest := CountPacket(s, ps[0]), ps[1..];
      assert ps[0] in ps;
      CountNext(s, ps[0]);
      forall p | p in rest
        ensures p in ps && ps[0].envelope.streamSeq < p.envelope.streamSeq
      {
        var k :| 0 <= k < |rest| && rest[k] == p;
        assert ps[k + 1] == p;
      }
      assert OneSession(rest);
      CountsConserve(t, rest);
    }
  }

  function Announcements(ps: seq<Packet>): seq<(Envelope, SessionInfo)> {
    if ps == [] then []
    else (match ps[0].session case None => [] case Some(info) => [(ps[0].envelope, info)])
         + Announcements(ps[1..])
  }

  lemma {:induction false} SessionsAnnounced(s: Summary, ps: seq<Packet>)
    ensures CountPackets(s, ps).sessions == s.sessions + Announcements(ps)
    decreases |ps|
  {
    if ps != [] { SessionsAnnounced(CountPacket(s, ps[0]), ps[1..]); }
  }

  lemma {:induction false} AnnouncementsSnoc(ps: seq<Packet>, p: Packet)
    ensures Announcements(ps + [p]) ==
            Announcements(ps) + (match p.session case None => [] case Some(info) => [(p.envelope, info)])
  {
    if ps == [] {
      assert [p][1..] == [];
    } else {
      assert (ps + [p])[1..] == ps[1..] + [p];
      AnnouncementsSnoc(ps[1..], p);
    }
  }

  /** The announcements of the packets that carry one, in order, each with its packet's envelope. */
  lemma {:induction false} AnnouncementsAre(ps: seq<Packet>) returns (places: seq<nat>)
    ensures |Announcements(ps)| == |places|
    ensures forall i, j | 0 <= i < j < |places| :: places[i] < places[j]
    ensures forall k | 0 <= k < |ps| :: k in places <==> ps[k].session.Some?
    ensures forall i | 0 <= i < |places| ::
              && places[i] < |ps| && ps[places[i]].session.Some?
              && Announcements(ps)[i] == (ps[places[i]].envelope, ps[places[i]].session.value)
  {
    if ps == [] {
      places := [];
    } else {
      var init, p := ps[..|ps| - 1], ps[|ps| - 1];
      assert init + [p] == ps;
      var before := AnnouncementsAre(init);
      AnnouncementsSnoc(init, p);
      hide Announcements;
      if p.session.Some? {
        places := before + [|init|];
        assert forall k | k < |init| :: k in places <==> k in before;
      } else {
        places := before;
      }
    }
  }

  // ----- any packets, of any sessions -----

  /** Whether a packet starts over after another: in another session, or with a smaller number. */
  predicate Restarts(a: Envelope, b: Envelope) { b.sessionId != a.sessionId || b.streamSeq < a.streamSeq }

  /** Whether it jumps ahead. */
  predicate Jumps(a: Envelope, b: Envelope) { b.sessionId == a.sessionId && b.streamSeq > a.streamSeq + 1 }

  predicate Repeats(a: Envelope, b: Envelope) { b.sessionId == a.sessionId && b.streamSeq == a.streamSeq }

  /** The places where a packet stands so to the one before it. */
  ghost function At(ps: seq<Packet>, f: (Envelope, Envelope) -> bool): set<int> {
    set k {:trigger ps[k]} | 1 <= k < |ps| && f(ps[k - 1].envelope, ps[k].envelope)
  }

  lemma {:induction false} CountPacketsSnoc(s: Summary, ps: seq<Packet>, p: Packet)
    ensures CountPackets(s, ps + [p]) == CountPacket(CountPackets(s, ps), p)
    decreases |ps|
  {
    hide CountPacket;
    if ps == [] {
      assert [p][1..] == [];
    } else {
      assert (ps + [p])[1..] == ps[1..] + [p];
      CountPacketsSnoc(CountPacket(s, ps[0]), ps[1..], p);
    }
  }

  lemma AtPrefix(ps: seq<Packet>, p: Packet, f: (Envelope, Envelope) -> bool, k: int)
    requires k != |ps|
    ensures k in At(ps + [p], f) <==> k in At(ps, f)
  {
    if 1 <= k < |ps| { assert (ps + [p])[k] == ps[k] && (ps + [p])[k - 1] == ps[k - 1]; }
  }

  lemma AtSnoc(ps: seq<Packet>, p: Packet, f: (Envelope, Envelope) -> bool)
    ensures |At(ps + [p], f)| ==
            |At(ps, f)| + if ps != [] && f(ps[|ps| - 1].envelope, p.envelope) then 1 else 0
  {
    var n, a, b := |ps|, At(ps, f), At(ps + [p], f);
    forall k | k != n ensures k in b <==> k in a { AtPrefix(ps, p, f, k); }
    assert (ps + [p])[n] == p;
    assert n in b <==> n > 0 && f(ps[n - 1].envelope, p.envelope);
    assert n !in a;
    hide At;
    assert b == if n in b then a + {n} else a;
  }

  /** What a summary remembers of the packets it counted. */
  predicate Remembers(s: Summary, ps: seq<Packet>) {
    s.lastSeq == if ps == [] then None
                 else Some((ps[|ps| - 1].envelope.sessionId, ps[|ps| - 1].envelope.streamSeq))
  }

  /** One more packet: a restart, a jump ahead, or neither. */
  lemma CountPacketIs(s: Summary, ps: seq<Packet>, p: Packet)
    requires Remembers(s, ps)
    ensures var t := CountPacket(s, p);
            var e := if ps == [] then p.envelope else ps[|ps| - 1].envelope;
            && Remembers(t, ps + [p]) && t.csi == s.csi + 1
            && t.seqResets == s.seqResets + (if ps != [] && Restarts(e, p.envelope) then 1 else 0)
            && t.seqGaps == s.seqGaps + (if ps != [] && Jumps(e, p.envelope) then 1 else 0)
            && t.seqLost == s.seqLost + if ps != [] && Jumps(e, p.envelope) then p.envelope.streamSeq - e.streamSeq - 1
                                        else 0
  {
  }

  /** Whatever the packets, a reset is counted where one starts over and a gap where one jumps ahead. */
  lemma {:induction false} PlacesAreCounted(ps: seq<Packet>)
    ensures var r := CountPackets(EMPTY, ps);
            && Remembers(r, ps) && r.csi == |ps|
            && r.seqResets == |At(ps, Restarts)| && r.seqGaps == |At(ps, Jumps)|
  {
    hide CountPacket;
    hide Remembers;
    hide Restarts;
    hide Jumps;
    if ps == [] {
      NothingCounted();
    } else {
      var init, p := ps[..|ps| - 1], ps[|ps| - 1];
      assert init + [p] == ps;
      PlacesAreCounted(init);
      hide CountPackets;
      hide At;
      CountPacketsSnoc(EMPTY, init, p);
      CountPacketIs(CountPackets(EMPTY, init), init, p);
      AtSnoc(init, p, Restarts);
      AtSnoc(init, p, Jumps);
    }
  }

  lemma NothingCounted()
    ensures var r := CountPackets(EMPTY, []); Remembers(r, []) && r == EMPTY
    ensures forall f :: At([], f) == {}
  {
  }

  /** Places in a sequence of length `n` or at its end, in increasing order. */
  predicate Places(cuts: seq<nat>, n: nat) {
    && (forall i | 0 <= i < |cuts| :: cuts[i] <= n)
    && forall i, j | 0 <= i < j < |cuts| :: cuts[i] < cuts[j]
  }

  /** Places at which a sequence is cut, from one end to the other. */
  predicate Cuts(cuts: seq<nat>, n: nat) {
    |cuts| >= 2 && cuts[0] == 0 && cuts[|cuts| - 1] == n && Places(cuts, n)
  }

  /** The numbers from the first to the last packet of every stretch between two cuts, added up. */
  function Spans(ps: seq<Packet>, cuts: seq<nat>): int
    requires Places(cuts, |ps|)
  {
    if |cuts| < 2 then 0
    else
      var from, to := cuts[|cuts| - 2], cuts[|cuts| - 1];
      Spans(ps, cuts[..|cuts| - 1]) + (ps[to - 1].envelope.streamSeq - ps[from].envelope.streamSeq + 1)
  }

  lemma {:induction false} SpansOfPrefix(ps: seq<Packet>, p: Packet, cuts: seq<nat>)
    requires Places(cuts, |ps|)
    ensures Places(cuts, |ps + [p]|) && Spans(ps + [p], cuts) == Spans(ps, cuts)
  {
    if |cuts| >= 2 { SpansOfPrefix(ps, p, cuts[..|cuts| - 1]); }
  }

  lemma PlacesSnoc(cuts: seq<nat>, to: nat, n: nat)
    requires cuts != [] && Places(cuts, n) && cuts[|cuts| - 1] < to <= n
    ensures Places(cuts + [to], n)
  {
    forall i | 0 <= i < |cuts| ensures cuts[i] < to { if i < |cuts| - 1 { assert cuts[i] < cuts[|cuts| - 1]; } }
  }

  lemma SpansOneMore(ps: seq<Packet>, cuts: seq<nat>, to: nat)
    requires cuts != [] && Places(cuts, |ps|) && cuts[|cuts| - 1] < to <= |ps|
    ensures Places(cuts + [to], |ps|)
    ensures Spans(ps, cuts + [to]) ==
            Spans(ps, cuts) + (ps[to - 1].envelope.streamSeq - ps[cuts[|cuts| - 1]].envelope.streamSeq + 1)
  {
    PlacesSnoc(cuts, to, |ps|);
    hide Places;
    var more := cuts + [to];
    assert more[..|cuts|] == cuts && more[|cuts|] == to && more[|cuts| - 1] == cuts[|cuts| - 1];
  }

  /** One packet more, to the last stretch. */
  lemma StretchGrows(ps: seq<Packet>, p: Packet, cuts: seq<nat>)
    requires ps != [] && Cuts(cuts, |ps|)
    ensures var n, init := |ps|, cuts[..|cuts| - 1];
            && Places(init + [n + 1], n + 1)
            && Spans(ps + [p], init + [n + 1]) ==
               Spans(ps, cuts) + p.envelope.streamSeq - ps[n - 1].envelope.streamSeq
  {
    hide Spans;
    var n, init := |ps|, cuts[..|cuts| - 1];
    assert cuts == init + [n];
    assert init[|init| - 1] < n;
    SpansOfPrefix(ps, p, init);
    SpansOneMore(ps, init, n);
    SpansOneMore(ps + [p], init, n + 1);
  }

  /** One packet more, a stretch of its own. */
  lemma StretchStarts(ps: seq<Packet>, p: Packet, cuts: seq<nat>)
    requires ps != [] && Cuts(cuts, |ps|)
    ensures Places(cuts + [|ps| + 1], |ps| + 1)
    ensures Spans(ps + [p], cuts + [|ps| + 1]) == Spans(ps, cuts) + 1
  {
    hide Spans;
    SpansOfPrefix(ps, p, cuts);
    SpansOneMore(ps + [p], cuts, |ps| + 1);
  }

  /** Whether the cuts are where a packet starts over. */
  ghost predicate AtRestarts(ps: seq<Packet>, cuts: seq<nat>) {
    forall k {:trigger ps[k]} | 1 <= k < |ps| :: k in cuts <==> Restarts(ps[k - 1].envelope, ps[k].envelope)
  }

  lemma LastCut(cuts: seq<nat>, n: nat)
    requires n > 0 && Cuts(cuts, n + 1) && n in cuts
    ensures cuts == cuts[..|cuts| - 1] + [n + 1] && Cuts(cuts[..|cuts| - 1], n)
  {
    var i :| 0 <= i < |cuts| && cuts[i] == n;
    assert cuts[|cuts| - 2] < cuts[|cuts| - 1];
    assert i == |cuts| - 2;
  }

  lemma NoLastCut(cuts: seq<nat>, n: nat)
    requires n > 0 && Cuts(cuts, n + 1) && n !in cuts
    ensures cuts == cuts[..|cuts| - 1] + [n + 1] && Cuts(cuts[..|cuts| - 1] + [n], n)
  {
    var init := cuts[..|cuts| - 1];
    forall i | 0 <= i < |init| ensures init[i] < n { assert cuts[i] < cuts[|cuts| - 1] && cuts[i] in cuts; }
  }

  lemma Members(init: seq<nat>, x: nat, y: nat, k: nat)
    requires k != x && k != y
    ensures k in init + [x] <==> k in init + [y]
    ensures k in init + [x] <==> k in init
  {
  }

  /** Whether the cuts are where a packet starts over concerns no packet after them. */
  lemma RestartsPrefix(ps: seq<Packet>, p: Packet, cuts: seq<nat>, before: seq<nat>)
    requires forall k | 1 <= k < |ps| :: k in cuts <==> k in before
    requires ps != [] ==> (|ps| in cuts <==> Restarts(ps[|ps| - 1].envelope, p.envelope))
    ensures AtRestarts(ps + [p], cuts) <==> AtRestarts(ps, before)
  {
    hide Restarts;
    var qs, n := ps + [p], |ps|;
    assert qs[n] == p;
    if AtRestarts(qs, cuts) {
      forall k | 1 <= k < n ensures k in before <==> Restarts(ps[k - 1].envelope, ps[k].envelope) {
        assert qs[k] == ps[k] && qs[k - 1] == ps[k - 1];
      }
    }
    if AtRestarts(ps, before) {
      forall k | 1 <= k < n + 1 ensures k in cuts <==> Restarts(qs[k - 1].envelope, qs[k].envelope) {
        assert qs[k - 1] == ps[k - 1];
        if k < n { assert qs[k] == ps[k]; }
      }
    }
  }

  lemma RestartsLast(ps: seq<Packet>, p: Packet, cuts: seq<nat>)
    requires ps != [] && AtRestarts(ps + [p], cuts)
    ensures |ps| in cuts <==> Restarts(ps[|ps| - 1].envelope, p.envelope)
  {
    hide Restarts;
    assert (ps + [p])[|ps|] == p && (ps + [p])[|ps| - 1] == ps[|ps| - 1];
  }

  /** The cuts of a sequence give those of all but its last packet. */
  lemma CutsInit(ps: seq<Packet>, p: Packet, cuts: seq<nat>) returns (before: seq<nat>)
    requires ps != [] && Cuts(cuts, |ps| + 1)
    requires AtRestarts(ps + [p], cuts)
    ensures Cuts(before, |ps|) && AtRestarts(ps, before)
    ensures cuts == if Restarts(ps[|ps| - 1].envelope, p.envelope) then before + [|ps| + 1]
                    else before[..|before| - 1] + [|ps| + 1]
  {
    hide Restarts;
    hide AtRestarts;
    var n := |ps|;
    var init := cuts[..|cuts| - 1];
    RestartsLast(ps, p, cuts);
    if n in cuts { LastCut(cuts, n); } else { NoLastCut(cuts, n); }
    hide Cuts;
    before := if n in cuts then init else init + [n];
    forall k: nat | 1 <= k < n ensures k in cuts <==> k in before { Members(init, n + 1, n, k); }
    RestartsPrefix(ps, p, cuts, before);
    assert (init + [n])[..|init|] == init;
  }

  /** What was received and what is reported lost add up to the numbers every stretch between two restarts
      spans, and one more for every number that was received again. */
  lemma {:induction false} StretchesAddUp(ps: seq<Packet>, cuts: seq<nat>)
    requires ps != [] && Cuts(cuts, |ps|) && AtRestarts(ps, cuts)
    ensures var r := CountPackets(EMPTY, ps); r.csi + r.seqLost == Spans(ps, cuts) + |At(ps, Repeats)|
  {
    var init, p := ps[..|ps| - 1], ps[|ps| - 1];
    assert init + [p] == ps;
    CountPacketsSnoc(EMPTY, init, p);
    PlacesAreCounted(init);
    CountPacketIs(CountPackets(EMPTY, init), init, p);
    AtSnoc(init, p, Repeats);
    if init == [] {
      OneStretch(p, cuts);
    } else {
      var before := CutsInit(init, p, cuts);
      StretchesAddUp(init, before);
      if Restarts(init[|init| - 1].envelope, p.envelope) {
        StretchStarts(init, p, before);
      } else {
        StretchGrows(init, p, before);
      }
    }
    hide CountPackets;
    hide CountPacket;
    hide Spans;
    hide At;
    hide AtRestarts;
  }

  lemma OneStretch(p: Packet, cuts: seq<nat>)
    requires Cuts(cuts, 1)
    ensures Spans([p], cuts) == 1 && CountPackets(EMPTY, []) == EMPTY && At([], Repeats) == {}
  {
    assert cuts[0] < cuts[1];
    assert |cuts| == 2 && cuts[..1] == [0];
  }

  /** Every sequence can be so cut. */
  lemma {:induction false} CutsExist(ps: seq<Packet>) returns (cuts: seq<nat>)
    requires ps != []
    ensures Cuts(cuts, |ps|) && AtRestarts(ps, cuts)
  {
    if |ps| == 1 {
      cuts := [0, 1];
    } else {
      var init, p := ps[..|ps| - 1], ps[|ps| - 1];
      assert init + [p] == ps;
      var before := CutsExist(init);
      cuts := CutsSnoc(init, p, before);
    }
    hide Cuts;
    hide AtRestarts;
  }

  lemma LongerCuts(cuts: seq<nat>, n: nat)
    requires n > 0 && Cuts(cuts, n)
    ensures cuts == cuts[..|cuts| - 1] + [n]
    ensures Cuts(cuts + [n + 1], n + 1) && Cuts(cuts[..|cuts| - 1] + [n + 1], n + 1)
    ensures n !in cuts[..|cuts| - 1]
  {
    var init := cuts[..|cuts| - 1];
    forall i | 0 <= i < |init| ensures init[i] < n { assert cuts[i] < cuts[|cuts| - 1]; }
  }

  lemma CutsSnoc(ps: seq<Packet>, p: Packet, before: seq<nat>) returns (cuts: seq<nat>)
    requires ps != [] && Cuts(before, |ps|) && AtRestarts(ps, before)
    ensures Cuts(cuts, |ps| + 1) && AtRestarts(ps + [p], cuts)
  {
    hide Restarts;
    hide AtRestarts;
    var n, restarts := |ps|, Restarts(ps[|ps| - 1].envelope, p.envelope);
    var init := before[..|before| - 1];
    LongerCuts(before, n);
    hide Cuts;
    cuts := if restarts then before + [n + 1] else init + [n + 1];
    forall k: nat | 1 <= k < n ensures k in cuts <==> k in before {
      Members(init, n, n + 1, k);
      Members(before, n, n + 1, k);
    }
    assert n in cuts <==> restarts;
    RestartsPrefix(ps, p, cuts, before);
  }

  lemma RestartPlaces(ps: seq<Packet>)
    ensures At(ps, Restarts) == set k {:trigger ps[k]} | 1 <= k < |ps| &&
                                  (ps[k].envelope.sessionId != ps[k - 1].envelope.sessionId
                                   || ps[k].envelope.streamSeq < ps[k - 1].envelope.streamSeq)
  {
  }

  lemma JumpPlaces(ps: seq<Packet>)
    ensures At(ps, Jumps) == set k {:trigger ps[k]} | 1 <= k < |ps| &&
                               ps[k].envelope.sessionId == ps[k - 1].envelope.sessionId
                               && ps[k].envelope.streamSeq > ps[k - 1].envelope.streamSeq + 1
  {
  }

  lemma RepeatPlaces(ps: seq<Packet>)
    ensures At(ps, Repeats) == set k {:trigger ps[k]} | 1 <= k < |ps| &&
                                 ps[k].envelope.sessionId == ps[k - 1].envelope.sessionId
                                 && ps[k].envelope.streamSeq == ps[k - 1].envelope.streamSeq
  {
  }

  /** Whatever the packets, of whatever sessions: a reset is counted where the session changes or the number
      falls, a gap where it jumps by more than one; and what was received and what is reported lost add up to
      the numbers spanned by the stretches between the resets, and one more for every number received again. */
  lemma PacketsAreCounted(ps: seq<Packet>, cuts: seq<nat>)
    ensures var r := CountPackets(EMPTY, ps);
            && r.csi == |ps|
            && r.seqResets == |set k {:trigger ps[k]} | 1 <= k < |ps| &&
                                 (ps[k].envelope.sessionId != ps[k - 1].envelope.sessionId
                                  || ps[k].envelope.streamSeq < ps[k - 1].envelope.streamSeq)|
            && r.seqGaps == |set k {:trigger ps[k]} | 1 <= k < |ps| &&
                               ps[k].envelope.sessionId == ps[k - 1].envelope.sessionId
                               && ps[k].envelope.streamSeq > ps[k - 1].envelope.streamSeq + 1|
            && (Cuts(cuts, |ps|) && (forall k {:trigger ps[k]} | 1 <= k < |ps| ::
                  k in cuts <==> ps[k].envelope.sessionId != ps[k - 1].envelope.sessionId
                                 || ps[k].envelope.streamSeq < ps[k - 1].envelope.streamSeq) ==>
                r.csi + r.seqLost == Spans(ps, cuts) +
                  |set k {:trigger ps[k]} | 1 <= k < |ps| && ps[k].envelope.sessionId == ps[k - 1].envelope.sessionId
                           && ps[k].envelope.streamSeq == ps[k - 1].envelope.streamSeq|)
  {
    PlacesAreCounted(ps);
    RestartPlaces(ps);
    JumpPlaces(ps);
    RepeatPlaces(ps);
    hide At;
    if ps != [] && Cuts(cuts, |ps|) && AtRestarts(ps, cuts) { StretchesAddUp(ps, cuts); }
    hide CountPackets;
    hide Spans;
    hide Cuts;
  }

  // ----- any slots -----

  lemma FoldSnoc(s: Summary, slots: seq<seq<byte>>, slot: seq<byte>)
    ensures Fold(s, slots + [slot]) == Account(Fold(s, slots), slot)
  {
    hide Account;
    FoldConcat(s, slots, [slot]);
    assert [slot][1..] == [];
  }

  lemma PrintableIs(s: seq<byte>)
    ensures Printable(s) <==> s != [] && forall b | b in s :: b == 9 || b == 10 || b == 13 || 0x20 <= b < 0x7f
  {
    if Printable(s) {
      forall b | b in s ensures PrintableByte(b) {
        var i :| 0 <= i < |s| && s[i] == b;
      }
    } else if s != [] {
      var i :| 0 <= i < |s| && !PrintableByte(s[i]);
      assert s[i] in s;
    }
  }

  ghost function Where(slots: seq<seq<byte>>, f: seq<byte> -> bool): set<int> {
    set k | 0 <= k < |slots| && f(slots[k])
  }

  lemma WhereSnoc(slots: seq<seq<byte>>, slot: seq<byte>, f: seq<byte> -> bool)
    ensures |Where(slots + [slot], f)| == |Where(slots, f)| + if f(slot) then 1 else 0
  {
    var more := slots + [slot];
    assert forall k | 0 <= k < |slots| :: more[k] == slots[k];
    assert Where(more, f) == Where(slots, f) + if f(slot) then {|slots|} else {};
  }

  predicate IsCsi(slot: seq<byte>) { DecodeFrame(slot).Ok? && DecodeFrame(slot).body.Csi? }

  predicate IsForeign(slot: seq<byte>) { DecodeFrame(slot).UnsupportedVersion? }

  predicate IsJunk(slot: seq<byte>) { DecodeFrame(slot).Malformed? && !Printable(slot) }

  predicate IsText(slot: seq<byte>) { DecodeFrame(slot).Malformed? && Printable(slot) }

  predicate IsAnnouncement(slot: seq<byte>) { DecodeFrame(slot).Ok? && DecodeFrame(slot).body.Session? }

  /** One slot adds to one counter. */
  lemma AccountIs(s: Summary, slot: seq<byte>)
    ensures var t := Account(s, slot);
            && t.csi == s.csi + (if IsCsi(slot) then 1 else 0)
            && t.versionErrors == s.versionErrors + (if IsForeign(slot) then 1 else 0)
            && t.decodeErrors == s.decodeErrors + (if IsJunk(slot) then 1 else 0)
            && t.texts == s.texts + (if IsText(slot) then [slot] else [])
            && t.sessions == s.sessions + (if IsAnnouncement(slot)
                                           then [(DecodeFrame(slot).envelope, DecodeFrame(slot).body.info)] else [])
  {
    hide Wire.DecodeFrame;
    hide Printable;
  }

  lemma {:induction false} CountsAreSlots(slots: seq<seq<byte>>)
    ensures var r := Fold(EMPTY, slots);
            && r.csi == |Where(slots, IsCsi)| && r.versionErrors == |Where(slots, IsForeign)|
            && r.decodeErrors == |Where(slots, IsJunk)|
            && |slots| == r.csi + |r.sessions| + r.versionErrors + r.decodeErrors + |r.texts|
  {
    if slots == [] {
      assert forall f :: Where([], f) == {};
    } else {
      var init, slot := slots[..|slots| - 1], slots[|slots| - 1];
      assert slots == init + [slot];
      CountsAreSlots(init);
      FoldSnoc(EMPTY, init, slot);
      AccountIs(Fold(EMPTY, init), slot);
      WhereSnoc(init, slot, IsCsi);
      WhereSnoc(init, slot, IsForeign);
      WhereSnoc(init, slot, IsJunk);
    }
    hide Where;
    hide Fold;
    hide Account;
    hide Printable;
    hide Wire.DecodeFrame;
  }

  /** What the host counts in any capture: measurements, frames of another version, and slots that neither
      decode nor are all printable; every slot is counted once or kept once. */
  lemma SlotsAreCounted(slots: seq<seq<byte>>)
    ensures var r := Fold(EMPTY, slots);
            && r.csi == |set k | 0 <= k < |slots| && DecodeFrame(slots[k]).Ok? && DecodeFrame(slots[k]).body.Csi?|
            && r.versionErrors == |set k | 0 <= k < |slots| && DecodeFrame(slots[k]).UnsupportedVersion?|
            && r.decodeErrors ==
               |set k | 0 <= k < |slots| && DecodeFrame(slots[k]).Malformed?
                        && (slots[k] == [] || exists b | b in slots[k] ::
                              b != 9 && b != 10 && b != 13 && (b < 0x20 || b >= 0x7f))|
            && |slots| == r.csi + |r.sessions| + r.versionErrors + r.decodeErrors + |r.texts|
  {
    hide Wire.DecodeFrame;
    CountsAreSlots(slots);
    forall k | 0 <= k < |slots|
      ensures Printable(slots[k]) <==>
              !(slots[k] == [] || exists b | b in slots[k] :: b != 9 && b != 10 && b != 13 && (b < 0x20 || b >= 0x7f))
    {
      PrintableIs(slots[k]);
    }
    assert Where(slots, IsJunk) ==
           set k | 0 <= k < |slots| && DecodeFrame(slots[k]).Malformed?
                   && (slots[k] == [] || exists b | b in slots[k] ::
                         b != 9 && b != 10 && b != 13 && (b < 0x20 || b >= 0x7f));
    assert Where(slots, IsCsi) ==
           set k | 0 <= k < |slots| && DecodeFrame(slots[k]).Ok? && DecodeFrame(slots[k]).body.Csi?;
    assert Where(slots, IsForeign) == set k | 0 <= k < |slots| && DecodeFrame(slots[k]).UnsupportedVersion?;
    hide Fold;
  }

  /** The slots that `f` picks, by their places. */
  ghost predicate Picked(slots: seq<seq<byte>>, f: seq<byte> -> bool, places: seq<nat>) {
    && (forall i, j | 0 <= i < j < |places| :: places[i] < places[j])
    && (forall i | 0 <= i < |places| :: places[i] < |slots|)
    && forall k | 0 <= k < |slots| :: k in places <==> f(slots[k])
  }

  lemma PickedSnoc(slots: seq<seq<byte>>, slot: seq<byte>, f: seq<byte> -> bool, places: seq<nat>)
    requires Picked(slots, f, places)
    ensures Picked(slots + [slot], f, places + if f(slot) then [|slots|] else [])
  {
  }

  lemma {:induction false} TextsArePicked(slots: seq<seq<byte>>) returns (places: seq<nat>)
    ensures Picked(slots, IsText, places) && |Fold(EMPTY, slots).texts| == |places|
    ensures forall i | 0 <= i < |places| :: places[i] < |slots| && Fold(EMPTY, slots).texts[i] == slots[places[i]]
  {
    if slots == [] {
      places := [];
    } else {
      var init, slot := slots[..|slots| - 1], slots[|slots| - 1];
      assert slots == init + [slot];
      var before := TextsArePicked(init);
      places := before + if IsText(slot) then [|init|] else [];
      PickedSnoc(init, slot, IsText, before);
      FoldSnoc(EMPTY, init, slot);
      AccountIs(Fold(EMPTY, init), slot);
    }
    hide Picked;
    hide Fold;
    hide Account;
    hide IsText;
  }

  /** The text kept of a capture: in order, exactly the slots that do not decode and are all printable. */
  lemma TextsAre(slots: seq<seq<byte>>) returns (places: seq<nat>)
    ensures |Fold(EMPTY, slots).texts| == |places|
    ensures forall i, j | 0 <= i < j < |places| :: places[i] < places[j]
    ensures forall i | 0 <= i < |places| :: places[i] < |slots| && Fold(EMPTY, slots).texts[i] == slots[places[i]]
    ensures forall k | 0 <= k < |slots| ::
              k in places <==>
              && DecodeFrame(slots[k]).Malformed? && slots[k] != []
              && forall b | b in slots[k] :: b == 9 || b == 10 || b == 13 || 0x20 <= b < 0x7f
  {
    hide Wire.DecodeFrame;
    places := TextsArePicked(slots);
    hide Fold;
    forall k | 0 <= k < |slots|
      ensures Printable(slots[k]) <==>
              slots[k] != [] && forall b | b in slots[k] :: b == 9 || b == 10 || b == 13 || 0x20 <= b < 0x7f
    {
      PrintableIs(slots[k]);
    }
  }

  // ----- the whole link -----

  /** The host's accounting is exact. Whatever packets are sent, of whatever sessions, interleaved with any
      quiet log lines, the program counts every measurement and lists every announcement; it reports a reset
      where the session changes or the number falls and a gap where it jumps by more than one; and what it
      received and what it reports lost add up to the numbers spanned by the stretches between the resets,
      and one more for every number received again. */
  lemma HostAccountsForEveryFrame(items: seq<Item>, cuts: seq<nat>)
    requires forall p | p in Packets(items) :: p.envelope.version == WIRE_VERSION
    requires forall i | i in items && i.Text? :: Quiet(i.message)
    ensures var ps, r := Packets(items), Fold(EMPTY, Slots(StreamBytes(items)));
            && r.csi == |ps| && r.sessions == Announcements(ps)
            && r.seqResets == |set k {:trigger ps[k]} | 1 <= k < |ps| &&
                                 (ps[k].envelope.sessionId != ps[k - 1].envelope.sessionId
                                  || ps[k].envelope.streamSeq < ps[k - 1].envelope.streamSeq)|
            && r.seqGaps == |set k {:trigger ps[k]} | 1 <= k < |ps| &&
                               ps[k].envelope.sessionId == ps[k - 1].envelope.sessionId
                               && ps[k].envelope.streamSeq > ps[k - 1].envelope.streamSeq + 1|
            && (Cuts(cuts, |ps|) && (forall k {:trigger ps[k]} | 1 <= k < |ps| ::
                  k in cuts <==> ps[k].envelope.sessionId != ps[k - 1].envelope.sessionId
                                 || ps[k].envelope.streamSeq < ps[k - 1].envelope.streamSeq) ==>
                r.csi + r.seqLost == Spans(ps, cuts) +
                  |set k {:trigger ps[k]} | 1 <= k < |ps| && ps[k].envelope.sessionId == ps[k - 1].envelope.sessionId
                           && ps[k].envelope.streamSeq == ps[k - 1].envelope.streamSeq|)
  {
    hide CountPackets;
    hide Spans;
    hide Cuts;
    hide StreamBytes;
    hide Slots;
    hide Quiet;
    var ps := Packets(items);
    SummaryIsOfPackets(items);
    hide Fold;
    hide Packets;
    PacketsAreCounted(ps, cuts);
    SessionsAnnounced(EMPTY, ps);
    hide Announcements;
  }

  lemma SummaryIsOfPackets(items: seq<Item>)
    requires forall p | p in Packets(items) :: p.envelope.version == WIRE_VERSION
    requires forall i | i in items && i.Text? :: Quiet(i.message)
    ensures Core(Fold(EMPTY, Slots(StreamBytes(items)))) == Core(CountPackets(EMPTY, Packets(items)))
  {
    hide Account;
    hide Wire.Frame;
    HostSeesEveryFrame(items);
    TextIsInvisible(EMPTY, items);
  }

  /** For one session's packets, numbered in increasing order, it sees no reset, and what it received and what
      it reports lost add up to the range of numbers seen. */
  lemma OneSessionAccounts(items: seq<Item>)
    requires OneSession(Packets(items))
    requires forall i | i in items && i.Text? :: Quiet(i.message)
    ensures var ps, r := Packets(items), Fold(EMPTY, Slots(StreamBytes(items)));
            && r.csi == |ps| && r.seqResets == 0 && r.sessions == Announcements(ps)
            && (ps != [] ==>
                 r.csi + r.seqLost ==
                 ps[|ps| - 1].envelope.streamSeq - ps[0].envelope.streamSeq + 1)
  {
    hide Account;
    hide Wire.Frame;
    var ps := Packets(items);
    HostSeesEveryFrame(items);
    TextIsInvisible(EMPTY, items);
    CountsConserve(EMPTY, ps);
    SessionsAnnounced(EMPTY, ps);
    var r, t := Fold(EMPTY, StreamSlots(items)), CountPackets(EMPTY, ps);
    assert Core(r) == Core(t);
  }

  // ----- printable log lines are quiet -----

  lemma {:induction false} PiecesOf(m: seq<byte>, f: seq<byte>, b: byte)
    requires f in Split(m) && b in f
    ensures b in m && b != 0
  {
    if m != [] {
      var rest := Split(m[1..]);
      if m[0] == 0 {
        assert f == [] || f in rest;
        PiecesOf(m[1..], f, b);
      } else if f == [m[0]] + rest[0] {
        if b != m[0] { PiecesOf(m[1..], rest[0], b); }
      } else {
        assert f in rest[1..];
        PiecesOf(m[1..], f, b);
      }
    }
  }

  lemma {:induction false} NonEmptyIn(pieces: seq<seq<byte>>, f: seq<byte>)
    ensures f in NonEmpty(pieces) <==> f in pieces && f != []
  {
    if pieces != [] {
      NonEmptyIn(pieces[1..], f);
      assert pieces == [pieces[0]] + pieces[1..];
    }
  }

  /** Whether a piece opens with a tab and goes on like a stuffed frame after the eight bytes that are
      then taken for its first block. */
  predicate TabLed(t: seq<byte>) { |t| > 9 && t[0] == 9 && Cobs.Unstuff(t[9..]).Some? }

  /** What a host makes of a printable slot: text, unless it is tab-led; then it is reported as a frame
      whose version is its second byte. It is never taken for a frame of this version. */
  lemma PrintableVerdict(t: seq<byte>)
    requires Printable(t)
    ensures DecodeFrame(t) == if TabLed(t) then UnsupportedVersion(t[1] as int) else Malformed
  {
    var code := t[0] as int;
    if code <= |t| {
      var data, rest := t[1..code], t[code..];
      match Cobs.Unstuff(rest)
      case None =>
      case Some(more) =>
        var zero := if Cobs.Closes(t[0], rest) then [0] else [];
        var bytes := data + zero + more;
        if t[0] != 9 {
          SourceIsOutOfRange(bytes, data);
        } else if |t| == 9 {
          assert bytes == data;
          EnvelopeIsShort(bytes);
        } else {
          UnstuffsPrintable(rest);
          EnvelopeIsRead(bytes, data, more);
        }
    }
  }

  lemma PrintableIsNotAFrame(t: seq<byte>)
    requires Printable(t)
    ensures !DecodeFrame(t).Ok?
    ensures DecodeFrame(t).UnsupportedVersion? <==> TabLed(t)
  {
    PrintableVerdict(t);
  }

  /** What a printable piece unstuffs to opens with its second byte. */
  lemma UnstuffsPrintable(t: seq<byte>)
    requires Printable(t) && Cobs.Unstuff(t).Some?
    ensures Cobs.Unstuff(t).value != [] && 9 <= Cobs.Unstuff(t).value[0] < 0x7f
  {
    assert PrintableByte(t[1]);
    assert t[1..t[0] as int][0] == t[1];
  }

  lemma EnvelopeIsShort(bytes: seq<byte>)
    requires |bytes| == 8 && forall i | 0 <= i < 8 :: PrintableByte(bytes[i])
    ensures TakeEnvelope(bytes) == None
  {
    var after := bytes[7..];
    assert bytes[1..][6..] == after;
    assert after[0] == bytes[7];
    assert Postcard.TakeU32(after) == Some((bytes[7] as int, after[1..]));
  }

  lemma EnvelopeIsRead(bytes: seq<byte>, data: seq<byte>, more: seq<byte>)
    requires |data| == 8 && forall i | 0 <= i < 8 :: PrintableByte(data[i])
    requires bytes == data + [0] + more && more != [] && more[0] < 0x7f
    ensures TakeEnvelope(bytes).Some? && TakeEnvelope(bytes).value.0.version == data[0] as int
  {
    var after := bytes[7..];
    assert bytes[1..][6..] == after;
    assert Postcard.TakeU32(after) == Some((data[7] as int, bytes[8..])) by { assert after[1..] == bytes[8..]; }
    assert bytes[8..][0] == 0 && bytes[8..][1..] == bytes[9..];
    assert Postcard.TakeU32(bytes[8..]) == Some((0, bytes[9..]));
    assert bytes[9..][0] == more[0] && bytes[9..][1..] == bytes[10..];
    assert Postcard.TakeU32(bytes[9..]) == Some((more[0] as int, bytes[10..]));
  }

  lemma SourceIsOutOfRange(bytes: seq<byte>, data: seq<byte>)
    requires 9 <= |data| <= |bytes| && bytes[..|data|] == data
    requires forall i | 0 <= i < |data| :: PrintableByte(data[i])
    ensures TakeEnvelope(bytes) == None
  {
    var after := bytes[7..];
    assert bytes[1..][6..] == after;
    assert after[0] == data[7] && after[1] == data[8];
    assert Postcard.TakeU32(after) == Some((data[7] as int, after[1..]));
    assert Postcard.TakeU32(after[1..]) == Some((data[8] as int, after[1..][1..]));
  }

  /** A tab-led line can be reported as a frame of another version instead of as text. */
  lemma TabLedLineCanLookLikeAFrame()
    ensures exists t :: Printable(t) && DecodeFrame(t).UnsupportedVersion?
  {
    var a, b := seq(8, _ => 65 as byte), seq(31, _ => 65 as byte);
    var t := [9] + a + ([32] + b);
    Cobs.UnstuffBlock(a, [32] + b);
    assert [32] + b + [] == [32] + b;
    Cobs.UnstuffBlock(b, []);
    var bytes := a + [0] + (b + [] + []);
    assert Cobs.Unstuff(t) == Some(bytes);
    var (version, r1) := Postcard.TakeU8(bytes).value;
    assert r1[6..] == bytes[7..];
    assert Postcard.TakeU32(bytes[7..]) == Some((65, bytes[8..]));
    assert Postcard.TakeU32(bytes[8..]) == Some((0, bytes[9..]));
    assert Postcard.TakeU32(bytes[9..]) == Some((65, bytes[10..]));
    assert Printable(t) && DecodeFrame(t) == UnsupportedVersion(65);
  }

  lemma PieceIsPrintable(m: seq<byte>, f: seq<byte>)
    requires forall b | b in m :: b == 0 || PrintableByte(b)
    requires f in Slots(m)
    ensures Printable(f)
  {
    NonEmptyIn(Split(m), f);
    forall i | 0 <= i < |f| ensures PrintableByte(f[i]) { PiecesOf(m, f, f[i]); }
  }

  /** So is every message of printable bytes, padded with zeros or not. */
  lemma PrintableMessageIsQuiet(m: seq<byte>)
    requires forall b | b in m :: b == 0 || PrintableByte(b)
    ensures Quiet(m)
  {
    forall f | f in Slots(m) ensures !DecodeFrame(f).Ok? {
      PieceIsPrintable(m, f);
      PrintableIsNotAFrame(f);
    }
  }

  /** A slot of such a link is a frame or all printable. */
  lemma {:induction false} SlotIsFrameOrText(items: seq<Item>, f: seq<byte>)
    requires forall p | p in Packets(items) :: p.envelope.version == WIRE_VERSION
    requires forall i, b | i in items && i.Text? && b in i.message :: b == 0 || PrintableByte(b)
    requires f in StreamSlots(items)
    ensures DecodeFrame(f).Ok? || Printable(f)
  {
    hide Wire.Frame;
    hide Wire.DecodeFrame;
    hide Slots;
    var rest := items[1..];
    assert items == [items[0]] + rest;
    if f in ItemSlots(items[0]) {
      match items[0]
      case Measured(p) =>
        assert Packets(items)[0] == p;
        DecodeFrameOfFrame(p.envelope, Body.Csi(p.frame));
        if p.session.Some? { DecodeFrameOfFrame(p.envelope, Body.Session(p.session.value)); }
      case Text(m) =>
        PieceIsPrintable(m, f);
    } else {
      assert Packets(items) == (if items[0].Measured? then [items[0].packet] else []) + Packets(rest);
      SlotIsFrameOrText(rest, f);
    }
  }

  /** With printable log lines nothing on the link is a decoding error, and every piece of a line is kept as
      text or, if it is tab-led, counted as of another version. */
  lemma NothingIsJunk(items: seq<Item>)
    requires forall p | p in Packets(items) :: p.envelope.version == WIRE_VERSION
    requires forall i, b | i in items && i.Text? && b in i.message :: b == 0 || PrintableByte(b)
    ensures var ps, slots := Packets(items), Slots(StreamBytes(items));
            var r := Fold(EMPTY, slots);
            && r.decodeErrors == 0
            && |r.texts| + r.versionErrors == |slots| - |ps| - |Announcements(ps)|
  {
    hide Fold;
    hide Account;
    hide Wire.DecodeFrame;
    hide Printable;
    hide PrintableByte;
    forall i | i in items && i.Text? ensures Quiet(i.message) { PrintableMessageIsQuiet(i.message); }
    var slots := StreamSlots(items);
    HostSeesEveryFrame(items);
    HostAccountsForEveryFrame(items, []);
    CountsAreSlots(slots);
    forall k | 0 <= k < |slots| ensures !IsJunk(slots[k]) { SlotIsFrameOrText(items, slots[k]); }
    assert Where(slots, IsJunk) == {};
  }
}
