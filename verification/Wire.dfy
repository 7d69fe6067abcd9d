/** The wire contract: an `Envelope` and a `Body`, postcard-encoded back to back in one COBS frame.
    Field order, variant order and integer widths are those of the declarations. */
module Wire {
  import opened Bytes
  import opened Postcard
  import Cobs

  const WIRE_VERSION: u8 := 1
  const MAX_CSI_BYTES: nat := 612

  datatype SourceKind = EspVendor | Ieee80211bf | Synthetic
  datatype Chip = Esp32 | Esp32S2 | Esp32S3 | Esp32C3 | Esp32C5 | Esp32C6
  datatype Secondary = NoSecondary | Above | Below
  datatype Bandwidth = Mhz20 | Mhz40 | Mhz80 | Mhz160 | Mhz320
  datatype PpduFormat =
    | Unknown | Dsss | NonHt | Ht | Vht | VhtMu | HeSu | HeMu | HeErSu | HeTb | Eht

  /** One of the 26 layouts `layout.rs` enumerates; only its number matters to the encoding. */
  type LayoutId = n: nat | n < 26

  datatype Envelope =
    Envelope(version: u8, nodeId: Mac, sessionId: u32, source: SourceKind, streamSeq: u32)

  datatype SessionInfo =
    SessionInfo(chip: Chip, crateVersion: (u8, u8, u8), timestampUs: u64, epochUnixUs: Option<u64>)

  datatype VendorRx =
    | NoVendor
    | EspClassic(rate: u8, sigMode: u8, smoothing: bool, fecLdpc: bool, ampduCnt: u8)
    | EspHe(rate: u8, curBbFormat: u8, estimateValid: bool, estimateLen: u16, dumpLen: u16,
            isGroup: bool, rxendState: u8, rxmatch: u8, heSiga1: u32, heSiga2: u16, sigbLen: u8,
            singleMpdu: bool)

  datatype RxMeta =
    RxMeta(timestampUs: u64, rssi: i8, noiseFloor: i8, channel: u8, secondary: Secondary,
           bandwidth: Option<Bandwidth>, ppdu: PpduFormat, mcs: Option<u8>, stbc: Option<bool>,
           sgi: Option<bool>, nRx: u8, nSs: Option<u8>, antenna: Option<u8>, sigLen: u16,
           rxState: u8, notSounding: Option<bool>, aggregation: Option<bool>,
           frameSeq: Option<u16>, vendor: VendorRx)

  datatype Stimulus =
    | Controlled(setupId: u8, instanceId: u16, ta: Mac)
    | Ambient(ta: Mac)
    | Observed(ta: Mac, dialogToken: u8)

  datatype HeaderDigest =
    HeaderDigest(frameControl: u16, addr1: Mac, addr2: Mac, addr3: Mac, seqCtrl: u16)

  type Samples = s: seq<i8> | |s| <= MAX_CSI_BYTES
  type Report = s: seq<byte> | |s| <= MAX_CSI_BYTES

  datatype CsiPayload =
    | EspRaw(chip: Chip, layout: LayoutId, firstWordInvalid: bool, samples: Samples)
    | Grouped(ng: u8, nb: u8, scStart: i16, nSc: u16, nRx: u8, nTx: u8, data: Report)
    | Variation(value: u16)

  datatype CsiFrame =
    CsiFrame(meta: RxMeta, stimulus: Stimulus, header: Option<HeaderDigest>, payload: CsiPayload)

  datatype Body = Csi(frame: CsiFrame) | Session(info: SessionInfo)

  /** A delivered packet: its measurement and, on the first of a run, the session announcement. */
  datatype Packet = Packet(envelope: Envelope, frame: CsiFrame, session: Option<SessionInfo>)

  /** The transmitter of the measured frame: the header's second address, else the stimulus's. */
  function Transmitter(f: CsiFrame): Mac {
    match f.header case Some(h) => h.addr2 case None => f.stimulus.ta
  }

  // ----- enumerations and addresses -----

  function PutMac(m: Mac, rest: Input): (r: Input)
    ensures TakeMac(r) == Some((m, rest)) && |r| == |rest| + 6
  {
    PutBytes(m, rest)
  }

  function TakeMac(bs: Input): Option<(Mac, Input)> { TakeBytes(6, bs) }

  function PutSource(s: SourceKind, rest: Input): (r: Input)
    ensures TakeSource(r) == Some((s, rest)) && |r| == |rest| + 1
  {
    PutVariant(match s case EspVendor => 0 case Ieee80211bf => 1 case Synthetic => 2, 3, rest)
  }

  function TakeSource(bs: Input): Option<(SourceKind, Input)> {
    var (k, bs) :- TakeVariant(3, bs);
    Some(([EspVendor, Ieee80211bf, Synthetic][k], bs))
  }

  function PutChip(c: Chip, rest: Input): (r: Input)
    ensures TakeChip(r) == Some((c, rest)) && |r| == |rest| + 1
  {
    PutVariant(match c
               case Esp32 => 0 case Esp32S2 => 1 case Esp32S3 => 2
               case Esp32C3 => 3 case Esp32C5 => 4 case Esp32C6 => 5, 6, rest)
  }

  function TakeChip(bs: Input): Option<(Chip, Input)> {
    var (k, bs) :- TakeVariant(6, bs);
    Some(([Esp32, Esp32S2, Esp32S3, Esp32C3, Esp32C5, Esp32C6][k], bs))
  }

  function PutSecondary(s: Secondary, rest: Input): (r: Input)
    ensures TakeSecondary(r) == Some((s, rest)) && |r| == |rest| + 1
  {
    PutVariant(match s case NoSecondary => 0 case Above => 1 case Below => 2, 3, rest)
  }

  function TakeSecondary(bs: Input): Option<(Secondary, Input)> {
    var (k, bs) :- TakeVariant(3, bs);
    Some(([NoSecondary, Above, Below][k], bs))
  }

  function PutBandwidth(o: Option<Bandwidth>, rest: Input): (r: Input)
    ensures TakeBandwidth(r) == Some((o, rest)) && |rest| < |r| <= |rest| + 2
  {
    match o
    case None => PutBool(false, rest)
    case Some(b) =>
      var k := match b case Mhz20 => 0 case Mhz40 => 1 case Mhz80 => 2 case Mhz160 => 3 case Mhz320 => 4;
      PutBool(true, PutVariant(k, 5, rest))
  }

  function TakeBandwidth(bs: Input): Option<(Option<Bandwidth>, Input)> {
    var (some, bs) :- TakeBool(bs);
    if !some then Some((None, bs)) else
    var (k, bs) :- TakeVariant(5, bs);
    Some((Some([Mhz20, Mhz40, Mhz80, Mhz160, Mhz320][k]), bs))
  }

  function PutPpdu(p: PpduFormat, rest: Input): (r: Input)
    ensures TakePpdu(r) == Some((p, rest)) && |r| == |rest| + 1
  {
    PutVariant(match p
               case Unknown => 0 case Dsss => 1 case NonHt => 2 case Ht => 3 case Vht => 4
               case VhtMu => 5 case HeSu => 6 case HeMu => 7 case HeErSu => 8 case HeTb => 9
               case Eht => 10, 11, rest)
  }

  function TakePpdu(bs: Input): Option<(PpduFormat, Input)> {
    var (k, bs) :- TakeVariant(11, bs);
    Some(([Unknown, Dsss, NonHt, Ht, Vht, VhtMu, HeSu, HeMu, HeErSu, HeTb, Eht][k], bs))
  }

  // ----- the envelope -----

  function PutEnvelope(e: Envelope, rest: Input): (r: Input)
    ensures TakeEnvelope(r) == Some((e, rest))
    ensures |rest| < |r| <= |rest| + ENVELOPE_MAX && r[0] as int == e.version
  {
    PutU8(e.version, PutMac(e.nodeId, PutU32(e.sessionId, PutSource(e.source,
      PutU32(e.streamSeq, rest)))))
  }

  function TakeEnvelope(bs: Input): Option<(Envelope, Input)> {
    var (version, bs) :- TakeU8(bs);
    var (nodeId, bs) :- TakeMac(bs);
    var (sessionId, bs) :- TakeU32(bs);
    var (source, bs) :- TakeSource(bs);
    var (streamSeq, bs) :- TakeU32(bs);
    Some((Envelope(version, nodeId, sessionId, source, streamSeq), bs))
  }

  // ----- the session announcement -----

  function PutSession(s: SessionInfo, rest: Input): (r: Input)
    ensures TakeSession(r) == Some((s, rest)) && |rest| < |r| <= |rest| + SESSION_MAX
  {
    PutChip(s.chip, PutU8(s.crateVersion.0, PutU8(s.crateVersion.1, PutU8(s.crateVersion.2,
      PutU64(s.timestampUs, PutOptU64(s.epochUnixUs, rest))))))
  }

  function TakeSession(bs: Input): Option<(SessionInfo, Input)> {
    var (chip, bs) :- TakeChip(bs);
    var (major, bs) :- TakeU8(bs);
    var (minor, bs) :- TakeU8(bs);
    var (patch, bs) :- TakeU8(bs);
    var (timestampUs, bs) :- TakeU64(bs);
    var (epoch, bs) :- TakeOptU64(bs);
    Some((SessionInfo(chip, (major, minor, patch), timestampUs, epoch), bs))
  }

  // ----- receive metadata -----

  function PutClassic(v: VendorRx, rest: Input): (r: Input)
    requires v.EspClassic?
    ensures TakeClassic(r) == Some((v, rest)) && |r| == |rest| + 5
  {
    PutU8(v.rate, PutU8(v.sigMode, PutBool(v.smoothing, PutBool(v.fecLdpc, PutU8(v.ampduCnt, rest)))))
  }

  function TakeClassic(bs: Input): Option<(VendorRx, Input)> {
    var (rate, bs) :- TakeU8(bs);
    var (mode, bs) :- TakeU8(bs);
    var (smoothing, bs) :- TakeBool(bs);
    var (ldpc, bs) :- TakeBool(bs);
    var (ampdu, bs) :- TakeU8(bs);
    Some((EspClassic(rate, mode, smoothing, ldpc, ampdu), bs))
  }

  function PutHe(v: VendorRx, rest: Input): (r: Input)
    requires v.EspHe?
    ensures TakeHe(r) == Some((v, rest)) && |rest| < |r| <= |rest| + VENDOR_MAX - 1
  {
    PutU8(v.rate, PutU8(v.curBbFormat, PutBool(v.estimateValid, PutU16(v.estimateLen,
      PutU16(v.dumpLen, PutBool(v.isGroup, PutU8(v.rxendState, PutU8(v.rxmatch, PutU32(v.heSiga1,
        PutU16(v.heSiga2, PutU8(v.sigbLen, PutBool(v.singleMpdu, rest))))))))))))
  }

  function TakeHe(bs: Input): Option<(VendorRx, Input)> {
    var (rate, bs) :- TakeU8(bs);
    var (bb, bs) :- TakeU8(bs);
    var (valid, bs) :- TakeBool(bs);
    var (est, bs) :- TakeU16(bs);
    var (dump, bs) :- TakeU16(bs);
    var (group, bs) :- TakeBool(bs);
    var (rxend, bs) :- TakeU8(bs);
    var (rxmatch, bs) :- TakeU8(bs);
    var (a1, bs) :- TakeU32(bs);
    var (a2, bs) :- TakeU16(bs);
    var (sigb, bs) :- TakeU8(bs);
    var (single, bs) :- TakeBool(bs);
    Some((EspHe(rate, bb, valid, est, dump, group, rxend, rxmatch, a1, a2, sigb, single), bs))
  }

  function PutVendor(v: VendorRx, rest: Input): (r: Input)
    ensures TakeVendor(r) == Some((v, rest)) && |rest| < |r| <= |rest| + VENDOR_MAX
  {
    if v.NoVendor? then PutVariant(0, 3, rest)
    else if v.EspClassic? then PutVariant(1, 3, PutClassic(v, rest))
    else PutVariant(2, 3, PutHe(v, rest))
  }

  function TakeVendor(bs: Input): Option<(VendorRx, Input)> {
    var (k, bs) :- TakeVariant(3, bs);
    if k == 0 then Some((NoVendor, bs)) else if k == 1 then TakeClassic(bs) else TakeHe(bs)
  }

  function PutMeta(m: RxMeta, rest: Input): (r: Input)
    ensures TakeMeta(r) == Some((m, rest)) && |rest| < |r| <= |rest| + META_MAX
  {
    PutU64(m.timestampUs, PutI8(m.rssi, PutI8(m.noiseFloor, PutU8(m.channel,
      PutSecondary(m.secondary, PutBandwidth(m.bandwidth, PutPpdu(m.ppdu, PutOptU8(m.mcs,
        PutOptBool(m.stbc, PutOptBool(m.sgi, PutU8(m.nRx, PutOptU8(m.nSs, PutOptU8(m.antenna,
          PutU16(m.sigLen, PutU8(m.rxState, PutOptBool(m.notSounding, PutOptBool(m.aggregation,
            PutOptU16(m.frameSeq, PutVendor(m.vendor, rest)))))))))))))))))))
  }

  function TakeMeta(bs: Input): Option<(RxMeta, Input)> {
    var (timestampUs, bs) :- TakeU64(bs);
    var (rssi, bs) :- TakeI8(bs);
    var (noiseFloor, bs) :- TakeI8(bs);
    var (channel, bs) :- TakeU8(bs);
    var (secondary, bs) :- TakeSecondary(bs);
    var (bandwidth, bs) :- TakeBandwidth(bs);
    var (ppdu, bs) :- TakePpdu(bs);
    var (mcs, bs) :- TakeOptU8(bs);
    var (stbc, bs) :- TakeOptBool(bs);
    var (sgi, bs) :- TakeOptBool(bs);
    var (nRx, bs) :- TakeU8(bs);
    var (nSs, bs) :- TakeOptU8(bs);
    var (antenna, bs) :- TakeOptU8(bs);
    var (sigLen, bs) :- TakeU16(bs);
    var (rxState, bs) :- TakeU8(bs);
    var (notSounding, bs) :- TakeOptBool(bs);
    var (aggregation, bs) :- TakeOptBool(bs);
    var (frameSeq, bs) :- TakeOptU16(bs);
    var (vendor, bs) :- TakeVendor(bs);
    Some((RxMeta(timestampUs, rssi, noiseFloor, channel, secondary, bandwidth, ppdu, mcs, stbc, sgi,
                 nRx, nSs, antenna, sigLen, rxState, notSounding, aggregation, frameSeq, vendor), bs))
  }

  // ----- the measurement -----

  function PutStimulus(s: Stimulus, rest: Input): (r: Input)
    ensures TakeStimulus(r) == Some((s, rest)) && |rest| < |r| <= |rest| + STIMULUS_MAX
  {
    match s
    case Controlled(setup, instance, ta) =>
      PutVariant(0, 3, PutU8(setup, PutU16(instance, PutMac(ta, rest))))
    case Ambient(ta) => PutVariant(1, 3, PutMac(ta, rest))
    case Observed(ta, token) => PutVariant(2, 3, PutMac(ta, PutU8(token, rest)))
  }

  function TakeStimulus(bs: Input): Option<(Stimulus, Input)> {
    var (k, bs) :- TakeVariant(3, bs);
    if k == 0 then TakeControlled(bs) else if k == 1 then TakeAmbient(bs) else TakeObserved(bs)
  }

  function TakeControlled(bs: Input): Option<(Stimulus, Input)> {
    var (setup, bs) :- TakeU8(bs);
    var (instance, bs) :- TakeU16(bs);
    var (ta, bs) :- TakeMac(bs);
    Some((Controlled(setup, instance, ta), bs))
  }

  function TakeAmbient(bs: Input): Option<(Stimulus, Input)> {
    var (ta, bs) :- TakeMac(bs);
    Some((Ambient(ta), bs))
  }

  function TakeObserved(bs: Input): Option<(Stimulus, Input)> {
    var (ta, bs) :- TakeMac(bs);
    var (token, bs) :- TakeU8(bs);
    Some((Observed(ta, token), bs))
  }

  function PutHeader(o: Option<HeaderDigest>, rest: Input): (r: Input)
    ensures TakeHeader(r) == Some((o, rest)) && |rest| < |r| <= |rest| + HEADER_MAX
  {
    match o
    case None => PutBool(false, rest)
    case Some(h) =>
      PutBool(true, PutU16(h.frameControl, PutMac(h.addr1, PutMac(h.addr2, PutMac(h.addr3,
        PutU16(h.seqCtrl, rest))))))
  }

  function TakeHeader(bs: Input): Option<(Option<HeaderDigest>, Input)> {
    var (some, bs) :- TakeBool(bs);
    if !some then Some((None, bs)) else
    var (frameControl, bs) :- TakeU16(bs);
    var (addr1, bs) :- TakeMac(bs);
    var (addr2, bs) :- TakeMac(bs);
    var (addr3, bs) :- TakeMac(bs);
    var (seqCtrl, bs) :- TakeU16(bs);
    Some((Some(HeaderDigest(frameControl, addr1, addr2, addr3, seqCtrl)), bs))
  }

  /** Samples are i8, one two's-complement byte each. */
  function PutSamples(s: Samples, rest: Input): (r: Input)
    ensures TakeSamples(r) == Some((s, rest)) && |rest| < |r| <= |rest| + MAX_CSI_BYTES + 2
  {
    var raw := seq(|s|, i requires 0 <= i < |s| => (s[i] as int % 256) as byte);
    var r := PutVec(raw, MAX_CSI_BYTES, rest);
    assert TakeSamples(r).value.0 == s;
    r
  }

  function TakeSamples(bs: Input): Option<(Samples, Input)> {
    var (raw, bs) :- TakeVec(MAX_CSI_BYTES, bs);
    Some((seq(|raw|, i requires 0 <= i < |raw| =>
      if raw[i] < 128 then raw[i] as int else raw[i] as int - 256), bs))
  }

  function PutPayload(p: CsiPayload, rest: Input): (r: Input)
    ensures TakePayload(r) == Some((p, rest)) && |rest| < |r| <= |rest| + PAYLOAD_MAX
  {
    match p
    case EspRaw(chip, layout, invalid, samples) =>
      PutVariant(0, 3, PutChip(chip, PutVariant(layout, 26, PutBool(invalid,
        PutSamples(samples, rest)))))
    case Grouped(ng, nb, scStart, nSc, nRx, nTx, data) =>
      PutVariant(1, 3, PutU8(ng, PutU8(nb, PutI16(scStart, PutU16(nSc, PutU8(nRx, PutU8(nTx,
        PutVec(data, MAX_CSI_BYTES, rest))))))))
    case Variation(value) => PutVariant(2, 3, PutU16(value, rest))
  }

  function TakePayload(bs: Input): Option<(CsiPayload, Input)> {
    var (k, bs) :- TakeVariant(3, bs);
    if k == 0 then TakeEspRaw(bs) else if k == 1 then TakeGrouped(bs) else TakeVariation(bs)
  }

  function TakeEspRaw(bs: Input): Option<(CsiPayload, Input)> {
    var (chip, bs) :- TakeChip(bs);
    var (layout, bs) :- TakeVariant(26, bs);
    var (invalid, bs) :- TakeBool(bs);
    var (samples, bs) :- TakeSamples(bs);
    Some((EspRaw(chip, layout, invalid, samples), bs))
  }

  function TakeGrouped(bs: Input): Option<(CsiPayload, Input)> {
    var (ng, bs) :- TakeU8(bs);
    var (nb, bs) :- TakeU8(bs);
    var (scStart, bs) :- TakeI16(bs);
    var (nSc, bs) :- TakeU16(bs);
    var (nRx, bs) :- TakeU8(bs);
    var (nTx, bs) :- TakeU8(bs);
    var (data, bs) :- TakeVec(MAX_CSI_BYTES, bs);
    Some((Grouped(ng, nb, scStart, nSc, nRx, nTx, data), bs))
  }

  function TakeVariation(bs: Input): Option<(CsiPayload, Input)> {
    var (value, bs) :- TakeU16(bs);
    Some((Variation(value), bs))
  }

  function PutCsi(f: CsiFrame, rest: Input): (r: Input)
    ensures TakeCsi(r) == Some((Csi(f), rest)) && |rest| < |r| <= |rest| + BODY_MAX - 1
  {
    PutMeta(f.meta, PutStimulus(f.stimulus, PutHeader(f.header, PutPayload(f.payload, rest))))
  }

  function PutBody(b: Body, rest: Input): (r: Input)
    ensures TakeBody(r) == Some((b, rest)) && |rest| < |r| <= |rest| + BODY_MAX
  {
    match b
    case Csi(f) => PutVariant(0, 2, PutCsi(f, rest))
    case Session(info) => PutVariant(1, 2, PutSession(info, rest))
  }

  function TakeBody(bs: Input): Option<(Body, Input)> {
    var (k, bs) :- TakeVariant(2, bs);
    if k == 0 then TakeCsi(bs) else
    var (info, bs) :- TakeSession(bs);
    Some((Session(info), bs))
  }

  function TakeCsi(bs: Input): Option<(Body, Input)> {
    var (meta, bs) :- TakeMeta(bs);
    var (stimulus, bs) :- TakeStimulus(bs);
    var (header, bs) :- TakeHeader(bs);
    var (payload, bs) :- TakePayload(bs);
    Some((Csi(CsiFrame(meta, stimulus, header, payload)), bs))
  }

  // ----- sizes: postcard's `MaxSize`, field by field -----

  const ENVELOPE_MAX: nat := 1 + 6 + 5 + 1 + 5
  const SESSION_MAX: nat := 1 + 3 + 10 + 11
  const VENDOR_MAX: nat := 1 + (1 + 1 + 1 + 3 + 3 + 1 + 1 + 1 + 5 + 3 + 1 + 1)
  const META_MAX: nat :=
    10 + 1 + 1 + 1 + 1 + 2 + 1 + 2 + 2 + 2 + 1 + 2 + 2 + 3 + 1 + 2 + 2 + 4 + VENDOR_MAX
  const STIMULUS_MAX: nat := 1 + (1 + 3 + 6)
  const HEADER_MAX: nat := 1 + (3 + 6 + 6 + 6 + 3)
  const PAYLOAD_MAX: nat := 1 + (1 + 1 + 3 + 3 + 1 + 1 + (MAX_CSI_BYTES + 2))
  const BODY_MAX: nat := 1 + (META_MAX + STIMULUS_MAX + HEADER_MAX + PAYLOAD_MAX)

  const MAX_ENCODED_LEN: nat :=
    ENVELOPE_MAX + BODY_MAX + (ENVELOPE_MAX + BODY_MAX) / 254 + 2

  // ----- frames -----

  /** The bytes inside one frame, before stuffing. */
  function Raw(e: Envelope, b: Body): Input { PutEnvelope(e, PutBody(b, [])) }

  /** One frame on the serialized stream, without its delimiter. */
  function Frame(e: Envelope, b: Body): seq<byte> { Cobs.Stuff(Raw(e, b)) }

  datatype Decoded =
    | Ok(envelope: Envelope, body: Body)
    | UnsupportedVersion(version: u8)
    | Malformed

  /** The envelope is read and its version checked before the body is touched; bytes after the
      body are ignored. */
  function Decode(bytes: Input): Decoded {
    match TakeEnvelope(bytes)
    case None => Malformed
    case Some((e, rest)) =>
      if e.version != WIRE_VERSION then UnsupportedVersion(e.version)
      else
        match TakeBody(rest)
        case None => Malformed
        case Some((b, _)) => Ok(e, b)
  }

  /** What a host makes of one frame. */
  function DecodeFrame(frame: seq<byte>): Decoded {
    match Cobs.Unstuff(frame)
    case None => Malformed
    case Some(bytes) => Decode(bytes)
  }

  /** Encoding into a caller's buffer: the frame and its delimiter, or nothing if it does not fit. */
  method EncodeCobs(e: Envelope, b: Body, buf: array<byte>) returns (used: Option<nat>)
    modifies buf
    ensures used.Some? <==> |Frame(e, b)| < buf.Length
    ensures used.Some? ==> used.value <= buf.Length && buf[..used.value] == Frame(e, b) + [0]
    ensures buf.Length >= MAX_ENCODED_LEN ==> used.Some?
  {
    EncodedLength(e, b);
    used := Cobs.Encode(Raw(e, b), buf);
  }

  /** Decoding in the caller's buffer. */
  method DecodeCobs(frame: array<byte>) returns (d: Decoded)
    modifies frame
    ensures d == DecodeFrame(old(frame[..]))
  {
    var len := Cobs.DecodeInPlace(frame);
    d := match len case None => Malformed case Some(n) => Decode(frame[..n]);
  }

  /** A `MAX_ENCODED_LEN` buffer holds any frame and its delimiter. */
  lemma EncodedLength(e: Envelope, b: Body)
    ensures |Frame(e, b)| + 1 <= MAX_ENCODED_LEN
  {
    Cobs.StuffLength(Raw(e, b));
  }

  /** A frame holds no delimiter, so the only zero byte of a delimited frame is its last. */
  lemma FrameIsClean(e: Envelope, b: Body)
    ensures Frame(e, b) != [] && Cobs.NonZero(Frame(e, b))
  {
    Cobs.StuffHasNoZero(Raw(e, b));
  }

  /** A frame decodes to what was encoded, with or without its delimiter, when it was written at
      this version; at any other version it is reported as such. */
  lemma DecodeAfterEncode(e: Envelope, b: Body, tail: seq<byte>)
    requires tail == [] || tail[0] == 0
    ensures DecodeFrame(Frame(e, b) + tail) ==
            if e.version == WIRE_VERSION then Ok(e, b) else UnsupportedVersion(e.version)
  {
    Cobs.UnstuffStuff(Raw(e, b), tail);
  }

  /** The version is judged on the envelope alone: whatever follows it, a frame of another version
      is reported as unsupported, and only such a frame is. */
  lemma VersionIsCheckedFirst(e: Envelope, rest: Input, tail: seq<byte>)
    requires tail == [] || tail[0] == 0
    ensures var d := DecodeFrame(Cobs.Stuff(PutEnvelope(e, rest)) + tail);
            d == UnsupportedVersion(e.version) <==> e.version != WIRE_VERSION
  {
    Cobs.UnstuffStuff(PutEnvelope(e, rest), tail);
  }

  /** Bytes after the body do not change what is decoded, so encoding it again gives back what was
      received only if there were none. */
  lemma TrailingBytesAreIgnored(e: Envelope, b: Body, extra: seq<byte>)
    requires e.version == WIRE_VERSION
    ensures Decode(PutEnvelope(e, PutBody(b, extra))) == Ok(e, b)
    ensures PutEnvelope(e, PutBody(b, extra)) == Raw(e, b) <==> extra == []
  {
    assert TakeBody(PutBody(b, extra)) == Some((b, extra)) && TakeBody(PutBody(b, [])) == Some((b, []));
    assert TakeEnvelope(PutEnvelope(e, PutBody(b, extra))) == Some((e, PutBody(b, extra)));
    assert TakeEnvelope(Raw(e, b)) == Some((e, PutBody(b, [])));
    hide PutBody;
    hide PutEnvelope;
    hide TakeBody;
    hide TakeEnvelope;
  }
}
