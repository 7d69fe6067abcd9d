/** The wire format in bytes: what stands where in a frame, said without the writer or the reader. */
module WireBytes {
  import opened Arith
  import opened Bytes
  import opened Postcard
  import opened Wire
  import Cobs
  import Magic

  // ----- integers -----

  /** A varint on its own. */
  function Varint(n: nat): seq<byte> { PutVarint(n, []) }

  function Power128(k: nat): (r: nat)
    ensures r > 0
  {
    if k == 0 then 1 else 128 * Power128(k - 1)
  }

  /** Its bytes are the value's seven-bit groups, lowest first, with the top bit on all but the last; it is
      no longer than it has to be. */
  lemma {:induction false} VarintGroups(n: nat, k: nat)
    ensures var v := Varint(n);
            && |v| > 0 && n < Power128(|v|) && (|v| > 1 ==> Power128(|v| - 1) <= n)
            && (k < |v| ==> v[k] as int % 128 == n / Power128(k) % 128 && (v[k] >= 128 <==> k < |v| - 1))
    decreases n
  {
    if n >= 128 {
      var v, rest := Varint(n), Varint(n / 128);
      assert v == [(128 + n % 128) as byte] + rest;
      VarintGroups(n / 128, if k == 0 then 0 else k - 1);
      if 0 < k < |v| {
        assert v[k] == rest[k - 1];
        DivOfDiv(n, 128, Power128(k - 1));
      }
    }
  }

  /** Reading takes the bytes up to the first without the top bit, as groups of seven bits, lowest first,
      needlessly long or not. */
  lemma VarintReads(w: Width, s: Input, i: nat, j: nat)
    requires i <= Groups(w) && TakeVarint(w, s, i).Some?
    ensures var (n, rest) := TakeVarint(w, s, i).value;
            var k := |s| - |rest|;
            && 0 < k <= Groups(w) - i && rest == s[k..] && s[k - 1] < 128 && n < Power128(k)
            && (j < k ==> n / Power128(j) % 128 == s[j] as int % 128 && (j < k - 1 ==> s[j] >= 128))
  {
    BytesRead(w, s, i, j);
    GroupsRead(w, s, i, j);
    assert Group(TakeVarint(w, s, i).value.0, j) == TakeVarint(w, s, i).value.0 / Power128(j) % 128;
    hide TakeVarint;
    hide Power128;
  }

  lemma {:induction false} BytesRead(w: Width, s: Input, i: nat, j: nat)
    requires i <= Groups(w) && TakeVarint(w, s, i).Some?
    ensures var rest := TakeVarint(w, s, i).value.1;
            var k := |s| - |rest|;
            && 0 < k <= Groups(w) - i && rest == s[k..] && s[k - 1] < 128 && (j < k - 1 ==> s[j] >= 128)
    decreases Groups(w) - i
  {
    if s[0] >= 128 {
      BytesRead(w, s[1..], i + 1, if j == 0 then 0 else j - 1);
      var rest := TakeVarint(w, s[1..], i + 1).value.1;
      assert rest == s[|s| - |rest|..];
    }
  }

  /** The `j`-th group of seven bits of a number. */
  function Group(n: nat, j: nat): nat { n / Power128(j) % 128 }

  lemma TakeOne(w: Width, s: Input, i: nat)
    requires i <= Groups(w) && TakeVarint(w, s, i).Some?
    ensures s != [] && i < Groups(w)
    ensures s[0] < 128 ==> TakeVarint(w, s, i) == Some((s[0] as int, s[1..]))
    ensures s[0] >= 128 ==>
              var r := TakeVarint(w, s[1..], i + 1);
              r.Some? && TakeVarint(w, s, i) == Some((s[0] as int - 128 + 128 * r.value.0, r.value.1))
  {
  }

  lemma {:induction false} GroupsRead(w: Width, s: Input, i: nat, j: nat)
    requires i <= Groups(w) && TakeVarint(w, s, i).Some?
    ensures var (n, rest) := TakeVarint(w, s, i).value;
            var k := |s| - |rest|;
            0 < k <= |s| && n < Power128(k) && (j < k ==> Group(n, j) == s[j] as int % 128)
    decreases Groups(w) - i
  {
    hide Group;
    hide Power128;
    hide TakeVarint;
    TakeOne(w, s, i);
    if s[0] >= 128 {
      GroupsRead(w, s[1..], i + 1, if j == 0 then 0 else j - 1);
      var (v, rest) := TakeVarint(w, s[1..], i + 1).value;
      FirstGroup(s[0] as int - 128, v, j, |s[1..]| - |rest|);
      assert j > 0 && j < |s| ==> s[1..][j - 1] == s[j];
    } else {
      SmallGroup(s[0] as int);
    }
  }

  lemma SmallGroup(n: nat)
    requires n < 128
    ensures n < Power128(1) && Group(n, 0) == n
  {
    assert Power128(1) == 128 * Power128(0);
  }

  lemma FirstGroup(low: nat, v: nat, j: nat, k: nat)
    requires low < 128
    ensures Group(low + 128 * v, 0) == low
    ensures j > 0 ==> Group(low + 128 * v, j) == Group(v, j - 1)
    ensures v < Power128(k) ==> low + 128 * v < Power128(k + 1)
  {
    if j > 0 { DivOfDiv(low + 128 * v, 128, Power128(j - 1)); }
  }

  /** Reading fails exactly when none of the groups the width allows is without the top bit, or only the
      last of them is, and it is too large. */
  lemma {:induction false} VarintRefused(w: Width, s: Input, i: nat, j: nat)
    requires i <= Groups(w) && TakeVarint(w, s, i).None?
    requires j < |s| && j < Groups(w) - i && s[j] < 128
    ensures (exists k | 0 <= k < j :: s[k] < 128) || (j == Groups(w) - i - 1 && s[j] as int > LastMax(w))
    decreases Groups(w) - i
  {
    if s[0] >= 128 {
      VarintRefused(w, s[1..], i + 1, j - 1);
      if k :| 0 <= k < j - 1 && s[1..][k] < 128 { assert s[k + 1] < 128; }
    }
  }

  lemma {:induction false} VarintAppends(n: nat, rest: Input)
    ensures PutVarint(n, rest) == Varint(n) + rest
  {
    if n < 128 {
      assert [n as byte] + [] + rest == [n as byte] + rest;
    } else {
      VarintAppends(n / 128, rest);
      assert [(128 + n % 128) as byte] + Varint(n / 128) + rest == [(128 + n % 128) as byte] + (Varint(n / 128) + rest);
    }
  }

  // ----- integers, flags, options, discriminants -----

  lemma U8Bytes(n: u8, rest: Input)
    ensures PutU8(n, rest) == [n as byte] + rest
  {
  }

  /** A signed byte is its two's complement. */
  lemma I8Bytes(n: i8, rest: Input)
    ensures PutI8(n, rest) == [(n % 256) as byte] + rest
  {
  }

  lemma VarintBytes(a: u16, b: u32, c: u64, rest: Input)
    ensures PutU16(a, rest) == Varint(a) + rest
    ensures PutU32(b, rest) == Varint(b) + rest
    ensures PutU64(c, rest) == Varint(c) + rest
  {
    VarintAppends(a, rest);
    VarintAppends(b, rest);
    VarintAppends(c, rest);
  }

  lemma U16Bytes(n: u16, rest: Input)
    ensures PutU16(n, rest) == Varint(n) + rest
  {
    VarintBytes(n, 0, 0, rest);
  }

  lemma U32Bytes(n: u32, rest: Input)
    ensures PutU32(n, rest) == Varint(n) + rest
  {
    VarintBytes(0, n, 0, rest);
  }

  lemma U64Bytes(n: u64, rest: Input)
    ensures PutU64(n, rest) == Varint(n) + rest
  {
    VarintBytes(0, 0, n, rest);
  }

  /** A signed 16-bit value is zigzagged: 0, -1, 1, -2 become 0, 1, 2, 3. */
  lemma I16Bytes(n: i16, rest: Input)
    ensures PutI16(n, rest) == Varint(if n < 0 then -2 * n - 1 else 2 * n) + rest
  {
    VarintAppends(if n < 0 then -2 * n - 1 else 2 * n, rest);
  }

  lemma BoolBytes(b: bool, rest: Input)
    ensures PutBool(b, rest) == [if b then 1 else 0] + rest
  {
  }

  /** Absent is 0; present is 1 and then the value. */
  lemma OptU8Bytes(o: Option<u8>, rest: Input)
    ensures PutOptU8(o, rest) == (match o case None => [0] case Some(n) => [1, n as byte]) + rest
    ensures PutOptU8(o, rest) == PutOptU8(o, []) + rest
  {
  }

  lemma Associates(a: Input, b: Input, c: Input)
    ensures a + b + c == a + (b + c)
  {
  }

  lemma OptU16Bytes(o: Option<u16>, rest: Input)
    ensures PutOptU16(o, rest) == (match o case None => [0] case Some(n) => [1] + Varint(n)) + rest
  {
    match o
    case None =>
    case Some(n) =>
      U16Bytes(n, rest);
      BoolBytes(true, Varint(n) + rest);
      Associates([1], Varint(n), rest);
    hide PutU16;
    hide Varint;
    hide PutBool;
  }

  lemma OptU16Appends(o: Option<u16>, rest: Input)
    ensures PutOptU16(o, rest) == PutOptU16(o, []) + rest
  {
    OptU16Bytes(o, rest);
    OptU16Bytes(o, []);
    hide PutOptU16;
    hide Varint;
  }

  lemma OptU64Bytes(o: Option<u64>, rest: Input)
    ensures PutOptU64(o, rest) == (match o case None => [0] case Some(n) => [1] + Varint(n)) + rest
  {
    match o
    case None =>
    case Some(n) =>
      U64Bytes(n, rest);
      BoolBytes(true, Varint(n) + rest);
      Associates([1], Varint(n), rest);
    hide PutU64;
    hide Varint;
    hide PutBool;
  }

  lemma OptU64Appends(o: Option<u64>, rest: Input)
    ensures PutOptU64(o, rest) == PutOptU64(o, []) + rest
  {
    OptU64Bytes(o, rest);
    OptU64Bytes(o, []);
    hide PutOptU64;
    hide Varint;
  }

  lemma OptBoolBytes(o: Option<bool>, rest: Input)
    ensures PutOptBool(o, rest) == (match o case None => [0] case Some(b) => [1, if b then 1 else 0]) + rest
    ensures PutOptBool(o, rest) == PutOptBool(o, []) + rest
  {
  }

  /** A discriminant is one byte: the variant's place in its declaration. */
  lemma VariantBytes(k: nat, n: nat, rest: Input)
    requires k < n <= 128
    ensures PutVariant(k, n, rest) == [k as byte] + rest
  {
  }

  lemma SourceBytes(s: SourceKind, rest: Input)
    ensures PutSource(s, rest) == [match s case EspVendor => 0 case Ieee80211bf => 1 case Synthetic => 2] + rest
  {
    VariantBytes(match s case EspVendor => 0 case Ieee80211bf => 1 case Synthetic => 2, 3, rest);
    hide PutVariant;
  }

  lemma ChipBytes(c: Chip, rest: Input)
    ensures PutChip(c, rest) == [match c case Esp32 => 0 case Esp32S2 => 1 case Esp32S3 => 2
                                         case Esp32C3 => 3 case Esp32C5 => 4 case Esp32C6 => 5] + rest
    ensures PutChip(c, rest) == PutChip(c, []) + rest
  {
    VariantBytes(match c case Esp32 => 0 case Esp32S2 => 1 case Esp32S3 => 2
                         case Esp32C3 => 3 case Esp32C5 => 4 case Esp32C6 => 5, 6, rest);
    hide PutVariant;
  }

  lemma SecondaryBytes(s: Secondary, rest: Input)
    ensures PutSecondary(s, rest) == [match s case NoSecondary => 0 case Above => 1 case Below => 2] + rest
    ensures PutSecondary(s, rest) == PutSecondary(s, []) + rest
  {
    VariantBytes(match s case NoSecondary => 0 case Above => 1 case Below => 2, 3, rest);
    hide PutVariant;
  }

  lemma BandwidthBytes(o: Option<Bandwidth>, rest: Input)
    ensures PutBandwidth(o, rest) ==
            (match o
             case None => [0]
             case Some(b) => [1, match b case Mhz20 => 0 case Mhz40 => 1 case Mhz80 => 2
                                         case Mhz160 => 3 case Mhz320 => 4]) + rest
    ensures PutBandwidth(o, rest) == PutBandwidth(o, []) + rest
  {
    match o
    case None =>
    case Some(b) =>
      VariantBytes(match b case Mhz20 => 0 case Mhz40 => 1 case Mhz80 => 2 case Mhz160 => 3 case Mhz320 => 4, 5,
                   rest);
    hide PutVariant;
  }

  lemma PpduBytes(p: PpduFormat, rest: Input)
    ensures PutPpdu(p, rest) == [match p case Unknown => 0 case Dsss => 1 case NonHt => 2 case Ht => 3
                                         case Vht => 4 case VhtMu => 5 case HeSu => 6 case HeMu => 7
                                         case HeErSu => 8 case HeTb => 9 case Eht => 10] + rest
    ensures PutPpdu(p, rest) == PutPpdu(p, []) + rest
  {
    VariantBytes(match p case Unknown => 0 case Dsss => 1 case NonHt => 2 case Ht => 3 case Vht => 4
                         case VhtMu => 5 case HeSu => 6 case HeMu => 7 case HeErSu => 8 case HeTb => 9
                         case Eht => 10, 11, rest);
    hide PutVariant;
  }

  // ----- arrays and vectors -----

  lemma MacBytes(m: Mac, rest: Input)
    ensures PutMac(m, rest) == m + rest
  {
  }

  /** A vector is its length and its elements. */
  lemma VectorBytes(s: seq<byte>, cap: nat, rest: Input)
    requires |s| <= cap < 128 * 128
    ensures PutVec(s, cap, rest) == Varint(|s|) + (s + rest)
  {
    VarintAppends(|s|, s + rest);
    hide PutVarint;
    hide Varint;
  }

  /** The samples of a buffer, in two's complement. */
  lemma SampleBytes(s: Samples, rest: Input)
    ensures PutSamples(s, rest) ==
            Varint(|s|) + (seq(|s|, i requires 0 <= i < |s| => (s[i] as int % 256) as byte) + rest)
  {
    VectorBytes(seq(|s|, i requires 0 <= i < |s| => (s[i] as int % 256) as byte), MAX_CSI_BYTES, rest);
    hide PutVec;
    hide Varint;
  }

  // ----- what a reader refuses -----

  /** A flag is 0 or 1, and so is the tag of an option. */
  lemma FlagIsRead(b: byte, rest: Input)
    ensures TakeBool([]) == None
    ensures TakeBool([b] + rest) == if b == 0 then Some((false, rest)) else if b == 1 then Some((true, rest)) else None
  {
    assert ([b] + rest)[1..] == rest;
  }

  /** A discriminant is one of the enumeration's; a vector is no longer than its capacity and all there. */
  lemma LengthIsRead(n: nat, bs: Input)
    ensures TakeVariant(n, bs) == match TakeVarint(W32, bs)
                                  case Some((k, rest)) => if k < n then Some((k, rest)) else None
                                  case None => None
    ensures TakeVec(n, bs) == match TakeVarint(W64, bs)
                              case Some((k, rest)) =>
                                if k <= n && k <= |rest| then Some((rest[..k], rest[k..])) else None
                              case None => None
  {
    hide TakeVarint;
  }

  // ----- the parts of a frame, field by field -----

  lemma EnvelopeBytes(e: Envelope, rest: Input)
    ensures PutEnvelope(e, rest) ==
            [e.version as byte] + (e.nodeId + (Varint(e.sessionId) +
            ([match e.source case EspVendor => 0 case Ieee80211bf => 1 case Synthetic => 2] +
            (Varint(e.streamSeq) + rest))))
  {
    U32Bytes(e.streamSeq, rest);
    var r := Varint(e.streamSeq) + rest;
    SourceBytes(e.source, r);
    r := PutSource(e.source, r);
    U32Bytes(e.sessionId, r);
    r := Varint(e.sessionId) + r;
    MacBytes(e.nodeId, r);
    U8Bytes(e.version, e.nodeId + r);
    hide PutU8;
    hide PutMac;
    hide PutU32;
    hide PutSource;
    hide Varint;
  }

  lemma SessionBytes(s: SessionInfo, rest: Input)
    ensures PutSession(s, rest) ==
            PutChip(s.chip, []) + ([s.crateVersion.0 as byte] + ([s.crateVersion.1 as byte] +
            ([s.crateVersion.2 as byte] + (Varint(s.timestampUs) + (PutOptU64(s.epochUnixUs, []) + rest)))))
  {
    OptU64Appends(s.epochUnixUs, rest);
    var r := PutOptU64(s.epochUnixUs, rest);
    U64Bytes(s.timestampUs, r);
    r := PutU64(s.timestampUs, r);
    U8Bytes(s.crateVersion.2, r);
    r := PutU8(s.crateVersion.2, r);
    U8Bytes(s.crateVersion.1, r);
    r := PutU8(s.crateVersion.1, r);
    U8Bytes(s.crateVersion.0, r);
    ChipBytes(s.chip, PutU8(s.crateVersion.0, r));
    hide PutU8;
    hide PutU64;
    hide PutOptU64;
    hide PutChip;
    hide Varint;
  }

  lemma ClassicBytes(v: VendorRx, rest: Input)
    requires v.EspClassic?
    ensures PutVendor(v, rest) ==
            [1] + ([v.rate as byte] + ([v.sigMode as byte] + ([if v.smoothing then 1 else 0] +
            ([if v.fecLdpc then 1 else 0] + ([v.ampduCnt as byte] + rest)))))
  {
    U8Bytes(v.ampduCnt, rest);
    var r := PutU8(v.ampduCnt, rest);
    BoolBytes(v.fecLdpc, r);
    r := PutBool(v.fecLdpc, r);
    BoolBytes(v.smoothing, r);
    r := PutBool(v.smoothing, r);
    U8Bytes(v.sigMode, r);
    r := PutU8(v.sigMode, r);
    U8Bytes(v.rate, r);
    VariantBytes(1, 3, PutU8(v.rate, r));
    hide PutU8;
    hide PutBool;
    hide PutVariant;
  }

  lemma HeBytes(v: VendorRx, rest: Input)
    requires v.EspHe?
    ensures PutVendor(v, rest) ==
            [2] + ([v.rate as byte] + ([v.curBbFormat as byte] + ([if v.estimateValid then 1 else 0] +
            (Varint(v.estimateLen) + (Varint(v.dumpLen) + ([if v.isGroup then 1 else 0] +
            ([v.rxendState as byte] + ([v.rxmatch as byte] + (Varint(v.heSiga1) + (Varint(v.heSiga2) +
            ([v.sigbLen as byte] + ([if v.singleMpdu then 1 else 0] + rest))))))))))))
  {
    BoolBytes(v.singleMpdu, rest);
    var r := PutBool(v.singleMpdu, rest);
    U8Bytes(v.sigbLen, r);
    r := PutU8(v.sigbLen, r);
    U16Bytes(v.heSiga2, r);
    r := PutU16(v.heSiga2, r);
    U32Bytes(v.heSiga1, r);
    r := PutU32(v.heSiga1, r);
    U8Bytes(v.rxmatch, r);
    r := PutU8(v.rxmatch, r);
    U8Bytes(v.rxendState, r);
    r := PutU8(v.rxendState, r);
    BoolBytes(v.isGroup, r);
    r := PutBool(v.isGroup, r);
    U16Bytes(v.dumpLen, r);
    r := PutU16(v.dumpLen, r);
    U16Bytes(v.estimateLen, r);
    r := PutU16(v.estimateLen, r);
    BoolBytes(v.estimateValid, r);
    r := PutBool(v.estimateValid, r);
    U8Bytes(v.curBbFormat, r);
    r := PutU8(v.curBbFormat, r);
    U8Bytes(v.rate, r);
    VariantBytes(2, 3, PutU8(v.rate, r));
    hide PutU8;
    hide PutBool;
    hide PutU16;
    hide PutU32;
    hide PutVariant;
    hide Varint;
  }

  lemma NoVendorBytes(rest: Input)
    ensures PutVendor(NoVendor, rest) == [0] + rest
  {
    VariantBytes(0, 3, rest);
    hide PutVariant;
  }

  lemma MetaBytes(m: RxMeta, rest: Input)
    ensures PutMeta(m, rest) ==
            Varint(m.timestampUs) + ([(m.rssi % 256) as byte] + ([(m.noiseFloor % 256) as byte] +
            ([m.channel as byte] + (PutSecondary(m.secondary, []) + (PutBandwidth(m.bandwidth, []) +
            (PutPpdu(m.ppdu, []) + (PutOptU8(m.mcs, []) + (PutOptBool(m.stbc, []) + (PutOptBool(m.sgi, []) +
            ([m.nRx as byte] + (PutOptU8(m.nSs, []) + (PutOptU8(m.antenna, []) + (Varint(m.sigLen) +
            ([m.rxState as byte] + (PutOptBool(m.notSounding, []) + (PutOptBool(m.aggregation, []) +
            (PutOptU16(m.frameSeq, []) + PutVendor(m.vendor, rest))))))))))))))))))
  {
    var r := PutVendor(m.vendor, rest);
    OptU16Appends(m.frameSeq, r);
    r := PutOptU16(m.frameSeq, r);
    OptBoolBytes(m.aggregation, r);
    r := PutOptBool(m.aggregation, r);
    OptBoolBytes(m.notSounding, r);
    r := PutOptBool(m.notSounding, r);
    U8Bytes(m.rxState, r);
    r := PutU8(m.rxState, r);
    U16Bytes(m.sigLen, r);
    r := PutU16(m.sigLen, r);
    OptU8Bytes(m.antenna, r);
    r := PutOptU8(m.antenna, r);
    OptU8Bytes(m.nSs, r);
    r := PutOptU8(m.nSs, r);
    U8Bytes(m.nRx, r);
    r := PutU8(m.nRx, r);
    OptBoolBytes(m.sgi, r);
    r := PutOptBool(m.sgi, r);
    OptBoolBytes(m.stbc, r);
    r := PutOptBool(m.stbc, r);
    OptU8Bytes(m.mcs, r);
    r := PutOptU8(m.mcs, r);
    PpduBytes(m.ppdu, r);
    r := PutPpdu(m.ppdu, r);
    BandwidthBytes(m.bandwidth, r);
    r := PutBandwidth(m.bandwidth, r);
    SecondaryBytes(m.secondary, r);
    r := PutSecondary(m.secondary, r);
    U8Bytes(m.channel, r);
    r := PutU8(m.channel, r);
    I8Bytes(m.noiseFloor, r);
    r := PutI8(m.noiseFloor, r);
    I8Bytes(m.rssi, r);
    U64Bytes(m.timestampUs, PutI8(m.rssi, r));
    hide PutU8;
    hide PutI8;
    hide PutU16;
    hide PutU64;
    hide PutOptU8;
    hide PutOptU16;
    hide PutOptBool;
    hide PutSecondary;
    hide PutBandwidth;
    hide PutPpdu;
    hide PutVendor;
    hide Varint;
  }

  lemma StimulusBytes(s: Stimulus, rest: Input)
    ensures PutStimulus(s, rest) ==
            match s
            case Controlled(setup, instance, ta) => [0] + ([setup as byte] + (Varint(instance) + (ta + rest)))
            case Ambient(ta) => [1] + (ta + rest)
            case Observed(ta, token) => [2] + (ta + ([token as byte] + rest))
  {
    match s
    case Controlled(setup, instance, ta) =>
      MacBytes(ta, rest);
      U16Bytes(instance, PutMac(ta, rest));
      U8Bytes(setup, PutU16(instance, PutMac(ta, rest)));
      VariantBytes(0, 3, PutU8(setup, PutU16(instance, PutMac(ta, rest))));
    case Ambient(ta) =>
      MacBytes(ta, rest);
      VariantBytes(1, 3, PutMac(ta, rest));
    case Observed(ta, token) =>
      U8Bytes(token, rest);
      MacBytes(ta, PutU8(token, rest));
      VariantBytes(2, 3, PutMac(ta, PutU8(token, rest)));
    hide PutU8;
    hide PutU16;
    hide PutMac;
    hide PutVariant;
    hide Varint;
  }

  lemma HeaderBytes(o: Option<HeaderDigest>, rest: Input)
    ensures PutHeader(o, rest) ==
            match o
            case None => [0] + rest
            case Some(h) =>
              [1] + (Varint(h.frameControl) + (h.addr1 + (h.addr2 + (h.addr3 + (Varint(h.seqCtrl) + rest)))))
  {
    match o
    case None => BoolBytes(false, rest);
    case Some(h) =>
      U16Bytes(h.seqCtrl, rest);
      var r := PutU16(h.seqCtrl, rest);
      MacBytes(h.addr3, r);
      r := PutMac(h.addr3, r);
      MacBytes(h.addr2, r);
      r := PutMac(h.addr2, r);
      MacBytes(h.addr1, r);
      r := PutMac(h.addr1, r);
      U16Bytes(h.frameControl, r);
      BoolBytes(true, PutU16(h.frameControl, r));
    hide PutBool;
    hide PutU16;
    hide PutMac;
    hide Varint;
  }

  lemma PayloadBytes(p: CsiPayload, rest: Input)
    ensures PutPayload(p, rest) ==
            match p
            case EspRaw(chip, layout, invalid, samples) =>
              [0] + (PutChip(chip, []) + ([layout as byte] + ([if invalid then 1 else 0] +
              PutSamples(samples, rest))))
            case Grouped(ng, nb, scStart, nSc, nRx, nTx, data) =>
              [1] + ([ng as byte] + ([nb as byte] + (PutI16(scStart, []) + (Varint(nSc) + ([nRx as byte] +
              ([nTx as byte] + (Varint(|data|) + (data + rest))))))))
            case Variation(value) => [2] + (Varint(value) + rest)
  {
    match p
    case EspRaw(chip, layout, invalid, samples) =>
      var r := PutSamples(samples, rest);
      BoolBytes(invalid, r);
      r := PutBool(invalid, r);
      VariantBytes(layout, 26, r);
      r := PutVariant(layout, 26, r);
      ChipBytes(chip, r);
      VariantBytes(0, 3, PutChip(chip, r));
    case Grouped(ng, nb, scStart, nSc, nRx, nTx, data) =>
      VectorBytes(data, MAX_CSI_BYTES, rest);
      var r := PutVec(data, MAX_CSI_BYTES, rest);
      U8Bytes(nTx, r);
      r := PutU8(nTx, r);
      U8Bytes(nRx, r);
      r := PutU8(nRx, r);
      U16Bytes(nSc, r);
      r := PutU16(nSc, r);
      I16Bytes(scStart, r);
      r := PutI16(scStart, r);
      U8Bytes(nb, r);
      r := PutU8(nb, r);
      U8Bytes(ng, r);
      VariantBytes(1, 3, PutU8(ng, r));
    case Variation(value) =>
      U16Bytes(value, rest);
      VariantBytes(2, 3, PutU16(value, rest));
    hide PutU8;
    hide PutBool;
    hide PutU16;
    hide PutI16;
    hide PutVec;
    hide PutSamples;
    hide PutChip;
    hide PutVariant;
    hide Varint;
  }

  /** A measurement is byte 0 and its four parts in order, a session announcement byte 1 and its fields;
      both follow the envelope. */
  lemma FrameBytes(e: Envelope, b: Body)
    ensures Frame(e, b) ==
            Cobs.Stuff(match b
                       case Csi(f) =>
                         PutEnvelope(e, [0] + PutMeta(f.meta, PutStimulus(f.stimulus, PutHeader(f.header,
                           PutPayload(f.payload, [])))))
                       case Session(info) => PutEnvelope(e, [1] + PutSession(info, [])))
  {
    match b
    case Csi(f) => VariantBytes(0, 2, PutCsi(f, []));
    case Session(info) => VariantBytes(1, 2, PutSession(info, []));
    hide Cobs.Stuff;
    hide PutEnvelope;
    hide PutMeta;
    hide PutStimulus;
    hide PutHeader;
    hide PutPayload;
    hide PutSession;
    hide PutVariant;
  }

  /** The magics are 0xA8912BF0 and its complement, lowest byte first. */
  lemma MagicBytes(k: nat)
    requires k < 4
    ensures |Magic.INITIATOR_MAGIC| == |Magic.RESPONDER_MAGIC| == 4
    ensures Magic.INITIATOR_MAGIC[k] as int == 0xA891_2BF0 / (if k == 0 then 1 else if k == 1 then 0x100
                                                            else if k == 2 then 0x1_0000 else 0x100_0000) % 0x100
    ensures Magic.RESPONDER_MAGIC[k] as int == 255 - Magic.INITIATOR_MAGIC[k] as int
  {
  }

  /** A control frame: in automatic pairing the magic, then the flag and the number. */
  lemma ControlBytes(p: Magic.ControlPacket, auto: bool)
    ensures Magic.Framed(Magic.PutControl(p, []), Magic.INITIATOR_MAGIC, auto) ==
            (if auto then [0xF0, 0x2B, 0x91, 0xA8] else []) +
            ([if p.initiatorReports then 1 else 0] + Varint(p.sequenceNumber))
  {
    U32Bytes(p.sequenceNumber, []);
    BoolBytes(p.initiatorReports, PutU32(p.sequenceNumber, []));
    hide PutU32;
    hide PutBool;
    hide Varint;
  }

  /** In automatic pairing a frame is read only behind its magic. */
  lemma MagicIsRequired(data: seq<byte>, magic: seq<byte>)
    requires |magic| == 4
    ensures Magic.Parse(data, magic, true) ==
            if magic <= data then Magic.Parse(data[4..], magic, false) else None
  {
    assert |data| >= 4 ==> (data[..4] == magic <==> magic <= data);
    hide Magic.TakeControl;
  }
}
