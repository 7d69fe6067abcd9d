/** The row the text formats print, rebuilt from a frame: the column lists of both line formats. */
module TextRow {
  import opened Bytes
  import opened Wire

  /** The chip family decides the columns. */
  predicate IsHe(chip: Chip) { chip == Esp32C5 || chip == Esp32C6 }

  datatype ChipFields =
    | Classic(sgi: u32, secondary: u32, bandwidth: u32, antenna: u32, sigMode: u32, mcs: u32,
              smoothing: u32, notSounding: u32, aggregation: u32, stbc: u32, fecCoding: u32, ampduCnt: u32)
    | He(dumpLen: u32, sigbLen: u32, singleMpdu: u32, bbFormat: u32, estimateValid: u32, estimateLen: u32,
         second: u32, isGroup: u32, rxendState: u32, rxmatch3: u32, rxmatch2: u32, rxmatch1: u32, rxmatch0: u32)

  datatype TextRow = TextRow(
    mac: Mac, rssi: int, timestamp: u32, rate: u32, noiseFloor: int, sigLen: u32, rxState: u32,
    channel: u32, sequenceNumber: u16, samples: Samples, fields: ChipFields)

  function Bit(b: bool): u32 { if b then 1 else 0 }
  function BitOr(o: Option<bool>, otherwise: bool): u32 { match o case None => Bit(otherwise) case Some(b) => Bit(b) }
  function ByteOr(o: Option<u8>): u32 { match o case None => 0 case Some(b) => b }
  function SecondaryCode(s: Secondary): u32 { match s case NoSecondary => 0 case Above => 1 case Below => 2 }

  function RowSamples(f: CsiFrame): Samples {
    match f.payload
    case EspRaw(_, _, _, samples) => samples
    case _ => []
  }

  function ClassicFields(m: RxMeta): ChipFields {
    var v := match m.vendor
             case EspClassic(_, sigMode, smoothing, fecLdpc, ampduCnt) => (sigMode, smoothing, fecLdpc, ampduCnt)
             case _ => (0, false, false, 0);
    Classic(BitOr(m.sgi, false), SecondaryCode(m.secondary), Bit(m.bandwidth == Some(Mhz40)), ByteOr(m.antenna),
            v.0, ByteOr(m.mcs), Bit(v.1), BitOr(m.notSounding, true), BitOr(m.aggregation, false),
            BitOr(m.stbc, false), Bit(v.2), v.3)
  }

  function HeFields(m: RxMeta): ChipFields {
    match m.vendor
    case EspHe(_, bbFormat, estimateValid, estimateLen, dumpLen, isGroup, rxendState, rxmatch, _, _, sigbLen, single) =>
      He(dumpLen, sigbLen, Bit(single), bbFormat, Bit(estimateValid), estimateLen, SecondaryCode(m.secondary),
         Bit(isGroup), rxendState, rxmatch / 8 % 2, rxmatch / 4 % 2, rxmatch / 2 % 2, rxmatch % 2)
    case _ => He(0, 0, 0, 0, 0, 0, SecondaryCode(m.secondary), 0, 0, 0, 0, 0, 0)
  }

  /** The rate is the family's own; a frame of the other family has none. */
  function Rate(chip: Chip, v: VendorRx): u32 {
    match v
    case EspClassic(rate, _, _, _, _) => if IsHe(chip) then 0 else rate
    case EspHe(rate, _, _, _, _, _, _, _, _, _, _, _) => if IsHe(chip) then rate else 0
    case NoVendor => 0
  }

  /** The timestamp keeps its low 32 bits only. */
  function Row(chip: Chip, f: CsiFrame): TextRow {
    var m := f.meta;
    TextRow(Transmitter(f), m.rssi, m.timestampUs % 0x1_0000_0000, Rate(chip, m.vendor), m.noiseFloor, m.sigLen,
            m.rxState, m.channel, match m.frameSeq case None => 0 case Some(n) => n, RowSamples(f),
            if IsHe(chip) then HeFields(m) else ClassicFields(m))
  }

  // ----- columns -----

  function ChipColumns(chip: Chip, channel: u32, f: ChipFields): seq<int> {
    match f
    case Classic(sgi, secondary, bandwidth, antenna, sigMode, mcs, smoothing, notSounding, aggregation, stbc, fec,
                 ampdu) =>
      [secondary, sgi, antenna, ampdu, sigMode, mcs, bandwidth, smoothing, notSounding, aggregation, stbc, fec]
    case He(dumpLen, sigbLen, single, bbFormat, valid, estimateLen, second, isGroup, rxend, m3, m2, m1, m0) =>
      [dumpLen] + (if chip == Esp32C6 then [sigbLen, single] else []) +
      [bbFormat, valid, estimateLen, second, channel, isGroup, rxend, m3, m2, m1] +
      (if chip == Esp32C6 then [m0] else [])
  }

  /** The columns of an array-list line, up to the samples. */
  function ListColumns(chip: Chip, r: TextRow): seq<int> {
    [r.sequenceNumber, r.rssi, r.rate, r.noiseFloor, r.channel, r.timestamp, r.sigLen, r.rxState] +
    ChipColumns(chip, r.channel, r.fields) + [r.sigLen, |r.samples|]
  }

  /** The numeric columns of a CSI-tool line between the address and the clock; the ax-generation chips
      print zeros for what they cannot state. */
  function ToolColumns(r: TextRow): seq<int> {
    [r.rssi, r.rate] +
    match r.fields
    case Classic(sgi, secondary, bandwidth, antenna, sigMode, mcs, smoothing, notSounding, aggregation, stbc, fec,
                 ampdu) =>
      [sigMode, mcs, bandwidth, smoothing, notSounding, aggregation, stbc, fec, sgi, r.noiseFloor, ampdu,
       r.channel, secondary, r.timestamp, antenna, r.sigLen, r.rxState]
    case He(_, _, _, _, _, _, _, _, _, _, _, _, _) =>
      [0, 0, 0, 0, 0, 0, 0, 0, 0, r.noiseFloor, 0, r.channel, 0, r.timestamp, 0, r.sigLen, r.rxState]
  }

  /** Columns that are narrow enough for six characters. */
  predicate Narrow(i: int) { -0x8000 <= i < 0x1_0000 }

  /** What the widths of the frame's fields guarantee for a row. */
  predicate RowRanges(r: TextRow) {
    && Narrow(r.rssi) && Narrow(r.noiseFloor) && Narrow(r.rate) && Narrow(r.sigLen) && Narrow(r.rxState)
    && Narrow(r.channel)
    && match r.fields
       case Classic(sgi, secondary, bandwidth, antenna, sigMode, mcs, smoothing, notSounding, aggregation, stbc, fec,
                 ampdu) =>
         Narrow(sgi) && Narrow(secondary) && Narrow(bandwidth) && Narrow(antenna) && Narrow(sigMode) && Narrow(mcs) &&
         Narrow(smoothing) && Narrow(notSounding) && Narrow(aggregation) && Narrow(stbc) && Narrow(fec) && Narrow(ampdu)
       case He(dumpLen, sigbLen, single, bbFormat, valid, estimateLen, second, isGroup, rxend, m3, m2, m1, m0) =>
         Narrow(dumpLen) && Narrow(sigbLen) && Narrow(single) && Narrow(bbFormat) && Narrow(valid) &&
         Narrow(estimateLen) && Narrow(second) && Narrow(isGroup) && Narrow(rxend) && Narrow(m3) && Narrow(m2) &&
         Narrow(m1) && Narrow(m0)
  }

  lemma RowsAreInRange(chip: Chip, f: CsiFrame)
    ensures RowRanges(Row(chip, f))
  {
  }

  // ----- what stands in each column, said of the frame -----

  /** The address: the header's transmitter, else the stimulus's. The samples: the raw buffer's. */
  lemma RowNames(chip: Chip, f: CsiFrame)
    ensures Row(chip, f).mac == match f.header case None => f.stimulus.ta case Some(h) => h.addr2
    ensures Row(chip, f).samples == if f.payload.EspRaw? then f.payload.samples else []
    ensures Row(chip, f).timestamp == f.meta.timestampUs % 0x1_0000_0000
  {
  }

  lemma ClassicFieldsAre(m: RxMeta)
    ensures var v := if m.vendor.EspClassic? then m.vendor else EspClassic(0, 0, false, false, 0);
            ClassicFields(m) ==
            Classic(if m.sgi == Some(true) then 1 else 0,
                    if m.secondary == NoSecondary then 0 else if m.secondary == Above then 1 else 2,
                    if m.bandwidth == Some(Mhz40) then 1 else 0,
                    if m.antenna.Some? then m.antenna.value else 0,
                    v.sigMode,
                    if m.mcs.Some? then m.mcs.value else 0,
                    if v.smoothing then 1 else 0,
                    if m.notSounding == Some(false) then 0 else 1,
                    if m.aggregation == Some(true) then 1 else 0,
                    if m.stbc == Some(true) then 1 else 0,
                    if v.fecLdpc then 1 else 0,
                    v.ampduCnt)
  {
  }

  lemma HeFieldsAre(m: RxMeta)
    ensures var v := if m.vendor.EspHe? then m.vendor
                     else EspHe(0, 0, false, 0, 0, false, 0, 0, 0, 0, 0, false);
            HeFields(m) ==
            He(v.dumpLen, v.sigbLen, if v.singleMpdu then 1 else 0, v.curBbFormat,
               if v.estimateValid then 1 else 0, v.estimateLen,
               if m.secondary == NoSecondary then 0 else if m.secondary == Above then 1 else 2,
               if v.isGroup then 1 else 0, v.rxendState,
               v.rxmatch / 8 % 2, v.rxmatch / 4 % 2, v.rxmatch / 2 % 2, v.rxmatch % 2)
  {
  }

  lemma RateIs(chip: Chip, v: VendorRx)
    ensures Rate(chip, v) == if chip == Esp32C5 || chip == Esp32C6 then (if v.EspHe? then v.rate else 0)
                             else (if v.EspClassic? then v.rate else 0)
  {
  }

  /** The list columns of the classic chips; a frame without their vendor fields has zeros for them. */
  lemma ClassicList(chip: Chip, f: CsiFrame)
    requires chip != Esp32C5 && chip != Esp32C6
    ensures var m := f.meta;
            var v := if m.vendor.EspClassic? then m.vendor else EspClassic(0, 0, false, false, 0);
            ListColumns(chip, Row(chip, f)) ==
            [if m.frameSeq.Some? then m.frameSeq.value else 0, m.rssi, v.rate, m.noiseFloor, m.channel,
             m.timestampUs % 0x1_0000_0000, m.sigLen, m.rxState] +
            [if m.secondary == NoSecondary then 0 else if m.secondary == Above then 1 else 2,
             if m.sgi == Some(true) then 1 else 0,
             if m.antenna.Some? then m.antenna.value else 0,
             v.ampduCnt, v.sigMode,
             if m.mcs.Some? then m.mcs.value else 0,
             if m.bandwidth == Some(Mhz40) then 1 else 0,
             if v.smoothing then 1 else 0,
             if m.notSounding == Some(false) then 0 else 1,
             if m.aggregation == Some(true) then 1 else 0,
             if m.stbc == Some(true) then 1 else 0,
             if v.fecLdpc then 1 else 0] +
            [m.sigLen, if f.payload.EspRaw? then |f.payload.samples| else 0]
  {
    ClassicFieldsAre(f.meta);
    RateIs(chip, f.meta.vendor);
    hide ClassicFields;
    hide HeFields;
    hide Rate;
    hide Transmitter;
  }

  /** Those of the ax-generation chips: the C6 prints three columns the C5 does not. */
  lemma HeList(chip: Chip, f: CsiFrame)
    requires chip == Esp32C5 || chip == Esp32C6
    ensures var m, six := f.meta, chip == Esp32C6;
            var v := if m.vendor.EspHe? then m.vendor
                     else EspHe(0, 0, false, 0, 0, false, 0, 0, 0, 0, 0, false);
            ListColumns(chip, Row(chip, f)) ==
            [if m.frameSeq.Some? then m.frameSeq.value else 0, m.rssi, v.rate, m.noiseFloor, m.channel,
             m.timestampUs % 0x1_0000_0000, m.sigLen, m.rxState] +
            ([v.dumpLen] + (if six then [v.sigbLen, if v.singleMpdu then 1 else 0] else []) +
             [v.curBbFormat, if v.estimateValid then 1 else 0, v.estimateLen,
              if m.secondary == NoSecondary then 0 else if m.secondary == Above then 1 else 2,
              m.channel, if v.isGroup then 1 else 0, v.rxendState,
              v.rxmatch / 8 % 2, v.rxmatch / 4 % 2, v.rxmatch / 2 % 2] +
             (if six then [v.rxmatch % 2] else [])) +
            [m.sigLen, if f.payload.EspRaw? then |f.payload.samples| else 0]
  {
    HeFieldsAre(f.meta);
    RateIs(chip, f.meta.vendor);
    hide ClassicFields;
    hide HeFields;
    hide Rate;
    hide Transmitter;
  }

  /** The nineteen numeric columns of a CSI-tool line. */
  lemma ToolList(chip: Chip, f: CsiFrame)
    ensures var m, he := f.meta, chip == Esp32C5 || chip == Esp32C6;
            var v := if m.vendor.EspClassic? then m.vendor else EspClassic(0, 0, false, false, 0);
            ToolColumns(Row(chip, f)) ==
            [m.rssi, if !he then v.rate else if m.vendor.EspHe? then m.vendor.rate else 0] +
            if he then
              [0, 0, 0, 0, 0, 0, 0, 0, 0, m.noiseFloor, 0, m.channel, 0, m.timestampUs % 0x1_0000_0000, 0,
               m.sigLen, m.rxState]
            else
              [v.sigMode,
               if m.mcs.Some? then m.mcs.value else 0,
               if m.bandwidth == Some(Mhz40) then 1 else 0,
               if v.smoothing then 1 else 0,
               if m.notSounding == Some(false) then 0 else 1,
               if m.aggregation == Some(true) then 1 else 0,
               if m.stbc == Some(true) then 1 else 0,
               if v.fecLdpc then 1 else 0,
               if m.sgi == Some(true) then 1 else 0,
               m.noiseFloor, v.ampduCnt, m.channel,
               if m.secondary == NoSecondary then 0 else if m.secondary == Above then 1 else 2,
               m.timestampUs % 0x1_0000_0000,
               if m.antenna.Some? then m.antenna.value else 0,
               m.sigLen, m.rxState]
  {
    ClassicFieldsAre(f.meta);
    RateIs(chip, f.meta.vendor);
    hide ClassicFields;
    hide Rate;
    hide Transmitter;
    hide RowSamples;
  }
}
