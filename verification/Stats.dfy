/** Per-transmitter receive statistics: a 16-entry table with least-recently-heard eviction, and
    modular sequence-gap counting. */
module Stats {
  import opened Bytes

  const MAX_TRACKED_TX: nat := 16
  const U32_RANGE: nat := 0x1_0000_0000

  datatype TxStats = TxStats(mac: Mac, frames: u32, seqGaps: u32, retries: u32, lastSeq: u16,
                             lastUsed: u32, resync: bool)

  /** What is recorded of one captured frame. */
  datatype Heard = Heard(mac: Mac, seqNo: Option<u16>, retry: Option<bool>)

  // ----- one entry -----

  /** `seq.wrapping_sub(last) & 0x0FFF`. */
  function SeqDiff(a: u16, last: u16): nat { (a - last + 0x1_0000) % 0x1_0000 % 0x1000 }

  /** Frames a sequence step skips; 500 or more is a restart. */
  function GapOf(diff: nat): u32 { if 1 < diff < 500 then diff - 1 else 0 }

  function WrapAdd(a: u32, n: u32): u32 {
    if a + n < U32_RANGE then a + n else a + n - U32_RANGE
  }

  function Fresh(f: Heard): TxStats {
    TxStats(f.mac, 0, 0, 0, (match f.seqNo case None => 0 case Some(s) => s), 0, false)
  }

  /** Fold a frame into its transmitter's entry; also the gap it reveals. */
  function Touch(e: TxStats, now: u32, f: Heard): (TxStats, u32) {
    var first := e.frames == 0 || e.resync;
    // `take` clears the flag only when it is evaluated.
    var heard := e.(frames := WrapAdd(e.frames, 1), lastUsed := now,
                    resync := if e.frames == 0 then e.resync else false);
    if f.retry == Some(true) then (heard.(retries := WrapAdd(e.retries, 1)), 0)
    else
      match f.seqNo
      case None => (heard, 0)
      case Some(s) =>
        var gap := if first then 0 else GapOf(SeqDiff(s, e.lastSeq));
        (heard.(seqGaps := WrapAdd(e.seqGaps, gap), lastSeq := s), gap)
  }

  // ----- the table -----

  type Table = t: seq<TxStats> | |t| <= MAX_TRACKED_TX

  function Marked(t: Table, resync: bool): Table {
    if resync then seq(|t|, i requires 0 <= i < |t| => t[i].(resync := true)) else t
  }

  /** First entry of a transmitter, or the table's length. */
  function Find(t: seq<TxStats>, mac: Mac): (i: nat)
    ensures i <= |t| && forall j | 0 <= j < i :: t[j].mac != mac
    ensures i < |t| ==> t[i].mac == mac
  {
    if t == [] || t[0].mac == mac then 0 else 1 + Find(t[1..], mac)
  }

  /** `i` is the first entry with the smallest `lastUsed`. */
  predicate IsLru(t: seq<TxStats>, i: nat) {
    && i < |t|
    && (forall j | 0 <= j < |t| :: t[i].lastUsed <= t[j].lastUsed)
    && forall j | 0 <= j < i :: t[i].lastUsed < t[j].lastUsed
  }

  function Lru(t: seq<TxStats>): (i: nat)
    requires t != []
    ensures IsLru(t, i)
  {
    if |t| == 1 then 0
    else
      var j := Lru(t[..|t| - 1]);
      if t[|t| - 1].lastUsed < t[j].lastUsed then |t| - 1 else j
  }

  /** The table with an entry for the frame's transmitter, and where that entry is. */
  function Seated(t: Table, f: Heard): (r: (Table, nat))
    ensures r.1 < |r.0| && r.0[r.1].mac == f.mac
  {
    var i := Find(t, f.mac);
    if i < |t| then (t, i)
    else if |t| < MAX_TRACKED_TX then (t + [Fresh(f)], |t|)
    else (t[Lru(t) := Fresh(f)], Lru(t))
  }

  function Recorded(t: Table, now: u32, resync: bool, f: Heard): (Table, u32) {
    var (t', i) := Seated(Marked(t, resync), f);
    var (e, gap) := Touch(t'[i], now, f);
    (t'[i := e], gap)
  }

  datatype Cause = Oversize | QueueFull | SeqGap

  class Statistics {
    var perTx: Table
    var perTxClock: u32
    var resetSeqTracker: bool
    var rxOversize: u32
    var rxQueueFull: u32
    var rxSeqGap: u32
    var rxDropCount: u32
    var rxCount: nat
    var rxFiltered: u32
    var rxPolicySuppressed: u32

    constructor ()
      ensures perTx == [] && perTxClock == 0 && !resetSeqTracker && DropsAgree()
      ensures rxOversize == rxQueueFull == rxSeqGap == rxDropCount == 0
      ensures rxCount == rxFiltered == rxPolicySuppressed == 0
    {
      perTx, perTxClock, resetSeqTracker := [], 0, false;
      rxOversize, rxQueueFull, rxSeqGap, rxDropCount := 0, 0, 0, 0;
      rxCount, rxFiltered, rxPolicySuppressed := 0, 0, 0;
    }

    /** The drop count is the sum of its three causes, as 32-bit counters add up. */
    ghost predicate DropsAgree()
      reads this
    {
      rxOversize + rxQueueFull + rxSeqGap - rxDropCount in {0, U32_RANGE, 2 * U32_RANGE}
    }

    /** Clears the table and the counters, but not the clock. */
    method Reset()
      modifies this
      ensures perTx == [] && DropsAgree() && rxOversize == rxQueueFull == rxSeqGap == rxDropCount == 0
      ensures rxCount == rxFiltered == rxPolicySuppressed == 0
      ensures perTxClock == old(perTxClock) && resetSeqTracker == old(resetSeqTracker)
    {
      perTx := [];
      rxOversize, rxQueueFull, rxSeqGap, rxDropCount := 0, 0, 0, 0;
      rxCount, rxFiltered, rxPolicySuppressed := 0, 0, 0;
    }

    /** Count a loss of `n` frames under one cause. */
    method RecordLoss(cause: Cause, n: u32)
      modifies this`rxOversize, this`rxQueueFull, this`rxSeqGap, this`rxDropCount
      ensures rxOversize == WrapAdd(old(rxOversize), if cause.Oversize? then n else 0)
      ensures rxQueueFull == WrapAdd(old(rxQueueFull), if cause.QueueFull? then n else 0)
      ensures rxSeqGap == WrapAdd(old(rxSeqGap), if cause.SeqGap? then n else 0)
      ensures rxDropCount == WrapAdd(old(rxDropCount), n)
      ensures old(DropsAgree()) ==> DropsAgree()
    {
      match cause {
        case Oversize => rxOversize := WrapAdd(rxOversize, n);
        case QueueFull => rxQueueFull := WrapAdd(rxQueueFull, n);
        case SeqGap => rxSeqGap := WrapAdd(rxSeqGap, n);
      }
      rxDropCount := WrapAdd(rxDropCount, n);
    }

    method Position(mac: Mac) returns (i: nat)
      ensures i == Find(perTx, mac)
    {
      i := 0;
      while i < |perTx| && perTx[i].mac != mac
        invariant i <= |perTx| && Find(perTx, mac) == i + Find(perTx[i..], mac)
      {
        i := i + 1;
      }
    }

    method MinByLastUsed() returns (lru: nat)
      requires perTx != []
      ensures lru == Lru(perTx)
    {
      lru := 0;
      var i := 1;
      while i < |perTx|
        invariant 1 <= i <= |perTx| && lru == Lru(perTx[..i])
      {
        assert perTx[..i + 1][..i] == perTx[..i];
        if perTx[i].lastUsed < perTx[lru].lastUsed { lru := i; }
        i := i + 1;
      }
      assert perTx[..i] == perTx;
    }

    method MarkAll()
      modifies this`perTx
      ensures perTx == Marked(old(perTx), true)
    {
      var k := 0;
      while k < |perTx|
        invariant k <= |perTx| == |old(perTx)|
        invariant forall j | 0 <= j < |perTx| ::
          perTx[j] == if j < k then old(perTx)[j].(resync := true) else old(perTx)[j]
      {
        perTx := perTx[k := perTx[k].(resync := true)];
        k := k + 1;
      }
    }

    /** Make sure the frame's transmitter has an entry, evicting if need be. */
    method Seat(f: Heard) returns (idx: nat)
      modifies this`perTx
      ensures (perTx, idx) == Seated(old(perTx), f)
    {
      idx := Position(f.mac);
      if idx == |perTx| {
        if |perTx| < MAX_TRACKED_TX {
          perTx := perTx + [Fresh(f)];
        } else {
          idx := MinByLastUsed();
          perTx := perTx[idx := Fresh(f)];
        }
      }
    }

    method RecordTxFrame(f: Heard)
      modifies this`perTx, this`perTxClock, this`resetSeqTracker,
               this`rxOversize, this`rxQueueFull, this`rxSeqGap, this`rxDropCount
      ensures var (t, gap) := Recorded(old(perTx), old(perTxClock), old(resetSeqTracker), f);
              perTx == t && rxSeqGap == WrapAdd(old(rxSeqGap), gap)
      ensures perTxClock == WrapAdd(old(perTxClock), 1) && !resetSeqTracker
      ensures rxOversize == old(rxOversize) && rxQueueFull == old(rxQueueFull)
      ensures old(DropsAgree()) ==> DropsAgree()
    {
      hide Touch;
      hide Seated;
      var now, resyncAll := perTxClock, resetSeqTracker;
      perTxClock, resetSeqTracker := WrapAdd(perTxClock, 1), false;
      if resyncAll { MarkAll(); }
      var idx := Seat(f);
      var (e, gap) := Touch(perTx[idx], now, f);
      perTx := perTx[idx := e];
      if gap > 0 { RecordLoss(SeqGap, gap); }
    }
  }
}
