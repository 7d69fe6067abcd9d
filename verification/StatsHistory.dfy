/** The statistics table against the history of what was heard: which transmitters it holds, what
    each entry says, and what the gap count means. */
module StatsHistory {
  import opened Arith
  import opened Bytes
  import opened Stats

  /** What happens to the table: a captured frame, or CSI output being toggled. */
  datatype Event = Captured(frame: Heard) | OutputToggled

  datatype State = State(table: Table, clock: u32, pending: bool)

  function Next(s: State, ev: Event): State {
    match ev
    case OutputToggled => s.(pending := true)
    case Captured(f) => State(Recorded(s.table, s.clock, s.pending, f).0, WrapAdd(s.clock, 1), false)
  }

  /** The state after a run of events, the clock having stood at `c0`. */
  function Run(evs: seq<Event>, c0: u32): State {
    if evs == [] then State([], c0, false)
    else Next(Run(evs[..|evs| - 1], c0), evs[|evs| - 1])
  }

  /** The transmitters heard, in order. */
  function Macs(evs: seq<Event>): (h: seq<Mac>)
    ensures |h| <= |evs|
  {
    if evs == [] then []
    else
      Macs(evs[..|evs| - 1]) +
      match evs[|evs| - 1] case OutputToggled => [] case Captured(f) => [f.mac]
  }

  // ----- recency -----

  /** Index of the last time `m` was heard, or -1. */
  function LastHeard(h: seq<Mac>, m: Mac): (i: int)
    ensures -1 <= i < |h| && (i >= 0 ==> h[i] == m)
    ensures forall j | i < j < |h| :: h[j] != m
  {
    if h == [] then -1
    else if h[|h| - 1] == m then |h| - 1
    else LastHeard(h[..|h| - 1], m)
  }

  /** The transmitters heard since `m` last was. */
  function Later(h: seq<Mac>, m: Mac): set<Mac> {
    set j | LastHeard(h, m) < j < |h| :: h[j]
  }

  /** `m` is one of the 16 most recently heard distinct transmitters. */
  predicate Resident(h: seq<Mac>, m: Mac) {
    LastHeard(h, m) >= 0 && |Later(h, m)| < MAX_TRACKED_TX
  }

  lemma LaterGrows(h: seq<Mac>, m: Mac, x: Mac)
    ensures LastHeard(h + [m], x) == if x == m then |h| else LastHeard(h, x)
    ensures x == m ==> Later(h + [m], x) == {}
    ensures x != m ==> Later(h + [m], x) == Later(h, x) + {m}
  {
  }

  /** Whoever was heard after `x` was heard last after `x`, and has fewer later ones. */
  lemma LaterNests(h: seq<Mac>, x: Mac, y: Mac)
    requires y in Later(h, x)
    ensures LastHeard(h, y) > LastHeard(h, x) && y != x
    ensures Later(h, y) <= Later(h, x) - {y}
  {
  }

  /** Residents are closed under being heard later. */
  lemma LaterAreResident(h: seq<Mac>, x: Mac, y: Mac)
    requires Resident(h, x) && y in Later(h, x)
    ensures Resident(h, y)
  {
    LaterNests(h, x, y);
    CardLe(Later(h, y), Later(h, x));
  }

  /** Two different transmitters, both heard: one was heard later. */
  lemma LaterTotal(h: seq<Mac>, x: Mac, y: Mac)
    requires x != y && LastHeard(h, x) < LastHeard(h, y)
    ensures y in Later(h, x)
  {
  }

  // ----- entries -----

  /** What the table should say of `m`: its entry, folded from its own frames since it was last not
      resident; an output toggle asks for a resync at once. */
  function EntryOf(evs: seq<Event>, c0: u32, m: Mac): TxStats {
    if evs == [] then Fresh(Heard(m, None, None))
    else
      var before := evs[..|evs| - 1];
      match evs[|evs| - 1]
      case OutputToggled => EntryOf(before, c0, m).(resync := true)
      case Captured(f) =>
        if f.mac != m then EntryOf(before, c0, m)
        else
          var e := if Resident(Macs(before), m) then EntryOf(before, c0, m) else Fresh(f);
          Touch(e, Run(before, c0).clock, f).0
  }

  ghost predicate Distinct(t: seq<TxStats>) {
    forall i, j | 0 <= i < j < |t| :: t[i].mac != t[j].mac
  }

  function MacSet(t: seq<TxStats>): set<Mac> { set i | 0 <= i < |t| :: t[i].mac }

  /** The table holds exactly the residents, once each, ordered by when they were heard. */
  ghost predicate Holds(t: seq<TxStats>, h: seq<Mac>, c0: u32) {
    && Distinct(t)
    && (forall m :: m in MacSet(t) <==> Resident(h, m))
    && forall i | 0 <= i < |t| :: t[i].lastUsed == c0 + LastHeard(h, t[i].mac)
  }

  lemma MacSetSnoc(t: seq<TxStats>, e: TxStats)
    ensures MacSet(t + [e]) == MacSet(t) + {e.mac}
  {
    var u := t + [e];
    forall m | m in MacSet(u) ensures m in MacSet(t) + {e.mac} {
      var i :| 0 <= i < |u| && u[i].mac == m;
      if i < |t| { assert t[i].mac == m; }
    }
    forall m | m in MacSet(t) ensures m in MacSet(u) {
      var i :| 0 <= i < |t| && t[i].mac == m;
      assert u[i].mac == m;
    }
    assert u[|t|].mac == e.mac;
  }

  lemma {:induction false} MacSetSize(t: seq<TxStats>)
    requires Distinct(t)
    ensures |MacSet(t)| == |t|
  {
    if t != [] {
      var n := |t| - 1;
      assert t == t[..n] + [t[n]];
      MacSetSnoc(t[..n], t[n]);
      MacSetSize(t[..n]);
      assert t[n].mac !in MacSet(t[..n]);
    }
  }

  lemma MarkedHolds(t: Table, on: bool, h: seq<Mac>, c0: u32)
    requires Holds(t, h, c0)
    ensures Holds(Marked(t, on), h, c0)
  {
  }

  /** A frame from a resident changes who is resident for nobody. */
  lemma ResidentAgain(h: seq<Mac>, m: Mac, x: Mac)
    requires Resident(h, m)
    ensures Resident(h + [m], x) <==> Resident(h, x)
  {
    LaterGrows(h, m, x);
    if x != m && LastHeard(h, x) >= 0 {
      if m in Later(h, x) {
        assert Later(h, x) + {m} == Later(h, x);
      } else {
        assert LastHeard(h, x) != LastHeard(h, m);
        if LastHeard(h, x) < LastHeard(h, m) { LaterTotal(h, x, m); }
        LaterTotal(h, m, x);
        LaterNests(h, m, x);
        CardLe(Later(h, x), Later(h, m) - {x});
        assert Resident(h, x);
      }
    }
  }

  /** A frame from a stranger pushes out exactly the resident with 15 later ones, if there is one. */
  lemma ResidentPushed(h: seq<Mac>, m: Mac, x: Mac)
    requires !Resident(h, m)
    ensures Resident(h + [m], x) <==>
            x == m || (Resident(h, x) && |Later(h, x)| < MAX_TRACKED_TX - 1)
  {
    LaterGrows(h, m, x);
    if x != m && LastHeard(h, x) >= 0 {
      if m in Later(h, x) {
        LaterNests(h, x, m);
        CardLe(Later(h, m), Later(h, x));
        assert LastHeard(h, m) >= 0;
        assert Later(h, x) + {m} == Later(h, x);
      } else {
        assert |Later(h, x) + {m}| == |Later(h, x)| + 1;
      }
    }
  }

  /** In a table of residents, those heard after the `i`-th entry are the entries used later. */
  lemma LaterInTable(t: seq<TxStats>, h: seq<Mac>, c0: u32, i: nat)
    requires Holds(t, h, c0) && i < |t|
    ensures Later(h, t[i].mac) <= MacSet(t) - {t[i].mac}
    ensures forall j | 0 <= j < |t| ::
              t[j].mac in Later(h, t[i].mac) <==> t[i].lastUsed < t[j].lastUsed
  {
    var x := t[i].mac;
    assert x in MacSet(t);
    forall y | y in Later(h, x) ensures y in MacSet(t) && y != x {
      LaterNests(h, x, y);
      LaterAreResident(h, x, y);
    }
    forall j | 0 <= j < |t|
      ensures t[j].mac in Later(h, x) <==> t[i].lastUsed < t[j].lastUsed
    {
      var y := t[j].mac;
      if y in Later(h, x) { LaterNests(h, x, y); }
      if LastHeard(h, x) < LastHeard(h, y) { LaterTotal(h, x, y); }
    }
  }

  lemma LruIsOldest(t: Table, h: seq<Mac>, c0: u32, y: Mac)
    requires Holds(t, h, c0) && t != [] && y in MacSet(t) && y != t[Lru(t)].mac
    ensures y in Later(h, t[Lru(t)].mac)
    ensures t[Lru(t)].mac !in Later(h, y)
  {
  }

  /** Who is pushed out of a table by a stranger: nobody while it has room, else its LRU entry. */
  lemma EvictionIsRight(t: Table, h: seq<Mac>, c0: u32, i: nat)
    requires Holds(t, h, c0) && i < |t|
    ensures |Later(h, t[i].mac)| == MAX_TRACKED_TX - 1 <==> |t| == MAX_TRACKED_TX && i == Lru(t)
  {
    hide Later;
    hide Holds;
    hide Distinct;
    var x, l := t[i].mac, t[Lru(t)].mac;
    var others := MacSet(t) - {x};
    DistinctOf(t, h, c0);
    MacSetSize(t);
    assert x in MacSet(t) && l in MacSet(t);
    LaterInTable(t, h, c0, i);
    if i == Lru(t) {
      forall y | y in others ensures y in Later(h, x) { LruIsOldest(t, h, c0, y); }
      assert Later(h, x) == others;
    } else {
      assert x != l;
      LruIsOldest(t, h, c0, x);
      CardLe(Later(h, x), others - {l});
    }
  }

  lemma FindIsResident(t: Table, h: seq<Mac>, c0: u32, m: Mac)
    requires Holds(t, h, c0)
    ensures Resident(h, m) <==> Find(t, m) < |t|
  {
  }

  lemma SeatedHolds(t: Table, h: seq<Mac>, c0: u32, f: Heard, now: u32)
    requires Holds(t, h, c0) && now == c0 + |h|
    ensures var (t', i) := Seated(t, f);
            && Holds(t'[i := Touch(t'[i], now, f).0], h + [f.mac], c0)
            && (if Resident(h, f.mac) then t' == t else t'[i] == Fresh(f))
            && forall j | 0 <= j < |t'| && j != i :: j < |t| && t'[j] == t[j]
  {
    hide Touch;
    hide Resident;
    var m := f.mac;
    var (t', i) := Seated(t, f);
    var e := Touch(t'[i], now, f).0;
    var u := t'[i := e];
    TouchStamps(t'[i], now, f);
    FindIsResident(t, h, c0, m);
    assert forall j | 0 <= j < |t'| && j != i :: j < |t| && t'[j] == t[j];
    SeatedDistinct(t, u, i, m);
    SeatedOrder(t, h, c0, u, i, m);
    SeatedMembers(t, h, c0, u, i, m);
  }

  lemma SeatedMembers(t: Table, h: seq<Mac>, c0: u32, u: seq<TxStats>, i: nat, m: Mac)
    requires Holds(t, h, c0) && i < |u| && u[i].mac == m
    requires forall j | 0 <= j < |u| && j != i :: j < |t| && u[j] == t[j]
    requires Resident(h, m) ==> |u| == |t| && t[i].mac == m
    requires !Resident(h, m) && |t| < MAX_TRACKED_TX ==> i == |t| && |u| == |t| + 1
    requires !Resident(h, m) && |t| == MAX_TRACKED_TX ==> i == Lru(t) && |u| == |t|
    ensures forall x :: x in MacSet(u) <==> Resident(h + [m], x)
  {
    if Resident(h, m) {
      assert MacSet(u) == MacSet(t) by { assert forall j | 0 <= j < |u| :: u[j].mac == t[j].mac; }
      forall x ensures x in MacSet(u) <==> Resident(h + [m], x) { ResidentAgain(h, m, x); }
    } else {
      forall x ensures x in MacSet(u) <==> Resident(h + [m], x) {
        ResidentPushed(h, m, x);
        SeatedMacs(t, h, c0, u, i, m, x);
      }
    }
  }

  lemma SeatedDistinct(t: Table, u: seq<TxStats>, i: nat, m: Mac)
    requires Distinct(t) && i < |u| && u[i].mac == m
    requires forall j | 0 <= j < |u| && j != i :: j < |t| && u[j] == t[j]
    requires Find(t, m) == |t| || i == Find(t, m)
    ensures Distinct(u)
  {
  }

  lemma SeatedOrder(t: Table, h: seq<Mac>, c0: u32, u: seq<TxStats>, i: nat, m: Mac)
    requires Holds(t, h, c0) && Distinct(u)
    requires i < |u| && u[i].mac == m && u[i].lastUsed == c0 + |h|
    requires forall j | 0 <= j < |u| && j != i :: j < |t| && u[j] == t[j]
    ensures forall j | 0 <= j < |u| :: u[j].lastUsed == c0 + LastHeard(h + [m], u[j].mac)
  {
  }

  lemma SeatedMacs(t: Table, h: seq<Mac>, c0: u32, u: seq<TxStats>, i: nat, m: Mac, x: Mac)
    requires Holds(t, h, c0) && !Resident(h, m)
    requires i < |u| && u[i].mac == m
    requires |t| < MAX_TRACKED_TX ==> i == |t| && |u| == |t| + 1
    requires |t| == MAX_TRACKED_TX ==> i == Lru(t) && |u| == |t|
    requires forall j | 0 <= j < |t| && j != i :: u[j].mac == t[j].mac
    ensures x in MacSet(u) <==> x == m || (Resident(h, x) && |Later(h, x)| < MAX_TRACKED_TX - 1)
  {
    if x == m {
      assert u[i].mac == x;
    } else {
      if x in MacSet(u) {
        var j :| 0 <= j < |u| && u[j].mac == x;
        assert t[j].mac == x;
        assert x in MacSet(t);
        EvictionIsRight(t, h, c0, j);
      }
      if Resident(h, x) {
        assert x in MacSet(t);
        var j :| 0 <= j < |t| && t[j].mac == x;
        EvictionIsRight(t, h, c0, j);
        if j != i { assert u[j].mac == x; }
      }
    }
  }

  // ----- the refinement -----

  lemma {:induction false} ClockCounts(evs: seq<Event>, c0: u32)
    requires c0 + |evs| < U32_RANGE
    ensures Run(evs, c0).clock == c0 + |Macs(evs)|
  {
    if evs != [] { ClockCounts(evs[..|evs| - 1], c0); }
  }

  /** The entry at `i`, with the resync an output toggle has asked for, is what history says. */
  ghost predicate EntrySays(t: seq<TxStats>, pending: bool, evs: seq<Event>, c0: u32, i: nat)
    requires i < |t|
  {
    t[i].(resync := t[i].resync || pending) == EntryOf(evs, c0, t[i].mac)
  }

  /** After any run of events, short of a wrap of the 32-bit clock, the table holds exactly the 16
      most recently heard distinct transmitters (all of them, if fewer), once each, and every entry
      says what that transmitter's own frames since it was seated add up to. */
  lemma {:induction false} TableIsHistory(evs: seq<Event>, c0: u32)
    requires c0 + |evs| < U32_RANGE
    ensures var s := Run(evs, c0);
            && Holds(s.table, Macs(evs), c0)
            && forall i | 0 <= i < |s.table| :: EntrySays(s.table, s.pending, evs, c0, i)
  {
    if evs != [] {
      var before, ev := evs[..|evs| - 1], evs[|evs| - 1];
      TableIsHistory(before, c0);
      ClockCounts(before, c0);
      assert evs == before + [ev];
      match ev
      case OutputToggled => ToggledHolds(before, c0);
      case Captured(f) =>
        hide Holds;
        hide EntryOf;
        hide Recorded;
        var t := Run(evs, c0).table;
        var s := Run(before, c0);
        assert t == Recorded(s.table, s.clock, s.pending, f).0;
        assert Macs(evs) == Macs(before) + [f.mac];
        RecordedHolds(before, c0, f);
        forall i | 0 <= i < |t| ensures EntrySays(t, false, evs, c0, i) {
          RecordedEntry(before, c0, f, i);
        }
    }
  }

  lemma LastHeardIs(h: seq<Mac>, m: Mac, k: nat)
    requires k < |h| && h[k] == m && m !in h[k + 1..]
    ensures LastHeard(h, m) == k
  {
    forall j | k < j < |h| ensures h[j] != m { assert h[j] == h[k + 1..][j - k - 1]; }
  }

  lemma ResidentIff(h: seq<Mac>, m: Mac)
    ensures Resident(h, m) <==>
            exists k | 0 <= k < |h| :: h[k] == m && m !in h[k + 1..] && |set j | k < j < |h| :: h[j]| < 16
  {
    if Resident(h, m) {
      var k := LastHeard(h, m);
      assert h[k] == m && m !in h[k + 1..];
      assert Later(h, m) == set j | k < j < |h| :: h[j];
    }
    if k :| 0 <= k < |h| && h[k] == m && m !in h[k + 1..] && |set j | k < j < |h| :: h[j]| < 16 {
      LastHeardIs(h, m, k);
      assert Later(h, m) == set j | k < j < |h| :: h[j];
    }
  }

  /** Whom the table holds: a transmitter that was heard, and after whose last frame fewer than 16 different
      ones were heard. */
  lemma TableHolds(evs: seq<Event>, c0: u32, m: Mac)
    requires c0 + |evs| < U32_RANGE
    ensures var h := Macs(evs);
            (exists i | 0 <= i < |Run(evs, c0).table| :: Run(evs, c0).table[i].mac == m) <==>
            exists k | 0 <= k < |h| :: h[k] == m && m !in h[k + 1..] && |set j | k < j < |h| :: h[j]| < 16
  {
    hide Run;
    hide Macs;
    hide Resident;
    hide EntrySays;
    TableIsHistory(evs, c0);
    ResidentIff(Macs(evs), m);
    HoldsMembers(Run(evs, c0).table, Macs(evs), c0, m);
  }

  lemma HoldsMembers(t: seq<TxStats>, h: seq<Mac>, c0: u32, m: Mac)
    requires Holds(t, h, c0)
    ensures (exists i | 0 <= i < |t| :: t[i].mac == m) <==> Resident(h, m)
  {
    hide Resident;
    assert m in MacSet(t) <==> Resident(h, m);
  }

  lemma ToggledHolds(evs: seq<Event>, c0: u32)
    requires var s := Run(evs, c0);
             && Holds(s.table, Macs(evs), c0)
             && forall i | 0 <= i < |s.table| :: EntrySays(s.table, s.pending, evs, c0, i)
    ensures var evs' := evs + [OutputToggled];
            var s := Run(evs', c0);
            && Holds(s.table, Macs(evs'), c0)
            && forall i | 0 <= i < |s.table| :: EntrySays(s.table, s.pending, evs', c0, i)
  {
    hide Holds;
    var s, evs' := Run(evs, c0), evs + [OutputToggled];
    assert evs'[..|evs|] == evs;
    assert Macs(evs') == Macs(evs);
    forall i | 0 <= i < |s.table| ensures EntrySays(s.table, true, evs', c0, i) {
      assert EntrySays(s.table, s.pending, evs, c0, i);
    }
  }

  lemma RecordedHolds(evs: seq<Event>, c0: u32, f: Heard)
    requires Holds(Run(evs, c0).table, Macs(evs), c0) && Run(evs, c0).clock == c0 + |Macs(evs)|
    ensures var s := Run(evs, c0);
            Holds(Recorded(s.table, s.clock, s.pending, f).0, Macs(evs) + [f.mac], c0)
  {
    var s := Run(evs, c0);
    MarkedHolds(s.table, s.pending, Macs(evs), c0);
    SeatedHolds(Marked(s.table, s.pending), Macs(evs), c0, f, s.clock);
  }

  lemma EntryStep(evs: seq<Event>, c0: u32, f: Heard, m: Mac)
    ensures EntryOf(evs + [Captured(f)], c0, m) ==
            if f.mac != m then EntryOf(evs, c0, m)
            else Touch(if Resident(Macs(evs), m) then EntryOf(evs, c0, m) else Fresh(f),
                       Run(evs, c0).clock, f).0
  {
  }

  lemma MarkedEntry(evs: seq<Event>, c0: u32, i: nat)
    requires i < |Run(evs, c0).table|
    requires EntrySays(Run(evs, c0).table, Run(evs, c0).pending, evs, c0, i)
    ensures var s := Run(evs, c0);
            var e := Marked(s.table, s.pending)[i];
            e == EntryOf(evs, c0, e.mac) && e.mac == s.table[i].mac
  {
  }

  lemma RecordedEntry(evs: seq<Event>, c0: u32, f: Heard, j: nat)
    requires Holds(Run(evs, c0).table, Macs(evs), c0) && Run(evs, c0).clock == c0 + |Macs(evs)|
    requires var s := Run(evs, c0);
             && (forall i | 0 <= i < |s.table| :: EntrySays(s.table, s.pending, evs, c0, i))
             && j < |Recorded(s.table, s.clock, s.pending, f).0|
    ensures var s := Run(evs, c0);
            EntrySays(Recorded(s.table, s.clock, s.pending, f).0, false, evs + [Captured(f)], c0, j)
  {
    hide Seated;
    hide Touch;
    hide Holds;
    hide EntryOf;
    hide Fresh;
    var s := Run(evs, c0);
    var t := Marked(s.table, s.pending);
    var (t', i) := Seated(t, f);
    MarkedHolds(s.table, s.pending, Macs(evs), c0);
    SeatedHolds(t, Macs(evs), c0, f, s.clock);
    var u := t'[i := Touch(t'[i], s.clock, f).0];
    RecordedHolds(evs, c0, f);
    DistinctOf(u, Macs(evs) + [f.mac], c0);
    TouchStamps(t'[i], s.clock, f);
    EntryStep(evs, c0, f, u[j].mac);
    assert Recorded(s.table, s.clock, s.pending, f).0 == u;
    if j != i {
      assert u[j] == t[j];
      MarkedEntry(evs, c0, j);
      assert u[j].mac != u[i].mac;
      assert u[j] == EntryOf(evs + [Captured(f)], c0, u[j].mac);
    } else if Resident(Macs(evs), f.mac) {
      MarkedEntry(evs, c0, i);
      assert u[j] == EntryOf(evs + [Captured(f)], c0, u[j].mac);
    } else {
      assert u[j] == EntryOf(evs + [Captured(f)], c0, u[j].mac);
    }
  }

  lemma DistinctOf(t: seq<TxStats>, h: seq<Mac>, c0: u32)
    requires Holds(t, h, c0)
    ensures Distinct(t)
  {
  }

  lemma TouchStamps(e: TxStats, now: u32, f: Heard)
    ensures Touch(e, now, f).0.mac == e.mac && Touch(e, now, f).0.lastUsed == now
  {
  }

  // ----- what an entry counts -----

  /** Frames heard from `m` since it was last seated. */
  function FramesSince(h: seq<Mac>, m: Mac): (n: nat)
    ensures n <= |h|
  {
    if h == [] then 0
    else
      var before := h[..|h| - 1];
      if h[|h| - 1] != m then FramesSince(before, m)
      else if Resident(before, m) then FramesSince(before, m) + 1 else 1
  }

  lemma FramesSnoc(h: seq<Mac>, k: Mac, m: Mac)
    ensures FramesSince(h + [k], m) ==
            if k != m then FramesSince(h, m)
            else if Resident(h, m) then FramesSince(h, m) + 1 else 1
  {
  }

  lemma TouchCounts(e: TxStats, now: u32, f: Heard)
    requires e.frames < U32_RANGE - 1
    ensures Touch(e, now, f).0.frames == e.frames + 1
  {
  }

  lemma {:induction false} FramesAreCounted(evs: seq<Event>, c0: u32, m: Mac)
    requires |evs| < U32_RANGE
    ensures EntryOf(evs, c0, m).frames == FramesSince(Macs(evs), m)
    decreases |evs|
  {
    hide Touch;
    hide Resident;
    if evs != [] {
      var before, ev := evs[..|evs| - 1], evs[|evs| - 1];
      FramesAreCounted(before, c0, m);
      match ev
      case OutputToggled => assert Macs(evs) == Macs(before);
      case Captured(f) =>
        assert evs == before + [ev];
        FramesStep(before, c0, f, m);
        assert Macs(evs) == Macs(before) + [f.mac];
    }
  }

  lemma FramesStep(before: seq<Event>, c0: u32, f: Heard, m: Mac)
    requires |before| < U32_RANGE - 1 && EntryOf(before, c0, m).frames == FramesSince(Macs(before), m)
    ensures EntryOf(before + [Captured(f)], c0, m).frames == FramesSince(Macs(before) + [f.mac], m)
  {
    hide *;
    EntryStep(before, c0, f, m);
    FramesSnoc(Macs(before), f.mac, m);
    TouchCounts(EntryOf(before, c0, m), Run(before, c0).clock, f);
    FreshCounts(Run(before, c0).clock, f);
  }

  lemma FreshCounts(now: u32, f: Heard)
    ensures Touch(Fresh(f), now, f).0.frames == 1
  {
  }

  // ----- conservation of loss -----

  /** The true number of the last frame of `m` that was no retry; `num[i]` is event `i`'s. */
  function LastTrue(evs: seq<Event>, num: seq<nat>, m: Mac): Option<nat>
    requires |num| == |evs|
  {
    if evs == [] then None
    else
      var n := |evs| - 1;
      match evs[n]
      case Captured(f) =>
        if f.mac == m && f.retry != Some(true) then Some(num[n])
        else LastTrue(evs[..n], num[..n], m)
      case OutputToggled => LastTrue(evs[..n], num[..n], m)
  }

  function FirstTrue(evs: seq<Event>, num: seq<nat>, m: Mac): Option<nat>
    requires |num| == |evs|
  {
    if evs == [] then None
    else
      match evs[0]
      case Captured(f) =>
        if f.mac == m && f.retry != Some(true) then Some(num[0])
        else FirstTrue(evs[1..], num[1..], m)
      case OutputToggled => FirstTrue(evs[1..], num[1..], m)
  }

  lemma {:induction false} FirstTrueKept(evs: seq<Event>, num: seq<nat>, ev: Event, k: nat, m: Mac)
    requires |num| == |evs|
    ensures FirstTrue(evs + [ev], num + [k], m) ==
            if FirstTrue(evs, num, m).Some? then FirstTrue(evs, num, m)
            else match ev
                 case Captured(f) => if f.mac == m && f.retry != Some(true) then Some(k) else None
                 case OutputToggled => None
  {
    if evs == [] {
      assert [ev][1..] == [] && [k][1..] == [];
      assert evs + [ev] == [ev] && num + [k] == [k];
    } else {
      assert (evs + [ev])[1..] == evs[1..] + [ev] && (num + [k])[1..] == num[1..] + [k];
      FirstTrueKept(evs[1..], num[1..], ev, k, m);
    }
  }

  /** Output was toggled since `m` was last heard. */
  predicate Pending(evs: seq<Event>, m: Mac) {
    evs != [] &&
    match evs[|evs| - 1]
    case OutputToggled => true
    case Captured(f) => f.mac != m && Pending(evs[..|evs| - 1], m)
  }

  /** Numbers skipped at resyncs: what went undelivered around an output toggle and was not charged. */
  function Skipped(evs: seq<Event>, num: seq<nat>, m: Mac): nat
    requires |num| == |evs|
  {
    if evs == [] then 0
    else
      var n := |evs| - 1;
      Skipped(evs[..n], num[..n], m) + SkippedAt(evs[..n], num[..n], evs[n], num[n], m)
  }

  function SkippedAt(before: seq<Event>, was: seq<nat>, ev: Event, k: nat, m: Mac): nat
    requires |was| == |before|
  {
    match ev
    case OutputToggled => 0
    case Captured(f) =>
      match LastTrue(before, was, m)
      case None => 0
      case Some(last) =>
        if f.mac == m && f.retry != Some(true) && Pending(before, m) && last < k then k - last - 1 else 0
  }

  /** A run in which every frame of `m` states its 12-bit number, `m` stays seated, its first frame is
      no retry, and every further one that is no retry advances the true number, by less than 500
      unless output was toggled since `m` was last heard. */
  predicate Steady(evs: seq<Event>, num: seq<nat>, m: Mac)
    requires |num| == |evs|
  {
    evs == [] ||
    var n := |evs| - 1;
    && Steady(evs[..n], num[..n], m)
    && match evs[n]
       case OutputToggled => true
       case Captured(f) =>
         f.mac == m ==>
           && f.seqNo == Some(num[n] % 0x1000)
           && match LastTrue(evs[..n], num[..n], m)
              case None => f.retry != Some(true)
              case Some(last) =>
                && Resident(Macs(evs[..n]), m)
                && (f.retry != Some(true) ==> last < num[n] && (Pending(evs[..n], m) || num[n] < last + 500))
  }

  /** A 12-bit difference is the true step, for steps below 4096. */
  lemma StepIsDiff(last: nat, next: nat)
    requires last < next < last + 0x1000
    ensures SeqDiff(next % 0x1000, last % 0x1000) == next - last
  {
  }

  lemma LastTrueMeansHeard(evs: seq<Event>, num: seq<nat>, m: Mac)
    requires |num| == |evs| && LastTrue(evs, num, m) == None && Steady(evs, num, m)
    ensures LastHeard(Macs(evs), m) == -1
    decreases |evs|
  {
  }

  /** What conservation says of an entry: its first-hand frames, its gaps and what was skipped at resyncs
      span `first..last`. */
  ghost predicate Spans(e: TxStats, first: nat, last: nat, frames: nat, skipped: nat, pending: bool) {
    && first <= last < U32_RANGE && 0 < e.frames == frames && e.resync == pending
    && e.lastSeq == last % 0x1000 && e.retries <= e.frames
    && e.frames - e.retries + e.seqGaps + skipped == last - first + 1
  }

  lemma TouchSpans(e: TxStats, now: u32, f: Heard, first: nat, last: nat, k: nat, skipped: nat, pending: bool)
    requires Spans(e, first, last, e.frames, skipped, pending) && e.frames < U32_RANGE - 1 && k < U32_RANGE
    requires f.seqNo == Some(k % 0x1000)
    requires f.retry != Some(true) ==> last < k && (pending || k < last + 500)
    ensures Spans(Touch(e, now, f).0, first, if f.retry == Some(true) then last else k, e.frames + 1,
                  skipped + if f.retry != Some(true) && pending then k - last - 1 else 0, false)
  {
    if f.retry != Some(true) && !pending { StepIsDiff(last, k); }
  }

  lemma FreshSpans(now: u32, f: Heard, k: nat)
    requires f.seqNo == Some(k % 0x1000) && f.retry != Some(true) && k < U32_RANGE
    ensures Spans(Touch(Fresh(f), now, f).0, k, k, 1, 0, false)
  {
  }

  lemma ToggledEntry(evs: seq<Event>, c0: u32, m: Mac)
    ensures EntryOf(evs + [OutputToggled], c0, m) == EntryOf(evs, c0, m).(resync := true)
    ensures Macs(evs + [OutputToggled]) == Macs(evs)
  {
    assert (evs + [OutputToggled])[..|evs|] == evs;
  }

  lemma SpansToggled(e: TxStats, first: nat, last: nat, frames: nat, skipped: nat, pending: bool)
    requires Spans(e, first, last, frames, skipped, pending)
    ensures Spans(e.(resync := true), first, last, frames, skipped, true)
  {
  }

  /** Loss is conserved: for a transmitter that stays seated, the frames it delivered first-hand, the gaps
      counted for it and the numbers skipped at output toggles add up to the range of its true sequence
      numbers, through any number of 12-bit wraps and toggles. */
  lemma {:induction false} LossIsConserved(evs: seq<Event>, num: seq<nat>, c0: u32, m: Mac)
    requires |num| == |evs| < U32_RANGE && Steady(evs, num, m)
    requires forall i | 0 <= i < |num| :: num[i] < U32_RANGE
    ensures var first, last := FirstTrue(evs, num, m), LastTrue(evs, num, m);
            && (first.Some? <==> last.Some?)
            && (last.Some? ==> Spans(EntryOf(evs, c0, m), first.value, last.value, FramesSince(Macs(evs), m),
                                     Skipped(evs, num, m), Pending(evs, m)))
    ensures LastTrue(evs, num, m) == None ==> Skipped(evs, num, m) == 0
    decreases |evs|
  {
    hide Touch;
    hide Resident;
    hide Spans;
    hide EntryOf;
    hide FramesSince;
    hide Run;
    if evs != [] {
      var n := |evs| - 1;
      var before, was := evs[..n], num[..n];
      LossIsConserved(before, was, c0, m);
      assert evs == before + [evs[n]] && num == was + [num[n]];
      FirstTrueKept(before, was, evs[n], num[n], m);
      match evs[n]
      case OutputToggled =>
        ToggledEntry(before, c0, m);
        if LastTrue(before, was, m).Some? {
          SpansToggled(EntryOf(before, c0, m), FirstTrue(before, was, m).value, LastTrue(before, was, m).value,
                       FramesSince(Macs(before), m), Skipped(before, was, m), Pending(before, m));
        }
      case Captured(f) => LossStep(before, was, f, num[n], c0, m);
    }
  }

  lemma LossStep(before: seq<Event>, was: seq<nat>, f: Heard, k: nat, c0: u32, m: Mac)
    requires |was| == |before| < U32_RANGE - 1 && k < U32_RANGE && Steady(before + [Captured(f)], was + [k], m)
    requires var first, last := FirstTrue(before, was, m), LastTrue(before, was, m);
             && (first.Some? <==> last.Some?)
             && (last.Some? ==> Spans(EntryOf(before, c0, m), first.value, last.value, FramesSince(Macs(before), m),
                                      Skipped(before, was, m), Pending(before, m)))
             && (last == None ==> Skipped(before, was, m) == 0)
    ensures var evs, num := before + [Captured(f)], was + [k];
            var first, last := FirstTrue(evs, num, m), LastTrue(evs, num, m);
            && (first.Some? <==> last.Some?)
            && (last.Some? ==> Spans(EntryOf(evs, c0, m), first.value, last.value, FramesSince(Macs(evs), m),
                                     Skipped(evs, num, m), Pending(evs, m)))
            && (last == None ==> Skipped(evs, num, m) == 0)
  {
    hide Touch;
    hide Resident;
    hide Spans;
    hide EntryOf;
    hide FramesSince;
    hide Run;
    var evs, num := before + [Captured(f)], was + [k];
    assert evs[..|before|] == before && num[..|was|] == was;
    FramesAreCounted(evs, c0, m);
    FramesAreCounted(before, c0, m);
    FirstTrueKept(before, was, Captured(f), k, m);
    EntryStep(before, c0, f, m);
    FramesSnoc(Macs(before), f.mac, m);
    assert Macs(evs) == Macs(before) + [f.mac];
    var now := Run(before, c0).clock;
    if f.mac == m {
      match LastTrue(before, was, m)
      case None =>
        LastTrueMeansHeard(before, was, m);
        StrangerIsNotResident(Macs(before), m);
        FreshSpans(now, f, k);
      case Some(last) =>
        TouchSpans(EntryOf(before, c0, m), now, f, FirstTrue(before, was, m).value, last, k,
                   Skipped(before, was, m), Pending(before, m));
    }
  }

  lemma StrangerIsNotResident(h: seq<Mac>, m: Mac)
    requires LastHeard(h, m) == -1
    ensures !Resident(h, m)
  {
  }

  /** What one frame does to its transmitter's entry. A retry is counted as such and nothing else; a frame
      without a number moves no number; the first frame, and the one that uses up a resync, is charged nothing;
      any other the numbers skipped since the last, modulo 4096, if they are fewer than 499. */
  lemma TouchIs(e: TxStats, now: u32, f: Heard)
    ensures var (t, gap) := Touch(e, now, f);
            var numbered := f.seqNo.Some? && f.retry != Some(true);
            var d := if numbered then (f.seqNo.value - e.lastSeq) % 0x1000 else 0;
            && gap == (if e.frames == 0 || e.resync || d < 2 || d >= 500 then 0 else d - 1)
            && t.mac == e.mac && t.lastUsed == now
            && t.frames == (e.frames + 1) % 0x1_0000_0000
            && t.retries == (e.retries + if f.retry == Some(true) then 1 else 0) % 0x1_0000_0000
            && t.seqGaps == (e.seqGaps + gap) % 0x1_0000_0000
            && t.lastSeq == (if numbered then f.seqNo.value else e.lastSeq)
            && t.resync == (e.resync && e.frames == 0)
  {
    if f.seqNo.Some? { DiffIs(f.seqNo.value, e.lastSeq); }
    hide SeqDiff;
  }

  lemma DiffIs(a: u16, last: u16)
    ensures SeqDiff(a, last) == (a - last) % 0x1000
  {
  }

  /** A true step is counted exactly if and only if it is below 500. */
  lemma StepCountedIff(last: nat, next: nat)
    requires last < next
    ensures GapOf(SeqDiff(next % 0x1000, last % 0x1000)) == next - last - 1 <==> next < last + 500
  {
    if next < last + 0x1000 { StepIsDiff(last, next); }
  }

  /** A transmitter first heard without a number, in a retry or not, is taken to have been at 0: its next
      numbered frame is charged a gap that was never observed, if its number is in 2..499. */
  lemma UnnumberedFirstFrame(f: Heard, g: Heard, now: u32, later: u32)
    requires f.seqNo == None && g.mac == f.mac
    requires g.seqNo.Some? && g.seqNo.value < 0x1000 && g.retry != Some(true)
    ensures var gap := Touch(Touch(Fresh(f), now, f).0, later, g).1;
            gap == GapOf(g.seqNo.value) && (gap > 0 <==> 1 < g.seqNo.value < 500)
  {
  }

  /** The frames that move the last number: those that state theirs and are no retry. */
  predicate Numbered(f: Heard) { f.seqNo.Some? && f.retry != Some(true) }

  /** After an output toggle the next frame uses up the resync, whatever it is. The numbered frame after
      it is measured from it if it is numbered itself, and else from before the toggle. */
  lemma ResyncThenCount(e: TxStats, now: u32, f: Heard, later: u32, g: Heard)
    requires e.frames > 0 && e.frames < U32_RANGE - 2 && e.resync && f.mac == g.mac == e.mac && Numbered(g)
    ensures var (a, gapF) := Touch(e, now, f);
            && gapF == 0 && !a.resync
            && Touch(a, later, g).1 ==
               GapOf(SeqDiff(g.seqNo.value, if Numbered(f) then f.seqNo.value else e.lastSeq))
  {
  }

  /** What `g` is charged when `f` is heard first after a toggle, the last number before it being `x`. */
  function ChargedAfter(e: TxStats, x: u16, now: u32, f: Heard, later: u32, g: Heard): u32 {
    Touch(Touch(e.(resync := true, lastSeq := x), now, f).0, later, g).1
  }

  /** So a toggle keeps what went undelivered from being charged, the charge not depending on where the
      transmitter stood before it, exactly if the first frame after it is numbered and no retry. */
  lemma ResyncProtectsIff(e: TxStats, now: u32, f: Heard, later: u32)
    requires 0 < e.frames < U32_RANGE - 2 && e.mac == f.mac
    ensures (forall g, x, y | Numbered(g) && g.mac == f.mac ::
               ChargedAfter(e, x, now, f, later, g) == ChargedAfter(e, y, now, f, later, g)) <==>
            Numbered(f)
  {
    var g := Heard(f.mac, Some(2), None);
    assert ChargedAfter(e, 0, now, f, later, g) == ChargedAfter(e, 2, now, f, later, g) ==> Numbered(f) by {
      ResyncThenCount(e.(resync := true, lastSeq := 0), now, f, later, g);
      ResyncThenCount(e.(resync := true, lastSeq := 2), now, f, later, g);
    }
    forall g, x, y | Numbered(f) && Numbered(g) && g.mac == f.mac
      ensures ChargedAfter(e, x, now, f, later, g) == ChargedAfter(e, y, now, f, later, g)
    {
      ResyncThenCount(e.(resync := true, lastSeq := x), now, f, later, g);
      ResyncThenCount(e.(resync := true, lastSeq := y), now, f, later, g);
    }
  }
}
