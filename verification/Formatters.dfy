/** The two line formatters over a caller's buffer. One refuses a line that may not fit although the
    errors of its writer are thrown away; the other never has to cut a line in its real buffer. */
module Formatters {
  import opened Bytes
  import opened Decimal
  import opened Printers
  import opened TextRow
  import Wire

  const SCRATCH: nat := 3328
  const TAIL_RESERVE: nat := 22

  // ----- the array list -----

  /** A sink over a fixed buffer: a piece that does not fit is dropped whole, and later pieces may
      still be written after it. */
  class SliceWriter {
    const buf: array<char>
    var pos: nat

    ghost predicate Valid()
      reads this
    {
      pos <= buf.Length
    }

    constructor (buf: array<char>)
      ensures Valid() && this.buf == buf && pos == 0
    {
      this.buf, pos := buf, 0;
    }

    /** Something of this text was dropped, and then the buffer is nearly full. */
    ghost predicate Spoilt(text: string)
      reads this
    {
      |text| > buf.Length && pos + TAIL_RESERVE > buf.Length
    }

    /** The buffer holds this text, or something of it was dropped. */
    ghost predicate Holds(text: string)
      requires Valid()
      reads this, buf
    {
      buf[..pos] == text || Spoilt(text)
    }

    method WriteStr(s: string, ghost text: string) returns (ok: bool)
      requires Valid() && Holds(text) && |s| <= TAIL_RESERVE
      modifies this`pos, buf
      ensures Valid() && Holds(text + s)
      ensures ok == (old(pos) + |s| <= buf.Length)
      ensures !ok ==> Spoilt(text + s)
      ensures pos == if ok then old(pos) + |s| else old(pos)
    {
      if pos + |s| > buf.Length { return false; }
      ghost var before := buf[..pos];
      forall k | 0 <= k < |s| { buf[pos + k] := s[k]; }
      pos := pos + |s|;
      assert buf[..pos] == before + s;
      ok := true;
    }

    /** One `write!` of a number and a comma: sign, digits and comma are separate pieces, and the first
        that does not fit ends it. The caller never looks at the outcome. */
    method WriteField(v: int, ghost text: string)
      requires Valid() && Holds(text) && -0x8000_0000 <= v < 0x1_0000_0000
      modifies this`pos, buf
      ensures Valid() && Holds(text + Signed(v) + ",")
    {
      Widths(v);
      ghost var sign := if v < 0 then "-" else "";
      var digits := Natural(if v < 0 then -v else v);
      assert Signed(v) == sign + digits;
      assert text + sign + digits == text + (sign + digits);
      hide Natural;
      var ok := true;
      if v < 0 { ok := WriteStr("-", text); } else { assert text + sign == text; }
      if ok { ok := WriteStr(digits, text + sign); }
      if ok { ok := WriteStr(",", text + sign + digits); }
    }
  }

  /** Write the columns in front of the samples. */
  method WriteListHead(w: SliceWriter, columns: seq<int>)
    requires w.Valid() && w.pos == 0
    requires columns != [] && forall v | v in columns :: -0x8000_0000 <= v < 0x1_0000_0000
    modifies w`pos, w.buf
    ensures w.Valid() && w.Holds(ListHead(columns))
  {
    hide Terminated;
    var ok := w.WriteStr("[", "");
    HeadStarts(columns);
    if ok { w.WriteField(columns[0], "["); }
    var k := 1;
    while k < |columns|
      invariant 1 <= k <= |columns| && w.Valid() && w.Holds("[" + Terminated(columns[..k], ','))
    {
      HeadGoesOn(columns, k);
      w.WriteField(columns[k], "[" + Terminated(columns[..k], ','));
      k := k + 1;
    }
    assert columns[..k] == columns;
    ok := w.WriteStr("[", "[" + Terminated(columns, ','));
  }

  lemma HeadStarts(columns: seq<int>)
    requires columns != []
    ensures "" + "[" == "[" && columns[0] in columns
    ensures "[" + Signed(columns[0]) + "," == "[" + Terminated(columns[..1], ',')
  {
    TerminatedNothing(',');
    TerminatedSnoc([], columns[0], ',');
    assert columns[..1] == [] + [columns[0]];
    hide Terminated;
  }

  lemma HeadGoesOn(columns: seq<int>, k: nat)
    requires k < |columns|
    ensures columns[k] in columns
    ensures "[" + Terminated(columns[..k], ',') + Signed(columns[k]) + "," ==
            "[" + Terminated(columns[..k + 1], ',')
  {
    hide Terminated;
    hide Signed;
    TerminatedSnoc(columns[..k], columns[k], ',');
    assert columns[..k + 1] == columns[..k] + [columns[k]];
    Regrouped("[", Terminated(columns[..k], ','), Signed(columns[k]), ",");
  }

  lemma Regrouped(a: string, b: string, c: string, d: string)
    ensures a + b + c + d == a + (b + c + d)
  {
  }

  lemma TerminatedNothing(sep: char)
    ensures Terminated([], sep) == "" && Joined([], sep) == ""
  {
  }

  /** The samples with commas between them; the last comma is written and taken back. */
  method WriteSamples(buf: array<char>, pos: nat, samples: seq<i8>) returns (end: nat)
    requires pos + 5 * |samples| <= buf.Length
    modifies buf
    ensures pos <= end <= pos + 5 * |samples|
    ensures buf[..end] == old(buf[..pos]) + Joined(samples, ',')
  {
    hide Terminated;
    hide Joined;
    TerminatedNothing(',');
    ghost var before := buf[..pos];
    end := pos;
    var i := 0;
    while i < |samples|
      invariant 0 <= i <= |samples| && pos <= end <= pos + 5 * i
      invariant i < |samples| ==> buf[..end] == before + Terminated(samples[..i], ',')
      invariant i == |samples| ==> buf[..end] == before + Joined(samples, ',')
    {
      Widths(samples[i]);
      ghost var t := Terminated(samples[..i], ',');
      assert samples[..i + 1] == samples[..i] + [samples[i]];
      TerminatedSnoc(samples[..i], samples[i], ',');
      end := WriteI8Sep(buf, end, samples[i], ',');
      assert buf[..end] == before + Terminated(samples[..i + 1], ',') by {
        assert before + t + Signed(samples[i]) + [','] == before + (t + Signed(samples[i]) + [',']);
      }
      if i + 1 == |samples| {
        assert samples[..i + 1] == samples;
        TerminatedIsPlain(samples, ',');
        ghost var all := buf[..end];
        end := end - 1;
        assert buf[..end] == all[..end];
        assert before + Terminated(samples, ',') == before + Joined(samples, ',') + [','];
      }
      i := i + 1;
    }
  }

  /** The first `i` bytes of an address, as printed. */
  function MacPrefix(m: Mac, i: nat, upper: bool): (r: string)
    requires i <= 6
    ensures |r| == if i == 0 then 0 else 3 * i - 1
  {
    if i == 0 then "" else MacPrefix(m, i - 1, upper) + (if i == 1 then "" else ":") + Hex(m[i - 1], upper)
  }

  lemma MacPrefixIsText(m: Mac, upper: bool)
    ensures MacPrefix(m, 6, upper) == MacText(m, upper)
  {
    hide Hex;
    assert MacPrefix(m, 1, upper) == Hex(m[0], upper);
    assert MacPrefix(m, 2, upper) == MacPrefix(m, 1, upper) + ":" + Hex(m[1], upper);
    assert MacPrefix(m, 3, upper) == MacPrefix(m, 2, upper) + ":" + Hex(m[2], upper);
    assert MacPrefix(m, 4, upper) == MacPrefix(m, 3, upper) + ":" + Hex(m[3], upper);
    assert MacPrefix(m, 5, upper) == MacPrefix(m, 4, upper) + ":" + Hex(m[4], upper);
  }

  /** One byte of the address, behind its colon. */
  method WriteMacByte(w: SliceWriter, mac: Mac, i: nat, ghost text: string)
    requires i < 6 && w.Valid() && w.pos + 3 <= w.buf.Length
    requires w.buf[..w.pos] == text + MacPrefix(mac, i, false)
    modifies w`pos, w.buf
    ensures w.Valid() && w.pos == old(w.pos) + if i == 0 then 2 else 3
    ensures w.buf[..w.pos] == text + MacPrefix(mac, i + 1, false)
  {
    hide Hex;
    ghost var p, h := MacPrefix(mac, i, false), Hex(mac[i], false);
    var colon := if i == 0 then "" else ":";
    var ok := w.WriteStr(colon, text + p);
    ok := w.WriteStr(Hex(mac[i], false), text + p + colon);
    assert text + p + colon + h == text + (p + colon + h);
  }

  method WriteListTail(w: SliceWriter, mac: Mac, ghost text: string)
    requires w.Valid() && w.buf[..w.pos] == text && w.pos + TAIL_RESERVE <= w.buf.Length
    modifies w`pos, w.buf
    ensures w.Valid() && w.buf[..w.pos] == text + "]," + MacText(mac, false) + "]\r\n"
  {
    hide MacPrefix;
    hide MacText;
    MacPrefixIsText(mac, false);
    PrefixStarts(mac, text + "],");
    ghost var start := w.pos;
    var ok := w.WriteStr("],", text);
    var i := 0;
    while i < 6
      invariant i <= 6 && w.Valid() && w.pos == start + 2 + |MacPrefix(mac, i, false)|
      invariant w.buf[..w.pos] == text + "]," + MacPrefix(mac, i, false)
    {
      WriteMacByte(w, mac, i, text + "],");
      i := i + 1;
    }
    ok := w.WriteStr("]\r\n", text + "]," + MacPrefix(mac, 6, false));
  }

  lemma PrefixStarts(mac: Mac, text: string)
    ensures MacPrefix(mac, 0, false) == "" && text + MacPrefix(mac, 0, false) == text
  {
  }

  /** All or nothing, for every buffer: 0 exactly if the head, five characters a sample and the tail
      might not fit; otherwise the complete line. */
  method FormatArrayListInto(columns: seq<int>, samples: seq<i8>, mac: Mac, buf: array<char>) returns (n: nat)
    requires columns != [] && forall v | v in columns :: -0x8000_0000 <= v < 0x1_0000_0000
    modifies buf
    ensures n == 0 <==> |ListHead(columns)| + 5 * |samples| + TAIL_RESERVE > buf.Length
    ensures n > 0 ==> n <= buf.Length && buf[..n] == ListLine(columns, samples, mac)
  {
    hide ListHead;
    hide Joined;
    hide MacText;
    var w := new SliceWriter(buf);
    WriteListHead(w, columns);
    if w.pos + 5 * |samples| + TAIL_RESERVE > buf.Length { return 0; }
    w.pos := WriteSamples(buf, w.pos, samples);
    WriteListTail(w, mac, ListHead(columns) + Joined(samples, ','));
    n := w.pos;
  }

  // ----- the CSI-tool line -----

  datatype Role = Sta | Ap | Passive

  function RoleText(r: Role): string { match r case Sta => "STA" case Ap => "AP" case Passive => "PASSIVE" }

  /** Seconds and microseconds of the 32-bit receive time. */
  function Clock(timestamp: u32): string { Natural(timestamp / 1_000_000) + "." + Padded(timestamp % 1_000_000, 6) }

  function IdentityFields(r: TextRow, role: Role): seq<string> { ["CSI_DATA", RoleText(role), MacText(r.mac, true)] }

  /** No real time is ever set. */
  function ClockFields(timestamp: u32, emit: nat): seq<string> { ["0", Clock(timestamp), Natural(emit)] }

  function ToolHead(r: TextRow, role: Role, emit: nat): string {
    Delimited(IdentityFields(r, role), ',') + Terminated(ToolColumns(r), ',') +
    Delimited(ClockFields(r.timestamp, emit), ',') + "["
  }

  function ToolLine(r: TextRow, role: Role, emit: nat, shown: seq<i8>): string {
    ToolHead(r, role, emit) + Terminated(shown, ' ') + "]\n"
  }

  lemma ThreeFields(a: string, b: string, c: string)
    ensures Delimited([a, b, c], ',') == a + "," + b + "," + c + ","
  {
    assert [a, b, c][1..] == [b, c] && [b, c][1..] == [c] && [c][1..] == [];
    assert Delimited([c], ',') == c + ",";
    assert Delimited([b, c], ',') == b + "," + (c + ",");
  }

  /** A CSI-tool line: its name, the role, the sender in upper case, the numeric columns, a time never set, the
      receive time in seconds, how many samples follow, and the samples. */
  lemma ToolLineIs(r: TextRow, role: Role, emit: nat, shown: seq<i8>)
    ensures ToolLine(r, role, emit, shown) ==
            ("CSI_DATA" + "," + (match role case Sta => "STA" case Ap => "AP" case Passive => "PASSIVE") + "," +
             MacText(r.mac, true) + ",") +
            Terminated(ToolColumns(r), ',') +
            ("0" + "," + (Signed(r.timestamp / 1_000_000) + "." + Padded(r.timestamp % 1_000_000, 6)) + "," +
             Signed(emit) + ",") + "[" +
            Terminated(shown, ' ') + "]\n"
  {
    ThreeFields("CSI_DATA", RoleText(role), MacText(r.mac, true));
    ThreeFields("0", Clock(r.timestamp), Natural(emit));
    hide Terminated;
    hide ToolColumns;
    hide MacText;
    hide Natural;
    hide Padded;
    hide Delimited;
  }

  /** How many samples the cap lets through; zero is no cap. */
  function Emitted(cap: u16, count: nat): (r: nat)
    ensures r <= count && (cap == 0 ==> r == count)
  {
    if cap == 0 || count < cap then count else cap
  }

  method WriteChar(buf: array<char>, pos: nat, c: char) returns (end: nat)
    requires pos < buf.Length
    modifies buf
    ensures end == pos + 1 && buf[..end] == old(buf[..pos]) + [c]
  {
    buf[pos] := c;
    end := pos + 1;
  }

  /** The address in upper case: its bytes one by one, a colon after each but the last. */
  method WriteMac(buf: array<char>, pos: nat, mac: Mac) returns (end: nat)
    requires pos + 17 <= buf.Length
    modifies buf
    ensures end == pos + 17 && buf[..end] == old(buf[..pos]) + MacText(mac, true)
  {
    hide MacPrefix;
    hide MacText;
    hide Hex;
    MacPrefixIsText(mac, true);
    MacPrefixStarts(mac);
    ghost var before := buf[..pos];
    end := WriteHexU8(buf, pos, mac[0]);
    var i := 1;
    while i < 6
      invariant 1 <= i <= 6 && end == pos + 3 * i - 1
      invariant buf[..end] == before + MacPrefix(mac, i, true)
    {
      MacPrefixGoesOn(mac, i, before);
      end := WriteChar(buf, end, ':');
      end := WriteHexU8(buf, end, mac[i]);
      i := i + 1;
    }
  }

  lemma MacPrefixStarts(mac: Mac)
    ensures MacPrefix(mac, 1, true) == Hex(mac[0], true)
  {
  }

  lemma MacPrefixGoesOn(mac: Mac, i: nat, before: string)
    requires 1 <= i < 6
    ensures before + MacPrefix(mac, i, true) + [':'] + Hex(mac[i], true) == before + MacPrefix(mac, i + 1, true)
  {
  }

  method WriteIdentity(buf: array<char>, role: Role, mac: Mac) returns (end: nat)
    requires 9 + |RoleText(role)| + 19 <= buf.Length
    modifies buf
    ensures end == 9 + |RoleText(role)| + 19
    ensures buf[..end] == Delimited(["CSI_DATA", RoleText(role), MacText(mac, true)], ',')
  {
    ThreeFields("CSI_DATA", RoleText(role), MacText(mac, true));
    hide RoleText;
    hide Delimited;
    hide MacText;
    end := WriteSlice(buf, 0, "CSI_DATA,");
    end := WriteSlice(buf, end, RoleText(role));
    end := WriteChar(buf, end, ',');
    end := WriteMac(buf, end, mac);
    end := WriteChar(buf, end, ',');
    assert "CSI_DATA" + "," == "CSI_DATA,";
  }

  /** The numeric columns, one after the other. */
  method WriteColumns(buf: array<char>, pos: nat, columns: seq<int>) returns (end: nat)
    requires forall v | v in columns :: -0x8000_0000 <= v < 0x1_0000_0000
    requires pos + |Terminated(columns, ',')| <= buf.Length
    modifies buf
    ensures end == pos + |Terminated(columns, ',')|
    ensures buf[..end] == old(buf[..pos]) + Terminated(columns, ',')
  {
    hide Terminated;
    TerminatedNothing(',');
    ghost var before := buf[..pos];
    end := pos;
    var k := 0;
    while k < |columns|
      invariant 0 <= k <= |columns| && end == pos + |Terminated(columns[..k], ',')| <= buf.Length
      invariant buf[..end] == before + Terminated(columns[..k], ',')
    {
      ColumnFits(columns, k, before);
      end := WriteNumber(buf, end, columns[k]);
      end := WriteChar(buf, end, ',');
      k := k + 1;
    }
    assert columns[..k] == columns;
  }

  lemma ColumnFits(columns: seq<int>, k: nat, before: string)
    requires k < |columns|
    ensures columns[k] in columns
    ensures before + Terminated(columns[..k], ',') + Signed(columns[k]) + [','] ==
            before + Terminated(columns[..k + 1], ',')
    ensures |Terminated(columns[..k + 1], ',')| == |Terminated(columns[..k], ',')| + |Signed(columns[k])| + 1
            <= |Terminated(columns, ',')|
  {
    var t, v := Terminated(columns[..k], ','), columns[k];
    TerminatedSnoc(columns[..k], v, ',');
    PrefixIsShorter(columns, k + 1);
    assert columns[..k + 1] == columns[..k] + [v];
    hide *;
    Regrouped(before, t, Signed(v), [',']);
  }

  lemma PrefixIsShorter(columns: seq<int>, k: nat)
    requires k <= |columns|
    ensures |Terminated(columns[..k], ',')| <= |Terminated(columns, ',')|
  {
    assert columns == columns[..k] + columns[k..];
    TerminatedAppend(columns[..k], columns[k..], ',');
    hide Terminated;
  }

  /** A column's own writer, signed or unsigned. */
  method WriteNumber(buf: array<char>, pos: nat, v: int) returns (end: nat)
    requires -0x8000_0000 <= v < 0x1_0000_0000 && pos + |Signed(v)| <= buf.Length
    modifies buf
    ensures end == pos + |Signed(v)|
    ensures buf[..end] == old(buf[..pos]) + Signed(v)
  {
    if v < 0x8000_0000 { end := WriteI32(buf, pos, v); } else { end := WriteU32(buf, pos, v); }
  }

  method WriteClock(buf: array<char>, pos: nat, timestamp: u32, emit: u32) returns (end: nat)
    requires pos + |Delimited(ClockFields(timestamp, emit), ',')| <= buf.Length
    modifies buf
    ensures end == pos + |Delimited(ClockFields(timestamp, emit), ',')|
    ensures buf[..end] == old(buf[..pos]) + Delimited(ClockFields(timestamp, emit), ',')
  {
    ThreeFields("0", Clock(timestamp), Natural(emit));
    hide Delimited;
    hide Natural;
    ghost var before := buf[..pos];
    ghost var secs, usecs := Natural(timestamp / 1_000_000), Padded(timestamp % 1_000_000, 6);
    end := WriteSlice(buf, pos, "0,");
    end := WriteU32(buf, end, timestamp / 1_000_000);
    end := WriteChar(buf, end, '.');
    end := WriteU32Pad6(buf, end, timestamp % 1_000_000);
    end := WriteChar(buf, end, ',');
    assert buf[..end] == before + "0," + secs + "." + usecs + ",";
    end := WriteU32(buf, end, emit);
    end := WriteChar(buf, end, ',');
    ClockGlue(before, secs, usecs, Natural(emit));
  }

  lemma ClockGlue(before: string, secs: string, usecs: string, emit: string)
    ensures before + "0," + secs + "." + usecs + "," + emit + "," ==
            before + ("0" + "," + (secs + "." + usecs) + "," + emit + ",")
  {
  }

  /** The samples, each followed by a space, as long as the worst case of one more still fits. */
  method WriteBody(buf: array<char>, pos: nat, samples: seq<i8>, emit: nat) returns (end: nat, shown: nat)
    requires emit <= |samples| && pos + 2 <= buf.Length
    modifies buf
    ensures shown <= emit && pos <= end <= buf.Length - 2
    ensures buf[..end] == old(buf[..pos]) + Terminated(samples[..shown], ' ')
    ensures shown < emit ==> end + 5 > buf.Length - 2
    ensures pos + 5 * emit + 2 <= buf.Length ==> shown == emit
  {
    hide Terminated;
    TerminatedNothing(' ');
    ghost var before := buf[..pos];
    end, shown := pos, 0;
    while shown < emit && end + 5 <= buf.Length - 2
      invariant shown <= emit && pos <= end <= buf.Length - 2 && end <= pos + 5 * shown
      invariant buf[..end] == before + Terminated(samples[..shown], ' ')
    {
      var v := samples[shown];
      Widths(v);
      ghost var t := Terminated(samples[..shown], ' ');
      assert samples[..shown + 1] == samples[..shown] + [v];
      TerminatedSnoc(samples[..shown], v, ' ');
      end := WriteI8Sep(buf, end, v, ' ');
      assert before + t + Signed(v) + [' '] == before + (t + Signed(v) + [' ']);
      shown := shown + 1;
    }
  }

  /** One line into any buffer that holds its head: the samples shown are as many as fit, and all that
      the `len` column announces if there is room for the longest of them. */
  method FormatCsiToolInto(r: TextRow, role: Role, cap: u16, buf: array<char>) returns (n: nat, shown: nat)
    requires RowRanges(r)
    requires |ToolHead(r, role, Emitted(cap, |r.samples|))| + 2 <= buf.Length
    modifies buf
    ensures shown <= Emitted(cap, |r.samples|) && n <= buf.Length
    ensures buf[..n] == ToolLine(r, role, Emitted(cap, |r.samples|), r.samples[..shown])
    ensures |ToolHead(r, role, Emitted(cap, |r.samples|))| + 5 * Emitted(cap, |r.samples|) + 2 <= buf.Length ==>
              shown == Emitted(cap, |r.samples|)
  {
    var emit := Emitted(cap, |r.samples|);
    ToolColumnsInRange(r);
    IdentityLength(r, role);
    hide Terminated;
    hide Delimited;
    hide ToolColumns;
    hide MacText;
    hide RoleText;
    var p := WriteIdentity(buf, role, r.mac);
    p := WriteColumns(buf, p, ToolColumns(r));
    p := WriteClock(buf, p, r.timestamp, emit);
    p := WriteChar(buf, p, '[');
    assert buf[..p] == ToolHead(r, role, emit);
    p, shown := WriteBody(buf, p, r.samples, emit);
    n := WriteSlice(buf, p, "]\n");
  }

  lemma IdentityLength(r: TextRow, role: Role)
    ensures |Delimited(IdentityFields(r, role), ',')| == 9 + |RoleText(role)| + 19
  {
    ThreeFields("CSI_DATA", RoleText(role), MacText(r.mac, true));
  }

  lemma ToolColumnsInRange(r: TextRow)
    requires RowRanges(r)
    ensures forall v | v in ToolColumns(r) :: -0x8000_0000 <= v < 0x1_0000_0000
  {
  }

  // ----- the real buffer -----

  lemma {:induction false} NarrowWidth(values: seq<int>, sep: char)
    requires forall v | v in values :: Narrow(v)
    ensures |Terminated(values, sep)| <= 7 * |values|
  {
    if values != [] {
      assert Narrow(values[0]);
      Widths(values[0]);
      NarrowWidth(values[1..], sep);
      assert Texts(values)[1..] == Texts(values[1..]);
      assert Terminated(values, sep) == Signed(values[0]) + [sep] + Terminated(values[1..], sep);
    }
  }

  /** One wide column among narrow ones. */
  lemma OneWide(a: seq<int>, wide: u32, b: seq<int>, sep: char)
    requires forall v | v in a + b :: Narrow(v)
    ensures |Terminated(a + [wide] + b, sep)| <= 7 * (|a| + |b|) + 12
  {
    assert forall v | v in a :: v in a + b;
    assert forall v | v in b :: v in a + b;
    TerminatedAppend(a + [wide], b, sep);
    TerminatedSnoc(a, wide, sep);
    NarrowWidth(a, sep);
    NarrowWidth(b, sep);
    Widths(wide);
    hide Terminated;
  }

  /** In both formats the timestamp is the only wide column. */
  lemma HeadsAreShort(chip: Wire.Chip, f: Wire.CsiFrame, role: Role, emit: nat)
    requires emit <= 612
    ensures |ListHead(ListColumns(chip, Row(chip, f)))| <= 175
    ensures |ToolHead(Row(chip, f), role, emit)| <= 195
  {
    RowsAreInRange(chip, f);
    hide *;
    ListHeadIsShort(chip, Row(chip, f));
    ToolHeadIsShort(Row(chip, f), role, emit);
  }

  lemma ToolHeadIsShort(r: TextRow, role: Role, emit: nat)
    requires RowRanges(r) && emit <= 612
    ensures |ToolHead(r, role, emit)| <= 195
  {
    ToolColumnsAreShort(r);
    IdentityLength(r, role);
    ClockIsShort(r.timestamp, emit);
    hide Delimited;
    hide Terminated;
    hide ToolColumns;
    hide RowRanges;
  }

  lemma ClockIsShort(timestamp: u32, emit: nat)
    requires emit <= 612
    ensures |Delimited(ClockFields(timestamp, emit), ',')| <= 19
  {
    ThreeFields("0", Clock(timestamp), Natural(emit));
    Widths(timestamp / 1_000_000);
    Widths(emit);
    hide Delimited;
    hide Natural;
    hide Padded;
  }

  lemma ListHeadIsShort(chip: Wire.Chip, r: TextRow)
    requires RowRanges(r)
    ensures |ListHead(ListColumns(chip, r))| <= 175
  {
    var a := [r.sequenceNumber, r.rssi, r.rate, r.noiseFloor, r.channel];
    var b := [r.sigLen, r.rxState] + ChipColumns(chip, r.channel, r.fields) + [r.sigLen, |r.samples|];
    assert ListColumns(chip, r) == a + [r.timestamp] + b;
    assert |b| <= 18;
    OneWide(a, r.timestamp, b, ',');
    hide Terminated;
  }

  lemma ToolColumnsAreShort(r: TextRow)
    requires RowRanges(r)
    ensures |Terminated(ToolColumns(r), ',')| <= 138
  {
    var cols := ToolColumns(r);
    assert |cols| == 19 && cols[15] == r.timestamp;
    assert cols == cols[..15] + [r.timestamp] + cols[16..];
    OneWide(cols[..15], r.timestamp, cols[16..], ',');
    hide Terminated;
  }

  /** In the real buffer no frame's array-list line is refused, so none is counted as a log drop. */
  method WriteTextArrayPacket(chip: Wire.Chip, f: Wire.CsiFrame, scratch: array<char>) returns (n: nat)
    requires scratch.Length == SCRATCH
    modifies scratch
    ensures var r := Row(chip, f);
            0 < n <= SCRATCH && scratch[..n] == ListLine(ListColumns(chip, r), r.samples, r.mac)
  {
    var r := Row(chip, f);
    HeadsAreShort(chip, f, Sta, 0);
    RowsAreInRange(chip, f);
    ListColumnsInRange(chip, r);
    hide *;
    n := FormatArrayListInto(ListColumns(chip, r), r.samples, r.mac, scratch);
  }

  /** Nor is any tool line cut: it shows every sample its `len` column announces, whatever the cap. */
  method WriteCsiToolPacket(chip: Wire.Chip, f: Wire.CsiFrame, role: Role, cap: u16, scratch: array<char>)
    returns (n: nat)
    requires scratch.Length == SCRATCH
    modifies scratch
    ensures var r := Row(chip, f);
            var emit := Emitted(cap, |r.samples|);
            n <= SCRATCH && scratch[..n] == ToolLine(r, role, emit, r.samples[..emit])
  {
    var r := Row(chip, f);
    HeadsAreShort(chip, f, role, Emitted(cap, |r.samples|));
    RowsAreInRange(chip, f);
    hide *;
    var shown: nat;
    n, shown := FormatCsiToolInto(r, role, cap, scratch);
  }

  lemma ListColumnsInRange(chip: Wire.Chip, r: TextRow)
    requires RowRanges(r)
    ensures ListColumns(chip, r) != []
    ensures forall v | v in ListColumns(chip, r) :: -0x8000_0000 <= v < 0x1_0000_0000
  {
  }

  // ----- reading the tool line back -----

  /** The fields in front of the samples, and the samples. */
  function ReadTool(line: string): Option<(seq<string>, seq<int>)> {
    var (head, rest) :- Until(line, '[');
    var fields :- Fields(head, ',');
    var (body, _) :- Until(rest, ']');
    var samples :- ReadInts(body, ' ');
    Some((fields, samples))
  }

  predicate PlainField(s: string) { ',' !in s && '[' !in s }

  lemma {:induction false} PlainFields(fields: seq<string>)
    requires forall f | f in fields :: PlainField(f)
    ensures '[' !in Delimited(fields, ',')
  {
    if fields != [] {
      assert fields[0] in fields;
      PlainFields(fields[1..]);
    }
  }

  lemma TextsArePlain(values: seq<int>)
    ensures forall f | f in Texts(values) :: PlainField(f)
  {
    forall f | f in Texts(values) ensures PlainField(f) {
      var i :| 0 <= i < |values| && f == Signed(values[i]);
      SignedReads(values[i]);
    }
  }

  lemma ClockIsPlain(timestamp: u32)
    ensures PlainField(Clock(timestamp))
  {
    var secs, usecs := timestamp / 1_000_000, timestamp % 1_000_000;
    assert Power10(6) == 1_000_000 by { assert Power10(3) == 1000; }
    SignedReads(secs);
    PaddedReads(usecs, 6);
    hide Natural;
    hide Padded;
    hide Power10;
  }

  lemma ToolFieldsArePlain(r: TextRow, role: Role, emit: nat)
    ensures forall f | f in IdentityFields(r, role) + Texts(ToolColumns(r)) + ClockFields(r.timestamp, emit) ::
              PlainField(f)
  {
    MacIsPlain(r.mac);
    SignedReads(emit);
    ClockIsPlain(r.timestamp);
    TextsArePlain(ToolColumns(r));
    hide MacText;
    hide Natural;
    hide Clock;
    hide ToolColumns;
    hide Texts;
  }

  lemma MacIsPlain(m: Mac)
    ensures PlainField(MacText(m, true))
  {
  }

  function ToolFields(r: TextRow, role: Role, emit: nat): (fields: seq<string>)
    ensures |fields| == 25 && fields[24] == Natural(emit)
  {
    assert |ToolColumns(r)| == 19;
    IdentityFields(r, role) + Texts(ToolColumns(r)) + ClockFields(r.timestamp, emit)
  }

  lemma ToolHeadIsFields(r: TextRow, role: Role, emit: nat)
    ensures ToolHead(r, role, emit) == Delimited(ToolFields(r, role, emit), ',') + "["
  {
    var a, b, c := IdentityFields(r, role), Texts(ToolColumns(r)), ClockFields(r.timestamp, emit);
    hide IdentityFields;
    hide ToolColumns;
    hide ClockFields;
    DelimitedAppend(a + b, c, ',');
    DelimitedAppend(a, b, ',');
  }

  /** A complete line reads back: the 25 columns the capture's header names before the samples, the last
      of them the number of samples that follow. */
  lemma ToolReadsBack(r: TextRow, role: Role, shown: seq<i8>)
    ensures ReadTool(ToolLine(r, role, |shown|, shown)) == Some((ToolFields(r, role, |shown|), shown))
    ensures ReadInt(ToolFields(r, role, |shown|)[24]) == Some(|shown|)
  {
    var fields := ToolFields(r, role, |shown|);
    var head, body := Delimited(fields, ','), Terminated(shown, ' ');
    ToolHeadIsFields(r, role, |shown|);
    ToolFieldsArePlain(r, role, |shown|);
    SignedReads(|shown|);
    TerminatedIsPlain(shown, ' ');
    NumbersRead(shown, ' ');
    assert forall f | f in fields :: PlainField(f);
    hide *;
    PlainHead(fields);
    ToolReadsFrom(head, body, fields, shown);
    ToolLineSplits(r, role, shown, head);
  }

  lemma PlainHead(fields: seq<string>)
    requires forall f | f in fields :: PlainField(f)
    ensures '[' !in Delimited(fields, ',') && Fields(Delimited(fields, ','), ',') == Some(fields)
  {
    PlainFields(fields);
    FieldsRead(fields, ',');
  }

  lemma ToolLineSplits(r: TextRow, role: Role, shown: seq<i8>, head: string)
    requires ToolHead(r, role, |shown|) == head + "["
    ensures ToolLine(r, role, |shown|, shown) == head + "[" + (Terminated(shown, ' ') + "]" + "\n")
  {
  }

  lemma ToolReadsFrom(head: string, body: string, fields: seq<string>, samples: seq<int>)
    requires '[' !in head && Fields(head, ',') == Some(fields)
    requires ']' !in body && ReadInts(body, ' ') == Some(samples)
    ensures ReadTool(head + "[" + (body + "]" + "\n")) == Some((fields, samples))
  {
    UntilFirst(head, '[', body + "]" + "\n");
    UntilFirst(body, ']', "\n");
    hide Until;
    hide Fields;
    hide ReadInts;
  }
}
