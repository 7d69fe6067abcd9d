/** The two CSV line formats: the array list, written through a discarding `SliceWriter`, and the
    CSI-tool line, written byte by byte. */
module Printers {
  import opened Bytes
  import opened Decimal
  import opened TextRow
  import Wire

  /** Text fields, each followed by a separator. */
  function Delimited(fields: seq<string>, sep: char): string {
    if fields == [] then "" else fields[0] + [sep] + Delimited(fields[1..], sep)
  }

  function Texts(values: seq<int>): (r: seq<string>)
    ensures |r| == |values| && forall i | 0 <= i < |values| :: r[i] == Signed(values[i])
  {
    if values == [] then [] else [Signed(values[0])] + Texts(values[1..])
  }

  /** Numbers, each followed by a separator. */
  function Terminated(values: seq<int>, sep: char): string { Delimited(Texts(values), sep) }

  /** Numbers with separators between them: the last one is taken back. */
  function Joined(values: seq<int>, sep: char): string {
    var t := Terminated(values, sep);
    if t == "" then "" else t[..|t| - 1]
  }

  lemma {:induction false} DelimitedAppend(a: seq<string>, b: seq<string>, sep: char)
    ensures Delimited(a + b, sep) == Delimited(a, sep) + Delimited(b, sep)
  {
    if a == [] {
      assert a + b == b;
    } else {
      assert (a + b)[1..] == a[1..] + b;
      DelimitedAppend(a[1..], b, sep);
    }
  }

  lemma {:induction false} TextsAppend(a: seq<int>, b: seq<int>)
    ensures Texts(a + b) == Texts(a) + Texts(b)
  {
  }

  lemma TerminatedSnoc(values: seq<int>, v: int, sep: char)
    ensures Terminated(values + [v], sep) == Terminated(values, sep) + Signed(v) + [sep]
  {
    TextsAppend(values, [v]);
    DelimitedAppend(Texts(values), [Signed(v)], sep);
    assert Texts([v]) == [Signed(v)];
    assert [Signed(v)][1..] == [];
  }

  lemma TerminatedAppend(a: seq<int>, b: seq<int>, sep: char)
    ensures Terminated(a + b, sep) == Terminated(a, sep) + Terminated(b, sep)
  {
    TextsAppend(a, b);
    DelimitedAppend(Texts(a), Texts(b), sep);
  }

  /** Numbers with a separator after each, or between them, one number at a time. */
  lemma NumbersAre(values: seq<int>, v: int, sep: char)
    ensures Terminated([], sep) == "" && Joined([], sep) == ""
    ensures Terminated(values + [v], sep) == Terminated(values, sep) + Signed(v) + [sep]
    ensures Joined(values + [v], sep) == Terminated(values, sep) + Signed(v)
  {
    TerminatedSnoc(values, v, sep);
  }

  // ----- reading lines back -----

  /** What stands before the first `c`, and what after it. */
  function Until(s: string, c: char): (r: Option<(string, string)>)
    ensures r.Some? ==> |r.value.1| < |s|
  {
    if s == "" then None
    else if s[0] == c then Some(("", s[1..]))
    else
      match Until(s[1..], c)
      case None => None
      case Some((a, b)) => Some(([s[0]] + a, b))
  }

  lemma {:induction false} UntilFirst(a: string, c: char, b: string)
    requires c !in a
    ensures Until(a + [c] + b, c) == Some((a, b))
  {
    var s := a + [c] + b;
    if a == "" {
      assert s[1..] == b;
    } else {
      assert s[1..] == a[1..] + [c] + b;
      UntilFirst(a[1..], c, b);
      assert [s[0]] + a[1..] == a;
    }
  }

  /** Split text in which every field is followed by a separator. */
  function Fields(s: string, sep: char): Option<seq<string>>
    decreases |s|
  {
    if s == "" then Some([])
    else
      var (field, rest) :- Until(s, sep);
      var fields :- Fields(rest, sep);
      Some([field] + fields)
  }

  lemma {:induction false} FieldsRead(fields: seq<string>, sep: char)
    requires forall f | f in fields :: sep !in f
    ensures Fields(Delimited(fields, sep), sep) == Some(fields)
    decreases |fields|
  {
    if fields != [] {
      var rest := fields[1..];
      FieldsRead(rest, sep);
      assert fields[0] in fields;
      UntilFirst(fields[0], sep, Delimited(rest, sep));
      assert fields == [fields[0]] + rest;
    }
  }

  function Ints(fields: seq<string>): Option<seq<int>> {
    if fields == [] then Some([])
    else
      var v :- ReadInt(fields[0]);
      var vs :- Ints(fields[1..]);
      Some([v] + vs)
  }

  lemma {:induction false} IntsRead(values: seq<int>)
    ensures Ints(Texts(values)) == Some(values)
  {
    if values != [] {
      SignedReads(values[0]);
      IntsRead(values[1..]);
      assert Texts(values)[1..] == Texts(values[1..]);
      assert values == [values[0]] + values[1..];
    }
  }

  function ReadInts(s: string, sep: char): Option<seq<int>> {
    var fields :- Fields(s, sep);
    Ints(fields)
  }

  lemma NumbersRead(values: seq<int>, sep: char)
    requires !IsDigit(sep) && sep != '-'
    ensures ReadInts(Terminated(values, sep), sep) == Some(values)
  {
    forall f | f in Texts(values) ensures sep !in f {
      var i :| 0 <= i < |values| && f == Signed(values[i]);
      SignedReads(values[i]);
    }
    FieldsRead(Texts(values), sep);
    IntsRead(values);
  }

  lemma {:induction false} TerminatedIsPlain(values: seq<int>, sep: char)
    ensures forall c | c in Terminated(values, sep) :: IsDigit(c) || c == '-' || c == sep
    ensures values != [] ==> Terminated(values, sep) == Joined(values, sep) + [sep]
  {
    if values != [] {
      SignedReads(values[0]);
      TerminatedIsPlain(values[1..], sep);
      assert Texts(values)[1..] == Texts(values[1..]);
      EndsInSeparator(Texts(values), sep);
    }
  }

  lemma {:induction false} EndsInSeparator(fields: seq<string>, sep: char)
    requires fields != []
    ensures Delimited(fields, sep) != "" && Delimited(fields, sep)[|Delimited(fields, sep)| - 1] == sep
  {
    if |fields| > 1 { EndsInSeparator(fields[1..], sep); }
  }

  // ----- addresses -----

  /** The six bytes in hexadecimal, with colons between them. */
  function MacText(m: Mac, upper: bool): (r: string)
    ensures |r| == 17
  {
    Hex(m[0], upper) + ":" + Hex(m[1], upper) + ":" + Hex(m[2], upper) + ":" +
    Hex(m[3], upper) + ":" + Hex(m[4], upper) + ":" + Hex(m[5], upper)
  }

  function ReadByte(a: char, b: char): Option<byte> {
    var h :- HexValue(a);
    var l :- HexValue(b);
    Some((16 * h + l) as byte)
  }

  function ReadMac(s: string): Option<Mac>
    requires |s| == 17
  {
    var b0 :- ReadByte(s[0], s[1]);
    var b1 :- ReadByte(s[3], s[4]);
    var b2 :- ReadByte(s[6], s[7]);
    var b3 :- ReadByte(s[9], s[10]);
    var b4 :- ReadByte(s[12], s[13]);
    var b5 :- ReadByte(s[15], s[16]);
    Some([b0, b1, b2, b3, b4, b5])
  }

  lemma HexReads(b: byte, upper: bool)
    ensures ReadByte(Hex(b, upper)[0], Hex(b, upper)[1]) == Some(b)
  {
  }

  lemma MacReads(m: Mac, upper: bool)
    ensures ReadMac(MacText(m, upper)) == Some(m)
  {
    HexReads(m[0], upper);
    HexReads(m[1], upper);
    HexReads(m[2], upper);
    HexReads(m[3], upper);
    HexReads(m[4], upper);
    HexReads(m[5], upper);
    hide ReadByte;
    hide HexDigit;
    assert m == [m[0], m[1], m[2], m[3], m[4], m[5]];
  }

  // ----- the array list -----

  function ListHead(columns: seq<int>): string { "[" + Terminated(columns, ',') + "[" }

  function ListLine(columns: seq<int>, samples: seq<int>, mac: Mac): string {
    ListHead(columns) + Joined(samples, ',') + "]," + MacText(mac, false) + "]\r\n"
  }

  /** An array-list line: the columns and the samples in brackets, and the sender in lower case. */
  lemma ListLineIs(columns: seq<int>, samples: seq<int>, mac: Mac)
    ensures ListLine(columns, samples, mac) ==
            "[" + Terminated(columns, ',') + "[" + Joined(samples, ',') + "]," +
            (Hex(mac[0], false) + ":" + Hex(mac[1], false) + ":" + Hex(mac[2], false) + ":" +
             Hex(mac[3], false) + ":" + Hex(mac[4], false) + ":" + Hex(mac[5], false)) + "]\r\n"
  {
    hide Hex;
  }

  function ReadTail(tail: string): Option<Mac> {
    if |tail| != 21 || tail[0] != ',' || tail[18..] != "]\r\n" then None else ReadMac(tail[1..18])
  }

  function ReadSamples(s: string): Option<(seq<int>, Mac)> {
    var (body, tail) :- Until(s, ']');
    var samples :- ReadInts(if body == "" then "" else body + ",", ',');
    var mac :- ReadTail(tail);
    Some((samples, mac))
  }

  function ReadList(line: string): Option<(seq<int>, seq<int>, Mac)> {
    if line == "" || line[0] != '[' then None
    else
      var (head, rest) :- Until(line[1..], '[');
      var columns :- ReadInts(head, ',');
      var (samples, mac) :- ReadSamples(rest);
      Some((columns, samples, mac))
  }

  lemma TailReads(mac: Mac)
    ensures ReadTail("," + MacText(mac, false) + "]\r\n") == Some(mac)
  {
    MacReads(mac, false);
    hide MacText;
    hide ReadMac;
    var tail := "," + MacText(mac, false) + "]\r\n";
    assert tail[1..18] == MacText(mac, false) && tail[18..] == "]\r\n";
  }

  lemma SamplesRead(samples: seq<int>, mac: Mac)
    ensures ReadSamples(Joined(samples, ',') + "]" + ("," + MacText(mac, false) + "]\r\n")) == Some((samples, mac))
  {
    JoinedBody(samples);
    NumbersRead(samples, ',');
    TailReads(mac);
    hide *;
    SamplesReadFrom(Joined(samples, ','), "," + MacText(mac, false) + "]\r\n", samples, mac);
  }

  lemma SamplesReadFrom(body: string, tail: string, samples: seq<int>, mac: Mac)
    requires ']' !in body && ReadTail(tail) == Some(mac)
    requires ReadInts(if body == "" then "" else body + ",", ',') == Some(samples)
    ensures ReadSamples(body + "]" + tail) == Some((samples, mac))
  {
    UntilFirst(body, ']', tail);
    hide Until;
    hide ReadTail;
    hide ReadInts;
  }

  lemma ListReadsFrom(head: string, rest: string, columns: seq<int>, samples: seq<int>, mac: Mac)
    requires '[' !in head && ReadInts(head, ',') == Some(columns) && ReadSamples(rest) == Some((samples, mac))
    ensures ReadList("[" + (head + "[" + rest)) == Some((columns, samples, mac))
  {
    UntilFirst(head, '[', rest);
    hide Until;
    hide ReadSamples;
    hide ReadInts;
    assert ("[" + (head + "[" + rest))[1..] == head + "[" + rest;
  }

  /** Every complete line reads back: its columns, its samples and the address. */
  lemma ListReadsBack(columns: seq<int>, samples: seq<int>, mac: Mac)
    ensures ReadList(ListLine(columns, samples, mac)) == Some((columns, samples, mac))
  {
    var head, body, tail := Terminated(columns, ','), Joined(samples, ','), "," + MacText(mac, false) + "]\r\n";
    TerminatedIsPlain(columns, ',');
    NumbersRead(columns, ',');
    SamplesRead(samples, mac);
    ListReadsFrom(head, body + "]" + tail, columns, samples, mac);
    Regroup(head, body, MacText(mac, false));
    hide Terminated;
    hide Joined;
    hide MacText;
    hide ReadList;
  }

  lemma Regroup(head: string, body: string, mac: string)
    ensures "[" + head + "[" + body + "]," + mac + "]\r\n" ==
            "[" + (head + "[" + (body + "]" + ("," + mac + "]\r\n")))
  {
  }

  lemma JoinedBody(samples: seq<int>)
    ensures ']' !in Joined(samples, ',')
    ensures (if Joined(samples, ',') == "" then "" else Joined(samples, ',') + ",") == Terminated(samples, ',')
  {
    TerminatedIsPlain(samples, ',');
    var t, j := Terminated(samples, ','), Joined(samples, ',');
    assert forall c | c in j :: c in t;
    if samples != [] {
      SignedReads(samples[0]);
      assert |Signed(samples[0])| > 0;
      assert Texts(samples)[0] == Signed(samples[0]);
    }
  }
}
