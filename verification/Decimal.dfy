/** Decimal text: what it is, how it reads back, and the byte-level writers that produce it. */
module Decimal {
  import opened Arith
  import opened Bytes

  function Digit(d: nat): char
    requires d < 10
  {
    (48 + d) as char
  }

  predicate IsDigit(c: char) { '0' <= c <= '9' }

  /** Digits without leading zeros; nothing at all for zero. */
  function Stripped(n: nat): string { if n == 0 then "" else Stripped(n / 10) + [Digit(n % 10)] }

  function Natural(n: nat): string { if n == 0 then "0" else Stripped(n) }

  function Signed(i: int): string { if i < 0 then "-" + Natural(-i) else Natural(i) }

  /** The last `w` digits, leading zeros included. */
  function Padded(n: nat, w: nat): (s: string)
    ensures |s| == w
    decreases w
  {
    if w == 0 then "" else Padded(n / 10, w - 1) + [Digit(n % 10)]
  }

  // ----- reading back -----

  predicate AllDigits(s: string) { forall i | 0 <= i < |s| :: IsDigit(s[i]) }

  function Value(s: string): nat
    requires AllDigits(s)
  {
    if s == "" then 0 else 10 * Value(s[..|s| - 1]) + (s[|s| - 1] as int - 48)
  }

  function ReadNatural(s: string): Option<nat> {
    if s == "" || !AllDigits(s) then None else Some(Value(s))
  }

  function ReadInt(s: string): Option<int> {
    if s != "" && s[0] == '-' then
      match ReadNatural(s[1..])
      case None => None
      case Some(n) =>
        var i: int := n;
        Some(-i)
    else
      match ReadNatural(s)
      case None => None
      case Some(n) => Some(n)
  }

  lemma {:induction false} StrippedReads(n: nat)
    ensures AllDigits(Stripped(n)) && Value(Stripped(n)) == n
    ensures n > 0 ==> Stripped(n) != ""
  {
    if n > 0 {
      StrippedReads(n / 10);
      assert Stripped(n)[..|Stripped(n)| - 1] == Stripped(n / 10);
    }
  }

  lemma {:induction false} PaddedReads(n: nat, w: nat)
    requires n < Power10(w)
    ensures AllDigits(Padded(n, w)) && Value(Padded(n, w)) == n
    decreases w
  {
    if w > 0 {
      PaddedReads(n / 10, w - 1);
      assert Padded(n, w)[..w - 1] == Padded(n / 10, w - 1);
    }
  }

  function Power10(w: nat): (r: nat)
    ensures r > 0
  {
    if w == 0 then 1 else 10 * Power10(w - 1)
  }

  lemma NaturalReads(n: nat)
    ensures Natural(n) != "" && AllDigits(Natural(n)) && Value(Natural(n)) == n
  {
    StrippedReads(n);
    if n == 0 { assert Value("0"[..0]) == 0; }
  }

  /** Every integer reads back from its text, which is digits after an optional sign. */
  lemma SignedReads(i: int)
    ensures ReadInt(Signed(i)) == Some(i)
    ensures forall c | c in Signed(i) :: IsDigit(c) || c == '-'
  {
    var n := if i < 0 then -i else i;
    NaturalReads(n);
    hide Natural;
    hide Value;
    assert IsDigit(Natural(n)[0]);
    if i < 0 { assert Signed(i)[1..] == Natural(n); }
  }

  lemma {:induction false} StrippedWidth(n: nat, w: nat)
    requires n < Power10(w)
    ensures |Stripped(n)| <= w
    decreases w
  {
    if n > 0 && w > 0 { StrippedWidth(n / 10, w - 1); }
  }

  /** Widths of the integers the printers meet. */
  lemma Widths(i: int)
    ensures -0x80 <= i < 0x100 ==> |Signed(i)| <= 4
    ensures -0x8000 <= i < 0x1_0000 ==> |Signed(i)| <= 6
    ensures -0x8000_0000 <= i < 0x1_0000_0000 ==> |Signed(i)| <= 11
    ensures 0 <= i < 10_000 ==> |Signed(i)| <= 4
  {
    var n := if i < 0 then -i else i;
    assert Power10(3) == 1000;
    assert Power10(4) == 10_000 && Power10(5) == 100_000;
    assert Power10(7) == 10_000_000;
    assert Power10(10) == 10_000_000_000;
    if n < 1000 { StrippedWidth(n, 3); }
    if n < 10_000 { StrippedWidth(n, 4); }
    if n < 100_000 { StrippedWidth(n, 5); }
    if n < 10_000_000_000 { StrippedWidth(n, 10); }
  }

  // ----- the digits themselves -----

  lemma {:induction false} StrippedDigits(n: nat, k: nat)
    ensures var s := Stripped(n);
            && n < Power10(|s|) && (n > 0 ==> s != "" && Power10(|s| - 1) <= n)
            && (k < |s| ==> s[|s| - 1 - k] as int == 48 + n / Power10(k) % 10)
  {
    if n > 0 {
      var s, rest := Stripped(n), Stripped(n / 10);
      StrippedDigits(n / 10, if k == 0 then 0 else k - 1);
      assert s == rest + [Digit(n % 10)];
      hide Stripped;
      if k > 0 {
        DivOfDiv(n, 10, Power10(k - 1));
        assert k < |s| ==> s[|s| - 1 - k] == rest[|rest| - k];
      }
    }
  }

  /** The text of an integer: a minus sign if it is negative, then the ASCII digits of its absolute value, the
      lowest last, and no more of them than it takes. */
  lemma SignedDigits(i: int, k: nat)
    ensures var n := if i < 0 then -i else i;
            var sign := if i < 0 then "-" else "";
            var s := Signed(i);
            && |s| > |sign| && s[..|sign|] == sign && n < Power10(|s| - |sign|)
            && (|s| > |sign| + 1 ==> Power10(|s| - |sign| - 1) <= n)
            && (k < |s| - |sign| ==> s[|s| - 1 - k] as int == 48 + n / Power10(k) % 10)
  {
    StrippedDigits(if i < 0 then -i else i, k);
    if i == 0 { assert Power10(1) == 10 * Power10(0); }
  }

  /** Padded text is the lowest digits, leading zeros included. */
  lemma {:induction false} PaddedDigits(n: nat, w: nat, k: nat)
    requires k < w
    ensures Padded(n, w)[w - 1 - k] as int == 48 + n / Power10(k) % 10
    decreases w
  {
    if k > 0 {
      PaddedDigits(n / 10, w - 1, k - 1);
      DivOfDiv(n, 10, Power10(k - 1));
    }
  }

  // ----- the writers: each appends its text at `pos` and returns where it ends -----

  /** One sample and a separator, with no division beyond its three digits. */
  method WriteI8Sep(buf: array<char>, pos: nat, val: i8, sep: char) returns (end: nat)
    requires pos + |Signed(val)| + 1 <= buf.Length
    modifies buf
    ensures end == pos + |Signed(val)| + 1 <= pos + 5
    ensures buf[..end] == old(buf[..pos]) + Signed(val) + [sep]
  {
    Widths(val);
    ghost var before := buf[..pos];
    var o, n: int := pos, val;
    if n < 0 {
      buf[o] := '-';
      o, n := o + 1, -n;
    }
    ghost var sign := if val < 0 then "-" else "";
    assert buf[..o] == before + sign;
    o := WriteMagnitude(buf, o, n);
    assert before + sign + Natural(n) == before + Signed(val);
    buf[o] := sep;
    end := o + 1;
  }

  method WriteMagnitude(buf: array<char>, pos: nat, n: nat) returns (end: nat)
    requires n < 1000 && pos + |Natural(n)| <= buf.Length
    modifies buf
    ensures end == pos + |Natural(n)|
    ensures buf[..end] == old(buf[..pos]) + Natural(n)
  {
    SmallNatural(n);
    hide Natural;
    if n >= 100 {
      buf[pos], buf[pos + 1], buf[pos + 2] := Digit(n / 100), Digit(n / 10 % 10), Digit(n % 10);
      end := pos + 3;
    } else if n >= 10 {
      buf[pos], buf[pos + 1] := Digit(n / 10), Digit(n % 10);
      end := pos + 2;
    } else {
      buf[pos] := Digit(n);
      end := pos + 1;
    }
  }

  lemma SmallNatural(n: nat)
    requires n < 1000
    ensures Natural(n) == if n >= 100 then [Digit(n / 100), Digit(n / 10 % 10), Digit(n % 10)]
                          else if n >= 10 then [Digit(n / 10), Digit(n % 10)]
                          else [Digit(n)]
  {
    if n >= 10 {
      var m := n / 10;
      assert m / 10 == n / 100;
      assert Stripped(n) == Stripped(m) + [Digit(n % 10)];
      if m >= 10 {
        assert Stripped(m) == Stripped(m / 10) + [Digit(m % 10)];
        assert m / 10 < 10 && Stripped(m / 10) == Stripped(0) + [Digit(m / 10)];
      } else {
        assert Stripped(m) == Stripped(0) + [Digit(m)];
      }
    } else if n > 0 {
      assert Stripped(n) == Stripped(0) + [Digit(n)];
    }
  }

  function Reversed(s: string): (r: string)
    ensures |r| == |s|
  {
    if s == "" then "" else Reversed(s[1..]) + [s[0]]
  }

  lemma {:induction false} ReversedSnoc(s: string, c: char)
    ensures Reversed(s + [c]) == [c] + Reversed(s)
  {
    if s == "" {
      assert Reversed([c]) == Reversed([c][1..]) + [c];
    } else {
      assert (s + [c])[1..] == s[1..] + [c];
      ReversedSnoc(s[1..], c);
    }
  }

  /** A 32-bit number, its digits collected backwards and copied out. */
  method WriteU32(buf: array<char>, pos: nat, n: u32) returns (end: nat)
    requires pos + |Natural(n)| <= buf.Length
    modifies buf
    ensures end == pos + |Natural(n)|
    ensures buf[..end] == old(buf[..pos]) + Natural(n)
  {
    if n == 0 {
      buf[pos] := '0';
      return pos + 1;
    }
    var tmp := new char[10];
    var i := DigitsBackwards(tmp, n);
    end := CopyBackwards(buf, pos, tmp, i);
  }

  method DigitsBackwards(tmp: array<char>, n: u32) returns (i: nat)
    requires tmp.Length == 10 && n > 0
    modifies tmp
    ensures i <= 10 && Stripped(n) == Reversed(tmp[..i])
  {
    var m: nat := n;
    i := 0;
    ghost var w: nat := 10;
    assert Power10(10) == 10_000_000_000;
    assert Stripped(n) + Reversed(tmp[..0]) == Stripped(n);
    while m > 0
      invariant i + w == 10 && m < Power10(w)
      invariant Stripped(n) == Stripped(m) + Reversed(tmp[..i])
    {
      ghost var r := Reversed(tmp[..i]);
      assert w > 0;
      tmp[i] := Digit(m % 10);
      assert tmp[..i + 1] == tmp[..i] + [Digit(m % 10)];
      ReversedSnoc(tmp[..i], Digit(m % 10));
      assert Stripped(m) + r == Stripped(m / 10) + ([Digit(m % 10)] + r);
      m := m / 10;
      i, w := i + 1, w - 1;
    }
    assert Stripped(0) + Reversed(tmp[..i]) == Reversed(tmp[..i]);
  }

  method CopyBackwards(buf: array<char>, pos: nat, tmp: array<char>, count: nat) returns (end: nat)
    requires buf != tmp && count <= tmp.Length && pos + count <= buf.Length
    modifies buf
    ensures end == pos + count
    ensures buf[..end] == old(buf[..pos]) + Reversed(old(tmp[..count]))
  {
    var i := count;
    end := pos;
    ghost var before, all := buf[..pos], tmp[..count];
    while i > 0
      invariant 0 <= i <= count && end == pos + (count - i)
      invariant buf[..end] + Reversed(tmp[..i]) == before + Reversed(all)
      invariant tmp[..count] == all
    {
      i := i - 1;
      assert tmp[..i + 1] == tmp[..i] + [tmp[i]];
      ReversedSnoc(tmp[..i], tmp[i]);
      ghost var done, r := buf[..end], Reversed(tmp[..i]);
      assert done + ([tmp[i]] + r) == done + [tmp[i]] + r;
      buf[end] := tmp[i];
      end := end + 1;
      assert buf[..end] == done + [tmp[i]];
    }
    assert buf[..end] + Reversed(tmp[..0]) == buf[..end];
  }

  /** A signed number; its magnitude is taken in 64 bits, so the least one is safe. */
  method WriteI32(buf: array<char>, pos: nat, n: int) returns (end: nat)
    requires -0x8000_0000 <= n < 0x8000_0000
    requires pos + |Signed(n)| <= buf.Length
    modifies buf
    ensures end == pos + |Signed(n)|
    ensures buf[..end] == old(buf[..pos]) + Signed(n)
  {
    hide Natural;
    if n < 0 {
      ghost var before := buf[..pos];
      buf[pos] := '-';
      assert buf[..pos + 1] == before + "-";
      end := WriteU32(buf, pos + 1, -n);
      assert before + "-" + Natural(-n) == before + Signed(n);
    } else {
      end := WriteU32(buf, pos, n);
    }
  }

  /** The fraction of a second, six digits wide. */
  method WriteU32Pad6(buf: array<char>, pos: nat, n: u32) returns (end: nat)
    requires pos + 6 <= buf.Length
    modifies buf
    ensures end == pos + 6
    ensures buf[..end] == old(buf[..pos]) + Padded(n, 6)
  {
    var tmp := new char[6](i => '0');
    PaddedBackwards(tmp, n);
    assert tmp[..6] == tmp[..];
    end := CopyBackwards(buf, pos, tmp, 6);
  }

  method PaddedBackwards(tmp: array<char>, n: u32)
    requires tmp.Length == 6 && forall k | 0 <= k < 6 :: tmp[k] == '0'
    modifies tmp
    ensures Padded(n, 6) == Reversed(tmp[..])
  {
    hide Padded;
    hide Reversed;
    var m: nat := n;
    var i := 0;
    NothingWritten(Padded(n, 6), tmp[..0]);
    while m > 0 && i < 6
      invariant 0 <= i <= 6
      invariant Padded(n, 6) == Padded(m, 6 - i) + Reversed(tmp[..i])
      invariant forall k | i <= k < 6 :: tmp[k] == '0'
      decreases 6 - i
    {
      PaddedStep(m, 6 - i, tmp[..i]);
      tmp[i] := Digit(m % 10);
      assert tmp[..i + 1] == tmp[..i] + [Digit(m % 10)];
      m := m / 10;
      i := i + 1;
    }
    ghost var done := tmp[..i];
    if i == 6 {
      assert done == tmp[..];
      assert Padded(m, 0) == "" && "" + Reversed(done) == Reversed(done);
    } else {
      assert tmp[..] == done + seq(6 - i, k => '0');
      Zeros(done, 6 - i);
    }
  }

  lemma NothingWritten(s: string, none: string)
    requires none == ""
    ensures s == s + Reversed(none)
  {
  }

  /** One digit moves from the number to the digits collected backwards. */
  lemma PaddedStep(m: nat, w: nat, done: string)
    requires w > 0
    ensures Padded(m, w) + Reversed(done) == Padded(m / 10, w - 1) + Reversed(done + [Digit(m % 10)])
  {
    ReversedSnoc(done, Digit(m % 10));
    hide Reversed;
    assert Padded(m / 10, w - 1) + [Digit(m % 10)] + Reversed(done) ==
           Padded(m / 10, w - 1) + ([Digit(m % 10)] + Reversed(done));
  }

  /** Zeros left over in front of the digits are the digits of zero. */
  lemma {:induction false} Zeros(done: string, w: nat)
    ensures Reversed(done + seq(w, k => '0')) == Padded(0, w) + Reversed(done)
  {
    if w == 0 {
      assert done + seq(0, k => '0') == done;
    } else {
      assert done + seq(w, k => '0') == (done + seq(w - 1, k => '0')) + ['0'];
      ReversedSnoc(done + seq(w - 1, k => '0'), '0');
      Zeros(done, w - 1);
      PaddedZero(w);
      assert ['0'] + (Padded(0, w - 1) + Reversed(done)) == (['0'] + Padded(0, w - 1)) + Reversed(done);
    }
  }

  lemma {:induction false} PaddedZero(w: nat)
    requires w > 0
    ensures Padded(0, w) == ['0'] + Padded(0, w - 1)
  {
    if w > 1 {
      PaddedZero(w - 1);
      assert Padded(0, w) == (['0'] + Padded(0, w - 2)) + ['0'];
    }
  }

  // ----- hexadecimal -----

  /** One hexadecimal digit, in upper or lower case. */
  function HexDigit(d: nat, upper: bool): char
    requires d < 16
  {
    if d < 10 then (48 + d) as char else (d - 10 + if upper then 65 else 97) as char
  }

  function Hex(b: byte, upper: bool): (s: string)
    ensures |s| == 2
  {
    [HexDigit(b as int / 16, upper), HexDigit(b as int % 16, upper)]
  }

  lemma HexDigits(b: byte)
    ensures Hex(b, true) == ["0123456789ABCDEF"[b as int / 16], "0123456789ABCDEF"[b as int % 16]]
    ensures Hex(b, false) == ["0123456789abcdef"[b as int / 16], "0123456789abcdef"[b as int % 16]]
  {
    HexDigitIs(b as int / 16);
    HexDigitIs(b as int % 16);
    hide HexDigit;
  }

  lemma HexDigitIs(d: nat)
    requires d < 16
    ensures HexDigit(d, true) == "0123456789ABCDEF"[d] && HexDigit(d, false) == "0123456789abcdef"[d]
  {
  }

  function HexValue(c: char): Option<nat> {
    if '0' <= c <= '9' then Some(c as int - 48)
    else if 'A' <= c <= 'F' then Some(c as int - 55)
    else if 'a' <= c <= 'f' then Some(c as int - 87)
    else None
  }

  /** The upper-case form the tool's lines use. */
  method WriteHexU8(buf: array<char>, pos: nat, b: byte) returns (end: nat)
    requires pos + 2 <= buf.Length
    modifies buf
    ensures end == pos + 2
    ensures buf[..end] == old(buf[..pos]) + Hex(b, true)
  {
    buf[pos], buf[pos + 1] := HexDigit(b as int / 16, true), HexDigit(b as int % 16, true);
    end := pos + 2;
  }

  method WriteSlice(buf: array<char>, pos: nat, s: string) returns (end: nat)
    requires pos + |s| <= buf.Length
    modifies buf
    ensures end == pos + |s|
    ensures buf[..end] == old(buf[..pos]) + s
  {
    forall k | 0 <= k < |s| { buf[pos + k] := s[k]; }
    end := pos + |s|;
  }
}
