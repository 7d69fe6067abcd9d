/** The postcard encoding of the Serde data model, as far as the wire contract uses it: LEB128
    varints, zigzag i16, one-byte bools and option tags, varint discriminants and length-prefixed
    sequences (postcard wire format, sections "varint(N) Encoded Integers" and "Serde Data Model
    Types").

    `PutX(x, rest)` is the encoding of `x` in front of `rest`; `TakeX(bytes)` decodes one value and
    returns the bytes after it, as `postcard::take_from_bytes` does. `None` stands for any of
    postcard's decoding errors. Every `Put` promises that `Take` undoes it and how many bytes it
    added. */
module Postcard {
  import opened Bytes

  type Input = seq<byte>

  // ----- varints -----

  datatype Width = W16 | W32 | W64

  /** Most groups of seven bits an integer of the width can take. */
  function Groups(w: Width): nat {
    match w case W16 => 3 case W32 => 5 case W64 => 10
  }

  /** Largest value the final group may hold. */
  function LastMax(w: Width): nat {
    match w case W16 => 3 case W32 => 15 case W64 => 1
  }

  /** One more than the largest value the groups from `i` on can represent. */
  function Room(w: Width, i: nat): (r: nat)
    requires i < Groups(w)
    ensures r >= 1 && (i < Groups(w) - 1 ==> r >= 128)
    decreases Groups(w) - i
  {
    if i == Groups(w) - 1 then LastMax(w) + 1 else 128 * Room(w, i + 1)
  }

  /** The three widths hold exactly the values of u16, u32 and u64. */
  lemma WidthRanges()
    ensures Room(W16, 0) == 0x1_0000
    ensures Room(W32, 0) == 0x1_0000_0000
    ensures Room(W64, 0) == 0x1_0000_0000_0000_0000
  {
  }

  function PutVarint(n: nat, rest: Input): (r: Input)
    ensures |rest| < |r|
    decreases n
  {
    if n < 128 then [n as byte] + rest
    else [(128 + n % 128) as byte] + PutVarint(n / 128, rest)
  }

  /** Decode a varint of width `w`, `i` groups of which are already read. A value that does not fit
      the width is refused; a needlessly long one is not. */
  function TakeVarint(w: Width, s: Input, i: nat := 0): (r: Option<(nat, Input)>)
    requires i <= Groups(w)
    ensures r.Some? ==> i < Groups(w) && r.value.0 < Room(w, i)
    decreases Groups(w) - i
  {
    if i == Groups(w) || s == [] then None
    else if s[0] >= 128 then
      match TakeVarint(w, s[1..], i + 1)
      case None => None
      case Some((v, rest)) => Some((s[0] as int - 128 + 128 * v, rest))
    else if i == Groups(w) - 1 && s[0] as int > LastMax(w) then None
    else Some((s[0] as int, s[1..]))
  }

  lemma Groups7(n: nat, m: nat)
    requires n < 128 * m
    ensures n / 128 < m && n % 128 + 128 * (n / 128) == n
  {
  }

  lemma {:induction false} VarintRoundTrip(w: Width, n: nat, i: nat, rest: Input)
    requires i < Groups(w) && n < Room(w, i)
    ensures TakeVarint(w, PutVarint(n, rest), i) == Some((n, rest))
    ensures |PutVarint(n, rest)| <= |rest| + Groups(w) - i
    decreases Groups(w) - i
  {
    var s := PutVarint(n, rest);
    if n < 128 {
      assert s[1..] == rest;
    } else {
      var more := PutVarint(n / 128, rest);
      assert s == [(128 + n % 128) as byte] + more;
      assert s[1..] == more && s[0] as int - 128 == n % 128;
      Groups7(n, Room(w, i + 1));
      VarintRoundTrip(w, n / 128, i + 1, rest);
    }
  }

  // ----- integers -----

  function PutU8(n: u8, rest: Input): (r: Input)
    ensures TakeU8(r) == Some((n, rest)) && |r| == |rest| + 1 && r[0] as int == n
  {
    var r := [n as byte] + rest;
    assert r[1..] == rest;
    r
  }

  function TakeU8(bs: Input): Option<(u8, Input)> {
    if bs == [] then None else Some((bs[0] as int, bs[1..]))
  }

  /** An i8 is its two's-complement byte. */
  function PutI8(n: i8, rest: Input): (r: Input)
    ensures TakeI8(r) == Some((n, rest)) && |r| == |rest| + 1
  {
    PutU8(if n < 0 then n + 256 else n, rest)
  }

  function TakeI8(bs: Input): Option<(i8, Input)> {
    var (b, bs) :- TakeU8(bs);
    Some((if b < 128 then b else b - 256, bs))
  }

  function PutU16(n: u16, rest: Input): (r: Input)
    ensures TakeU16(r) == Some((n, rest)) && |rest| < |r| <= |rest| + 3
  {
    WidthRanges();
    VarintRoundTrip(W16, n, 0, rest);
    PutVarint(n, rest)
  }

  function TakeU16(bs: Input): Option<(u16, Input)> {
    WidthRanges();
    TakeVarint(W16, bs)
  }

  function PutU32(n: u32, rest: Input): (r: Input)
    ensures TakeU32(r) == Some((n, rest)) && |rest| < |r| <= |rest| + 5
  {
    WidthRanges();
    VarintRoundTrip(W32, n, 0, rest);
    PutVarint(n, rest)
  }

  function TakeU32(bs: Input): Option<(u32, Input)> {
    WidthRanges();
    TakeVarint(W32, bs)
  }

  function PutU64(n: u64, rest: Input): (r: Input)
    ensures TakeU64(r) == Some((n, rest)) && |rest| < |r| <= |rest| + 10
  {
    WidthRanges();
    VarintRoundTrip(W64, n, 0, rest);
    PutVarint(n, rest)
  }

  function TakeU64(bs: Input): Option<(u64, Input)> {
    WidthRanges();
    TakeVarint(W64, bs)
  }

  /** An i16 is zigzagged into a u16 varint: 0, -1, 1, -2, ... */
  function PutI16(n: i16, rest: Input): (r: Input)
    ensures TakeI16(r) == Some((n, rest)) && |rest| < |r| <= |rest| + 3
  {
    PutU16(if n >= 0 then 2 * n else -2 * n - 1, rest)
  }

  function TakeI16(bs: Input): Option<(i16, Input)> {
    var (k, bs) :- TakeU16(bs);
    Some((if k % 2 == 0 then k / 2 else -((k + 1) / 2), bs))
  }

  // ----- bools, options, discriminants -----

  function PutBool(b: bool, rest: Input): (r: Input)
    ensures TakeBool(r) == Some((b, rest)) && |r| == |rest| + 1
  {
    PutU8(if b then 1 else 0, rest)
  }

  function TakeBool(bs: Input): Option<(bool, Input)> {
    var (b, bs) :- TakeU8(bs);
    if b > 1 then None else Some((b == 1, bs))
  }

  /** The tag of an option is encoded like a bool; the value follows a present tag. */
  function PutOptU8(o: Option<u8>, rest: Input): (r: Input)
    ensures TakeOptU8(r) == Some((o, rest)) && |rest| < |r| <= |rest| + 2
  {
    match o case None => PutBool(false, rest) case Some(n) => PutBool(true, PutU8(n, rest))
  }

  function TakeOptU8(bs: Input): Option<(Option<u8>, Input)> {
    var (some, bs) :- TakeBool(bs);
    if !some then Some((None, bs)) else
    var (n, bs) :- TakeU8(bs);
    Some((Some(n), bs))
  }

  function PutOptU16(o: Option<u16>, rest: Input): (r: Input)
    ensures TakeOptU16(r) == Some((o, rest)) && |rest| < |r| <= |rest| + 4
  {
    match o case None => PutBool(false, rest) case Some(n) => PutBool(true, PutU16(n, rest))
  }

  function TakeOptU16(bs: Input): Option<(Option<u16>, Input)> {
    var (some, bs) :- TakeBool(bs);
    if !some then Some((None, bs)) else
    var (n, bs) :- TakeU16(bs);
    Some((Some(n), bs))
  }

  function PutOptU64(o: Option<u64>, rest: Input): (r: Input)
    ensures TakeOptU64(r) == Some((o, rest)) && |rest| < |r| <= |rest| + 11
  {
    match o case None => PutBool(false, rest) case Some(n) => PutBool(true, PutU64(n, rest))
  }

  function TakeOptU64(bs: Input): Option<(Option<u64>, Input)> {
    var (some, bs) :- TakeBool(bs);
    if !some then Some((None, bs)) else
    var (n, bs) :- TakeU64(bs);
    Some((Some(n), bs))
  }

  function PutOptBool(o: Option<bool>, rest: Input): (r: Input)
    ensures TakeOptBool(r) == Some((o, rest)) && |rest| < |r| <= |rest| + 2
  {
    match o case None => PutBool(false, rest) case Some(b) => PutBool(true, PutBool(b, rest))
  }

  function TakeOptBool(bs: Input): Option<(Option<bool>, Input)> {
    var (some, bs) :- TakeBool(bs);
    if !some then Some((None, bs)) else
    var (b, bs) :- TakeBool(bs);
    Some((Some(b), bs))
  }

  /** The discriminant of an enum of `n` variants, all of this contract's being under 128. */
  function PutVariant(k: nat, n: nat, rest: Input): (r: Input)
    requires k < n <= 128
    ensures TakeVariant(n, r) == Some((k, rest)) && |r| == |rest| + 1
  {
    WidthRanges();
    VarintRoundTrip(W32, k, 0, rest);
    PutVarint(k, rest)
  }

  function TakeVariant(n: nat, bs: Input): (r: Option<(nat, Input)>)
    ensures r.Some? ==> r.value.0 < n
  {
    var (k, bs) :- TakeU32(bs);
    if k < n then Some((k, bs)) else None
  }

  // ----- arrays and sequences -----

  /** A fixed-size array has no length prefix. */
  function PutBytes(s: seq<byte>, rest: Input): (r: Input)
    ensures TakeBytes(|s|, r) == Some((s, rest)) && |r| == |rest| + |s|
  {
    var r := s + rest;
    assert r[..|s|] == s && r[|s|..] == rest;
    r
  }

  function TakeBytes(n: nat, bs: Input): (r: Option<(seq<byte>, Input)>)
    ensures r.Some? ==> |r.value.0| == n
  {
    if |bs| < n then None else Some((bs[..n], bs[n..]))
  }

  /** A vector of at most `cap` elements is prefixed by its length, a 64-bit `usize` on the host. */
  function PutVec(s: seq<byte>, cap: nat, rest: Input): (r: Input)
    requires |s| <= cap < 128 * 128
    ensures TakeVec(cap, r) == Some((s, rest)) && |rest| < |r| <= |rest| + |s| + 2
  {
    var body := PutBytes(s, rest);
    WidthRanges();
    VarintRoundTrip(W64, |s|, 0, body);
    PutVarint(|s|, body)
  }

  function TakeVec(cap: nat, bs: Input): (r: Option<(seq<byte>, Input)>)
    ensures r.Some? ==> |r.value.0| <= cap
  {
    var (n, bs) :- TakeU64(bs);
    if n > cap then None else TakeBytes(n, bs)
  }
}
