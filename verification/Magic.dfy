/** ESP-NOW control frames and their optional magic prefix. */
module Magic {
  import opened Bytes
  import opened Postcard

  /** The initiator's magic 0xA8912BF0 and the responder's, its complement, little-endian. */
  const INITIATOR_MAGIC: seq<byte> := [0xF0, 0x2B, 0x91, 0xA8]
  const RESPONDER_MAGIC: seq<byte> := [0x0F, 0xD4, 0x6E, 0x57]

  datatype ControlPacket = ControlPacket(initiatorReports: bool, sequenceNumber: u32)

  function PutControl(p: ControlPacket, rest: Input): (r: Input)
    ensures TakeControl(r) == Some((p, rest)) && |rest| < |r| <= |rest| + 6
  {
    PutBool(p.initiatorReports, PutU32(p.sequenceNumber, rest))
  }

  function TakeControl(bs: Input): Option<(ControlPacket, Input)> {
    var (reports, bs) :- TakeBool(bs);
    var (seqNo, bs) :- TakeU32(bs);
    Some((ControlPacket(reports, seqNo), bs))
  }

  /** A frame: the body, behind the magic when pairing is automatic. */
  function Framed(body: seq<byte>, magic: seq<byte>, sendMagic: bool): seq<byte> {
    if sendMagic then magic + body else body
  }

  /** Write a frame into the caller's buffer. A caller that sends the magic must
      bring room for it; a body that does not fit is an error. */
  method SerializeWithMagic(body: seq<byte>, magic: seq<byte>, sendMagic: bool, buf: array<byte>)
    returns (used: Option<nat>)
    requires |magic| == 4 && (sendMagic ==> buf.Length >= 4)
    modifies buf
    ensures used.Some? <==> |Framed(body, magic, sendMagic)| <= buf.Length
    ensures used.Some? ==> used.value <= buf.Length
                           && buf[..used.value] == Framed(body, magic, sendMagic)
  {
    var at := 0;
    if sendMagic {
      forall k | 0 <= k < 4 { buf[k] := magic[k]; }
      at := 4;
      assert buf[..4] == magic;
    }
    ghost var head := buf[..at];
    if at + |body| > buf.Length { return None; }
    var k := 0;
    while k < |body|
      invariant k <= |body| && buf[..at + k] == head + body[..k]
    {
      buf[at + k] := body[k];
      k := k + 1;
    }
    used := Some(at + |body|);
    assert body[..k] == body;
  }

  /** Parse a control frame, ignoring what follows it. */
  function Parse(data: seq<byte>, magic: seq<byte>, expectMagic: bool): Option<ControlPacket>
    requires |magic| == 4
  {
    if expectMagic && (|data| < 4 || data[..4] != magic) then None
    else
      match TakeControl(if expectMagic then data[4..] else data)
      case None => None
      case Some((p, _)) => Some(p)
  }

  /** Parsing undoes serializing, whatever padding follows, in either pairing mode. */
  lemma ParseSerialized(p: ControlPacket, magic: seq<byte>, withMagic: bool, pad: seq<byte>)
    requires |magic| == 4
    ensures Parse(Framed(PutControl(p, []), magic, withMagic) + pad, magic, withMagic) == Some(p)
  {
    var body := PutControl(p, []);
    var data := Framed(body, magic, withMagic) + pad;
    PutControlPads(p, pad);
    if withMagic { assert data[..4] == magic && data[4..] == body + pad; }
  }

  /** The encoding of a packet does not depend on what comes after it. */
  lemma {:induction false} PutVarintPads(n: nat, rest: Input, pad: Input)
    ensures PutVarint(n, rest) + pad == PutVarint(n, rest + pad)
  {
    if n < 128 {
      assert [n as byte] + rest + pad == [n as byte] + (rest + pad);
    } else {
      PutVarintPads(n / 128, rest, pad);
      var b := (128 + n % 128) as byte;
      assert [b] + PutVarint(n / 128, rest) + pad == [b] + (PutVarint(n / 128, rest) + pad);
    }
  }

  lemma PutControlPads(p: ControlPacket, pad: Input)
    ensures PutControl(p, []) + pad == PutControl(p, pad)
  {
    PutVarintPads(p.sequenceNumber, [], pad);
    assert [] + pad == pad;
    var flag := if p.initiatorReports then 1 as byte else 0;
    assert [flag] + PutU32(p.sequenceNumber, []) + pad == [flag] + (PutU32(p.sequenceNumber, []) + pad);
  }

  /** A frame with the other role's magic is refused. */
  lemma RolesDoNotMix(body: seq<byte>)
    ensures Parse(RESPONDER_MAGIC + body, INITIATOR_MAGIC, true) == None
    ensures Parse(INITIATOR_MAGIC + body, RESPONDER_MAGIC, true) == None
  {
  }

  // ----- scanning a payload -----

  predicate MagicAt(s: seq<byte>, i: nat) { i + 4 <= |s| && s[i..i + 4] == INITIATOR_MAGIC }

  /** Index of the first window equal to the magic, from `i` on. */
  function FindMagic(s: seq<byte>, i: nat := 0): (r: Option<nat>)
    ensures r.None? ==> forall k | i <= k :: !MagicAt(s, k)
    ensures r.Some? ==> i <= r.value && MagicAt(s, r.value) && forall k | i <= k < r.value :: !MagicAt(s, k)
    decreases |s| - i
  {
    if i + 4 > |s| then None
    else if s[i..i + 4] == INITIATOR_MAGIC then Some(i)
    else FindMagic(s, i + 1)
  }

  /** The sounding number of a control frame found anywhere in a payload. */
  function ControlSequenceIn(payload: seq<byte>): Option<u32> {
    match FindMagic(payload)
    case None => None
    case Some(at) =>
      match TakeControl(payload[at + 4..])
      case None => None
      case Some((p, _)) => Some(p.sequenceNumber)
  }

  /** The magic has no border, so it cannot match across the start of a frame. */
  lemma NoStraddle(prefix: seq<byte>, tail: seq<byte>, i: nat)
    requires i < |prefix| && forall k :: !MagicAt(prefix, k)
    ensures !MagicAt(prefix + INITIATOR_MAGIC + tail, i)
  {
    var s := prefix + INITIATOR_MAGIC + tail;
    if i + 4 <= |prefix| {
      assert s[i..i + 4] == prefix[i..i + 4];
      assert !MagicAt(prefix, i);
    } else {
      var d := |prefix| - i;
      assert s[i..i + 4][d] == s[|prefix|] == INITIATOR_MAGIC[0];
      assert INITIATOR_MAGIC[d] != INITIATOR_MAGIC[0];
    }
  }

  /** Behind any prefix that does not itself contain the magic, and before any padding, the number
      found is the frame's own. */
  lemma FindsOwnNumber(prefix: seq<byte>, p: ControlPacket, pad: seq<byte>)
    requires forall k :: !MagicAt(prefix, k)
    ensures ControlSequenceIn(prefix + Framed(PutControl(p, []), INITIATOR_MAGIC, true) + pad)
            == Some(p.sequenceNumber)
  {
    var body := PutControl(p, []);
    var s := prefix + (INITIATOR_MAGIC + body) + pad;
    var n := |prefix|;
    assert s == prefix + INITIATOR_MAGIC + (body + pad);
    forall i | 0 <= i < n ensures !MagicAt(s, i) { NoStraddle(prefix, body + pad, i); }
    assert s[n..n + 4] == INITIATOR_MAGIC;
    assert MagicAt(s, n);
    assert FindMagic(s) == Some(n);
    assert s[n + 4..] == body + pad;
    PutControlPads(p, pad);
  }

  /** Without the magic, as in manual pairing, nothing is found. */
  lemma NothingWithoutMagic(payload: seq<byte>)
    requires forall k :: !MagicAt(payload, k)
    ensures ControlSequenceIn(payload) == None
  {
  }
}
