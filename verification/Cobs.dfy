/** Consistent Overhead Byte Stuffing (Cheshire and Baker, "Consistent Overhead Byte Stuffing",
    IEEE/ACM Transactions on Networking 7(2), 1999), in the streaming form the serializer uses: the
    code byte of a block is written as a placeholder and patched when the block closes, so data
    that ends exactly on a full 254-byte block is followed by an empty final block. */
module Cobs {
  import opened Bytes

  /** Most data bytes in one block. */
  const FULL: nat := 254

  predicate NonZero(s: seq<byte>) { forall i | 0 <= i < |s| :: s[i] != 0 }

  /** Length of the block `s` opens with: the bytes before the first zero, at most `FULL`. */
  function Run(s: seq<byte>): (k: nat)
    ensures k <= |s| && k <= FULL && NonZero(s[..k])
    ensures k < FULL && k < |s| ==> s[k] == 0
  {
    RunFrom(s, 0)
  }

  function RunFrom(s: seq<byte>, i: nat): (k: nat)
    requires i <= |s| && i <= FULL && NonZero(s[..i])
    ensures i <= k <= |s| && k <= FULL && NonZero(s[..k])
    ensures k < FULL && k < |s| ==> s[k] == 0
    decreases |s| - i
  {
    if i == |s| || i == FULL || s[i] == 0 then i else RunFrom(s, i + 1)
  }

  /** What is left to encode once the first block of `s` is written; `None` if it was the last. A
      block that is not full stands for a zero after its data. */
  function Rest(s: seq<byte>): (r: Option<seq<byte>>)
    ensures r.None? ==> Run(s) == |s| < FULL
    ensures r.Some? ==> |r.value| < |s|
    ensures r.Some? ==> s == s[..Run(s)] + (if Run(s) == FULL then [] else [0]) + r.value
  {
    var k := Run(s);
    if k == FULL then
      Some(s[k..])
    else if k == |s| then
      None
    else
      assert s == s[..k] + [s[k]] + s[k + 1..];
      Some(s[k + 1..])
  }

  /** The code byte of a block of `n` data bytes. */
  function Code(n: nat): byte
    requires n <= FULL
  {
    (n + 1) as byte
  }

  /** The encoding of `s`, without the delimiter. */
  function Stuff(s: seq<byte>): seq<byte>
    decreases |s|
  {
    match Rest(s)
    case None => [Code(|s|)] + s
    case Some(next) => [Code(Run(s))] + s[..Run(s)] + Stuff(next)
  }

  /** The decoding of one frame, up to its delimiter if it has one. `None` when a code byte points
      past the end. */
  function Unstuff(f: seq<byte>): Option<seq<byte>>
    decreases |f|
  {
    if f == [] || f[0] == 0 then Some([])
    else if f[0] as int > |f| then None
    else
      var data, rest := f[1..f[0] as int], f[f[0] as int..];
      match Unstuff(rest)
      case None => None
      case Some(more) => Some(data + (if Closes(f[0], rest) then [0] else []) + more)
  }

  /** Whether the block with code `c` stands for a zero after its data. */
  predicate Closes(c: byte, rest: seq<byte>) {
    c != 255 && rest != [] && rest[0] != 0
  }

  /** A frame has no zero byte, so its delimiter is its only one. */
  lemma {:induction false} StuffHasNoZero(s: seq<byte>)
    ensures NonZero(Stuff(s)) && Stuff(s) != []
    decreases |s|
  {
    var next := Rest(s);
    if next.Some? { StuffHasNoZero(next.value); } else { assert s[..|s|] == s; }
  }

  /** Decoding past one block. */
  lemma UnstuffBlock(data: seq<byte>, rest: seq<byte>)
    requires |data| <= FULL
    ensures var c := Code(|data|);
            Unstuff([c] + data + rest) ==
            match Unstuff(rest)
            case None => None
            case Some(more) => Some(data + (if Closes(c, rest) then [0] else []) + more)
  {
  }

  /** Decoding after encoding is the identity, with or without the delimiter. */
  lemma {:induction false} UnstuffStuff(s: seq<byte>, tail: seq<byte>)
    requires tail == [] || tail[0] == 0
    ensures Unstuff(Stuff(s) + tail) == Some(s)
    decreases |s|
  {
    match Rest(s)
    case None =>
      UnstuffBlock(s, tail);
      assert s + [] + [] == s;
    case Some(next) =>
      UnstuffStuff(next, tail);
      StuffHasNoZero(next);
      var data, more := s[..Run(s)], Stuff(next) + tail;
      assert Stuff(s) + tail == [Code(|data|)] + data + more;
      UnstuffBlock(data, more);
  }

  /** Overhead: one byte per started block; a block is closed by a zero or by 254 bytes. */
  lemma {:induction false} StuffLength(s: seq<byte>)
    ensures |s| + 1 <= |Stuff(s)| <= |s| + 1 + |s| / 254
    decreases |s|
  {
    var next := Rest(s);
    if next.Some? { StuffLength(next.value); }
  }

  /** The bound is attained by every run of non-zero bytes. */
  lemma {:induction false} StuffLengthTight(s: seq<byte>)
    requires NonZero(s)
    ensures |Stuff(s)| == |s| + 1 + |s| / 254
    decreases |s|
  {
    var next := Rest(s);
    if next.Some? { StuffLengthTight(next.value); }
  }

  // ----- the encoder, in the caller's buffer -----

  lemma RunIs(s: seq<byte>, k: nat)
    requires k <= |s| && k <= FULL && NonZero(s[..k])
    requires k == FULL || k == |s| || s[k] == 0
    ensures Run(s) == k
  {
  }

  /** Closing a block: `Stuff` of a block's bytes followed by a zero. */
  lemma StuffZero(block: seq<byte>, rest: seq<byte>)
    requires NonZero(block) && |block| < FULL
    ensures Stuff(block + [0] + rest) == [Code(|block|)] + block + Stuff(rest)
  {
    var s := block + [0] + rest;
    assert s[..|block|] == block && s[|block| + 1..] == rest;
    RunIs(s, |block|);
  }

  /** The encoder's state after `i` bytes of `src`: `done` is final and `block` is the data of the
      pending block. */
  ghost predicate Encoding(src: seq<byte>, i: nat, done: seq<byte>, block: seq<byte>) {
    && i <= |src| && NonZero(block) && |block| < FULL
    && Stuff(src) == done + Stuff(block + src[i..])
  }

  /** The encoder is never further than its output is long. */
  lemma EncodingFits(src: seq<byte>, i: nat, done: seq<byte>, block: seq<byte>)
    requires Encoding(src, i, done, block)
    ensures |Stuff(src)| >= |done| + 1 + |block| + (|src| - i)
  {
    StuffLength(block + src[i..]);
  }

  /** The data of the pending block and the finished output after one more byte. */
  ghost function Next(done: seq<byte>, block: seq<byte>, b: byte): (seq<byte>, seq<byte>)
    requires |block| < FULL
  {
    if b == 0 then (done + [Code(|block|)] + block, [])
    else if |block| + 1 == FULL then (done + [255] + (block + [b]), [])
    else (done, block + [b])
  }

  lemma EncodeZero(done: seq<byte>, block: seq<byte>, rest: seq<byte>)
    requires NonZero(block) && |block| < FULL
    ensures done + Stuff(block + [0] + rest) == done + [Code(|block|)] + block + Stuff(rest)
  {
    StuffZero(block, rest);
    var tail := Stuff(rest);
    assert done + ([Code(|block|)] + block + tail) == done + [Code(|block|)] + block + tail;
  }

  lemma EncodeFull(done: seq<byte>, full: seq<byte>, rest: seq<byte>)
    requires NonZero(full) && |full| == FULL
    ensures done + Stuff(full + rest) == done + [255] + full + Stuff(rest)
  {
  }

  /** What the encoding is, block by block: up to 254 bytes without a zero, behind one more than their
      number; a zero that follows a shorter block is dropped, and a full block drops nothing. */
  lemma StuffBlocks(block: seq<byte>, rest: seq<byte>)
    requires |block| <= 254 && forall i | 0 <= i < |block| :: block[i] != 0
    ensures |block| < 254 ==> Stuff(block) == [(|block| + 1) as byte] + block
    ensures |block| < 254 ==> Stuff(block + [0] + rest) == [(|block| + 1) as byte] + block + Stuff(rest)
    ensures |block| == 254 ==> Stuff(block + rest) == [255] + block + Stuff(rest)
  {
    if |block| < 254 {
      StuffShort(block);
      StuffZero(block, rest);
    } else {
      StuffFull(block, rest);
    }
    hide Stuff;
  }

  lemma StuffShort(block: seq<byte>)
    requires NonZero(block) && |block| < FULL
    ensures Stuff(block) == [Code(|block|)] + block
  {
    assert block[..|block|] == block;
    RunIs(block, |block|);
  }

  lemma StuffFull(full: seq<byte>, rest: seq<byte>)
    requires NonZero(full) && |full| == FULL
    ensures Stuff(full + rest) == [255] + full + Stuff(rest)
  {
    assert (full + rest)[..FULL] == full && (full + rest)[FULL..] == rest;
    RunIs(full + rest, FULL);
  }

  /** What decoding reads, block by block, whatever the bytes: it stops at the end or at a zero where a code
      is due, puts a zero back after every block of fewer than 254 bytes that another block follows, and
      fails exactly when a code promises more than there is. */
  lemma UnstuffBlocks(code: byte, data: seq<byte>, rest: seq<byte>)
    ensures Unstuff([]) == Some([]) && Unstuff([0] + rest) == Some([])
    ensures code as int > |data| + 1 ==> Unstuff([code] + data) == None
    ensures code as int == |data| + 1 ==>
              Unstuff([code] + data + rest) ==
              match Unstuff(rest)
              case None => None
              case Some(more) =>
                Some(data + (if |data| < 254 && rest != [] && rest[0] != 0 then [0] else []) + more)
  {
    if code as int == |data| + 1 { UnstuffBlock(data, rest); }
  }

  lemma EncodeStep(src: seq<byte>, i: nat, done: seq<byte>, block: seq<byte>)
    requires Encoding(src, i, done, block) && i < |src|
    ensures var (done', block') := Next(done, block, src[i]); Encoding(src, i + 1, done', block')
  {
    var rest := src[i + 1..];
    assert block + src[i..] == block + [src[i]] + rest;
    assert [] + rest == rest;
    if src[i] == 0 { EncodeZero(done, block, rest); }
    else if |block| + 1 == FULL { EncodeFull(done, block + [src[i]], rest); }
  }

  lemma Regroup(done: seq<byte>, c: byte, block: seq<byte>, b: byte)
    ensures done + [c] + block + [b] == done + [c] + (block + [b])
  {
  }

  lemma EncodeEnd(src: seq<byte>, done: seq<byte>, block: seq<byte>)
    requires Encoding(src, |src|, done, block)
    ensures Stuff(src) == done + [Code(|block|)] + block
  {
    assert block + src[|src|..] == block && block[..|block|] == block;
    RunIs(block, |block|);
  }

  /** Append `b` to the `pos` bytes written so far. */
  method Push(buf: array<byte>, pos: nat, b: byte) returns (ok: bool)
    requires pos <= buf.Length
    modifies buf
    ensures ok == (pos < buf.Length)
    ensures ok ==> buf[..pos + 1] == old(buf[..pos]) + [b]
  {
    ok := pos < buf.Length;
    if ok { buf[pos] := b; }
  }

  /** Replace the placeholder between `done` and `block` by the block's code. */
  method Patch(buf: array<byte>, pos: nat, b: byte, ghost done: seq<byte>, ghost block: seq<byte>, code: nat)
    requires code == |done| && pos == code + 1 + |block| <= buf.Length
    requires exists c :: buf[..pos] == done + [c] + block
    modifies buf
    ensures buf[..pos] == done + [b] + block
  {
    buf[code] := b;
  }

  /** Whether `buf[..pos]` is the finished output, a placeholder at `code` and the pending block. */
  ghost predicate Written(out: seq<byte>, code: nat, done: seq<byte>, block: seq<byte>) {
    && |block| < FULL && code == |done|
    && exists c :: out == done + [c] + block
  }

  /** Feed one byte to the encoder. */
  method EncodeByte(buf: array<byte>, code: nat, pos: nat, b: byte, ghost done: seq<byte>, ghost block: seq<byte>)
    returns (ok: bool, code': nat, pos': nat)
    requires pos <= buf.Length && Written(buf[..pos], code, done, block)
    modifies buf
    ensures var (done', block') := Next(done, block, b);
            && ok == (|done'| + 1 + |block'| <= buf.Length)
            && (ok ==> pos' <= buf.Length && Written(buf[..pos'], code', done', block'))
  {
    code', pos' := code, pos;
    if b == 0 {
      Patch(buf, pos, Code(pos - code - 1), done, block, code);
      ok := Push(buf, pos, 0);
      code', pos' := pos, pos + 1;
      assert ok ==> buf[..pos'] == done + [Code(|block|)] + block + [0] + [];
    } else if pos - code == FULL {
      Patch(buf, pos, 255, done, block, code);
      ok := Push(buf, pos, b);
      if !ok { return; }
      Regroup(done, 255, block, b);
      ok := Push(buf, pos + 1, 0);
      code', pos' := pos + 1, pos + 2;
      assert ok ==> buf[..pos'] == done + [255] + (block + [b]) + [0] + [];
    } else {
      ghost var c :| buf[..pos] == done + [c] + block;
      Regroup(done, c, block, b);
      ok := Push(buf, pos, b);
      pos' := pos + 1;
    }
  }

  /** Encode `src` as one delimited frame into `buf`. Fails exactly when `buf` is too small. */
  method Encode(src: seq<byte>, buf: array<byte>) returns (used: Option<nat>)
    modifies buf
    ensures used.Some? <==> |Stuff(src)| + 1 <= buf.Length
    ensures used.Some? ==> used.value == |Stuff(src)| + 1 && buf[..used.value] == Stuff(src) + [0]
  {
    StuffLength(src);
    hide Stuff;
    hide Next;
    var ok := Push(buf, 0, 0);
    if !ok { return None; }
    var code: nat, pos: nat, i: nat := 0, 1, 0;
    ghost var done: seq<byte>, block: seq<byte> := [], [];
    assert [] + src[0..] == src && [] + Stuff(src) == Stuff(src);
    assert buf[..pos] == [] + [0] + [];
    while i < |src|
      invariant i <= |src| && Encoding(src, i, done, block)
      invariant pos <= buf.Length && Written(buf[..pos], code, done, block)
    {
      EncodeStep(src, i, done, block);
      ghost var (done', block') := Next(done, block, src[i]);
      EncodingFits(src, i + 1, done', block');
      ok, code, pos := EncodeByte(buf, code, pos, src[i], done, block);
      if !ok { return None; }
      done, block, i := done', block', i + 1;
    }
    EncodeEnd(src, done, block);
    Patch(buf, pos, Code(pos - code - 1), done, block, code);
    ok := Push(buf, pos, 0);
    if !ok { return None; }
    used := Some(pos + 1);
  }

  // ----- the decoder, in place -----

  /** What is decoded so far, with what the rest of the frame decodes to, is the whole. */
  ghost predicate Decoding(f: seq<byte>, done: seq<byte>, rest: seq<byte>) {
    match Unstuff(rest)
    case None => Unstuff(f) == None
    case Some(more) => Unstuff(f) == Some(done + more)
  }

  lemma DecodingStart(f: seq<byte>)
    ensures Decoding(f, [], f)
  {
    hide Unstuff;
    if Unstuff(f).Some? { assert [] + Unstuff(f).value == Unstuff(f).value; }
  }

  lemma DecodingFails(f: seq<byte>, done: seq<byte>, rest: seq<byte>)
    requires Decoding(f, done, rest) && rest != [] && rest[0] as int > |rest|
    ensures Unstuff(f) == None
  {
  }

  lemma DecodingEnd(f: seq<byte>, done: seq<byte>, rest: seq<byte>)
    requires Decoding(f, done, rest) && (rest == [] || rest[0] == 0)
    ensures Unstuff(f) == Some(done)
  {
    assert done + [] == done;
  }

  lemma DecodingBlock(f: seq<byte>, done: seq<byte>, data: seq<byte>, rest: seq<byte>)
    requires |data| <= FULL && Decoding(f, done, [Code(|data|)] + data + rest)
    ensures Decoding(f, done + data + (if Closes(Code(|data|), rest) then [0] else []), rest)
  {
    UnstuffBlock(data, rest);
    var zero := if Closes(Code(|data|), rest) then [0] else [];
    if Unstuff(rest).Some? {
      var more := Unstuff(rest).value;
      assert done + (data + zero + more) == done + data + zero + more;
    }
  }

  /** Move the data of the block at `src` down to `dst` and append the zero it stands for. */
  method DecodeBlock(frame: array<byte>, src: nat, dst: nat) returns (end: nat)
    requires dst <= src < frame.Length && frame[src] != 0 && src + frame[src] as int <= frame.Length
    modifies frame
    ensures var next := src + old(frame[src]) as int;
            && frame[next..] == old(frame[next..])
            && dst <= end <= next
            && frame[..end] == old(frame[..dst]) + old(frame[src + 1..next])
                               + (if Closes(old(frame[src]), frame[next..]) then [0] else [])
  {
    var c := frame[src];
    var s, next := src + 1, src + c as int;
    end := dst;
    while s < next
      invariant src < s <= next && end - dst == s - src - 1
      invariant frame[..end] == old(frame[..dst] + frame[src + 1..s])
      invariant frame[s..] == old(frame[s..])
    {
      assert frame[s] == frame[s..][0];
      frame[end] := frame[s];
      s, end := s + 1, end + 1;
    }
    if c != 255 && s < frame.Length && frame[s] != 0 {
      frame[end] := 0;
      end := end + 1;
    }
  }

  /** Decode `frame` in place; the data ends up in its first `len.value` bytes. */
  method DecodeInPlace(frame: array<byte>) returns (len: Option<nat>)
    modifies frame
    ensures len.Some? <==> Unstuff(old(frame[..])).Some?
    ensures len.Some? ==> len.value <= frame.Length
    ensures len.Some? ==> frame[..len.value] == Unstuff(old(frame[..])).value
  {
    hide Unstuff;
    hide Decoding;
    ghost var f := frame[..];
    var src, dst := 0, 0;
    DecodingStart(f);
    assert f[0..] == f && frame[..0] == [];
    while src < frame.Length && frame[src] != 0
      invariant 0 <= dst <= src <= frame.Length
      invariant frame[src..] == f[src..]
      invariant Decoding(f, frame[..dst], f[src..])
      decreases frame.Length - src
    {
      ghost var done, here := frame[..dst], f[src..];
      var c := frame[src];
      assert here[0] == frame[src..][0] == c;
      if src + c as int > frame.Length {
        DecodingFails(f, done, here);
        return None;
      }
      var next := src + c as int;
      ghost var data := frame[src + 1..next];
      assert here == [c] + data + f[next..];
      assert frame[next..] == f[next..];
      DecodingBlock(f, done, data, f[next..]);
      dst := DecodeBlock(frame, src, dst);
      src := next;
    }
    assert src < frame.Length ==> f[src..][0] == frame[src..][0];
    DecodingEnd(f, frame[..dst], f[src..]);
    len := Some(dst);
  }
}
