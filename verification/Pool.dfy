/** The static receive pool: the radio's callback copies each ESP-NOW frame into one of sixteen slots,
    and the driver tasks take them out in order. How the queue and its waker behave under
    interleaving is `Handoff`; this is what goes through it. */
module Pool {
  import opened Bytes
  import opened Magic

  const MAX_DATA: nat := 250
  const CAPACITY: nat := 16

  /** A slot: the sender, a fixed buffer and how much of it is payload. */
  datatype PoolFrame = PoolFrame(src: Mac, buf: seq<byte>, len: u16) {
    predicate Fits() { |buf| == MAX_DATA && len <= MAX_DATA }

    function Data(): seq<byte>
      requires Fits()
    {
      buf[..len]
    }
  }

  /** What the driver hands to the callback. Either pointer may be null, and so may the sender's
      address; the length is a C `int`. */
  datatype Indication = Indication(info: Option<Option<Mac>>, data: Option<seq<byte>>, length: int)

  /** The driver's side of the C contract: the buffer is as long as it says. */
  predicate Readable(i: Indication) { i.data.Some? && i.length > 0 ==> |i.data.value| >= i.length }

  /** The sender and payload a callback admits, if any: a frame is cut to what a slot holds. */
  function Admitted(i: Indication): (r: Option<(Mac, seq<byte>)>)
    requires Readable(i)
  {
    if i.info.None? || i.data.None? || i.length <= 0 then None
    else
      var src := match i.info.value case None => [0, 0, 0, 0, 0, 0] case Some(m) => m;
      Some((src, i.data.value[..if i.length < MAX_DATA then i.length else MAX_DATA]))
  }

  /** What a frame in the pool stands for. */
  function Payload(f: PoolFrame): (Mac, seq<byte>)
    requires f.Fits()
  {
    (f.src, f.Data())
  }

  function Payloads(fs: seq<PoolFrame>): (r: seq<(Mac, seq<byte>)>)
    requires forall f | f in fs :: f.Fits()
    ensures |r| == |fs| && forall i | 0 <= i < |fs| :: r[i] == Payload(fs[i])
  {
    if fs == [] then [] else [Payload(fs[0])] + Payloads(fs[1..])
  }

  lemma PayloadsSnoc(fs: seq<PoolFrame>, f: PoolFrame)
    requires (forall g | g in fs :: g.Fits()) && f.Fits()
    ensures forall g | g in fs + [f] :: g.Fits()
    ensures Payloads(fs + [f]) == Payloads(fs) + [Payload(f)]
  {
  }

  /** The newest frame is the one dropped when every slot is taken. */
  function Enqueued(queue: seq<(Mac, seq<byte>)>, frame: Option<(Mac, seq<byte>)>): seq<(Mac, seq<byte>)> {
    if frame.Some? && |queue| < CAPACITY then queue + [frame.value] else queue
  }

  /** What waits after a run of callbacks with nothing taken out. */
  function Waiting(queue: seq<(Mac, seq<byte>)>, run: seq<Indication>): seq<(Mac, seq<byte>)>
    requires forall k | 0 <= k < |run| :: Readable(run[k])
  {
    if run == [] then queue
    else
      Enqueued(Waiting(queue, run[..|run| - 1]), Admitted(run[|run| - 1]))
  }

  /** Of a burst of frames the pool keeps the first that fit, not the newest, each cut to 250 bytes and a
      missing sender as the zero address. */
  lemma {:induction false} BurstKeepsTheFirst(queue: seq<(Mac, seq<byte>)>, run: seq<Indication>)
    requires |queue| <= 16 && forall k | 0 <= k < |run| :: Readable(run[k])
    requires forall k | 0 <= k < |run| :: run[k].info.Some? && run[k].data.Some? && run[k].length > 0
    ensures var w := Waiting(queue, run);
            && |w| == (if |queue| + |run| < 16 then |queue| + |run| else 16) && queue <= w
            && forall k | |queue| <= k < |w| ::
                 var i := run[k - |queue|];
                 w[k] == (match i.info.value case None => [0, 0, 0, 0, 0, 0] case Some(m) => m,
                          i.data.value[..if i.length < 250 then i.length else 250])
  {
    if run != [] {
      BurstKeepsTheFirst(queue, run[..|run| - 1]);
    }
  }

  /** An indication without a sender record, without data, or of no length leaves the pool alone. */
  lemma NothingAdmitted(queue: seq<(Mac, seq<byte>)>, i: Indication)
    requires Readable(i)
    ensures Enqueued(queue, Admitted(i)) == queue <==>
            i.info.None? || i.data.None? || i.length <= 0 || |queue| >= 16
  {
  }

  class FramePool {
    var queue: seq<PoolFrame>
    var rawDrop: bool
    var rawCallback: bool
    var handedRaw: seq<seq<byte>>
    var wakes: nat

    ghost predicate Valid()
      reads this
    {
      |queue| <= CAPACITY && forall f | f in queue :: f.Fits()
    }

    ghost function Contents(): seq<(Mac, seq<byte>)>
      requires Valid()
      reads this
    {
      Payloads(queue)
    }

    constructor ()
      ensures Valid() && Contents() == [] && !rawDrop && !rawCallback && handedRaw == [] && wakes == 0
    {
      queue, rawDrop, rawCallback, handedRaw, wakes := [], false, false, [], 0;
    }

    /** Raw-drop mode hands the payload to a registered callback and keeps nothing; otherwise the
        frame is copied into a slot and the consumer is woken, also when the frame was dropped. */
    method Receive(i: Indication)
      requires Valid() && Readable(i)
      modifies this`queue, this`wakes, this`handedRaw
      ensures Valid()
      ensures Contents() == Enqueued(old(Contents()), if rawDrop then None else Admitted(i))
      ensures wakes == old(wakes) + if !rawDrop && Admitted(i).Some? then 1 else 0
      ensures handedRaw == if rawDrop && rawCallback && i.data.Some? && i.length > 0
                           then old(handedRaw) + [i.data.value[..if i.length < MAX_DATA then i.length else MAX_DATA]]
                           else old(handedRaw)
    {
      hide Payloads;
      var len: nat := if i.length <= 0 then 0 else if i.length < MAX_DATA then i.length else MAX_DATA;
      if rawDrop {
        if rawCallback && i.data.Some? && i.length > 0 { handedRaw := handedRaw + [i.data.value[..len]]; }
        return;
      }
      if i.info.None? || i.data.None? || i.length <= 0 { return; }
      var frame := CopyFrame(i.info.value, i.data.value, len);
      if |queue| < CAPACITY {
        PayloadsSnoc(queue, frame);
        queue := queue + [frame];
      }
      wakes := wakes + 1;
    }

    method Take() returns (frame: Option<PoolFrame>)
      requires Valid()
      modifies this`queue
      ensures Valid()
      ensures frame.None? <==> old(Contents()) == []
      ensures frame.None? ==> Contents() == []
      ensures frame.Some? ==> frame.value.Fits() && old(Contents()) == [Payload(frame.value)] + Contents()
    {
      if queue == [] { return None; }
      frame := Some(queue[0]);
      assert queue[0] in queue;
      queue := queue[1..];
    }
  }

  /** A frame whose sender's address is missing is kept as from the zero address. */
  method CopyAddress(src: Option<Mac>) returns (mac: Mac)
    ensures mac == match src case None => [0, 0, 0, 0, 0, 0] case Some(m) => m
  {
    var address := new byte[6](i => 0);
    if src.None? {
      assert address[..] == [0, 0, 0, 0, 0, 0];
      return address[..];
    }
    var i := 0;
    while i < 6
      invariant i <= 6 && address[..i] == src.value[..i]
    {
      address[i] := src.value[i];
      i := i + 1;
    }
    assert address[..6] == address[..] && src.value[..6] == src.value;
    mac := address[..];
  }

  method CopyFrame(src: Option<Mac>, data: seq<byte>, len: nat) returns (frame: PoolFrame)
    requires len <= MAX_DATA && len <= |data|
    ensures frame.Fits() && frame.Data() == data[..len]
    ensures frame.src == match src case None => [0, 0, 0, 0, 0, 0] case Some(m) => m
    ensures forall k | len <= k < MAX_DATA :: frame.buf[k] == 0
  {
    var address := CopyAddress(src);
    var buf := new byte[MAX_DATA](i => 0);
    var i := 0;
    while i < len
      invariant i <= len && buf[..i] == data[..i]
      invariant forall k | i <= k < MAX_DATA :: buf[k] == 0
    {
      buf[i] := data[i];
      i := i + 1;
    }
    frame := PoolFrame(address, buf[..], len);
    assert frame.buf[..len] == buf[..len];
  }

  /** A control packet passes through a slot unharmed: the responder takes the same packet out of the
      pool that the initiator's frame carries, whatever it is padded with and even where the padding
      is cut off. */
  lemma ControlSurvivesThePool(p: ControlPacket, withMagic: bool, pad: seq<byte>, src: Mac)
    ensures var frame := Framed(PutControl(p, []), INITIATOR_MAGIC, withMagic) + pad;
            var admitted := Admitted(Indication(Some(Some(src)), Some(frame), |frame|));
            && admitted.Some? && admitted.value.0 == src
            && Parse(admitted.value.1, INITIATOR_MAGIC, withMagic) == Some(p)
  {
    var body := Framed(PutControl(p, []), INITIATOR_MAGIC, withMagic);
    assert 0 < |body| <= 10;
    var frame := body + pad;
    var kept := if |frame| < MAX_DATA then |frame| else MAX_DATA;
    assert frame[..kept] == body + pad[..kept - |body|];
    ParseSerialized(p, INITIATOR_MAGIC, withMagic, pad[..kept - |body|]);
  }
}
