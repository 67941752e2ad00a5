/**
 Block download: what BlockDownloadStream does against a server that follows section 7.2.4.3 of
 CiA 301. The server keeps the segments it received in order and, at the end of each block, says
 how many those were and how large the next block may be; what it says is read from a script.
 */
module BlockDownload {
  import opened Bits
  import opened Crc
  import opened SdoFrames
  import opened Wrappers

  type BlockSize = n: nat | 1 <= n <= 127 witness 1

  /** A block response: this many segments at the end of the block were lost, and the next block size. */
  datatype Ack = Ack(lost: nat, blksize: BlockSize)

  datatype BlockError = NoResponse | AllDataSent

  /** What write returns: bytes taken, nothing because the slice is too short, or an exception. */
  datatype Outcome = Taken(count: nat) | TooShort | Raised(error: BlockError)

  /**
   The stream, the frames of the current block on the wire, the bytes the server has acknowledged,
   whether it has seen the end marker, and its responses to come. fed holds the bytes given to the checksum.
   */
  datatype Stream = Stream(
    size: Option<nat>, pos: int, done: bool, seqno: nat, fed: seq<Byte>, lastBytesSent: nat, currentBlock: seq<seq<Byte>>,
    retransmitting: bool, blksize: nat, crcSupported: bool,
    wire: seq<Frame>, acknowledged: seq<Byte>, ended: bool, acks: seq<Ack>)

  /** One segment: sequence number | end marker, and up to seven bytes. A number above 127 would run into the marker. */
  function SegmentFrame(seqno: nat, end: bool, b: seq<Byte>): (f: Frame)
    requires |b| <= 7
    ensures f[1..8] == Padded(b, 7)
    ensures seqno <= 127 ==> f[0] % 128 == seqno && (f[0] >= 128 <==> end)
    ensures 127 < seqno < 256 ==> f[0] == seqno
  {
    [seqno % 128 + if end || (seqno / 128) % 2 == 1 then 128 else 0] + Padded(b, 7)
  }

  /** What a server takes from the first k frames of a block: seven bytes of each that has its number. */
  function Payload(wire: seq<Frame>, k: nat): seq<Byte>
    requires k <= |wire|
  {
    if k == 0 then [] else Payload(wire, k - 1) + if wire[k - 1][0] % 128 == k then wire[k - 1][1..8] else []
  }

  /** One of the first k frames is marked as the last of the transfer. */
  predicate HasEnd(wire: seq<Frame>, k: nat)
    requires k <= |wire|
  {
    exists i :: 0 <= i < k && wire[i][0] >= 128
  }

  /** The server has taken the first ackseq segments of the block. */
  function Acknowledged(s: Stream, ackseq: nat): Stream
    requires s.acks != [] && ackseq <= |s.wire|
  {
    s.(acks := s.acks[1..], acknowledged := s.acknowledged + Payload(s.wire, ackseq),
       ended := s.ended || HasEnd(s.wire, ackseq), wire := [])
  }

  /** BlockDownloadStream.write */
  function Write(s: Stream, b: seq<Byte>): (r: (Stream, Outcome))
    ensures |r.0.acks| <= |s.acks|
    decreases |s.acks|, 3, 0
  {
    var data := if |b| <= 7 then b else b[..7];
    if s.done then (s, Raised(AllDataSent))
    else if s.size.Some? && s.pos + |data| >= s.size.value then Send(s, data, true)
    else if |data| < 7 then (s, TooShort)
    else Send(s, data, false)
  }

  /** BlockDownloadStream.send */
  function Send(s: Stream, b: seq<Byte>, end: bool): (r: (Stream, Outcome))
    requires |b| <= 7
    ensures |r.0.acks| <= |s.acks|
    decreases |s.acks|, 2, 0
  {
    var s1 := Sent(s, b, end);
    if s1.seqno >= s1.blksize then
      var (s2, e) := BlockAck(s1);
      (s2, if e.Some? then Raised(e.value) else Taken(|b|))
    else (s1, Taken(|b|))
  }

  /** The segment is on the wire. */
  function Sent(s: Stream, b: seq<Byte>, end: bool): Stream
    requires |b| <= 7
  {
    var seqno := s.seqno + 1;
    s.(seqno := seqno,
       done := end || s.done,
       blksize := if end then seqno else s.blksize,
       lastBytesSent := if end then |b| else s.lastBytesSent,
       wire := s.wire + [SegmentFrame(seqno, end, b)],
       pos := s.pos + |b|,
       currentBlock := s.currentBlock + [b],
       fed := if s.crcSupported && !s.retransmitting then s.fed + b else s.fed)
  }

  /** BlockDownloadStream._block_ack */
  function BlockAck(s: Stream): (r: (Stream, Option<BlockError>))
    ensures |r.0.acks| <= |s.acks|
    decreases |s.acks|, 1, 0
  {
    if s.acks == [] then (s, Some(NoResponse))
    else
      var ack := s.acks[0];
      var ackseq := |s.wire| - Min(ack.lost, |s.wire|);
      var s1 := Acknowledged(s, ackseq);
      if ackseq != s.blksize then Retransmit(s1, ackseq, ack.blksize)
      else (s1.(currentBlock := [], blksize := ack.blksize, seqno := 0), None)
  }

  /** BlockDownloadStream._retransmit */
  function Retransmit(s: Stream, ackseq: nat, blksize: BlockSize): (r: (Stream, Option<BlockError>))
    ensures |r.0.acks| <= |s.acks|
    decreases |s.acks|, 5, 0
  {
    var block := if ackseq <= |s.currentBlock| then s.currentBlock[ackseq..] else [];
    var s1 := s.(pos := s.pos - 7 * |block|, currentBlock := [], seqno := 0, blksize := blksize, retransmitting := true);
    var (s2, e) := Resend(s1, block);
    if e.Some? then (s2, e) else (s2.(retransmitting := false), None)
  }

  /** The loop of _retransmit. */
  function Resend(s: Stream, block: seq<seq<Byte>>): (r: (Stream, Option<BlockError>))
    ensures |r.0.acks| <= |s.acks|
    decreases |s.acks|, 4, |block|
  {
    if block == [] then (s, None)
    else
      var (s1, r) := Write(s, block[0]);
      if r.Raised? then (s1, Some(r.error)) else Resend(s1, block[1..])
  }

  // ----- What no call changes -----

  /** Size and checksum support stay, and bytes are only ever added to the checksum. */
  ghost predicate Grows(s: Stream, s': Stream) {
    s'.size == s.size && s'.crcSupported == s.crcSupported && s.fed <= s'.fed
  }

  lemma {:induction false} WriteGrows(s: Stream, b: seq<Byte>)
    ensures Grows(s, Write(s, b).0)
    decreases |s.acks|, 3, 0
  {
    hide Send;
    var data := if |b| <= 7 then b else b[..7];
    SendGrows(s, data, true);
    SendGrows(s, data, false);
  }

  lemma {:induction false} SendGrows(s: Stream, b: seq<Byte>, end: bool)
    requires |b| <= 7
    ensures Grows(s, Send(s, b, end).0)
    ensures s.crcSupported && !s.retransmitting ==> s.fed + b <= Send(s, b, end).0.fed
    decreases |s.acks|, 2, 0
  {
    hide BlockAck;
    AckGrows(Sent(s, b, end));
  }

  lemma {:induction false} AckGrows(s: Stream)
    ensures Grows(s, BlockAck(s).0)
    decreases |s.acks|, 1, 0
  {
    hide Retransmit;
    if s.acks != [] {
      var ackseq := |s.wire| - Min(s.acks[0].lost, |s.wire|);
      RetransmitGrows(Acknowledged(s, ackseq), ackseq, s.acks[0].blksize);
    }
  }

  lemma {:induction false} RetransmitGrows(s: Stream, ackseq: nat, blksize: BlockSize)
    ensures Grows(s, Retransmit(s, ackseq, blksize).0)
    decreases |s.acks|, 5, 0
  {
    hide Resend;
    var block := if ackseq <= |s.currentBlock| then s.currentBlock[ackseq..] else [];
    var s1 := s.(pos := s.pos - 7 * |block|, currentBlock := [], seqno := 0, blksize := blksize, retransmitting := true);
    ResendGrows(s1, block);
  }

  lemma {:induction false} ResendGrows(s: Stream, block: seq<seq<Byte>>)
    ensures Grows(s, Resend(s, block).0)
    decreases |s.acks|, 4, |block|
  {
    hide Write;
    if block != [] {
      WriteGrows(s, block[0]);
      ResendGrows(Write(s, block[0]).0, block[1..]);
    }
  }

  // ----- Invariants -----

  /** Segment number i of the data counted from position start. */
  function SegmentOf(data: seq<Byte>, start: nat, i: nat): seq<Byte>
    requires start + 7 * i + 7 <= |data|
  {
    data[start + 7 * i..start + 7 * i + 7]
  }

  /** The segments of the current block are the next ones after the acknowledged bytes, and are what is on the wire. */
  ghost predicate Aligned(s: Stream, data: seq<Byte>) {
    s.size in {None, Some(|data|)} && s.acknowledged <= data && !s.ended && s.seqno <= 127 &&
    |s.currentBlock| == |s.wire| == s.seqno && s.pos == |s.acknowledged| + 7 * s.seqno && s.pos <= |data| &&
    forall i :: 0 <= i < s.seqno ==>
      s.currentBlock[i] == SegmentOf(data, |s.acknowledged|, i) && s.wire[i] == SegmentFrame(i + 1, false, s.currentBlock[i])
  }

  /** Between two calls, with data left to send. */
  ghost predicate InBlock(s: Stream, data: seq<Byte>) {
    !s.done && s.lastBytesSent == 0 && s.seqno < s.blksize <= 127 && s.pos < |data| && Aligned(s, data)
  }

  /** Everything has been acknowledged, the end marker too; the last segment was filled up with zero bytes. */
  ghost predicate Complete(s: Stream, data: seq<Byte>) {
    s.done && s.ended && s.pos == |data| && s.lastBytesSent <= 7 && |s.acknowledged| == |data| + 7 - s.lastBytesSent &&
    s.acknowledged[..|data|] == data
  }

  lemma {:induction false} PayloadIsData(s: Stream, data: seq<Byte>, k: nat)
    requires Aligned(s, data) && k <= s.seqno
    ensures Payload(s.wire, k) == data[|s.acknowledged|..|s.acknowledged| + 7 * k]
    decreases k
  {
    if k > 0 {
      PayloadIsData(s, data, k - 1);
      var a := |s.acknowledged|;
      assert s.wire[k - 1][1..8] == s.currentBlock[k - 1] == SegmentOf(data, a, k - 1);
      assert data[a..a + 7 * (k - 1)] + data[a + 7 * (k - 1)..a + 7 * k] == data[a..a + 7 * k];
    }
  }

  /** What may hold when a call raises. */
  ghost predicate Interrupted(s: Stream, data: seq<Byte>) {
    s.acknowledged <= data
  }

  ghost predicate WriteGoal(s: Stream, s': Stream, r: Outcome, data: seq<Byte>, n: nat) {
    match r
    case Raised(_) => Interrupted(s', data)
    case TooShort => s' == s
    case Taken(count) =>
      count == n && s'.pos == s.pos + n && if s'.pos == |data| then Complete(s', data) else InBlock(s', data)
  }

  /** One call of write, wherever it comes from. */
  lemma {:induction false} WriteKeepsBlock(s: Stream, data: seq<Byte>, b: seq<Byte>)
    requires InBlock(s, data) && s.pos + |b| <= |data| && b == data[s.pos..s.pos + |b|]
    requires s.size.None? ==> s.pos + |b| < |data|
    ensures var (s', r) := Write(s, b);
      WriteGoal(s, s', r, data, Min(|b|, 7))
    decreases |s.acks|, 3, 0
  {
    var d := if |b| <= 7 then b else b[..7];
    assert d == data[s.pos..s.pos + |d|];
    if s.size.Some? && s.pos + |d| >= s.size.value {
      SendLastKeepsBlock(s, data, d);
    } else if |d| == 7 {
      SendKeepsBlock(s, data, d);
    }
  }

  lemma {:induction false} SendLastKeepsBlock(s: Stream, data: seq<Byte>, b: seq<Byte>)
    requires InBlock(s, data) && |b| <= 7 && s.pos + |b| == |data| && b == data[s.pos..]
    ensures var (s', r) := Send(s, b, true);
      WriteGoal(s, s', r, data, |b|)
    decreases |s.acks|, 2, 0
  {
    hide Payload;
    hide Retransmit;
    hide SegmentFrame;
    var s1 := Sent(s, b, true);
    if s1.acks != [] {
      var ack := s1.acks[0];
      var n := |s1.wire|;
      var ackseq := n - Min(ack.lost, n);
      LastPayload(s, data, b, ackseq);
      assert s1.wire[n - 1] == SegmentFrame(s.seqno + 1, true, b) && s1.wire[n - 1][0] >= 128;
      if ackseq != s1.blksize {
        var s2 := Acknowledged(s1, ackseq);
        FinalBlockIsNotResent(s2, ackseq, ack.blksize);
      }
    }
  }

  lemma BlockInStep(s: Stream, data: seq<Byte>)
    requires Aligned(s, data)
    ensures |s.wire| == s.seqno && s.pos == |s.acknowledged| + 7 * s.seqno
  {
  }

  /** What the server keeps of the last block. */
  lemma LastPayload(s: Stream, data: seq<Byte>, b: seq<Byte>, k: nat)
    requires InBlock(s, data) && |b| <= 7 && s.pos + |b| == |data| && b == data[s.pos..] && k <= s.seqno + 1
    ensures var kept := s.acknowledged + Payload(s.wire + [SegmentFrame(s.seqno + 1, true, b)], k);
      if k <= s.seqno then kept <= data
      else |kept| == |data| + 7 - |b| && kept[..|data|] == data
  {
    hide Padded;
    hide Aligned;
    hide SegmentFrame;
    BlockInStep(s, data);
    var f, n := SegmentFrame(s.seqno + 1, true, b), Min(k, s.seqno);
    PrefixPayload(s.wire, f, n);
    PayloadIsData(s, data, n);
    KeptIsPrefix(s, data, n);
    if k == s.seqno + 1 {
      assert data == data[..s.pos] + b;
      PaddedEnd(data, s.acknowledged, Payload(s.wire, n), b, f);
      assert (s.wire + [f])[s.seqno] == f;
    }
  }

  lemma KeptIsPrefix(s: Stream, data: seq<Byte>, n: nat)
    requires Aligned(s, data) && n <= s.seqno && Payload(s.wire, n) == data[|s.acknowledged|..|s.acknowledged| + 7 * n]
    ensures s.acknowledged + Payload(s.wire, n) == data[..|s.acknowledged| + 7 * n]
  {
  }

  /** The last segment is filled up behind the data. */
  lemma PaddedEnd(data: seq<Byte>, acknowledged: seq<Byte>, sent: seq<Byte>, b: seq<Byte>, f: Frame)
    requires |b| <= 7 && data == acknowledged + sent + b && f[1..8] == Padded(b, 7)
    ensures var kept := acknowledged + (sent + f[1..8]);
      |kept| == |data| + 7 - |b| && kept[..|data|] == data
  {
    assert Padded(b, 7)[..|b|] == b;
  }

  lemma {:induction false} PrefixPayload(wire: seq<Frame>, f: Frame, k: nat)
    requires k <= |wire|
    ensures Payload(wire + [f], k) == Payload(wire, k)
    decreases k
  {
    if k > 0 {
      PrefixPayload(wire, f, k - 1);
    }
  }

  /** Losing a segment of the final block ends the transfer: write refuses to send again. */
  lemma FinalBlockIsNotResent(s: Stream, ackseq: nat, blksize: BlockSize)
    requires s.done && ackseq < |s.currentBlock|
    ensures var (s', e) := Retransmit(s, ackseq, blksize);
      e == Some(AllDataSent) && s'.acknowledged == s.acknowledged
  {
    var block := s.currentBlock[ackseq..];
    var s1 := s.(pos := s.pos - 7 * |block|, currentBlock := [], seqno := 0, blksize := blksize, retransmitting := true);
    assert Write(s1, block[0]) == (s1, Raised(AllDataSent));
    assert Resend(s1, block) == (s1, Some(AllDataSent));
  }

  lemma {:induction false} SendKeepsBlock(s: Stream, data: seq<Byte>, b: seq<Byte>)
    requires InBlock(s, data) && |b| == 7 && s.pos + 7 < |data| && b == data[s.pos..s.pos + 7]
    ensures var (s', r) := Send(s, b, false);
      WriteGoal(s, s', r, data, 7)
    decreases |s.acks|, 2, 0
  {
    var s1 := Sent(s, b, false);
    assert Aligned(s1, data);
    if s1.seqno >= s1.blksize {
      AckKeepsBlock(s1, data);
    }
  }

  /** The response to a block other than the last, and the retransmission it may ask for. */
  lemma {:induction false} AckKeepsBlock(s: Stream, data: seq<Byte>)
    requires Aligned(s, data) && !s.done && s.lastBytesSent == 0 && s.seqno == s.blksize <= 127 && s.pos < |data|
    ensures var (s', e) := BlockAck(s);
      if e.Some? then Interrupted(s', data) else InBlock(s', data) && s'.pos == s.pos
    decreases |s.acks|, 1, 0
  {
    if s.acks != [] {
      var ack := s.acks[0];
      var ackseq := |s.wire| - Min(ack.lost, |s.wire|);
      var s1 := Acknowledged(s, ackseq);
      AcknowledgedIsPrefix(s, data, ackseq);
      if ackseq != s.blksize {
        RetransmitKeepsBlock(s, data, ackseq, ack.blksize);
      }
    }
  }

  lemma AcknowledgedIsPrefix(s: Stream, data: seq<Byte>, ackseq: nat)
    requires Aligned(s, data) && s.acks != [] && ackseq <= s.seqno
    ensures Acknowledged(s, ackseq).acknowledged == data[..|s.acknowledged| + 7 * ackseq]
    ensures !Acknowledged(s, ackseq).ended
  {
    hide Payload;
    PayloadIsData(s, data, ackseq);
  }

  lemma {:induction false} RetransmitKeepsBlock(s: Stream, data: seq<Byte>, ackseq: nat, blksize: BlockSize)
    requires Aligned(s, data) && !s.done && s.lastBytesSent == 0 && s.pos < |data| && s.acks != [] && ackseq <= s.seqno
    ensures var (s', e) := Retransmit(Acknowledged(s, ackseq), ackseq, blksize);
      if e.Some? then Interrupted(s', data) else InBlock(s', data) && s'.pos == s.pos
    decreases |s.acks|, 0, 0
  {
    hide SegmentFrame;
    hide Payload;
    hide HasEnd;
    AcknowledgedIsPrefix(s, data, ackseq);
    var block := s.currentBlock[ackseq..];
    var s1 := Acknowledged(s, ackseq).(
      pos := s.pos - 7 * |block|, currentBlock := [], seqno := 0, blksize := blksize, retransmitting := true);
    assert InBlock(s1, data);
    forall i | 0 <= i < |block| ensures block[i] == SegmentOf(data, s1.pos, i) {
      assert block[i] == s.currentBlock[ackseq + i];
    }
    ResendKeepsBlock(s1, data, block);
  }

  /** The loop of a retransmission brings the position back to where it was, whatever is lost again on the way. */
  lemma {:induction false} ResendKeepsBlock(s: Stream, data: seq<Byte>, block: seq<seq<Byte>>)
    requires InBlock(s, data) && s.pos + 7 * |block| < |data|
    requires forall i :: 0 <= i < |block| ==> block[i] == SegmentOf(data, s.pos, i)
    ensures var (s', e) := Resend(s, block);
      if e.Some? then Interrupted(s', data) else InBlock(s', data) && s'.pos == s.pos + 7 * |block|
    decreases |s.acks|, 4, |block|
  {
    if block != [] {
      WriteKeepsBlock(s, data, block[0]);
      var (s1, r) := Write(s, block[0]);
      if r.Taken? {
        assert forall i :: 0 <= i < |block| - 1 ==> block[1..][i] == SegmentOf(data, s1.pos, i);
        ResendKeepsBlock(s1, data, block[1..]);
      }
    }
  }

  // ----- Whole transfers -----

  /** After the initiate exchange. */
  function Opened(size: Option<nat>, blksize: BlockSize, crcSupported: bool, acks: seq<Ack>): Stream {
    Stream(size, 0, false, 0, [], 0, [], false, blksize, crcSupported, [], [], false, acks)
  }

  /** The caller presents slices of what is left, of any lengths. */
  function WriteAll(s: Stream, data: seq<Byte>, chunks: seq<nat>): (Stream, Option<BlockError>)
    decreases |chunks|
  {
    if chunks == [] || s.done || s.pos < 0 || s.pos >= |data| then (s, None)
    else
      var (s1, r) := Write(s, data[s.pos..Min(s.pos + chunks[0], |data|)]);
      if r.Raised? then (s1, Some(r.error)) else WriteAll(s1, data, chunks[1..])
  }

  /** The bytes acknowledged and those of the current block, together. */
  function Accounted(s: Stream): seq<Byte> {
    s.acknowledged + Flatten(s.currentBlock)
  }

  function Flatten(block: seq<seq<Byte>>): seq<Byte> {
    if block == [] then [] else Flatten(block[..|block| - 1]) + block[|block| - 1]
  }

  lemma {:induction false} AlignedIsAccounted(s: Stream, data: seq<Byte>, k: nat)
    requires Aligned(s, data) && k <= s.seqno
    ensures s.acknowledged + Flatten(s.currentBlock[..k]) == data[..|s.acknowledged| + 7 * k]
    decreases k
  {
    hide SegmentFrame;
    if k > 0 {
      AlignedIsAccounted(s, data, k - 1);
      var block, a := s.currentBlock[..k], |s.acknowledged|;
      assert block[..k - 1] == s.currentBlock[..k - 1] && block[k - 1] == SegmentOf(data, a, k - 1);
      OneMoreAccounted(data, s.acknowledged, Flatten(block[..k - 1]), a + 7 * (k - 1));
    }
  }

  lemma BlockIsAccounted(s: Stream, data: seq<Byte>)
    requires Aligned(s, data)
    ensures 0 <= s.pos <= |data| && Accounted(s) == data[..s.pos] && |s.currentBlock| == s.seqno
  {
    AlignedIsAccounted(s, data, s.seqno);
    assert s.currentBlock[..s.seqno] == s.currentBlock;
  }

  lemma OneMoreAccounted(data: seq<Byte>, acknowledged: seq<Byte>, flat: seq<Byte>, n: nat)
    requires n + 7 <= |data| && acknowledged + flat == data[..n]
    ensures acknowledged + (flat + data[n..n + 7]) == data[..n + 7]
  {
    assert acknowledged + (flat + data[n..n + 7]) == data[..n] + data[n..n + 7];
  }

  /**
   Exactly once. For every sequence of block responses, whatever was lost and whatever block sizes
   are asked for, and every slicing of the writes: as long as nothing raises, the acknowledged
   bytes and the current block are together the data up to the position, and the block is shorter
   than its size; when all data is taken, the server has it and nothing else. When something
   raises, the server has a prefix.
   */
  lemma {:induction false} BlockDownloadIsExactlyOnce(s: Stream, data: seq<Byte>, chunks: seq<nat>)
    requires InBlock(s, data) && s.size.Some?
    ensures var (s', e) := WriteAll(s, data, chunks);
      if e.Some? then Interrupted(s', data)
      else if s'.done then Complete(s', data)
      else InBlock(s', data) && s'.size.Some? && Accounted(s') == data[..s'.pos] &&
           |s'.currentBlock| == s'.seqno < s'.blksize
    decreases |chunks|
  {
    hide Write;
    hide Aligned;
    BlockIsAccounted(s, data);
    if chunks != [] {
      var b := data[s.pos..Min(s.pos + chunks[0], |data|)];
      WriteKeepsBlock(s, data, b);
      WriteGrows(s, b);
      var (s1, r) := Write(s, b);
      if r.Taken? && s1.done {
        assert WriteAll(s1, data, chunks[1..]) == (s1, None);
      } else if !r.Raised? {
        BlockDownloadIsExactlyOnce(s1, data, chunks[1..]);
      }
    }
  }

  // ----- The end of a transfer -----

  /** The end-of-transfer request of BlockDownloadStream.close. */
  function EndFrame(s: Stream): Frame
    requires s.lastBytesSent <= 7
  {
    [0xC1 + 4 * (7 - s.lastBytesSent)] +
    (if s.crcSupported then ToBytes(CrcHqx(s.fed, 0) as int, 2) else [0, 0]) + [0, 0, 0, 0, 0]
  }
}
