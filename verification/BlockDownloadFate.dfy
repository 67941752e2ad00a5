/**
 What the block responses alone decide about a block download: whether it ends, whether it raises,
 and which bytes its checksum counts.
 */
module BlockDownloadFate {
  import opened Bits
  import opened BlockDownload
  import opened Crc
  import opened SdoFrames
  import opened Wrappers

  /** A response stays out, or the last block loses a segment, or the data arrives. */
  datatype Fate = NoAnswer | FinalLoss | Delivered

  /** The fate of a transfer from the beginning of a block, with n segments not acknowledged yet. */
  function FateOf(acks: seq<Ack>, blksize: nat, n: nat): Fate
    decreases |acks|
  {
    if acks == [] then NoAnswer
    else
      var lost := Min(acks[0].lost, Min(n, blksize));
      if n > blksize then FateOf(acks[1..], acks[0].blksize, n - blksize + lost)
      else if lost == 0 then Delivered
      else FinalLoss
  }

  function Segments(size: nat): nat {
    (size + 6) / 7
  }

  /** The bytes from one position to another, as far as there are any. */
  function Part(data: seq<Byte>, from: nat, to: nat): seq<Byte>
    requires from <= to
  {
    data[Min(from, |data|)..Min(to, |data|)]
  }

  /** How many segments are marked as resent once the response to a block has come. */
  function MarkedNext(lost: nat, blksize: nat, r: nat): nat {
    if lost == 0 && r > blksize then r - blksize else lost
  }

  /**
   The bytes the checksum still counts, from the beginning of a block at a position of the data. The
   first r segments from there on do not count: they are marked as resent, or have been counted. A
   loss moves the mark to the segments lost in this block, and forgets the others.
   */
  function Counted(data: seq<Byte>, from: nat, acks: seq<Ack>, blksize: nat, r: nat): seq<Byte>
    decreases |acks|
  {
    if acks == [] || from + 7 * blksize >= |data| then data[Min(from + 7 * r, |data|)..]
    else
      var lost := Min(acks[0].lost, blksize);
      Part(data, from + 7 * Min(r, blksize), from + 7 * blksize) +
      Counted(data, from + 7 * (blksize - lost), acks[1..], acks[0].blksize, MarkedNext(lost, blksize, r))
  }

  /** Segments the server has not acknowledged. */
  function Left(s: Stream, data: seq<Byte>): nat {
    if |s.acknowledged| <= |data| then Segments(|data| - |s.acknowledged|) else 0
  }

  function FateFrom(s: Stream, data: seq<Byte>): Fate {
    FateOf(s.acks, s.blksize, Left(s, data))
  }

  /** What the checksum will have counted in the end, if the first r segments of the block do not count any more. */
  function Total(s: Stream, data: seq<Byte>, r: nat): seq<Byte> {
    s.fed + Counted(data, |s.acknowledged|, s.acks, s.blksize, r)
  }

  /** A step keeps the fate and the total. */
  ghost predicate Keeps(s: Stream, r: nat, s': Stream, r': nat, data: seq<Byte>) {
    s'.crcSupported == s.crcSupported && FateFrom(s', data) == FateFrom(s, data) &&
    (s.crcSupported ==> Total(s', data, r') == Total(s, data, r))
  }

  /** The outcome of a step that may raise because no response comes. */
  ghost predicate Follows(s: Stream, r: nat, s': Stream, e: Option<BlockError>, data: seq<Byte>) {
    if e.Some? then e.value == NoResponse && FateFrom(s, data) == NoAnswer && s'.acks == []
    else Keeps(s, r, s', s'.seqno, data)
  }

  /** One segment less to count. */
  lemma CountedFirst(data: seq<Byte>, from: nat, acks: seq<Ack>, blksize: nat, r: nat)
    requires r < blksize && from + 7 * r + 7 <= |data|
    ensures Counted(data, from, acks, blksize, r) ==
            data[from + 7 * r..from + 7 * r + 7] + Counted(data, from, acks, blksize, r + 1)
  {
    var here, next := from + 7 * r, from + 7 * r + 7;
    if acks == [] || from + 7 * blksize >= |data| {
      assert data[here..] == data[here..next] + data[next..];
    } else {
      var end := from + 7 * blksize;
      assert data[here..end] == data[here..next] + data[next..end];
    }
  }

  // ----- Blocks other than the last -----

  /** The response to a full block. */
  ghost predicate FullBlock(s: Stream, data: seq<Byte>) {
    Aligned(s, data) && !s.done && s.lastBytesSent == 0 && s.seqno == s.blksize <= 127 && s.pos < |data|
  }

  /** Segments lost at the end of a block, by the next response. */
  function Lost(s: Stream): nat
    requires s.acks != []
  {
    Min(s.acks[0].lost, |s.wire|)
  }

  lemma LeftBehind(s: Stream, data: seq<Byte>, k: nat)
    requires Aligned(s, data) && s.pos < |data| && k <= s.seqno && s.acks != []
    ensures Left(s, data) > s.seqno && Left(Acknowledged(s, k), data) == Left(s, data) - k
  {
    AcknowledgedIsPrefix(s, data, k);
  }

  /** What a response to a full block decides. */
  lemma ResponseDecides(s: Stream, data: seq<Byte>, r: nat, s1: Stream)
    requires FullBlock(s, data) && s.acks != [] && r >= s.seqno
    requires s1 == Acknowledged(s, s.seqno - Lost(s)).(
      pos := s1.pos, currentBlock := s1.currentBlock, seqno := s1.seqno, blksize := s.acks[0].blksize,
      retransmitting := s1.retransmitting)
    ensures Keeps(s, r, s1, MarkedNext(Lost(s), s.blksize, r), data)
  {
    hide Segments;
    hide Payload;
    hide HasEnd;
    hide Aligned;
    BlockInStep(s, data);
    LeftBehind(s, data, s.seqno - Lost(s));
    AcknowledgedIsPrefix(s, data, s.seqno - Lost(s));
    assert Part(data, |s.acknowledged| + 7 * s.blksize, |s.acknowledged| + 7 * s.blksize) == [];
  }

  /** The response to a full block in which no more segments are marked than have been sent. */
  lemma {:induction false} AckTracks(s: Stream, data: seq<Byte>)
    requires FullBlock(s, data)
    ensures var (s', e) := BlockAck(s);
      Follows(s, s.seqno, s', e, data) && (e.None? && !s.retransmitting ==> !s'.retransmitting)
    decreases |s.acks|, 1, 0
  {
    hide Retransmit;
    hide Payload;
    hide FateOf;
    hide Keeps;
    if s.acks != [] {
      if Lost(s) == 0 {
        ResponseDecides(s, data, s.seqno, BlockAck(s).0);
      } else {
        LossTracks(s, data, s.seqno);
      }
    } else {
      NoAnswerIsLeft(s, data);
    }
  }

  lemma NoAnswerIsLeft(s: Stream, data: seq<Byte>)
    requires s.acks == []
    ensures FateFrom(s, data) == NoAnswer
  {
  }

  /** A response that asks for a retransmission, which moves the mark. */
  lemma {:induction false} LossTracks(s: Stream, data: seq<Byte>, r: nat)
    requires FullBlock(s, data) && s.acks != [] && Lost(s) > 0 && r >= s.seqno
    ensures var (s', e) := BlockAck(s);
      Follows(s, r, s', e, data) && (e.None? ==> !s'.retransmitting)
    decreases |s.acks|, 0, 0
  {
    hide Counted;
    hide SegmentFrame;
    hide Resend;
    hide Payload;
    hide FateOf;
    hide Keeps;
    var ackseq := s.seqno - Lost(s);
    AcknowledgedIsPrefix(s, data, ackseq);
    var block := s.currentBlock[ackseq..];
    var s1 := Acknowledged(s, ackseq).(
      pos := s.pos - 7 * |block|, currentBlock := [], seqno := 0, blksize := s.acks[0].blksize, retransmitting := true);
    assert BlockAck(s) == Retransmit(Acknowledged(s, ackseq), ackseq, s.acks[0].blksize);
    ResponseDecides(s, data, r, s1);
    assert InBlock(s1, data);
    forall i | 0 <= i < |block| ensures block[i] == SegmentOf(data, s1.pos, i) {
      assert block[i] == s.currentBlock[ackseq + i];
    }
    ResendTracks(s1, data, block);
    Onward(s, r, s1, |block|, Resend(s1, block).0, Resend(s1, block).1, data);
    MarkDoesNotMatter(s, r, Resend(s1, block).0, Resend(s1, block).1, data);
  }

  /** One step after another. */
  lemma Onward(s: Stream, r: nat, s1: Stream, r1: nat, s2: Stream, e: Option<BlockError>, data: seq<Byte>)
    requires Keeps(s, r, s1, r1, data) && Follows(s1, r1, s2, e, data)
    ensures Follows(s, r, s2, e, data)
  {
  }

  lemma MarkDoesNotMatter(s: Stream, r: nat, s1: Stream, e: Option<BlockError>, data: seq<Byte>)
    requires Follows(s, r, s1, e, data)
    ensures Follows(s, r, s1.(retransmitting := false), e, data)
  {
  }

  /** What waits to be resent. */
  ghost predicate Waiting(s: Stream, data: seq<Byte>, block: seq<seq<Byte>>) {
    InBlock(s, data) && s.pos + 7 * |block| < |data| &&
    forall i :: 0 <= i < |block| ==> block[i] == SegmentOf(data, s.pos, i)
  }

  lemma StillWaiting(s: Stream, data: seq<Byte>, block: seq<seq<Byte>>, s1: Stream)
    requires Waiting(s, data, block) && block != [] && InBlock(s1, data) && s1.pos == s.pos + 7
    ensures Waiting(s1, data, block[1..])
  {
    assert forall i :: 0 <= i < |block| - 1 ==> block[1..][i] == SegmentOf(data, s1.pos, i);
  }

  /** One segment that is not the last, whether resent or not. */
  lemma {:induction false} SegmentTracks(s: Stream, data: seq<Byte>, b: seq<Byte>)
    requires InBlock(s, data) && s.pos + 7 < |data| && b == data[s.pos..s.pos + 7]
    ensures var s1 := Sent(s, b, false);
      var (s', r) := Write(s, b);
      && FateFrom(s1, data) == FateFrom(s, data) && s1.acknowledged == s.acknowledged
      && s1.acks == s.acks && s1.blksize == s.blksize && s1.seqno == s.seqno + 1 && s1.crcSupported == s.crcSupported
      && s1.retransmitting == s.retransmitting
      && s1.fed == (if s.crcSupported && !s.retransmitting then s.fed + b else s.fed)
      && (s1.seqno < s1.blksize ==> (s', r) == (s1, Taken(7)))
      && (s1.seqno == s1.blksize ==>
            FullBlock(s1, data) &&
            var (s2, e) := BlockAck(s1);
            s' == s2 && r == (if e.Some? then Raised(e.value) else Taken(7)))
  {
    hide BlockAck;
    hide FateOf;
    var s1 := Sent(s, b, false);
    assert Aligned(s1, data);
  }

  /** A segment that is not marked counts. */
  lemma {:induction false} UnmarkedTracks(s: Stream, data: seq<Byte>, b: seq<Byte>)
    requires InBlock(s, data) && s.pos + 7 < |data| && b == data[s.pos..s.pos + 7] && !s.retransmitting
    ensures var (s', r) := Write(s, b);
      var e := if r.Raised? then Some(r.error) else None;
      Follows(s, s.seqno, s', e, data) && (e.None? ==> r == Taken(7) && !s'.retransmitting)
    decreases |s.acks|, 3, 0
  {
    hide BlockAck;
    hide Write;
    hide FateOf;
    hide Counted;
    SegmentTracks(s, data, b);
    BlockInStep(s, data);
    var s1 := Sent(s, b, false);
    CountedFirst(data, |s.acknowledged|, s.acks, s.blksize, s.seqno);
    assert s.crcSupported ==> Total(s1, data, s1.seqno) == Total(s, data, s.seqno);
    if s1.seqno == s1.blksize {
      AckTracks(s1, data);
    }
  }

  lemma {:induction false} UnmarkedResendTracks(s: Stream, data: seq<Byte>, block: seq<seq<Byte>>)
    requires Waiting(s, data, block) && !s.retransmitting
    ensures var (s', e) := Resend(s, block);
      Follows(s, s.seqno, s', e, data) && (e.None? ==> !s'.retransmitting)
    decreases |s.acks|, 4, |block|
  {
    hide Write;
    hide FateOf;
    hide Counted;
    if block != [] {
      assert block[0] == SegmentOf(data, s.pos, 0);
      WriteKeepsBlock(s, data, block[0]);
      WriteGrows(s, block[0]);
      UnmarkedTracks(s, data, block[0]);
      var (s1, r) := Write(s, block[0]);
      if r.Taken? {
        StillWaiting(s, data, block, s1);
        UnmarkedResendTracks(s1, data, block[1..]);
        var (s2, e) := Resend(s1, block[1..]);
        Onward(s, s.seqno, s1, s1.seqno, s2, e, data);
      }
    }
  }

  /** The loop of a retransmission, from any point of it. */
  lemma {:induction false} ResendTracks(s: Stream, data: seq<Byte>, block: seq<seq<Byte>>)
    requires Waiting(s, data, block) && s.retransmitting && block != []
    ensures var (s', e) := Resend(s, block);
      Follows(s, s.seqno + |block|, s', e, data)
    decreases |s.acks|, 4, |block|
  {
    hide Write;
    hide BlockAck;
    hide FateOf;
    hide Counted;
    hide Follows;
    hide Keeps;
    var b, rest, r := block[0], block[1..], s.seqno + |block|;
    assert b == SegmentOf(data, s.pos, 0);
    WriteKeepsBlock(s, data, b);
    SegmentTracks(s, data, b);
    var s1 := Sent(s, b, false);
    var (s2, written) := Write(s, b);
    if written.Taken? {
      StillWaiting(s, data, block, s2);
    }
    MarkedSegmentKeeps(s, s1, r, data);
    if s1.seqno < s1.blksize {
      if rest != [] {
        ResendTracks(s1, data, rest);
        Onward(s, r, s1, r, Resend(s1, rest).0, Resend(s1, rest).1, data);
      } else {
        KeepsFollows(s, r, s1, data);
      }
    } else {
      MarkedBlockTracks(s1, data, rest);
      var (s3, e) := BlockAck(s1);
      if e.None? {
        Onward(s, r, s1, r, Resend(s3, rest).0, Resend(s3, rest).1, data);
      } else {
        Onward(s, r, s1, r, s3, e, data);
      }
    }
  }

  /** A full block of a retransmission, and the rest of the loop. */
  lemma {:induction false} MarkedBlockTracks(s: Stream, data: seq<Byte>, rest: seq<seq<Byte>>)
    requires FullBlock(s, data) && s.retransmitting
    requires BlockAck(s).1.None? ==> Waiting(BlockAck(s).0, data, rest)
    ensures var (s1, e) := BlockAck(s);
      if e.Some? then Follows(s, s.seqno + |rest|, s1, e, data)
      else Follows(s, s.seqno + |rest|, Resend(s1, rest).0, Resend(s1, rest).1, data)
    decreases |s.acks|, 1, 0
  {
    hide Retransmit;
    hide Payload;
    hide FateOf;
    hide Keeps;
    hide Write;
    var r := s.seqno + |rest|;
    var (s1, e) := BlockAck(s);
    if s.acks == [] {
      NoAnswerIsLeft(s, data);
    } else if Lost(s) == 0 {
      ResponseDecides(s, data, r, s1);
      if rest == [] {
        KeepsFollows(s, r, s1, data);
      } else {
        ResendTracks(s1, data, rest);
        Onward(s, r, s1, |rest|, Resend(s1, rest).0, Resend(s1, rest).1, data);
      }
    } else {
      LossTracks(s, data, r);
      if e.None? {
        BlockAckUsesResponse(s);
        UnmarkedResendTracks(s1, data, rest);
        Onward(s, r, s1, s1.seqno, Resend(s1, rest).0, Resend(s1, rest).1, data);
      }
    }
  }

  lemma BlockAckUsesResponse(s: Stream)
    requires s.acks != []
    ensures |BlockAck(s).0.acks| < |s.acks|
  {
  }

  lemma KeepsFollows(s: Stream, r: nat, s1: Stream, data: seq<Byte>)
    requires Keeps(s, r, s1, s1.seqno, data)
    ensures Follows(s, r, s1, None, data)
  {
  }

  /** A marked segment does not count. */
  lemma MarkedSegmentKeeps(s: Stream, s1: Stream, r: nat, data: seq<Byte>)
    requires FateFrom(s1, data) == FateFrom(s, data) && s1.acknowledged == s.acknowledged && s1.acks == s.acks
    requires s1.blksize == s.blksize && s1.crcSupported == s.crcSupported && s1.fed == s.fed
    ensures Keeps(s, r, s1, r, data)
  {
  }

  // ----- Whole transfers -----

  /** The last segment: its response decides. */
  lemma LastSegmentTracks(s: Stream, data: seq<Byte>, b: seq<Byte>)
    requires InBlock(s, data) && s.size.Some? && |b| <= 7 && s.pos + |b| == |data| && b == data[s.pos..] && !s.retransmitting
    ensures var (s', r) := Send(s, b, true);
      match FateFrom(s, data)
      case NoAnswer => r == Raised(NoResponse) && s'.acks == []
      case FinalLoss => r == Raised(AllDataSent)
      case Delivered =>
        r == Taken(|b|) && s'.done && s'.pos == |data| && (s.crcSupported ==> s'.fed == Total(s, data, s.seqno))
  {
    hide Payload;
    hide Retransmit;
    hide FateOf;
    hide Total;
    hide Left;
    hide Aligned;
    hide SegmentFrame;
    LastSegmentDecides(s, data, b);
    var s1 := Sent(s, b, true);
    if s1.acks != [] && Min(s1.acks[0].lost, |s1.wire|) > 0 {
      var ackseq := |s1.wire| - Min(s1.acks[0].lost, |s1.wire|);
      FinalBlockIsNotResent(Acknowledged(s1, ackseq), ackseq, s1.acks[0].blksize);
    }
  }

  /** Before the last segment, the next response decides, and only this segment is still to be counted. */
  lemma LastSegmentDecides(s: Stream, data: seq<Byte>, b: seq<Byte>)
    requires InBlock(s, data) && |b| <= 7 && s.pos + |b| == |data| && b == data[s.pos..]
    ensures |s.wire| == |s.currentBlock| == s.seqno
    ensures FateFrom(s, data) ==
            if s.acks == [] then NoAnswer else if Min(s.acks[0].lost, s.seqno + 1) == 0 then Delivered else FinalLoss
    ensures Total(s, data, s.seqno) == s.fed + b
  {
    hide SegmentFrame;
    BlockInStep(s, data);
    assert Left(s, data) == s.seqno + 1;
  }

  /** The outcome of a sequence of writes, as far as it is decided. */
  ghost predicate Decided(s: Stream, s': Stream, e: Option<BlockError>, data: seq<Byte>) {
    match FateFrom(s, data)
    case NoAnswer => e == Some(NoResponse) && s'.acks == []
    case FinalLoss => e == Some(AllDataSent)
    case Delivered => e.None? && s'.done && (s.crcSupported ==> s'.fed == Total(s, data, s.seqno))
  }

  lemma {:induction false} WriteAllGrows(s: Stream, data: seq<Byte>, chunks: seq<nat>)
    ensures Grows(s, WriteAll(s, data, chunks).0)
    decreases |chunks|
  {
    hide Write;
    if chunks != [] && !s.done && 0 <= s.pos < |data| {
      var b := data[s.pos..Min(s.pos + chunks[0], |data|)];
      WriteGrows(s, b);
      WriteAllGrows(Write(s, b).0, data, chunks[1..]);
    }
  }

  /** A transfer that raises or is done has met its fate. */
  lemma {:induction false} WriteAllIsDecided(s: Stream, data: seq<Byte>, chunks: seq<nat>)
    requires InBlock(s, data) && s.size.Some? && !s.retransmitting
    ensures var (s', e) := WriteAll(s, data, chunks);
      e.Some? || s'.done ==> Decided(s, s', e, data)
    decreases |chunks|
  {
    hide FateOf;
    hide Send;
    hide Total;
    if chunks != [] {
      var b := data[s.pos..Min(s.pos + chunks[0], |data|)];
      var d := if |b| <= 7 then b else b[..7];
      assert d == data[s.pos..s.pos + |d|];
      WriteKeepsBlock(s, data, b);
      WriteGrows(s, b);
      var (s1, r) := Write(s, b);
      if s.pos + |d| == |data| {
        LastSegmentTracks(s, data, d);
        assert r.Taken? ==> WriteAll(s1, data, chunks[1..]) == (s1, None);
      } else if |d| < 7 {
        WriteAllIsDecided(s, data, chunks[1..]);
      } else {
        assert Write(s, b) == Write(s, d) == Send(s, d, false);
        UnmarkedTracks(s, data, d);
        if r.Taken? {
          WriteAllIsDecided(s1, data, chunks[1..]);
        }
      }
    }
  }

  /** Slices of at least seven bytes, one for each segment, are enough to decide a transfer. */
  lemma {:induction false} EnoughSlices(s: Stream, data: seq<Byte>, chunks: seq<nat>)
    requires InBlock(s, data) && s.size.Some? && |chunks| >= Segments(|data| - s.pos) && forall c :: c in chunks ==> c >= 7
    ensures var (s', e) := WriteAll(s, data, chunks);
      e.Some? || s'.done
    decreases |chunks|
  {
    hide Write;
    var b := data[s.pos..Min(s.pos + chunks[0], |data|)];
    assert chunks[0] in chunks && forall c :: c in chunks[1..] ==> c in chunks;
    WriteKeepsBlock(s, data, b);
    WriteGrows(s, b);
    FullSliceIsTaken(s, data, b);
    var (s1, r) := Write(s, b);
    if r.Taken? {
      if s1.pos == |data| {
        assert WriteAll(s1, data, chunks[1..]) == (s1, None);
      } else {
        EnoughSlices(s1, data, chunks[1..]);
      }
    }
  }

  lemma FullSliceIsTaken(s: Stream, data: seq<Byte>, b: seq<Byte>)
    requires InBlock(s, data) && s.size.Some? && (|b| >= 7 || s.pos + |b| == |data|)
    ensures Write(s, b).1 != TooShort
  {
    hide BlockAck;
  }

  lemma OpenedIsInBlock(data: seq<Byte>, blksize: BlockSize, crcSupported: bool, acks: seq<Ack>)
    requires data != []
    ensures var s := Opened(Some(|data|), blksize, crcSupported, acks);
      InBlock(s, data) && FateFrom(s, data) == FateOf(acks, blksize, Segments(|data|)) &&
      Total(s, data, 0) == Counted(data, 0, acks, blksize, 0)
  {
  }

  /**
   The fate of a block download is decided by the responses alone, whatever is lost and however the
   data is sliced: it raises a missing response only when the responses run out, it refuses to send
   again exactly when the last block loses a segment, and otherwise the server ends up with the data.
   Then the responses also decide which bytes the checksum has counted.
   */
  lemma BlockDownloadMeetsFate(data: seq<Byte>, blksize: BlockSize, crcSupported: bool, acks: seq<Ack>, chunks: seq<nat>)
    requires data != []
    ensures var (s, e) := WriteAll(Opened(Some(|data|), blksize, crcSupported, acks), data, chunks);
      && ((forall c :: c in chunks ==> c >= 7) && |chunks| >= Segments(|data|) ==> e.Some? || s.done)
      && (e.Some? || s.done ==>
            match FateOf(acks, blksize, Segments(|data|))
            case NoAnswer => e == Some(NoResponse) && s.acks == []
            case FinalLoss => e == Some(AllDataSent)
            case Delivered =>
              e == None && Complete(s, data) && (crcSupported ==> s.fed == Counted(data, 0, acks, blksize, 0)))
  {
    hide FateOf;
    hide Counted;
    hide WriteAll;
    hide InBlock;
    hide Complete;
    var s0 := Opened(Some(|data|), blksize, crcSupported, acks);
    OpenedIsInBlock(data, blksize, crcSupported, acks);
    WriteAllIsDecided(s0, data, chunks);
    BlockDownloadIsExactlyOnce(s0, data, chunks);
    if (forall c :: c in chunks ==> c >= 7) && |chunks| >= Segments(|data|) {
      EnoughSlices(s0, data, chunks);
    }
  }

  // ----- Reading the fate off the responses -----

  function TotalLost(acks: seq<Ack>): nat {
    if acks == [] then 0 else acks[0].lost + TotalLost(acks[1..])
  }

  /** With a response for every segment, and one more for every loss, no response stays out. */
  lemma {:induction false} EnoughResponses(acks: seq<Ack>, blksize: nat, n: nat)
    requires n >= 1 && blksize >= 1 && |acks| >= n + TotalLost(acks)
    ensures FateOf(acks, blksize, n) != NoAnswer
    decreases |acks|
  {
    if n > blksize {
      EnoughResponses(acks[1..], acks[0].blksize, n - blksize + Min(acks[0].lost, blksize));
    }
  }

  /** No segment is lost while more segments wait to be resent than the block has room for. */
  predicate Clean(acks: seq<Ack>, blksize: nat, r: nat, n: nat)
    decreases |acks|
  {
    acks == [] || n <= blksize ||
    var lost := Min(acks[0].lost, blksize);
    (r <= blksize || lost == 0) &&
    Clean(acks[1..], acks[0].blksize, MarkedNext(lost, blksize, r), n - blksize + lost)
  }

  /** The checksum counts each byte once if and only if the responses are clean; otherwise it counts more. */
  lemma {:induction false} CountsOnceIffClean(data: seq<Byte>, from: nat, acks: seq<Ack>, blksize: nat, r: nat)
    requires from + 7 * r < |data|
    ensures var n := Segments(|data| - from);
      && |Counted(data, from, acks, blksize, r)| >= |data| - from - 7 * r
      && (Counted(data, from, acks, blksize, r) == data[from + 7 * r..] <==> Clean(acks, blksize, r, n))
      && (!Clean(acks, blksize, r, n) ==> |Counted(data, from, acks, blksize, r)| > |data| - from - 7 * r)
    decreases |acks|
  {
    hide Counted;
    if acks != [] && from + 7 * blksize < |data| {
      var lost := Min(acks[0].lost, blksize);
      var next, marked := from + 7 * (blksize - lost), MarkedNext(lost, blksize, r);
      CountsOnceIffClean(data, next, acks[1..], acks[0].blksize, marked);
      assert Segments(|data| - next) == Segments(|data| - from) - blksize + lost;
      var rest := Counted(data, next, acks[1..], acks[0].blksize, marked);
      CountedBlock(data, from, acks, blksize, r, rest);
      if r <= blksize {
        SamePart(data, from + 7 * r, from + 7 * blksize, rest);
      }
    } else {
      CountedRest(data, from, acks, blksize, r);
    }
  }

  lemma CountedRest(data: seq<Byte>, from: nat, acks: seq<Ack>, blksize: nat, r: nat)
    requires from + 7 * r < |data| && (acks == [] || from + 7 * blksize >= |data|)
    ensures Counted(data, from, acks, blksize, r) == data[from + 7 * r..]
  {
  }

  lemma CountedBlock(data: seq<Byte>, from: nat, acks: seq<Ack>, blksize: nat, r: nat, rest: seq<Byte>)
    requires acks != [] && from + 7 * blksize < |data|
    requires var lost := Min(acks[0].lost, blksize);
      rest == Counted(data, from + 7 * (blksize - lost), acks[1..], acks[0].blksize, MarkedNext(lost, blksize, r))
    ensures Counted(data, from, acks, blksize, r) ==
            if r <= blksize then data[from + 7 * r..from + 7 * blksize] + rest else rest
  {
    assert r > blksize ==> Part(data, from + 7 * blksize, from + 7 * blksize) == [];
  }

  lemma SamePart(data: seq<Byte>, here: nat, end: nat, rest: seq<Byte>)
    requires here <= end <= |data|
    ensures data[here..end] + rest == data[here..] <==> rest == data[end..]
  {
    var part := data[here..end];
    assert data[here..] == part + data[end..];
    assert (part + rest)[|part|..] == rest && (part + data[end..])[|part|..] == data[end..];
  }

  /** Every block response asks for a block large enough for what has to be sent again. */
  predicate Generous(acks: seq<Ack>) {
    forall i :: 0 <= i < |acks| ==> acks[i].lost <= acks[i].blksize
  }

  /** Then no retransmission is interrupted. */
  lemma {:induction false} GenerousIsClean(acks: seq<Ack>, blksize: nat, r: nat, n: nat)
    requires Generous(acks) && r <= blksize
    ensures Clean(acks, blksize, r, n)
    decreases |acks|
  {
    if acks != [] && n > blksize {
      var lost := Min(acks[0].lost, blksize);
      GenerousIsClean(acks[1..], acks[0].blksize, lost, n - blksize + lost);
    }
  }

  /** Without losses every transfer that is answered delivers the data and counts it once, whatever the block sizes. */
  lemma LosslessIsDelivered(acks: seq<Ack>, blksize: BlockSize, n: nat)
    requires n >= 1 && |acks| >= n && forall i :: 0 <= i < |acks| ==> acks[i].lost == 0
    ensures FateOf(acks, blksize, n) == Delivered && Clean(acks, blksize, 0, n)
  {
    NothingLost(acks);
    EnoughResponses(acks, blksize, n);
    GenerousIsClean(acks, blksize, 0, n);
    NoFinalLoss(acks, blksize, n);
  }

  lemma {:induction false} NothingLost(acks: seq<Ack>)
    requires forall i :: 0 <= i < |acks| ==> acks[i].lost == 0
    ensures TotalLost(acks) == 0
  {
    if acks != [] {
      NothingLost(acks[1..]);
    }
  }

  lemma {:induction false} NoFinalLoss(acks: seq<Ack>, blksize: nat, n: nat)
    requires forall i :: 0 <= i < |acks| ==> acks[i].lost == 0
    ensures FateOf(acks, blksize, n) != FinalLoss
    decreases |acks|
  {
    if acks != [] && n > blksize {
      NoFinalLoss(acks[1..], acks[0].blksize, n - blksize);
    }
  }

  // ----- The end of a transfer -----

  /** What a server makes of the end frame: the bytes that count, and the checksum it compares. */
  function TrimmedBy(f: Frame, acknowledged: seq<Byte>): Option<seq<Byte>> {
    var unused := (f[0] / 4) % 8;
    if unused <= |acknowledged| then Some(acknowledged[..|acknowledged| - unused]) else None
  }

  function ChecksumIn(f: Frame): nat {
    FromBytes(f[1..3])
  }

  /** Command byte with the number of unused bytes, checksum with the low byte first, and nothing else. */
  predicate EndsWith(f: Frame, unused: int, checksum: int) {
    f[0] as int == 0xC1 + 4 * unused && f[1] == checksum % 256 && f[2] == checksum / 256 && f[3..] == [0, 0, 0, 0, 0]
  }

  /**
   The end of a transfer that delivers: the server trims what it has to exactly the data, and the
   number it is sent is the checksum of the bytes counted, or zero where checksums are not in use.
   */
  lemma EndFrameFitsData(data: seq<Byte>, blksize: BlockSize, crcSupported: bool, acks: seq<Ack>, chunks: seq<nat>)
    requires data != []
    ensures var (s, e) := WriteAll(Opened(Some(|data|), blksize, crcSupported, acks), data, chunks);
      e.None? && s.done ==>
        && s.lastBytesSent <= 7 && TrimmedBy(EndFrame(s), s.acknowledged) == Some(data)
        && (crcSupported ==> ChecksumIn(EndFrame(s)) == CrcHqx(Counted(data, 0, acks, blksize, 0), 0) as int)
        && EndsWith(EndFrame(s), |s.acknowledged| - |data|,
                    if crcSupported then CrcHqx(Counted(data, 0, acks, blksize, 0), 0) as int else 0)
  {
    hide FateOf;
    hide WriteAll;
    hide Counted;
    var s0 := Opened(Some(|data|), blksize, crcSupported, acks);
    BlockDownloadMeetsFate(data, blksize, crcSupported, acks, chunks);
    var (s, e) := WriteAll(s0, data, chunks);
    WriteAllGrows(s0, data, chunks);
    if e.None? && s.done {
      assert (EndFrame(s)[0] / 4) % 8 == 7 - s.lastBytesSent;
      CrcRoundTrip(CrcHqx(s.fed, 0));
      TwoBytes(CrcHqx(s.fed, 0) as int);
    }
  }

  lemma TwoBytes(x: nat)
    requires x < 0x1_0000
    ensures ToBytes(x, 2) == [x % 256, x / 256]
  {
    assert ToBytes(x, 2) == [x % 256] + ToBytes(x / 256, 1);
    assert ToBytes(x / 256, 1) == [x / 256 % 256] + ToBytes(x / 256 / 256, 0);
  }

  // ----- Transfers of unannounced size -----

  const EIGHT_ZEROS: seq<Byte> := [0, 0, 0, 0, 0, 0, 0, 0]
  const EIGHT_ONES: seq<Byte> := [1, 1, 1, 1, 1, 1, 1, 1]

  /** The stream cannot tell the data from a beginning of more. */
  lemma {:induction false} UnannouncedKeepsBlock(s: Stream, data: seq<Byte>, more: seq<Byte>, chunks: seq<nat>)
    requires s.size.None? && InBlock(s, data + more) && s.pos <= |data| && |more| == 8
    ensures var (s', e) := WriteAll(s, data, chunks);
      if e.Some? then Interrupted(s', data + more) else InBlock(s', data + more) && s'.pos <= |data|
    decreases |chunks|
  {
    if chunks != [] && s.pos < |data| {
      var b := data[s.pos..Min(s.pos + chunks[0], |data|)];
      assert b == (data + more)[s.pos..s.pos + |b|];
      WriteKeepsBlock(s, data + more, b);
      WriteGrows(s, b);
      var (s1, r) := Write(s, b);
      if !r.Raised? {
        UnannouncedKeepsBlock(s1, data, more, chunks[1..]);
      }
    }
  }

  /**
   Without an announced size a transfer never ends: what the server has is a prefix of the data, but
   no segment is marked as the last, and the end frame makes the server drop seven bytes it has.
   */
  lemma UnannouncedNeverEnds(data: seq<Byte>, blksize: BlockSize, crcSupported: bool, acks: seq<Ack>, chunks: seq<nat>)
    requires data != []
    ensures var (s, e) := WriteAll(Opened(None, blksize, crcSupported, acks), data, chunks);
      && s.acknowledged <= data
      && (e.None? ==>
            && !s.done && 0 <= s.pos <= |data| && Accounted(s) == data[..s.pos] && s.lastBytesSent == 0
            && TrimmedBy(EndFrame(s), s.acknowledged) != Some(data))
  {
    hide WriteAll;
    var s0 := Opened(None, blksize, crcSupported, acks);
    UnannouncedKeepsBlock(s0, data, EIGHT_ZEROS, chunks);
    UnannouncedKeepsBlock(s0, data, EIGHT_ONES, chunks);
    var (s, e) := WriteAll(s0, data, chunks);
    PrefixOfBoth(s.acknowledged, data);
    if e.None? {
      BlockIsAccounted(s, data + EIGHT_ZEROS);
      assert (data + EIGHT_ZEROS)[..s.pos] == data[..s.pos];
      assert (EndFrame(s)[0] / 4) % 8 == 7;
    }
  }

  lemma PrefixOfBoth(a: seq<Byte>, data: seq<Byte>)
    requires a <= data + EIGHT_ZEROS && a <= data + EIGHT_ONES
    ensures a <= data
  {
    assert (data + EIGHT_ZEROS)[|data|] == 0 && (data + EIGHT_ONES)[|data|] == 1;
  }
}
