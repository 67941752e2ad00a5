/**
 Block upload: what BlockUploadStream does against a server that follows section 7.2.4.3 of CiA 301
 over in-order channels that lose frames in both directions. What is lost is read from scripts: each
 reception first drops some frames, and may find that the retransmission deadline has passed; each
 block response of the client arrives or does not. The client has timed out when nothing is left to
 receive.
 */
module BlockUpload {
  import opened Bits
  import opened Crc
  import opened SdoFrames
  import opened Wrappers

  const BLKSIZE := 127

  datatype Reception = Reception(dropped: nat, late: bool)

  datatype UploadError = NoResponse | DataLost | BadEnd | CrcMismatch | NoSuchAttribute

  datatype Outcome = Data(bytes: seq<Byte>) | Raised(error: UploadError)

  /**
   The stream, the bytes it gave to its checksum, the frames on their way to it, the server's data
   and the position of the first byte the server knows to be received, the losses to come among
   frames and block responses, the number of reads that timed out, and the number of segments the
   client had but could not acknowledge.
   */
  datatype Stream = Stream(
    done: bool, error: bool, pos: nat, fed: seq<Byte>, ackseq: nat, crcSupported: bool,
    channel: seq<Frame>, data: seq<Byte>, start: nat, script: seq<Reception>, acksLost: seq<bool>,
    timeouts: nat, repeated: nat)

  // ----- The server -----

  /** Number of segments of the next block; the client has asked for 127 at most. */
  function BlockLength(remaining: nat): nat {
    Min(127, (remaining + 6) / 7)
  }

  /** Segment number i of a block that starts at a position. */
  function SegmentFrame(data: seq<Byte>, start: nat, i: nat): (f: Frame)
    requires start + 7 * i < |data| && i < 127
    ensures f[0] % 128 == i + 1 && (f[0] >= 128 <==> start + 7 * (i + 1) >= |data|)
  {
    var end := Min(start + 7 * (i + 1), |data|);
    [i + 1 + if start + 7 * (i + 1) >= |data| then 128 else 0] + Padded(data[start + 7 * i..end], 7)
  }

  /** The block, from its segment number i on. */
  function Block(data: seq<Byte>, start: nat, i: nat): (frames: seq<Frame>)
    requires start <= |data| && i <= BlockLength(|data| - start)
    ensures |frames| == BlockLength(|data| - start) - i
    decreases BlockLength(|data| - start) - i
  {
    if i == BlockLength(|data| - start) then [] else [SegmentFrame(data, start, i)] + Block(data, start, i + 1)
  }

  /** The server's end of the transfer: unused bytes of the last segment, and its checksum. */
  function EndFrame(data: seq<Byte>): Frame {
    [0xC1 + 4 * ((7 - |data| % 7) % 7)] + ToBytes(CrcHqx(data, 0) as int, 2) + [0, 0, 0, 0, 0]
  }

  /** A block response arrives: go on after the acknowledged segments, or end. */
  function OnAck(s: Stream, ackseq: nat): Stream {
    var start := Min(s.start + 7 * ackseq, |s.data|);
    s.(start := start,
       channel := s.channel + if start == |s.data| then [EndFrame(s.data)] else Block(s.data, start, 0))
  }

  // ----- The client -----

  /** SdoClient.read_response */
  function Receive(s: Stream): (r: (Stream, Option<Frame>))
    ensures |r.0.script| <= |s.script| && (r.1.Some? ==> |r.0.script| < |s.script|)
  {
    if s.script == [] then (s, None)
    else
      var s1 := s.(script := s.script[1..]);
      if s.script[0].dropped >= |s.channel| then (s1.(channel := []), None)
      else (s1.(channel := s.channel[s.script[0].dropped + 1..]), Some(s.channel[s.script[0].dropped]))
  }

  /** The next block response will not reach the server. */
  predicate AckIsLost(s: Stream) {
    s.acksLost != [] && s.acksLost[0]
  }

  /** BlockUploadStream._ack_block */
  function AckBlock(s: Stream): Stream {
    var s1 := s.(ackseq := 0, acksLost := if s.acksLost == [] then [] else s.acksLost[1..]);
    if AckIsLost(s) then s1.(repeated := s.repeated + s.ackseq) else OnAck(s1, s.ackseq)
  }

  /** The loop of _retransmit: skip everything up to the first segment of the new block. */
  function Resync(s: Stream): (r: (Stream, Result<Frame, UploadError>))
    ensures |r.0.script| <= |s.script| && (r.1.Ok? ==> |r.0.script| < |s.script|)
    decreases |s.script|
  {
    var (s1, r) := Receive(s);
    match r
    case None => (s1, Err(NoResponse))
    case Some(f) =>
      if f[0] % 128 == s1.ackseq + 1 then (s1.(ackseq := f[0] % 128), Ok(f))
      else if s.script[0].late then (s1.(error := true), Err(DataLost))
      else Resync(s1)
  }

  /** BlockUploadStream._retransmit */
  function Retransmit(s: Stream): (r: (Stream, Result<Frame, UploadError>))
    ensures |r.0.script| <= |s.script| && (r.1.Ok? ==> |r.0.script| < |s.script|)
  {
    Resync(AckBlock(s))
  }

  /** BlockUploadStream.read with a size */
  function Read(s: Stream): (r: (Stream, Outcome))
    ensures |r.0.script| <= |s.script| && (r.1.Data? && !s.done ==> |r.0.script| < |s.script|)
  {
    if s.done then (s, Data([]))
    else
      var (s1, response) := Receive(s);
      match response
      case Some(f) => CheckSequence(s1, f)
      case None =>
        var (s2, again) := Retransmit(s1.(timeouts := s1.timeouts + 1));
        match again
        case Err(e) => (s2, Raised(e))
        case Ok(f) => CheckSequence(s2, f)
  }

  function CheckSequence(s: Stream, f: Frame): (r: (Stream, Outcome))
    ensures |r.0.script| <= |s.script|
  {
    if f[0] % 128 == s.ackseq + 1 then Accept(s.(ackseq := f[0] % 128), f)
    else
      var (s1, again) := Retransmit(s);
      match again
      case Err(e) => (s1, Raised(e))
      case Ok(g) => Accept(s1, g)
  }

  /** A segment in sequence: acknowledge a finished block, end a finished transfer, check the data. */
  function Accept(s: Stream, f: Frame): (r: (Stream, Outcome))
    ensures |r.0.script| <= |s.script|
  {
    var last := f[0] >= 128;
    var s1 := if s.ackseq >= BLKSIZE || last then AckBlock(s) else s;
    if last then AcceptLast(s1, f) else (Checked(s1, f[1..8]).(pos := s1.pos + 7), Data(f[1..8]))
  }

  function Checked(s: Stream, bytes: seq<Byte>): Stream {
    s.(fed := if s.crcSupported then s.fed + bytes else s.fed)
  }

  /** The last segment: how much of it counts is only known from the end frame. */
  function AcceptLast(s: Stream, f: Frame): (r: (Stream, Outcome))
    ensures |r.0.script| <= |s.script|
  {
    var (s1, response) := Receive(s);
    match response
    case None => (s1, Raised(NoSuchAttribute))  // the handler calls an abort method the stream does not have
    case Some(end) =>
      if Specifier(end) != RESPONSE_BLOCK_UPLOAD || end[0] % 4 != 1 then (s1.(error := true), Raised(BadEnd))
      else
        var bytes := f[1..8 - (end[0] / 4) % 8];
        var s2 := Checked(s1, bytes).(done := true);
        if s2.crcSupported && FromBytes(end[1..3]) != CrcHqx(s2.fed, 0) as int
        then (s2.(error := true), Raised(CrcMismatch))
        else (s2.(pos := s2.pos + |bytes|), Data(bytes))
  }

  /** How any frame that comes after the last segment is taken, whatever server sends it. */
  lemma EndFrameIsTaken(s: Stream, f: Frame)
    requires s.script != [] && s.script[0].dropped == 0 && s.channel != []
    ensures var end := s.channel[0];
      var unused := end[0] / 4 % 8;
      var low: int, high: int := end[1], end[2];
      var (s1, r) := AcceptLast(s, f);
      if end[0] / 32 != 6 || end[0] % 4 != 1 then r == Raised(BadEnd) && s1.error && s1.done == s.done
      else if s.crcSupported && low + 256 * high != CrcHqx(s.fed + f[1..8 - unused], 0) as int
      then r == Raised(CrcMismatch) && s1.error
      else r == Data(f[1..8 - unused]) && s1.done && s1.error == s.error && s1.pos == s.pos + 7 - unused
  {
    hide CrcHqx;
    var end := s.channel[0];
    assert end[1..3] == [end[1], end[2]] && end[1..3][1..] == [end[2]] && [end[2]][1..] == [];
    assert FromBytes([end[2]]) == end[2];
  }

  /** readall: what was collected, and what was raised. */
  function ReadAll(s: Stream, collected: seq<Byte>): (Stream, seq<Byte>, Option<UploadError>)
    decreases |s.script|
  {
    var (s1, r) := Read(s);
    match r
    case Raised(e) => (s1, collected, Some(e))
    case Data(bytes) => if bytes == [] then (s1, collected, None) else ReadAll(s1, collected + bytes)
  }

  /** After the initiate exchange and the start request. */
  function Opened(data: seq<Byte>, crcSupported: bool, script: seq<Reception>, acksLost: seq<bool>): Stream {
    Stream(false, false, 0, [], 0, crcSupported, Block(data, 0, 0), data, 0, script, acksLost, 0, 0)
  }

  // ----- Invariants -----

  /** Position in the server's data of the next segment the client is waiting for. */
  function Next(s: Stream): nat {
    s.start + 7 * s.ackseq
  }

  /** Between two reads: what can still arrive is the rest of the current block. */
  ghost predicate InBlock(s: Stream) {
    !s.done && !s.error && s.start % 7 == 0 && s.start < |s.data| && s.ackseq < BlockLength(|s.data| - s.start) &&
    s.channel == Block(s.data, s.start, s.ackseq)
  }

  /** A block is read to its end, but the server does not know: nothing is on its way. */
  ghost predicate Stalled(s: Stream) {
    !s.done && !s.error && s.start % 7 == 0 && s.start < |s.data| && s.ackseq == 0 && s.channel == []
  }

  /** Between two reads. Without a timeout so far, nothing of an open block has been read before. */
  ghost predicate Reading(s: Stream) {
    (InBlock(s) && (s.timeouts == 0 ==> s.repeated == 0)) || Stalled(s)
  }

  /** As long as no read timed out, the checksum has seen the data up to the next segment. */
  ghost predicate ChecksumInStep(s: Stream, next: nat) {
    s.crcSupported && s.timeouts == 0 && next <= |s.data| ==> s.fed == s.data[..next]
  }

  lemma {:induction false} BlockAt(data: seq<Byte>, start: nat, i: nat, k: nat)
    requires start <= |data| && i + k <= BlockLength(|data| - start)
    ensures Block(data, start, i)[k..] == Block(data, start, i + k)
    ensures i + k < BlockLength(|data| - start) ==>
      start + 7 * (i + k) < |data| && Block(data, start, i)[k] == SegmentFrame(data, start, i + k)
    decreases k
  {
    if k > 0 {
      BlockAt(data, start, i + 1, k - 1);
      assert Block(data, start, i)[k..] == Block(data, start, i + 1)[k - 1..];
    }
  }

  // ----- Accepting a segment -----

  /** The segment number i of the current block has just been accepted. */
  ghost predicate Accepting(s: Stream, i: nat) {
    !s.done && !s.error && s.start % 7 == 0 && s.start < |s.data| && i < BlockLength(|s.data| - s.start) &&
    s.ackseq == i + 1 && s.channel == Block(s.data, s.start, i + 1)
  }

  /** The bytes of one segment. */
  function SegmentAt(data: seq<Byte>, from: nat): seq<Byte>
    requires from < |data|
  {
    data[from..Min(from + 7, |data|)]
  }

  /** What a successful read returns and leaves behind, for the segment that starts at a position. */
  ghost predicate Delivered(s: Stream, s': Stream, r: Outcome, from: nat) {
    from < |s.data| && r == Data(SegmentAt(s.data, from)) && s'.pos == s.pos + |SegmentAt(s.data, from)| &&
    s'.data == s.data && s'.crcSupported == s.crcSupported &&
    (if from + 7 >= |s.data| then s'.done && !s'.error && s'.repeated == s.repeated else Continues(s, s', from + 7)) &&
    ChecksumInStep(s', Min(from + 7, |s.data|))
  }

  /** The next segment is due; or the server does not know that the block has been read. */
  ghost predicate Continues(s: Stream, s': Stream, next: nat) {
    (InBlock(s') && Next(s') == next && s'.repeated == s.repeated) ||
    (Stalled(s') && Next(s') + 7 * BLKSIZE == next && s'.repeated == s.repeated + BLKSIZE)
  }

  /** After the last segment, its acknowledgement or the end frame is lost. */
  predicate EndIsLost(s: Stream) {
    s.script == [] || s.script[0].dropped > 0 || AckIsLost(s)
  }

  /** Only the last segment waits for a further frame; only a lost acknowledgement makes the server repeat. */
  predicate Consumed(s: Stream, s': Stream) {
    && (if s'.done then s.script != [] && s'.script == s.script[1..] else s'.script == s.script)
    && (s'.acksLost == s.acksLost || (s.acksLost != [] && s'.acksLost == s.acksLost[1..]))
    && (s'.repeated != s.repeated ==> AckIsLost(s))
  }

  lemma AcceptDelivers(s: Stream, i: nat)
    requires Accepting(s, i) && ChecksumInStep(s, s.start + 7 * i)
    ensures var from := s.start + 7 * i;
      var (s', r) := Accept(s, SegmentFrame(s.data, s.start, i));
      && s'.timeouts == s.timeouts
      && (r.Data? ==> Delivered(s, s', r, from) && Consumed(s, s'))
      && (r.Raised? ==> (EndIsLost(s) && r.error == NoSuchAttribute) || (s.crcSupported && s.timeouts > 0))
  {
    hide Accept;
    if s.start + 7 * i + 7 >= |s.data| {
      FinalSegmentDelivers(s, i);
    } else {
      MiddleSegmentDelivers(s, i);
    }
  }

  lemma FinalSegmentDelivers(s: Stream, i: nat)
    requires Accepting(s, i) && ChecksumInStep(s, s.start + 7 * i) && s.start + 7 * i + 7 >= |s.data|
    ensures var from := s.start + 7 * i;
      var (s', r) := Accept(s, SegmentFrame(s.data, s.start, i));
      && s'.timeouts == s.timeouts
      && (r.Data? ==> Delivered(s, s', r, from) && Consumed(s, s'))
      && (r.Raised? ==> (EndIsLost(s) && r.error == NoSuchAttribute) || (s.crcSupported && s.timeouts > 0))
  {
    hide CrcHqx;
    hide AcceptLast;
    var from := s.start + 7 * i;
    var f := SegmentFrame(s.data, s.start, i);
    assert s.channel == [] && s.data[from..|s.data|] == s.data[from..];
    assert Accept(s, f) == AcceptLast(AckBlock(s), f);
    if AckIsLost(s) {
      NothingToReceive(AckBlock(s), f);
    } else {
      LastSegmentDelivers(AckBlock(s), f, from);
    }
  }

  lemma NothingToReceive(s: Stream, f: Frame)
    requires s.channel == []
    ensures var (s', r) := AcceptLast(s, f);
      s'.timeouts == s.timeouts && r == Raised(NoSuchAttribute)
  {
  }

  lemma MiddleSegmentDelivers(s: Stream, i: nat)
    requires Accepting(s, i) && ChecksumInStep(s, s.start + 7 * i) && s.start + 7 * i + 7 < |s.data|
    ensures var (s', r) := Accept(s, SegmentFrame(s.data, s.start, i));
      s'.timeouts == s.timeouts && Delivered(s, s', r, s.start + 7 * i) && Consumed(s, s')
  {
    hide Block;
    hide SegmentFrame;
    hide AckBlock;
    var from := s.start + 7 * i;
    var f := SegmentFrame(s.data, s.start, i);
    var bytes := SegmentAt(s.data, from);
    FullSegmentFrame(s.data, s.start, i);
    assert s.data[..from] + bytes == s.data[..from + 7];
    var s1 := if i + 1 >= BLKSIZE then AckBlock(s) else s;
    NextSegmentIsDue(s, i);
    assert Accept(s, f) == (Checked(s1, bytes).(pos := s1.pos + 7), Data(bytes));
  }

  lemma FullSegmentFrame(data: seq<Byte>, start: nat, i: nat)
    requires start + 7 * i + 7 < |data| && i < BLKSIZE
    ensures var f := SegmentFrame(data, start, i);
      f[0] < 128 && f[1..8] == SegmentAt(data, start + 7 * i)
  {
    assert SegmentFrame(data, start, i)[1..8] == Padded(SegmentAt(data, start + 7 * i), 7);
  }

  /** A full block is acknowledged and the server sends the next one, unless the acknowledgement is lost. */
  lemma NextSegmentIsDue(s: Stream, i: nat)
    requires Accepting(s, i) && s.start + 7 * i + 7 < |s.data|
    ensures var s1 := if i + 1 >= BLKSIZE then AckBlock(s) else s;
      && Continues(s, s1, s.start + 7 * i + 7) && Consumed(s, s1)
      && s1 == s.(start := s1.start, ackseq := s1.ackseq, channel := s1.channel, acksLost := s1.acksLost,
                  repeated := s1.repeated)
  {
    if i + 1 >= BLKSIZE {
      assert s.channel == [] && i + 1 == BLKSIZE;
      FullBlockEnds(s);
    }
  }

  lemma FullBlockEnds(s: Stream)
    requires !s.done && !s.error && s.start % 7 == 0 && s.ackseq == BLKSIZE && s.channel == []
    requires s.start + 7 * BLKSIZE < |s.data|
    ensures var s1 := AckBlock(s);
      && Continues(s, s1, s.start + 7 * BLKSIZE) && Consumed(s, s1)
      && s1 == s.(start := s1.start, ackseq := s1.ackseq, channel := s1.channel, acksLost := s1.acksLost,
                  repeated := s1.repeated)
  {
    hide Block;
    if !AckIsLost(s) {
      var next := Block(s.data, s.start + 7 * BLKSIZE, 0);
      assert s.channel + next == next;
    }
  }

  lemma LastSegmentDelivers(s: Stream, f: Frame, from: nat)
    requires from % 7 == 0 && from < |s.data| <= from + 7 && ChecksumInStep(s, from)
    requires s.channel == [EndFrame(s.data)] && f[1..8] == Padded(s.data[from..], 7) && !s.error
    ensures var (s', r) := AcceptLast(s, f);
      && s'.timeouts == s.timeouts
      && (r.Data? ==>
            Delivered(s, s', r, from) && s.script != [] && s' == s'.(script := s.script[1..], acksLost := s.acksLost))
      && (r.Raised? ==> ((s.script == [] || s.script[0].dropped > 0) && r.error == NoSuchAttribute) ||
                        (s.crcSupported && s.timeouts > 0))
  {
    hide Block;
    hide CrcHqx;
    hide ToBytes;
    hide FromBytes;
    var end := EndFrame(s.data);
    UnusedBytes(s.data, from);
    var n := |s.data| - from;
    assert Padded(s.data[from..], 7)[..n] == s.data[from..] == SegmentAt(s.data, from);
    assert f[1..8 - (end[0] / 4) % 8] == f[1..8][..n];
    assert s.data[..from] + SegmentAt(s.data, from) == s.data == s.data[..|s.data|];
    CrcRoundTrip(CrcHqx(s.data, 0));
    assert end[1..3] == ToBytes(CrcHqx(s.data, 0) as int, 2);
  }

  /** The end frame counts the padding of the last segment. */
  lemma UnusedBytes(data: seq<Byte>, from: nat)
    requires from % 7 == 0 && from < |data| <= from + 7
    ensures var f := EndFrame(data);
      Specifier(f) == RESPONSE_BLOCK_UPLOAD && f[0] % 4 == 1 && (f[0] / 4) % 8 == 7 - (|data| - from)
  {
  }

  // ----- Resynchronising -----

  /** No frame carries sequence number one. */
  ghost predicate NoFirst(channel: seq<Frame>) {
    forall i :: 0 <= i < |channel| ==> channel[i][0] % 128 != 1
  }

  /** Leftovers of an abandoned block, then the whole new block; or what is left once its first frame is lost. */
  ghost predicate Restarting(s: Stream) {
    s.start <= |s.data| &&
    (NoFirst(s.channel) || exists k :: StartsAt(s, k))
  }

  /** The new block starts at index k of the channel. */
  ghost predicate StartsAt(s: Stream, k: int) {
    s.start <= |s.data| && 0 <= k <= |s.channel| && NoFirst(s.channel[..k]) && s.channel[k..] == Block(s.data, s.start, 0)
  }

  /** A block without its first frame has no frame number one. */
  lemma {:induction false} RestHasNoFirst(data: seq<Byte>, start: nat, i: nat)
    requires start <= |data| && 1 <= i <= BlockLength(|data| - start)
    ensures NoFirst(Block(data, start, i))
    decreases BlockLength(|data| - start) - i
  {
    if i < BlockLength(|data| - start) {
      RestHasNoFirst(data, start, i + 1);
    }
  }

  /** Resynchronising succeeds only with the first segment of the new block, and drops everything before it. */
  lemma {:induction false} ResyncFindsFirst(s: Stream)
    requires s.ackseq == 0 && s.start < |s.data| && Restarting(s)
    ensures var (s', r) := Resync(s);
      r.Ok? ==>
        r.value == SegmentFrame(s.data, s.start, 0) &&
        s' == s.(ackseq := 1, channel := Block(s.data, s.start, 1), script := s'.script)
    decreases |s.script|
  {
    var (s1, r) := Receive(s);
    if r.Some? {
      var d := s.script[0].dropped;
      assert s.channel[d] == r.value;
      if r.value[0] % 128 == 1 {
        var k :| StartsAt(s, k);
        FirstIsHead(s, k, d);
      } else if !s.script[0].late {
        StillRestarting(s, d, s1);
        ResyncFindsFirst(s1);
      }
    }
  }

  lemma FirstIsHead(s: Stream, k: nat, d: nat)
    requires s.start < |s.data| && d < |s.channel| && s.channel[d][0] % 128 == 1 && StartsAt(s, k)
    ensures d == k && s.channel[d] == SegmentFrame(s.data, s.start, 0)
    ensures s.channel[d + 1..] == Block(s.data, s.start, 1)
  {
    RestHasNoFirst(s.data, s.start, 1);
    var block, rest := Block(s.data, s.start, 0), Block(s.data, s.start, 1);
    assert block == [block[0]] + rest;
    assert forall i :: 0 <= i < k ==> s.channel[i] == s.channel[..k][i];
    assert forall i :: k < i < |s.channel| ==> s.channel[i] == block[i - k] == rest[i - k - 1];
    assert s.channel[k + 1..] == rest;
  }

  lemma BehindFirst(s: Stream, k: nat, n: nat)
    requires s.start < |s.data| && StartsAt(s, k) && k < n <= |s.channel|
    ensures NoFirst(s.channel[n..])
  {
    RestHasNoFirst(s.data, s.start, 1);
    var block, rest := Block(s.data, s.start, 0), Block(s.data, s.start, 1);
    assert block == [block[0]] + rest;
    hide Block;
    assert s.channel[n..] == block[n - k..] == rest[n - k - 1..];
  }

  lemma StillRestarting(s: Stream, d: nat, s1: Stream)
    requires s.start < |s.data| && d < |s.channel| && s.channel[d][0] % 128 != 1 && Restarting(s)
    requires s1 == s.(channel := s.channel[d + 1..], script := s1.script)
    ensures Restarting(s1)
  {
    if !NoFirst(s.channel) {
      var k :| StartsAt(s, k);
      if d < k {
        assert s1.channel[..k - d - 1] == s.channel[..k][d + 1..] && s1.channel[k - d - 1..] == s.channel[k..];
        assert StartsAt(s1, k - d - 1);
      } else {
        BehindFirst(s, k, d + 1);
      }
    }
  }

  /** Without a first frame on the way, resynchronising fails. */
  lemma {:induction false} ResyncFails(s: Stream)
    requires s.ackseq == 0 && NoFirst(s.channel)
    ensures Resync(s).1.Err?
    ensures Resync(s).1.error in {NoResponse, DataLost}
    ensures Resync(s).0.timeouts == s.timeouts
    decreases |s.script|
  {
    var (s1, r) := Receive(s);
    if r.Some? && !s.script[0].late {
      ResyncFails(s1);
    }
  }

  // ----- One read -----

  /** Asking for retransmission from the middle of a block, whatever is left of it on the way. */
  lemma RetransmitFindsNext(s: Stream)
    requires !s.done && !s.error && s.start % 7 == 0 && Next(s) < |s.data| && NoFirst(s.channel)
    ensures var (s', r) := Retransmit(s);
      if r.Ok? then
        r.value == SegmentFrame(s.data, Next(s), 0) && Accepting(s', 0) &&
        s' == s.(start := Next(s), ackseq := 1, channel := s'.channel, script := s'.script, acksLost := s'.acksLost)
      else true
  {
    hide Resync;
    if AckIsLost(s) {
      ResyncFails(AckBlock(s));
    } else {
      RestartIsDue(s);
      ResyncFindsFirst(AckBlock(s));
    }
  }

  /** The acknowledgement makes the server start a block at the segment the client is waiting for. */
  lemma RestartIsDue(s: Stream)
    requires s.start % 7 == 0 && Next(s) < |s.data| && NoFirst(s.channel) && !AckIsLost(s)
    ensures var s1 := AckBlock(s);
      s1 == s.(start := Next(s), ackseq := 0, channel := s1.channel, acksLost := s1.acksLost) && Restarting(s1)
  {
    var s1, n := AckBlock(s), |s.channel|;
    var block := Block(s.data, Next(s), 0);
    assert s1.channel == s.channel + block;
    assert s1.channel[..n] == s.channel && s1.channel[n..] == block;
    assert StartsAt(s1, n);
  }

  /** Asking for retransmission after the last segment: only the end frame comes. */
  lemma RetransmitFindsEnd(s: Stream)
    requires Next(s) >= |s.data| && NoFirst(s.channel)
    ensures Retransmit(s).1.Err? && Retransmit(s).1.error != CrcMismatch
  {
    var s1 := AckBlock(s);
    assert s1.channel == if AckIsLost(s) then s.channel else s.channel + [EndFrame(s.data)];
    assert EndFrame(s.data)[0] % 128 != 1;
    ResyncFails(s1);
  }

  /** The errors of resynchronising have nothing to do with the checksum. */
  lemma {:induction false} ResyncKeepsCounters(s: Stream)
    ensures var (s', r) := Resync(s);
      s'.timeouts == s.timeouts && s'.data == s.data && s'.crcSupported == s.crcSupported &&
      (r.Err? ==> r.error == NoResponse || r.error == DataLost)
    decreases |s.script|
  {
    var (s1, r) := Receive(s);
    if r.Some? && r.value[0] % 128 != s1.ackseq + 1 && !s.script[0].late {
      ResyncKeepsCounters(s1);
    }
  }

  lemma RetransmitKeepsCounters(s: Stream)
    ensures var (s', r) := Retransmit(s);
      s'.timeouts == s.timeouts && s'.data == s.data && s'.crcSupported == s.crcSupported &&
      (r.Err? ==> r.error == NoResponse || r.error == DataLost)
  {
    ResyncKeepsCounters(AckBlock(s));
  }

  /** Everything a read may do from inside a block: a read that times out skips exactly one segment. */
  ghost predicate ReadGoal(s: Stream, s': Stream, r: Outcome) {
    s.timeouts <= s'.timeouts <= s.timeouts + 1 &&
    match r
    case Data(_) => Delivered(s, s', r, Next(s) + 7 * (s'.timeouts - s.timeouts))
    case Raised(e) => e == CrcMismatch ==> s'.timeouts > 0
  }

  lemma DeliveredFromEarlier(s: Stream, s1: Stream, s': Stream, r: Outcome, from: nat)
    requires s1 == s.(ackseq := s1.ackseq, channel := s1.channel, script := s1.script, timeouts := s1.timeouts)
    requires Delivered(s1, s', r, from)
    ensures Delivered(s, s', r, from)
  {
  }

  lemma ReadFromBlock(s: Stream)
    requires Reading(s) && (InBlock(s) ==> ChecksumInStep(s, Next(s)))
    ensures var (s', r) := Read(s);
      ReadGoal(s, s', r) && (Stalled(s) && r.Data? ==> s'.timeouts > s.timeouts)
  {
    hide Retransmit;
    hide CheckSequence;
    hide Block;
    hide Delivered;
    var (s1, response) := Receive(s);
    if response.Some? {
      ReadReceives(s, s.script[0].dropped);
    } else {
      ReadUnanswered(s);
    }
  }

  /** Nothing is received: the read times out. */
  lemma ReadUnanswered(s: Stream)
    requires Reading(s) && Receive(s).1.None?
    ensures var (s', r) := Read(s);
      ReadGoal(s, s', r) && s'.timeouts == s.timeouts + 1
  {
    hide Retransmit;
    hide CheckSequence;
    hide Block;
    hide Delivered;
    var s1 := Receive(s).0.(timeouts := s.timeouts + 1);
    if s.script == [] {
      RetransmitUnanswered(s1);
    } else {
      ReadTimesOut(s1);
      var (s2, again) := Retransmit(s1);
      if again.Ok? && CheckSequence(s2, again.value).1.Data? {
        var (s', r) := CheckSequence(s2, again.value);
        DeliveredFromEarlier(s, s1, s', r, Next(s) + 7);
      }
    }
  }

  lemma RetransmitUnanswered(s: Stream)
    requires s.script == []
    ensures var (s1, again) := Retransmit(s);
      s1.timeouts == s.timeouts && again == Err(NoResponse)
  {
  }

  lemma ReceiveFromBlock(s: Stream, d: nat)
    requires InBlock(s) && s.script != [] && d == s.script[0].dropped < |s.channel|
    ensures var i := s.ackseq + d;
      i < BlockLength(|s.data| - s.start) && s.start + 7 * i < |s.data| &&
      Receive(s) == (s.(channel := Block(s.data, s.start, i + 1), script := s.script[1..]),
                     Some(SegmentFrame(s.data, s.start, i)))
  {
    hide Block;
    hide SegmentFrame;
    BlockAt(s.data, s.start, s.ackseq, d);
    BlockAt(s.data, s.start, s.ackseq, d + 1);
  }

  /** Some frames of the block are lost, the next one arrives. */
  lemma ReadReceives(s: Stream, d: nat)
    requires InBlock(s) && ChecksumInStep(s, Next(s)) && s.script != [] && d == s.script[0].dropped < |s.channel|
    ensures var (s1, response) := Receive(s);
      var (s', r) := CheckSequence(s1, response.value);
      s'.timeouts == s.timeouts && ReadGoal(s, s', r)
  {
    hide CheckSequence;
    hide ReadGoal;
    hide Block;
    hide SegmentFrame;
    hide Receive;
    ReceiveFromBlock(s, d);
    var i := s.ackseq + d;
    var s1, f := Receive(s).0, SegmentFrame(s.data, s.start, i);
    if d == 0 {
      InSequence(s1, f, i);
    } else {
      RestHasNoFirst(s.data, s.start, i + 1);
      AfterGap(s1, f);
    }
    GoalIgnoresChannel(s, s1, CheckSequence(s1, f).0, CheckSequence(s1, f).1);
  }

  lemma GoalIgnoresChannel(s: Stream, s1: Stream, s': Stream, r: Outcome)
    requires s1 == s.(channel := s1.channel, script := s1.script) && ReadGoal(s1, s', r)
    ensures ReadGoal(s, s', r)
  {
  }

  lemma ExpectedIsAccepted(s: Stream, f: Frame)
    requires f[0] % 128 == s.ackseq + 1
    ensures CheckSequence(s, f) == Accept(s.(ackseq := s.ackseq + 1), f)
  {
  }

  lemma InSequence(s: Stream, f: Frame, i: nat)
    requires s.ackseq == i && Accepting(s.(ackseq := i + 1), i) && f == SegmentFrame(s.data, s.start, i)
    requires ChecksumInStep(s, Next(s))
    ensures var (s', r) := CheckSequence(s, f);
      s'.timeouts == s.timeouts && ReadGoal(s, s', r)
  {
    hide Accept;
    hide Block;
    hide SegmentFrame;
    hide CheckSequence;
    ExpectedIsAccepted(s, f);
    AcceptDelivers(s.(ackseq := i + 1), i);
  }

  /** A frame that is not the next one: the server is asked to go back, and the segment waited for is returned. */
  lemma AfterGap(s: Stream, f: Frame)
    requires !s.done && !s.error && s.start % 7 == 0 && Next(s) < |s.data| && NoFirst(s.channel)
    requires f[0] % 128 != s.ackseq + 1 && ChecksumInStep(s, Next(s))
    ensures var (s', r) := CheckSequence(s, f);
      s'.timeouts == s.timeouts && ReadGoal(s, s', r)
  {
    hide Block;
    hide Resync;
    hide SegmentFrame;
    hide Accept;
    hide Retransmit;
    RetransmitFindsNext(s);
    RetransmitKeepsCounters(s);
    var (s1, again) := Retransmit(s);
    if again.Ok? {
      AcceptDelivers(s1, 0);
    }
  }

  /** The resynchronised segment fails the sequence check a second time, is acknowledged, and is lost. */
  lemma ReadTimesOut(s: Stream)
    requires !s.done && !s.error && s.start % 7 == 0 && s.start < |s.data| && Next(s) < |s.data|
    requires NoFirst(s.channel) && s.timeouts > 0
    ensures var (s1, again) := Retransmit(s);
      match again
      case Err(e) => e != CrcMismatch && s1.timeouts == s.timeouts
      case Ok(f) =>
        var (s', r) := CheckSequence(s1, f);
        s'.timeouts == s.timeouts && (r.Data? ==> Delivered(s, s', r, Next(s) + 7))
  {
    hide Accept;
    hide Retransmit;
    hide Block;
    RetransmitKeepsCounters(s);
    RetransmitFindsNext(s);
    var (s1, again) := Retransmit(s);
    if again.Ok? {
      RestHasNoFirst(s1.data, s1.start, 1);
      RetransmitKeepsCounters(s1);
      if Next(s1) < |s.data| {
        RetransmitFindsNext(s1);
        var (s2, second) := Retransmit(s1);
        if second.Ok? {
          AcceptDelivers(s2, 0);
        }
      } else {
        RetransmitFindsEnd(s1);
      }
    }
  }

  // ----- Whole uploads -----

  /** What was collected: a timeout skips one segment, a lost acknowledgement repeats what it would have acknowledged. */
  ghost predicate Collected(collected: seq<Byte>, s: Stream, next: nat) {
    s.pos == |collected| && |collected| + 7 * s.timeouts == next + 7 * s.repeated &&
    (s.timeouts == 0 ==> next + 7 * s.repeated <= |s.data| && collected == s.data[..next + 7 * s.repeated])
  }

  lemma OneReadCollects(s: Stream, collected: seq<Byte>, s1: Stream, bytes: seq<Byte>)
    requires Reading(s) && Collected(collected, s, Next(s)) && ReadGoal(s, s1, Data(bytes))
    requires Stalled(s) ==> s1.timeouts > 0
    ensures s1.data == s.data && s1.timeouts >= s.timeouts
    ensures s1.done ==> Collected(collected + bytes, s1, |s.data|) && (s1.timeouts == 0 ==> s1.repeated == 0)
    ensures !s1.done ==>
      Reading(s1) && (InBlock(s1) ==> ChecksumInStep(s1, Next(s1))) && Collected(collected + bytes, s1, Next(s1))
  {
    hide Block;
    hide SegmentAt;
    var from := Next(s) + 7 * (s1.timeouts - s.timeouts);
    SegmentJoins(s.data, from);
  }

  lemma SegmentJoins(data: seq<Byte>, from: nat)
    requires from < |data|
    ensures data[..from] + SegmentAt(data, from) == data[..Min(from + 7, |data|)]
    ensures |SegmentAt(data, from)| == Min(7, |data| - from)
  {
  }

  lemma NothingMoreToRead(s: Stream, collected: seq<Byte>)
    requires s.done
    ensures ReadAll(s, collected) == (s, collected, None)
  {
    assert Read(s) == (s, Data([]));
  }

  lemma {:induction false} ReadAllCollects(s: Stream, collected: seq<Byte>)
    requires Reading(s) && (InBlock(s) ==> ChecksumInStep(s, Next(s))) && Collected(collected, s, Next(s))
    ensures var (s', all, e) := ReadAll(s, collected);
      && s'.timeouts >= s.timeouts
      && (s'.timeouts == 0 ==> all <= s.data && (e.Some? ==> e.value != CrcMismatch))
      && (e.None? ==> |all| + 7 * s'.timeouts == |s.data| + 7 * s'.repeated && (s'.timeouts == 0 ==> all == s.data))
    decreases |s.script|
  {
    hide Read;
    hide Block;
    ReadFromBlock(s);
    var (s1, r) := Read(s);
    if r.Data? {
      OneReadCollects(s, collected, s1, r.bytes);
      hide Delivered;
      if s1.done {
        NothingMoreToRead(s1, collected + r.bytes);
        assert s.data[..|s.data|] == s.data;
      } else {
        ReadAllCollects(s1, collected + r.bytes);
      }
    }
  }

  // ----- Uploads whose block responses all arrive -----

  predicate AllArrive(s: Stream) {
    forall i :: 0 <= i < |s.acksLost| ==> !s.acksLost[i]
  }

  /** Nothing has to be repeated, now or later. */
  ghost predicate NothingRepeated(s: Stream, s': Stream) {
    AllArrive(s) ==> AllArrive(s') && s'.repeated == s.repeated
  }

  lemma {:induction false} ResyncRepeatsNothing(s: Stream)
    ensures var s' := Resync(s).0;
      s'.acksLost == s.acksLost && s'.repeated == s.repeated
    decreases |s.script|
  {
    var (s1, r) := Receive(s);
    if r.Some? && r.value[0] % 128 != s1.ackseq + 1 && !s.script[0].late {
      ResyncRepeatsNothing(s1);
    }
  }

  lemma AckRepeatsNothing(s: Stream)
    ensures NothingRepeated(s, AckBlock(s)) && NothingRepeated(s, Retransmit(s).0)
  {
    hide Resync;
    ResyncRepeatsNothing(AckBlock(s));
  }

  lemma ReadRepeatsNothing(s: Stream)
    ensures NothingRepeated(s, Read(s).0)
  {
    hide CheckSequence;
    hide Retransmit;
    var (s1, response) := Receive(s);
    if !s.done && response.Some? {
      SequenceRepeatsNothing(s1, response.value);
    } else if !s.done {
      var s2 := s1.(timeouts := s1.timeouts + 1);
      AckRepeatsNothing(s2);
      var (s3, again) := Retransmit(s2);
      if again.Ok? {
        SequenceRepeatsNothing(s3, again.value);
      }
    }
  }

  lemma SequenceRepeatsNothing(s: Stream, f: Frame)
    ensures NothingRepeated(s, CheckSequence(s, f).0)
  {
    hide Accept;
    hide Retransmit;
    AcceptRepeatsNothing(s.(ackseq := f[0] % 128), f);
    AckRepeatsNothing(s);
    var (s1, again) := Retransmit(s);
    if again.Ok? {
      AcceptRepeatsNothing(s1, again.value);
    }
  }

  lemma AcceptRepeatsNothing(s: Stream, f: Frame)
    ensures NothingRepeated(s, Accept(s, f).0)
  {
    hide AckBlock;
    hide CrcHqx;
    AckRepeatsNothing(s);
  }

  lemma {:induction false} ReadAllRepeatsNothing(s: Stream, collected: seq<Byte>)
    ensures NothingRepeated(s, ReadAll(s, collected).0)
    decreases |s.script|, !s.done
  {
    hide Read;
    ReadRepeatsNothing(s);
    var (s1, r) := Read(s);
    if r.Data? && r.bytes != [] {
      if s.done {
        NothingMoreToRead(s, collected);
      } else {
        ReadAllRepeatsNothing(s1, collected + r.bytes);
      }
    }
  }

  // ----- Main results -----

  /**
   Block upload delivers the stream. For every pattern of losses in both directions, as long as no
   read times out, the bytes returned are a prefix of the server's data, and the checksum comparison
   never fails. In an upload that ends without exception each timeout has silently cost one segment,
   and each block response that was lost has made the server repeat what it would have acknowledged.
   If all block responses arrive, the upload returns the data exactly when no read timed out.
   */
  lemma BlockUploadDeliversStream(data: seq<Byte>, crcSupported: bool, script: seq<Reception>, acksLost: seq<bool>)
    requires data != []
    ensures var (s, collected, e) := ReadAll(Opened(data, crcSupported, script, acksLost), []);
      && (s.timeouts == 0 ==> collected <= data && (e.Some? ==> e.value != CrcMismatch))
      && (e.None? ==> |collected| + 7 * s.timeouts == |data| + 7 * s.repeated && (s.timeouts == 0 ==> collected == data))
      && (e.None? && true !in acksLost ==> (collected == data <==> s.timeouts == 0))
  {
    hide ReadAll;
    var s0 := Opened(data, crcSupported, script, acksLost);
    assert data[..0] == [];
    assert InBlock(s0);
    ReadAllCollects(s0, []);
    ReadAllRepeatsNothing(s0, []);
    assert true !in acksLost ==> AllArrive(s0);
  }

  /** Without losses the upload completes, with one reception for each segment and one for the end frame. */
  lemma LosslessUploadCompletes(data: seq<Byte>, crcSupported: bool, script: seq<Reception>, acksLost: seq<bool>)
    requires data != [] && |script| > (|data| + 6) / 7 && true !in acksLost
    requires forall i :: 0 <= i < |script| ==> script[i].dropped == 0
    ensures var (s, collected, e) := ReadAll(Opened(data, crcSupported, script, acksLost), []);
      e.None? && collected == data && |s.script| == |script| - (|data| + 6) / 7 - 1
  {
    assert data[..0] == [];
    LosslessReadAll(Opened(data, crcSupported, script, acksLost), []);
  }

  lemma {:induction false} LosslessReadAll(s: Stream, collected: seq<Byte>)
    requires InBlock(s) && ChecksumInStep(s, Next(s)) && s.timeouts == 0 && collected == s.data[..Next(s)]
    requires |s.script| > (|s.data| - Next(s) + 6) / 7 && true !in s.acksLost
    requires forall i :: 0 <= i < |s.script| ==> s.script[i].dropped == 0
    ensures var (s', all, e) := ReadAll(s, collected);
      e.None? && all == s.data && |s'.script| == |s.script| - (|s.data| - Next(s) + 6) / 7 - 1
    decreases |s.script|
  {
    hide Read;
    LosslessRead(s);
    var (s1, r) := Read(s);
    assert s.data[..Next(s)] + r.bytes == s.data[..Min(Next(s) + 7, |s.data|)];
    if s1.done {
      NothingMoreToRead(s1, collected + r.bytes);
      assert s.data[..|s.data|] == s.data;
    } else {
      LosslessReadAll(s1, collected + r.bytes);
    }
  }

  lemma LosslessRead(s: Stream)
    requires InBlock(s) && ChecksumInStep(s, Next(s)) && s.timeouts == 0
    requires |s.script| > (|s.data| - Next(s) + 6) / 7 && s.script[0].dropped == 0 && s.script[1].dropped == 0
    requires true !in s.acksLost
    ensures var (s', r) := Read(s);
      && r.Data? && Delivered(s, s', r, Next(s)) && s'.timeouts == 0 && true !in s'.acksLost
      && s'.repeated == s.repeated && s'.script == s.script[if s'.done then 2 else 1..]
  {
    hide CheckSequence;
    hide Block;
    hide Retransmit;
    hide SegmentFrame;
    hide Accept;
    hide Delivered;
    hide Receive;
    ReceiveFromBlock(s, 0);
    var s1, f := Receive(s).0, SegmentFrame(s.data, s.start, s.ackseq);
    ExpectedIsAccepted(s1, f);
    var s2 := s1.(ackseq := s.ackseq + 1);
    AcceptDelivers(s2, s.ackseq);
    DeliveredFromEarlier(s, s2, Read(s).0, Read(s).1, Next(s));
  }
}
