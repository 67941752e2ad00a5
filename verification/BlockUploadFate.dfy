/**
 What the losses alone decide about a block upload: whether it ends, which segments it returns, and
 in which order. Nothing here looks at the data.
 */
module BlockUploadFate {
  import opened Bits
  import opened BlockUpload
  import opened Crc
  import opened SdoFrames
  import opened Wrappers

  /** An exception, or the numbers of the segments that are returned, in order. */
  datatype Fate = Failed(error: UploadError) | Completed(read: seq<nat>)

  function Then(segment: nat, f: Fate): Fate {
    if f.Completed? then Completed([segment] + f.read) else f
  }

  predicate LostNext(acksLost: seq<bool>) {
    acksLost != [] && acksLost[0]
  }

  function Rest(acksLost: seq<bool>): seq<bool> {
    if acksLost == [] then [] else acksLost[1..]
  }

  /** Length of the block that begins at a segment. */
  function LengthFrom(total: nat, first: nat): nat
    requires first <= total
  {
    Min(127, total - first)
  }

  /**
   Waiting for the first segment of a block behind some other frames: the receptions left, and the
   exception if it does not come. Without frames behind the others there is no such segment.
   */
  function Skip(script: seq<Reception>, before: nat, behind: nat): (r: (seq<Reception>, Option<UploadError>))
    ensures |r.0| <= |script| && (r.1.None? ==> |r.0| < |script| && behind > 0)
    decreases |script|
  {
    if script == [] then (script, Some(NoResponse))
    else
      var dropped, rest := script[0].dropped, script[1..];
      if dropped >= before + behind then (rest, Some(NoResponse))
      else if dropped == before then (rest, None)
      else if script[0].late then (rest, Some(DataLost))
      else if dropped < before then Skip(rest, before - dropped - 1, behind)
      else Skip(rest, before + behind - dropped - 1, 0)
  }

  /** Asking the server to go on from a segment, with frames of an abandoned block still on the way. */
  function AskFor(script: seq<Reception>, acksLost: seq<bool>, total: nat, segment: nat, onTheWay: nat)
    : (r: (seq<Reception>, Option<UploadError>))
    requires segment <= total
    ensures |r.0| <= |script| && (r.1.None? ==> |r.0| < |script| && segment < total)
  {
    if LostNext(acksLost) then Skip(script, onTheWay, 0)
    else if segment == total then Skip(script, onTheWay + 1, 0)  // the end of the transfer
    else Skip(script, onTheWay, LengthFrom(total, segment))
  }

  /**
   The fate of an upload of so many segments, from the block that begins at one of them, of which
   some have been read. A stalled server waits for a response that has been lost.
   */
  function FateOf(script: seq<Reception>, acksLost: seq<bool>, total: nat, first: nat, read: nat, stalled: bool): Fate
    requires read < BLKSIZE && first + read < total
    decreases |script|, 0
  {
    if script == [] then Failed(NoResponse)
    else
      var next, dropped := first + read, script[0].dropped;
      var onTheWay := if stalled then 0 else LengthFrom(total, first) - read;
      if dropped >= onTheWay then
        // Time-out: the segment asked for fails the sequence check, and the one behind it is asked for
        var (script1, e1) := AskFor(script[1..], acksLost, total, next, 0);
        if e1.Some? then Failed(e1.value)
        else
          var (script2, e2) := AskFor(script1, Rest(acksLost), total, next + 1, LengthFrom(total, next) - 1);
          if e2.Some? then Failed(e2.value)
          else Then(next + 1, FateAfter(script2, Rest(Rest(acksLost)), total, next + 1, 1))
      else if dropped == 0 then Then(next, FateAfter(script[1..], acksLost, total, first, read + 1))
      else
        var (script1, e1) := AskFor(script[1..], acksLost, total, next, onTheWay - dropped - 1);
        if e1.Some? then Failed(e1.value) else Then(next, FateAfter(script1, Rest(acksLost), total, next, 1))
  }

  /** The fate once a segment is accepted: at the end of a block its acknowledgement matters. */
  function FateAfter(script: seq<Reception>, acksLost: seq<bool>, total: nat, first: nat, read: nat): Fate
    requires 1 <= read <= BLKSIZE && first + read <= total
    decreases |script|, 1
  {
    if first + read == total then
      if LostNext(acksLost) || script == [] || script[0].dropped > 0 then Failed(NoSuchAttribute) else Completed([])
    else if read < 127 then FateOf(script, acksLost, total, first, read, false)
    else if LostNext(acksLost) then FateOf(script, Rest(acksLost), total, first, 0, true)
    else FateOf(script, Rest(acksLost), total, first + 127, 0, false)
  }

  function Segments(size: nat): nat {
    (size + 6) / 7
  }

  /** The bytes of some segments. */
  function BytesOf(data: seq<Byte>, read: seq<nat>): seq<Byte> {
    if read == [] then []
    else data[Min(7 * read[0], |data|)..Min(7 * read[0] + 7, |data|)] + BytesOf(data, read[1..])
  }

  // ----- Waiting for the first segment of a block -----

  /** Frames without number one, then the whole block the server has begun, if it is on the way. */
  ghost predicate Ahead(s: Stream, before: nat, behind: nat) {
    && |s.channel| == before + behind && NoFirst(s.channel[..before])
    && (behind > 0 ==> s.start < |s.data| && s.channel[before..] == Block(s.data, s.start, 0))
  }

  lemma AheadAt(s: Stream, before: nat, behind: nat, d: nat)
    requires Ahead(s, before, behind) && d < before + behind
    ensures s.channel[d][0] % 128 == 1 <==> d == before
    ensures d < before ==> Ahead(s.(channel := s.channel[d + 1..]), before - d - 1, behind)
    ensures d > before ==> Ahead(s.(channel := s.channel[d + 1..]), before + behind - d - 1, 0)
  {
    var channel := s.channel[d + 1..];
    if d < before {
      assert s.channel[d] == s.channel[..before][d];
      assert channel[..before - d - 1] == s.channel[..before][d + 1..];
      assert channel[before - d - 1..] == s.channel[before..];
    } else {
      assert s.channel[d] == s.channel[before..][d - before];
      var block, rest := Block(s.data, s.start, 0), Block(s.data, s.start, 1);
      RestHasNoFirst(s.data, s.start, 1);
      assert block == [block[0]] + rest;
      assert d > before ==> block[d - before] == rest[d - before - 1];
      assert channel == s.channel[before..][d - before + 1..] == block[d - before + 1..] == rest[d - before..];
      assert channel[..before + behind - d - 1] == channel;
    }
  }

  lemma {:induction false} ResyncIsSkip(s: Stream, before: nat, behind: nat)
    requires s.ackseq == 0 && Ahead(s, before, behind)
    ensures var (s1, r) := Resync(s);
      var (script, e) := Skip(s.script, before, behind);
      && (r.Ok? <==> e.None?) && (r.Err? ==> e == Some(r.error))
      && (r.Ok? ==>
            && r.value == SegmentFrame(s.data, s.start, 0)
            && s1 == s.(ackseq := 1, channel := Block(s.data, s.start, 1), script := script))
    decreases |s.script|
  {
    hide Block;
    hide SegmentFrame;
    hide NoFirst;
    if s.script != [] && s.script[0].dropped < before + behind {
      var d := s.script[0].dropped;
      var s1 := Receive(s).0;
      AheadAt(s, before, behind, d);
      if d == before {
        FirstOfBlock(s, before);
      } else if !s.script[0].late {
        ResyncIsSkip(s1, if d < before then before - d - 1 else before + behind - d - 1, if d < before then behind else 0);
      }
    }
  }

  lemma FirstOfBlock(s: Stream, before: nat)
    requires before < |s.channel| && s.start < |s.data| && s.channel[before..] == Block(s.data, s.start, 0)
    ensures s.channel[before] == SegmentFrame(s.data, s.start, 0) && s.channel[before + 1..] == Block(s.data, s.start, 1)
    ensures s.channel[before][0] % 128 == 1
  {
    var block := Block(s.data, s.start, 0);
    assert s.channel[before] == s.channel[before..][0];
    assert s.channel[before + 1..] == block[1..];
  }

  // ----- One read -----

  lemma SegmentsFrom(data: seq<Byte>, start: nat)
    requires start % 7 == 0 && start <= |data|
    ensures start / 7 <= Segments(|data|) && (start / 7 == Segments(|data|) <==> start == |data|)
    ensures start == 7 * (start / 7)
    ensures BlockLength(|data| - start) == LengthFrom(Segments(|data|), start / 7)
  {
  }

  /** Between two reads: inside a block, or with a server that waits. */
  ghost predicate Open(s: Stream) {
    InBlock(s) || Stalled(s)
  }

  lemma OpenHasNext(s: Stream)
    requires Open(s)
    ensures s.ackseq < BLKSIZE && s.start / 7 + s.ackseq < Segments(|s.data|)
    ensures s.channel == [] <==> Stalled(s)
    ensures Next(s) < |s.data| && Next(s) / 7 == s.start / 7 + s.ackseq
  {
    hide Block;
    SegmentsFrom(s.data, s.start);
  }

  ghost function FateFrom(s: Stream): Fate
    requires Open(s)
  {
    OpenHasNext(s);
    FateOf(s.script, s.acksLost, Segments(|s.data|), s.start / 7, s.ackseq, s.channel == [])
  }

  /** Asking for the next segment, with frames of the abandoned block on the way. */
  lemma RetransmitIsAskFor(s: Stream)
    requires s.start % 7 == 0 && s.start <= |s.data| && NoFirst(s.channel) && Next(s) < |s.data| + 7
    requires !s.done && !s.error
    ensures Next(s) / 7 <= Segments(|s.data|)
    ensures var (s1, r) := Retransmit(s);
      var (script, e) := AskFor(s.script, s.acksLost, Segments(|s.data|), Next(s) / 7, |s.channel|);
      && (r.Ok? <==> e.None?) && (r.Err? ==> e == Some(r.error))
      && (r.Ok? ==>
            && Next(s) < |s.data| && r.value == SegmentFrame(s.data, Next(s), 0) && Accepting(s1, 0)
            && s1 == s.(start := Next(s), ackseq := 1, channel := Block(s.data, Next(s), 1), script := script,
                        acksLost := Rest(s.acksLost)))
  {
    hide Resync;
    hide Skip;
    hide Block;
    hide EndFrame;
    var s1 := AckBlock(s);
    if AckIsLost(s) {
      assert s.channel[..|s.channel|] == s.channel;
      ResyncIsSkip(s1, |s.channel|, 0);
    } else if Next(s) < |s.data| {
      SegmentsFrom(s.data, Next(s));
      assert s1.channel[..|s.channel|] == s.channel && s1.channel[|s.channel|..] == Block(s.data, Next(s), 0);
      ResyncIsSkip(s1, |s.channel|, BlockLength(|s.data| - Next(s)));
    } else {
      EndIsNoFirst(s);
      assert s1.channel[..|s.channel| + 1] == s1.channel;
      ResyncIsSkip(s1, |s.channel| + 1, 0);
    }
  }

  lemma EndIsNoFirst(s: Stream)
    requires NoFirst(s.channel)
    ensures NoFirst(s.channel + [EndFrame(s.data)])
  {
    assert EndFrame(s.data)[0] % 128 != 1;
  }

  /** What a read does that accepts the segment at a position, and what is left of the fate. */
  ghost predicate StepMeets(s: Stream, s1: Stream, r: Outcome, from: nat, f: Fate) {
    from < |s.data| &&
    var bytes := SegmentAt(s.data, from);
    match r
    case Raised(e) =>
      f == Failed(e) ||
      (f == Completed([]) && s.crcSupported && CrcHqx(s.fed + bytes, 0) != CrcHqx(s.data, 0) && e == CrcMismatch)
    case Data(b) =>
      && b == bytes && s1.crcSupported == s.crcSupported && s1.data == s.data
      && (s.crcSupported ==> s1.fed == s.fed + bytes)
      && if s1.done then f == Completed([]) && (s.crcSupported ==> CrcHqx(s1.fed, 0) == CrcHqx(s.data, 0))
         else Open(s1) && f == FateFrom(s1)
  }

  lemma AcceptMeets(s: Stream, i: nat)
    requires Accepting(s, i)
    ensures s.start / 7 + i + 1 <= Segments(|s.data|) && i + 1 <= BLKSIZE
    ensures var (s1, r) := Accept(s, SegmentFrame(s.data, s.start, i));
      StepMeets(s, s1, r, s.start + 7 * i, FateAfter(s.script, s.acksLost, Segments(|s.data|), s.start / 7, i + 1))
  {
    hide Accept;
    hide StepMeets;
    hide FateAfter;
    hide Block;
    hide SegmentFrame;
    SegmentsFrom(s.data, s.start);
    if s.start + 7 * i + 7 < |s.data| {
      MiddleMeets(s, i);
    } else {
      FinalMeets(s, i);
    }
  }

  lemma MiddleMeets(s: Stream, i: nat)
    requires Accepting(s, i) && s.start + 7 * i + 7 < |s.data|
    requires s.start / 7 + i + 1 <= Segments(|s.data|) && i + 1 <= BLKSIZE
    ensures var (s1, r) := Accept(s, SegmentFrame(s.data, s.start, i));
      StepMeets(s, s1, r, s.start + 7 * i, FateAfter(s.script, s.acksLost, Segments(|s.data|), s.start / 7, i + 1))
  {
    hide Block;
    hide SegmentFrame;
    hide FateAfter;
    hide CrcHqx;
    hide AckBlock;
    hide FateFrom;
    hide Open;
    var bytes := SegmentAt(s.data, s.start + 7 * i);
    FullSegmentFrame(s.data, s.start, i);
    NextSegmentIsDue(s, i);
    var s1 := if i + 1 >= BLKSIZE then AckBlock(s) else s;
    var s2 := Checked(s1, bytes).(pos := s1.pos + 7);
    assert Accept(s, SegmentFrame(s.data, s.start, i)) == (s2, Data(bytes));
    NextIsFated(s, i, s2);
  }

  /** Behind a segment that is not the last, the fate goes on from the state reached. */
  lemma NextIsFated(s: Stream, i: nat, s2: Stream)
    requires Accepting(s, i) && s.start + 7 * i + 7 < |s.data|
    requires s.start / 7 + i + 1 <= Segments(|s.data|) && i + 1 <= BLKSIZE
    requires var s1 := if i + 1 >= BLKSIZE then AckBlock(s) else s;
      s2 == s1.(fed := s2.fed, pos := s2.pos)
    ensures Open(s2) && FateFrom(s2) == FateAfter(s.script, s.acksLost, Segments(|s.data|), s.start / 7, i + 1)
  {
    hide Block;
    hide FateOf;
    NextSegmentIsDue(s, i);
    SegmentsFrom(s.data, s.start);
    SegmentsFrom(s.data, s.start + 7 * i + 7);
  }

  lemma FinalMeets(s: Stream, i: nat)
    requires Accepting(s, i) && s.start + 7 * i + 7 >= |s.data|
    requires s.start / 7 + i + 1 <= Segments(|s.data|) && i + 1 <= BLKSIZE
    ensures var (s1, r) := Accept(s, SegmentFrame(s.data, s.start, i));
      StepMeets(s, s1, r, s.start + 7 * i, FateAfter(s.script, s.acksLost, Segments(|s.data|), s.start / 7, i + 1))
  {
    hide AcceptLast;
    hide FateOf;
    var from := s.start + 7 * i;
    var f := SegmentFrame(s.data, s.start, i);
    SegmentsFrom(s.data, s.start);
    assert s.channel == [] && s.data[from..|s.data|] == s.data[from..];
    assert Accept(s, f) == AcceptLast(AckBlock(s), f);
    if AckIsLost(s) {
      NothingToReceive(AckBlock(s), f);
    } else {
      EndIsChecked(AckBlock(s), f, from);
    }
  }

  /** The end frame trims the last segment and brings the checksum of the data. */
  lemma EndIsChecked(s: Stream, f: Frame, from: nat)
    requires from % 7 == 0 && from < |s.data| <= from + 7
    requires s.channel == [EndFrame(s.data)] && f[1..8] == Padded(s.data[from..], 7)
    ensures var (s1, r) := AcceptLast(s, f);
      var bytes := SegmentAt(s.data, from);
      if s.script == [] || s.script[0].dropped > 0 then r == Raised(NoSuchAttribute)
      else if s.crcSupported && CrcHqx(s.fed + bytes, 0) != CrcHqx(s.data, 0) then r == Raised(CrcMismatch)
      else r == Data(bytes) && s1.done && s1.data == s.data && s1.crcSupported == s.crcSupported &&
           (s.crcSupported ==> s1.fed == s.fed + bytes)
  {
    hide CrcHqx;
    var end := EndFrame(s.data);
    UnusedBytes(s.data, from);
    var bytes := SegmentAt(s.data, from);
    assert f[1..8][..|s.data| - from] == bytes == f[1..8 - (end[0] / 4) % 8];
    CrcRoundTrip(CrcHqx(s.data, 0));
    assert end[1..3] == ToBytes(CrcHqx(s.data, 0) as int, 2);
    DifferentNumbers(CrcHqx(s.data, 0), CrcHqx(s.fed + bytes, 0));
  }

  lemma StepFromEarlier(s: Stream, s1: Stream, s2: Stream, r: Outcome, from: nat, f: Fate)
    requires s1.data == s.data && s1.crcSupported == s.crcSupported && s1.fed == s.fed && StepMeets(s1, s2, r, from, f)
    ensures StepMeets(s, s2, r, from, f)
  {
    hide Open;
    hide CrcHqx;
  }

  /** The read raises as the fate says, or accepts a segment. */
  ghost predicate ReadsAs(s: Stream, s1: Stream, r: Outcome, fate: Fate, segment: nat, f: Fate) {
    if r.Raised? && fate == Failed(r.error) then true
    else fate == Then(segment, f) && StepMeets(s, s1, r, 7 * segment, f)
  }

  /** The next segment arrives. */
  lemma InOrderMeets(s: Stream) returns (f: Fate)
    requires InBlock(s) && s.script != [] && s.script[0].dropped == 0
    ensures var (s1, r) := Read(s);
      ReadsAs(s, s1, r, FateFrom(s), s.start / 7 + s.ackseq, f)
  {
    hide Block;
    hide SegmentFrame;
    hide CheckSequence;
    hide Receive;
    hide Retransmit;
    hide Accept;
    hide StepMeets;
    hide FateAfter;
    OpenHasNext(s);
    SegmentsFrom(s.data, s.start);
    ReceiveFromBlock(s, 0);
    var s1, frame := Receive(s).0, SegmentFrame(s.data, s.start, s.ackseq);
    ExpectedIsAccepted(s1, frame);
    var s2 := s1.(ackseq := s.ackseq + 1);
    AcceptMeets(s2, s.ackseq);
    f := FateAfter(s.script[1..], s.acksLost, Segments(|s.data|), s.start / 7, s.ackseq + 1);
    var (s3, r) := Accept(s2, frame);
    StepFromEarlier(s, s2, s3, r, Next(s), f);
  }

  /** A later segment arrives: the one waited for is asked for. */
  lemma GapMeets(s: Stream) returns (f: Fate)
    requires InBlock(s) && s.script != [] && 0 < s.script[0].dropped < |s.channel|
    ensures var (s1, r) := Read(s);
      ReadsAs(s, s1, r, FateFrom(s), s.start / 7 + s.ackseq, f)
  {
    hide Block;
    hide SegmentFrame;
    hide CheckSequence;
    hide Receive;
    hide Retransmit;
    hide Accept;
    hide StepMeets;
    hide FateAfter;
    hide AskFor;
    var d := s.script[0].dropped;
    var i := s.ackseq + d;
    OpenHasNext(s);
    SegmentsFrom(s.data, s.start);
    ReceiveFromBlock(s, d);
    var s1, frame := Receive(s).0, SegmentFrame(s.data, s.start, i);
    RestHasNoFirst(s.data, s.start, i + 1);
    RetransmitIsAskFor(s1);
    UnexpectedAsksAgain(s1, frame);
    var (s2, again) := Retransmit(s1);
    f := Failed(NoResponse);
    if again.Ok? {
      SegmentsFrom(s.data, Next(s));
      AcceptMeets(s2, 0);
      f := FateAfter(s2.script, s2.acksLost, Segments(|s.data|), Next(s) / 7, 1);
      var (s3, r) := Accept(s2, again.value);
      StepFromEarlier(s, s2, s3, r, Next(s), f);
    }
  }

  lemma UnexpectedAsksAgain(s: Stream, f: Frame)
    requires f[0] % 128 != s.ackseq + 1
    ensures var (s1, again) := Retransmit(s);
      CheckSequence(s, f) == if again.Err? then (s1, Raised(again.error)) else Accept(s1, again.value)
  {
    hide Retransmit;
    hide Accept;
  }

  /** The segment asked for fails the sequence check, and the one behind it is asked for. */
  lemma SecondCheckMeets(s: Stream) returns (f: Fate)
    requires Accepting(s, 0)
    ensures s.start / 7 + 1 <= Segments(|s.data|)
    ensures var segment, total := s.start / 7 + 1, Segments(|s.data|);
      var (s1, r) := CheckSequence(s, SegmentFrame(s.data, s.start, 0));
      var (script, e) := AskFor(s.script, s.acksLost, total, segment, LengthFrom(total, s.start / 7) - 1);
      if e.Some? then r == Raised(e.value)
      else f == FateAfter(script, Rest(s.acksLost), total, segment, 1) && StepMeets(s, s1, r, 7 * segment, f)
  {
    hide Block;
    hide CheckSequence;
    hide Retransmit;
    hide Accept;
    hide StepMeets;
    hide FateAfter;
    hide AskFor;
    SegmentsFrom(s.data, s.start);
    RestHasNoFirst(s.data, s.start, 1);
    RetransmitIsAskFor(s);
    UnexpectedAsksAgain(s, SegmentFrame(s.data, s.start, 0));
    var (s1, again) := Retransmit(s);
    f := Failed(NoResponse);
    if again.Ok? {
      SegmentsFrom(s.data, Next(s));
      AcceptMeets(s1, 0);
      f := FateAfter(s1.script, s1.acksLost, Segments(|s.data|), Next(s) / 7, 1);
      var (s2, r) := Accept(s1, again.value);
      StepFromEarlier(s, s1, s2, r, Next(s), f);
    }
  }

  /** Nothing arrives. */
  lemma TimeoutMeets(s: Stream) returns (f: Fate)
    requires Open(s) && s.script != [] && s.script[0].dropped >= |s.channel|
    ensures var (s1, r) := Read(s);
      ReadsAs(s, s1, r, FateFrom(s), s.start / 7 + s.ackseq + 1, f)
  {
    hide LengthFrom;
    hide Block;
    hide SegmentFrame;
    hide CheckSequence;
    hide Retransmit;
    hide StepMeets;
    hide FateAfter;
    hide AskFor;
    OpenHasNext(s);
    SegmentsFrom(s.data, s.start);
    var s1 := Receive(s).0.(timeouts := s.timeouts + 1);
    RetransmitIsAskFor(s1);
    var (s2, again) := Retransmit(s1);
    f := Failed(NoResponse);
    if again.Ok? {
      f := SecondCheckMeets(s2);
      var (s3, r) := CheckSequence(s2, again.value);
      if StepMeets(s2, s3, r, Next(s) + 7, f) {
        StepFromEarlier(s, s2, s3, r, Next(s) + 7, f);
      }
    }
  }

  lemma ReadMeets(s: Stream) returns (segment: nat, f: Fate)
    requires Open(s)
    ensures var (s1, r) := Read(s);
      ReadsAs(s, s1, r, FateFrom(s), segment, f)
  {
    hide Read;
    hide ReadsAs;
    segment := s.start / 7 + s.ackseq;
    if s.script == [] {
      UnansweredMeets(s, segment);
      f := Failed(NoResponse);
    } else if s.script[0].dropped >= |s.channel| {
      segment := segment + 1;
      f := TimeoutMeets(s);
    } else if s.script[0].dropped == 0 {
      f := InOrderMeets(s);
    } else {
      f := GapMeets(s);
    }
  }

  lemma UnansweredMeets(s: Stream, segment: nat)
    requires Open(s) && s.script == []
    ensures var (s1, r) := Read(s);
      ReadsAs(s, s1, r, FateFrom(s), segment, Failed(NoResponse))
  {
    hide Block;
    hide Retransmit;
    hide CheckSequence;
    RetransmitUnanswered(s.(timeouts := s.timeouts + 1));
  }

  // ----- Whole uploads -----

  /** The outcome of an upload that has this fate ahead, and whose checksum compares what it has seen with the data. */
  ghost predicate Meets(s: Stream, collected: seq<Byte>, all: seq<Byte>, e: Option<UploadError>, f: Fate) {
    match f
    case Failed(error) => e == Some(error)
    case Completed(read) =>
      var bytes := BytesOf(s.data, read);
      if s.crcSupported && CrcHqx(s.fed + bytes, 0) != CrcHqx(s.data, 0) then e == Some(CrcMismatch)
      else e == None && all == collected + bytes
  }

  lemma OneMoreMeets(s: Stream, s1: Stream, b: seq<Byte>, collected: seq<Byte>, all: seq<Byte>, e: Option<UploadError>,
                     segment: nat, f: Fate)
    requires 7 * segment < |s.data| && b == SegmentAt(s.data, 7 * segment)
    requires s1.data == s.data && s1.crcSupported == s.crcSupported && (s.crcSupported ==> s1.fed == s.fed + b)
    requires Meets(s1, collected + b, all, e, f)
    ensures Meets(s, collected, all, e, Then(segment, f))
  {
    hide Open;
    hide CrcHqx;
    if f.Completed? {
      var rest := BytesOf(s.data, f.read);
      var read := [segment] + f.read;
      assert read[1..] == f.read && read[0] == segment;
      assert BytesOf(s.data, read) == b + rest;
      assert s.fed + (b + rest) == (s.fed + b) + rest && collected + (b + rest) == (collected + b) + rest;
    }
  }

  lemma {:induction false} ReadAllMeets(s: Stream, collected: seq<Byte>)
    requires Open(s)
    ensures var (_, all, e) := ReadAll(s, collected);
      Meets(s, collected, all, e, FateFrom(s))
    decreases |s.script|
  {
    hide Read;
    hide FateFrom;
    hide Open;
    hide CrcHqx;
    var segment, f := ReadMeets(s);
    var (s1, r) := Read(s);
    var (_, all, e) := ReadAll(s, collected);
    if r.Data? {
      if s1.done {
        NothingMoreToRead(s1, collected + r.bytes);
        assert Meets(s1, collected + r.bytes, all, e, f) by {
          assert s1.fed + [] == s1.fed && collected + r.bytes + [] == collected + r.bytes;
        }
      } else {
        NotDone(s);
        ReadAllMeets(s1, collected + r.bytes);
      }
      OneMoreMeets(s, s1, r.bytes, collected, all, e, segment, f);
    } else if FateFrom(s) != Failed(r.error) {
      MismatchMeets(s, s1, r, collected, all, e, segment, f);
    }
  }

  lemma NotDone(s: Stream)
    requires Open(s)
    ensures !s.done
  {
    hide Block;
  }

  /** The last segment spoils the checksum. */
  lemma MismatchMeets(s: Stream, s1: Stream, r: Outcome, collected: seq<Byte>, all: seq<Byte>, e: Option<UploadError>,
                      segment: nat, f: Fate)
    requires StepMeets(s, s1, r, 7 * segment, f) && r.Raised? && e == Some(r.error)
    ensures Meets(s, collected, all, e, Then(segment, f))
  {
    hide CrcHqx;
    if f == Completed([]) {
      var b := SegmentAt(s.data, 7 * segment);
      assert [segment][1..] == [] && BytesOf(s.data, [segment]) == b + [] == b;
      assert [segment] + [] == [segment];
    }
  }

  /**
   The losses decide an upload: without looking at the data they determine its exception, or the
   segments it returns and their order. Only a checksum can tell more: it raises exactly when that of
   the bytes returned is not that of the data.
   */
  lemma BlockUploadMeetsFate(data: seq<Byte>, crcSupported: bool, script: seq<Reception>, acksLost: seq<bool>)
    requires data != []
    ensures var (_, collected, e) := ReadAll(Opened(data, crcSupported, script, acksLost), []);
      match FateOf(script, acksLost, Segments(|data|), 0, 0, false)
      case Failed(error) => e == Some(error)
      case Completed(read) =>
        if crcSupported && CrcHqx(BytesOf(data, read), 0) != CrcHqx(data, 0) then e == Some(CrcMismatch)
        else e == None && collected == BytesOf(data, read)
  {
    hide ReadAll;
    hide CrcHqx;
    hide FateOf;
    hide BytesOf;
    var s := Opened(data, crcSupported, script, acksLost);
    ReadAllMeets(s, []);
    if FateFrom(s).Completed? {
      var bytes := BytesOf(data, FateFrom(s).read);
      assert [] + bytes == bytes;
    }
  }
}
