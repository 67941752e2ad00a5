/** Which losses a block upload survives, and the two ways in which it silently returns something else than the data. */
module BlockUploadLosses {
  import opened Bits
  import opened BlockUpload
  import opened BlockUploadFate
  import opened Crc
  import opened Wrappers

  function Upload(data: seq<Byte>, crcSupported: bool, script: seq<Reception>, acksLost: seq<bool>)
    : (Stream, seq<Byte>, Option<UploadError>)
  {
    ReadAll(Opened(data, crcSupported, script, acksLost), [])
  }

  /** Numbers in order. */
  function Range(from: nat, to: nat): (r: seq<nat>)
    ensures from <= to ==> |r| == to - from
    decreases if from >= to then 0 else to - from
  {
    if from >= to then [] else [from] + Range(from + 1, to)
  }

  lemma {:induction false} RangeIsData(data: seq<Byte>, from: nat)
    requires 7 * from <= |data| + 6
    ensures BytesOf(data, Range(from, Segments(|data|))) == data[Min(7 * from, |data|)..]
    decreases |data| + 7 - 7 * from
  {
    var total := Segments(|data|);
    if from < total {
      RangeIsData(data, from + 1);
      var range := Range(from, total);
      assert range[1..] == Range(from + 1, total);
      var here, next := 7 * from, Min(7 * from + 7, |data|);
      assert data[here..] == data[here..next] + data[next..];
    }
  }

  lemma {:induction false} BytesOfConcatenation(data: seq<Byte>, a: seq<nat>, b: seq<nat>)
    ensures BytesOf(data, a + b) == BytesOf(data, a) + BytesOf(data, b)
    decreases |a|
  {
    if a == [] {
      assert a + b == b;
    } else {
      assert (a + b)[1..] == a[1..] + b;
      BytesOfConcatenation(data, a[1..], b);
    }
  }

  // ----- When the upload is whole -----

  /** Segments of the data in increasing order, from one of them on. */
  predicate Ascending(read: seq<nat>, from: nat, total: nat) {
    read == [] || (from <= read[0] < total && Ascending(read[1..], read[0] + 1, total))
  }

  /** If no response is lost, no segment is returned twice or out of order. */
  lemma {:induction false} ReadsAscending(script: seq<Reception>, acksLost: seq<bool>, total: nat, first: nat, read: nat,
                                          stalled: bool)
    requires read < BLKSIZE && first + read < total && true !in acksLost
    ensures var f := FateOf(script, acksLost, total, first, read, stalled);
      f.Completed? ==> Ascending(f.read, first + read, total)
    decreases |script|, 0
  {
    hide Ascending;
    if script != [] {
      var next, dropped := first + read, script[0].dropped;
      var onTheWay := if stalled then 0 else LengthFrom(total, first) - read;
      if dropped >= onTheWay {
        var (script1, e1) := AskFor(script[1..], acksLost, total, next, 0);
        if e1.None? {
          var (script2, e2) := AskFor(script1, Rest(acksLost), total, next + 1, LengthFrom(total, next) - 1);
          if e2.None? {
            AscendingAfter(script2, Rest(Rest(acksLost)), total, next + 1, 1);
            ThenAscending(next + 1, FateAfter(script2, Rest(Rest(acksLost)), total, next + 1, 1), next, total);
          }
        }
      } else if dropped == 0 {
        AscendingAfter(script[1..], acksLost, total, first, read + 1);
        ThenAscending(next, FateAfter(script[1..], acksLost, total, first, read + 1), next, total);
      } else {
        var (script1, e1) := AskFor(script[1..], acksLost, total, next, onTheWay - dropped - 1);
        if e1.None? {
          AscendingAfter(script1, Rest(acksLost), total, next, 1);
          ThenAscending(next, FateAfter(script1, Rest(acksLost), total, next, 1), next, total);
        }
      }
    }
  }

  lemma ThenAscending(segment: nat, f: Fate, from: nat, total: nat)
    requires from <= segment < total && (f.Completed? ==> Ascending(f.read, segment + 1, total))
    ensures f.Completed? ==> Ascending(Then(segment, f).read, from, total)
  {
    if f.Completed? {
      assert ([segment] + f.read)[1..] == f.read;
    }
  }

  lemma {:induction false} AscendingAfter(script: seq<Reception>, acksLost: seq<bool>, total: nat, first: nat, read: nat)
    requires 1 <= read <= BLKSIZE && first + read <= total && true !in acksLost
    ensures var f := FateAfter(script, acksLost, total, first, read);
      f.Completed? ==> Ascending(f.read, first + read, total)
    decreases |script|, 1
  {
    hide FateOf;
    if first + read < total {
      if read < BLKSIZE {
        ReadsAscending(script, acksLost, total, first, read, false);
      } else {
        ReadsAscending(script, Rest(acksLost), total, first + BLKSIZE, 0, false);
      }
    }
  }

  /** Each segment that is not returned leaves a gap of at least one byte. */
  lemma {:induction false} AscendingIsShort(data: seq<Byte>, read: seq<nat>, from: nat)
    requires Ascending(read, from, Segments(|data|)) && from <= Segments(|data|)
    ensures |read| <= Segments(|data|) - from
    ensures |BytesOf(data, read)| + (Segments(|data|) - from - |read|) <= |data| - Min(7 * from, |data|)
    ensures |read| == Segments(|data|) - from ==> read == Range(from, Segments(|data|))
    decreases |read|
  {
    if read != [] {
      AscendingIsShort(data, read[1..], read[0] + 1);
      assert read == [read[0]] + read[1..];
    }
  }

  /**
   If no response is lost, an upload ends without exception and with the data if and only if the
   losses let it return all segments. The losses tell, without a look at the data or the checksum.
   */
  lemma UploadIsWholeIff(data: seq<Byte>, crcSupported: bool, script: seq<Reception>, acksLost: seq<bool>)
    requires data != [] && true !in acksLost
    ensures var (_, collected, e) := Upload(data, crcSupported, script, acksLost);
      var fate := FateOf(script, acksLost, Segments(|data|), 0, 0, false);
      (e == None && collected == data) <==> (fate.Completed? && |fate.read| == Segments(|data|))
  {
    hide ReadAll;
    hide CrcHqx;
    hide FateOf;
    BlockUploadMeetsFate(data, crcSupported, script, acksLost);
    ReadsAscending(script, acksLost, Segments(|data|), 0, 0, false);
    var fate := FateOf(script, acksLost, Segments(|data|), 0, 0, false);
    if fate.Completed? {
      AscendingIsShort(data, fate.read, 0);
      RangeIsData(data, 0);
      assert data[0..] == data;
    }
  }

  // ----- Receptions that lose nothing -----

  const CLEAN := Reception(0, false)

  function Clean(k: nat): (script: seq<Reception>)
    ensures |script| == k
  {
    if k == 0 then [] else [CLEAN] + Clean(k - 1)
  }

  /** The frames in front of the segment are received and skipped. */
  lemma {:induction false} CleanSkip(before: nat, behind: nat, rest: seq<Reception>)
    requires behind > 0
    ensures Skip(Clean(before + 1) + rest, before, behind) == (rest, None)
    decreases before
  {
    var script := Clean(before + 1) + rest;
    assert script[0] == CLEAN && script[1..] == Clean(before) + rest;
    if before > 0 {
      CleanSkip(before - 1, behind, rest);
    } else {
      assert Clean(0) + rest == rest;
    }
  }

  /** Some segments of a block are returned in order. */
  lemma {:induction false} CleanReads(k: nat, rest: seq<Reception>, acksLost: seq<bool>, total: nat, first: nat, read: nat)
    requires 1 <= k && read + k <= BLKSIZE && first + read + k <= total
    ensures var f := FateAfter(rest, acksLost, total, first, read + k);
      FateOf(Clean(k) + rest, acksLost, total, first, read, false) ==
        if f.Completed? then Completed(Range(first + read, first + read + k) + f.read) else f
    decreases k
  {
    var script := Clean(k) + rest;
    assert script[0] == CLEAN && script[1..] == Clean(k - 1) + rest;
    var f := FateAfter(rest, acksLost, total, first, read + k);
    assert FateOf(script, acksLost, total, first, read, false) ==
      Then(first + read, FateAfter(script[1..], acksLost, total, first, read + 1));
    if k == 1 {
      assert Clean(0) + rest == rest && Range(first + read, first + read + 1) == [first + read];
    } else {
      CleanReads(k - 1, rest, acksLost, total, first, read + 1);
      var more := Range(first + read + 1, first + read + k);
      assert Range(first + read, first + read + k) == [first + read] + more;
      assert f.Completed? ==> [first + read] + (more + f.read) == ([first + read] + more) + f.read;
    }
  }

  /** To the end of the transfer, block by block. */
  lemma {:induction false} CleanToEnd(rest: seq<Reception>, acksLost: seq<bool>, total: nat, first: nat, read: nat)
    requires 1 <= read <= BLKSIZE && first + read <= total && true !in acksLost
    ensures FateAfter(Clean(total - first - read + 1) + rest, acksLost, total, first, read) ==
            Completed(Range(first + read, total))
    decreases total - first - read, BLKSIZE - read
  {
    var left := total - first - read;
    var script := Clean(left + 1) + rest;
    assert script[0] == CLEAN && script[1..] == Clean(left) + rest;
    if left > 0 {
      if read < BLKSIZE {
        assert FateOf(script, acksLost, total, first, read, false) ==
          Then(first + read, FateAfter(script[1..], acksLost, total, first, read + 1));
        CleanToEnd(rest, acksLost, total, first, read + 1);
      } else {
        assert FateOf(script, Rest(acksLost), total, first + BLKSIZE, 0, false) ==
          Then(first + BLKSIZE, FateAfter(script[1..], Rest(acksLost), total, first + BLKSIZE, 1));
        CleanToEnd(rest, Rest(acksLost), total, first + BLKSIZE, 1);
      }
    }
  }

  // ----- A time-out -----

  /** Everything of the first block is lost, nothing afterwards. */
  function TimeoutScript(total: nat): seq<Reception>
    requires total >= 2
  {
    [Reception(total, false)] + (Clean(1) + (Clean(total) + Clean(total - 1)))
  }

  lemma TimeoutFate(total: nat)
    requires 2 <= total <= BLKSIZE
    ensures FateOf(TimeoutScript(total), [], total, 0, 0, false) == Completed(Range(1, total))
  {
    hide Skip;
    var rest := Clean(total) + Clean(total - 1);
    CleanSkip(0, total, rest);
    CleanSkip(total - 1, total - 1, Clean(total - 1));
    assert TimeoutScript(total)[1..] == Clean(1) + rest;
    CleanToEnd([], [], total, 1, 1);
    assert Clean(total - 1) + [] == Clean(total - 1);
    assert [1] + Range(2, total) == Range(1, total);
  }

  /** Without a checksum, an upload that times out once ends without exception and without its first seven bytes. */
  lemma TimeoutLosesSegment(data: seq<Byte>)
    requires 7 < |data| <= 7 * 127
    ensures var (_, collected, e) := Upload(data, false, TimeoutScript(Segments(|data|)), []);
      e == None && collected == data[7..]
  {
    hide ReadAll;
    hide FateOf;
    hide TimeoutScript;
    TimeoutFate(Segments(|data|));
    RangeIsData(data, 1);
    BlockUploadMeetsFate(data, false, TimeoutScript(Segments(|data|)), []);
  }

  // ----- A lost block response -----

  /** A block is read, the client times out waiting for the next one, and nothing is lost afterwards. */
  function RepeatScript(total: nat): seq<Reception>
    requires total > BLKSIZE
  {
    Clean(BLKSIZE) + ([CLEAN] + (Clean(1) + (Clean(BLKSIZE) + Clean(total - 1))))
  }

  lemma RepeatFate(total: nat)
    requires total > BLKSIZE
    ensures FateOf(RepeatScript(total), [true], total, 0, 0, false) ==
            Completed(Range(0, BLKSIZE) + Range(1, total))
  {
    hide Skip;
    var rest2 := Clean(BLKSIZE) + Clean(total - 1);
    var rest1 := Clean(1) + rest2;
    var rest := [CLEAN] + rest1;
    assert rest[1..] == rest1 && Rest([true]) == [] && Rest([]) == [];
    CleanSkip(0, BLKSIZE, rest2);
    CleanSkip(BLKSIZE - 1, Min(BLKSIZE, total - 1), Clean(total - 1));
    CleanToEnd([], [], total, 1, 1);
    assert Clean(total - 1) + [] == Clean(total - 1);
    assert [1] + Range(2, total) == Range(1, total);
    assert FateOf(rest, [], total, 0, 0, true) == Completed(Range(1, total));
    assert FateAfter(rest, [true], total, 0, BLKSIZE) == Completed(Range(1, total));
    CleanReads(BLKSIZE, rest, [true], total, 0, 0);
  }

  /** Without a checksum, an upload whose first block response is lost ends without exception and with the block repeated. */
  lemma LostResponseRepeatsBlock(data: seq<Byte>)
    requires |data| > 7 * 127
    ensures var (_, collected, e) := Upload(data, false, RepeatScript(Segments(|data|)), [true]);
      e == None && collected == data[..7 * 127] + data[7..]
  {
    hide ReadAll;
    hide FateOf;
    hide RepeatScript;
    var total := Segments(|data|);
    RepeatFate(total);
    BytesOfConcatenation(data, Range(0, BLKSIZE), Range(1, total));
    RangeIsData(data, 1);
    RangeIsPart(data, 0, BLKSIZE);
    BlockUploadMeetsFate(data, false, RepeatScript(total), [true]);
  }

  lemma {:induction false} RangeIsPart(data: seq<Byte>, from: nat, k: nat)
    requires 7 * (from + k) <= |data|
    ensures BytesOf(data, Range(from, from + k)) == data[7 * from..7 * (from + k)]
    decreases k
  {
    if k > 0 {
      RangeIsPart(data, from + 1, k - 1);
      var here, next, end := 7 * from, 7 * from + 7, 7 * (from + k);
      assert Range(from, from + k)[1..] == Range(from + 1, from + k);
      assert data[here..end] == data[here..next] + data[next..end];
    }
  }

  // ----- Losses inside a block -----

  /** What happens to a block: all of it arrives, or some segments are lost after some others, and a later one arrives. */
  datatype Event = Whole | Broken(kept: nat, lost: nat, late: bool)

  /** Each loss is revealed inside its block, by a later segment of it. */
  predicate Revealed(events: seq<Event>, total: nat, first: nat, read: nat)
    requires first <= total
    decreases |events|
  {
    events == [] ||
    match events[0]
    case Whole => first + BLKSIZE < total && Revealed(events[1..], total, first + BLKSIZE, 0)
    case Broken(kept, lost, _) =>
      lost > 0 && read + kept + lost < LengthFrom(total, first) && Revealed(events[1..], total, first + read + kept, 1)
  }

  /** The receptions of such an upload: after a loss everything left of the block is received, and the new block begins. */
  function ScriptOf(events: seq<Event>, total: nat, first: nat, read: nat): seq<Reception>
    requires read <= BLKSIZE && first + read <= total && Revealed(events, total, first, read)
    decreases |events|
  {
    if events == [] then Clean(total - first - read + 1)
    else
      match events[0]
      case Whole => Clean(BLKSIZE - read) + ScriptOf(events[1..], total, first + BLKSIZE, 0)
      case Broken(kept, lost, late) =>
        Clean(kept) +
        ([Reception(lost, late)] +
         (Clean(LengthFrom(total, first) - read - kept - lost) + ScriptOf(events[1..], total, first + read + kept, 1)))
  }

  /** The fate between two reads, at the beginning of a block or within it. */
  function FateAt(script: seq<Reception>, acksLost: seq<bool>, total: nat, first: nat, read: nat): Fate
    requires read <= BLKSIZE && first + read <= total && (read == 0 ==> first < total)
  {
    if read == 0 then FateOf(script, acksLost, total, first, 0, false)
    else FateAfter(script, acksLost, total, first, read)
  }

  lemma KeptThenFate(k: nat, rest: seq<Reception>, acksLost: seq<bool>, total: nat, first: nat, read: nat)
    requires read + k <= BLKSIZE && first + read + k <= total && (read + k == 0 ==> first < total)
    requires k > 0 ==> read < BLKSIZE
    ensures var f := FateAt(rest, acksLost, total, first, read + k);
      FateAt(Clean(k) + rest, acksLost, total, first, read) ==
        if f.Completed? then Completed(Range(first + read, first + read + k) + f.read) else f
  {
    hide FateOf;
    if k == 0 {
      assert Clean(0) + rest == rest;
      assert Range(first + read, first + read) == [];
      var f := FateAt(rest, acksLost, total, first, read);
      assert f.Completed? ==> [] + f.read == f.read;
    } else {
      CleanReads(k, rest, acksLost, total, first, read);
    }
  }

  lemma {:induction false} RevealedFate(events: seq<Event>, acksLost: seq<bool>, total: nat, first: nat, read: nat)
    requires read < BLKSIZE && first + read < total && Revealed(events, total, first, read) && true !in acksLost
    ensures FateAt(ScriptOf(events, total, first, read), acksLost, total, first, read) ==
            Completed(Range(first + read, total))
    decreases |events|
  {
    hide FateAt;
    if events == [] {
      EndFate(acksLost, total, first, read);
    } else {
      match events[0]
      case Whole =>
        RevealedFate(events[1..], Rest(acksLost), total, first + BLKSIZE, 0);
        WholeFate(ScriptOf(events[1..], total, first + BLKSIZE, 0), acksLost, total, first, read);
      case Broken(kept, lost, late) =>
        var next := first + read + kept;
        RevealedFate(events[1..], Rest(acksLost), total, next, 1);
        BrokenFate(kept, lost, late, ScriptOf(events[1..], total, next, 1), acksLost, total, first, read);
    }
  }

  lemma WholeFate(rest: seq<Reception>, acksLost: seq<bool>, total: nat, first: nat, read: nat)
    requires read < BLKSIZE && first + BLKSIZE < total && true !in acksLost
    requires FateAt(rest, Rest(acksLost), total, first + BLKSIZE, 0) == Completed(Range(first + BLKSIZE, total))
    ensures FateAt(Clean(BLKSIZE - read) + rest, acksLost, total, first, read) == Completed(Range(first + read, total))
  {
    hide FateAt;
    NextBlockFate(rest, acksLost, total, first);
    KeptThenFate(BLKSIZE - read, rest, acksLost, total, first, read);
    RangesJoin(first + read, BLKSIZE - read, total);
  }

  lemma BrokenFate(kept: nat, lost: nat, late: bool, more: seq<Reception>, acksLost: seq<bool>, total: nat, first: nat,
                   read: nat)
    requires first < total && lost > 0 && read + kept + lost < LengthFrom(total, first) && true !in acksLost
    requires FateAt(more, Rest(acksLost), total, first + read + kept, 1) == Completed(Range(first + read + kept + 1, total))
    ensures
      var left := LengthFrom(total, first) - read - kept - lost;
      FateAt(Clean(kept) + ([Reception(lost, late)] + (Clean(left) + more)), acksLost, total, first, read) ==
        Completed(Range(first + read, total))
  {
    hide Clean;
    hide FateOf;
    hide FateAfter;
    hide FateAt;
    var next, left := first + read + kept, LengthFrom(total, first) - read - kept - lost;
    GapFate(lost, late, more, acksLost, total, first, read + kept);
    KeptThenFate(kept, [Reception(lost, late)] + (Clean(left) + more), acksLost, total, first, read);
    assert Range(next, total) == [next] + Range(next + 1, total);
    RangesJoin(first + read, kept, total);
  }

  lemma {:induction false} RangesJoin(from: nat, k: nat, to: nat)
    requires from + k <= to
    ensures Range(from, from + k) + Range(from + k, to) == Range(from, to)
    decreases k
  {
    if k > 0 {
      RangesJoin(from + 1, k - 1, to);
      assert Range(from, from + k) + Range(from + k, to) == [from] + (Range(from + 1, from + k) + Range(from + k, to));
    } else {
      assert [] + Range(from, to) == Range(from, to);
    }
  }

  lemma EndFate(acksLost: seq<bool>, total: nat, first: nat, read: nat)
    requires read < BLKSIZE && first + read < total && true !in acksLost
    ensures FateAt(Clean(total - first - read + 1), acksLost, total, first, read) == Completed(Range(first + read, total))
  {
    var left := total - first - read;
    if read > 0 {
      CleanToEnd([], acksLost, total, first, read);
      assert Clean(left + 1) + [] == Clean(left + 1);
    } else {
      CleanToEnd([], acksLost, total, first, 1);
      assert Clean(left) + [] == Clean(left) == Clean(left + 1)[1..];
      assert Range(first, total) == [first] + Range(first + 1, total);
    }
  }

  lemma NextBlockFate(script: seq<Reception>, acksLost: seq<bool>, total: nat, first: nat)
    requires first + BLKSIZE < total && true !in acksLost
    ensures FateAt(script, acksLost, total, first, BLKSIZE) == FateAt(script, Rest(acksLost), total, first + BLKSIZE, 0)
  {
    hide FateOf;
  }

  /** A loss after which the rest of the block and the first segment of the new one are received. */
  lemma GapFate(lost: nat, late: bool, rest: seq<Reception>, acksLost: seq<bool>, total: nat, first: nat, read: nat)
    requires lost > 0 && first <= total && read + lost < LengthFrom(total, first) && true !in acksLost
    ensures var next := first + read;
      var script := [Reception(lost, late)] + (Clean(LengthFrom(total, first) - read - lost) + rest);
      var f := FateAt(rest, Rest(acksLost), total, next, 1);
      FateAt(script, acksLost, total, first, read) == Then(next, f)
  {
    hide Skip;
    var onTheWay := LengthFrom(total, first) - read;
    var next := first + read;
    var script := [Reception(lost, late)] + (Clean(onTheWay - lost) + rest);
    assert script[0] == Reception(lost, late) && script[1..] == Clean(onTheWay - lost) + rest;
    CleanSkip(onTheWay - lost - 1, LengthFrom(total, next), rest);
    hide FateAfter;
    assert FateOf(script, acksLost, total, first, read, false) ==
      Then(next, FateAfter(rest, Rest(acksLost), total, next, 1));
    InsideBlock(script, acksLost, total, first, read);
  }

  lemma InsideBlock(script: seq<Reception>, acksLost: seq<bool>, total: nat, first: nat, read: nat)
    requires read < BLKSIZE && first + read < total
    ensures FateAt(script, acksLost, total, first, read) == FateOf(script, acksLost, total, first, read, false)
  {
    hide FateOf;
  }

  /**
   Losses that are revealed inside their block do no harm: if the block responses arrive, and after
   each loss the rest of the block and the first segment of the new one are received, the upload
   completes with the data, whatever is lost in how many blocks, with and without a checksum.
   */
  lemma LossyUploadCompletes(data: seq<Byte>, crcSupported: bool, events: seq<Event>, acksLost: seq<bool>)
    requires data != [] && true !in acksLost && Revealed(events, Segments(|data|), 0, 0)
    ensures var (_, collected, e) := Upload(data, crcSupported, ScriptOf(events, Segments(|data|), 0, 0), acksLost);
      e == None && collected == data
  {
    hide ReadAll;
    hide FateOf;
    hide ScriptOf;
    RevealedFate(events, acksLost, Segments(|data|), 0, 0);
    UploadIsWholeIff(data, crcSupported, ScriptOf(events, Segments(|data|), 0, 0), acksLost);
  }
}
