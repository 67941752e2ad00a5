/** When the checksum a block download sends is that of its data. */
module BlockDownloadChecksum {
  import opened Bits
  import opened BlockDownload
  import opened BlockDownloadFate
  import opened Crc
  import opened CrcBits
  import opened CrcWords
  import opened Wrappers

  /** The stream after a transfer with checksum, and the number its end frame carries. */
  function Transferred(data: seq<Byte>, blksize: BlockSize, acks: seq<Ack>, chunks: seq<nat>): (Stream, Option<BlockError>) {
    WriteAll(Opened(Some(|data|), blksize, true, acks), data, chunks)
  }

  /** Clean responses to a transfer that ends make it send the checksum of the data. */
  lemma CleanKeepsChecksum(data: seq<Byte>, blksize: BlockSize, acks: seq<Ack>, chunks: seq<nat>)
    requires data != [] && Clean(acks, blksize, 0, Segments(|data|))
    ensures var (s, e) := Transferred(data, blksize, acks, chunks);
      e.None? && s.done ==> s.lastBytesSent <= 7 && ChecksumIn(EndFrame(s)) == CrcHqx(data, 0) as int
  {
    hide WriteAll;
    EndFrameFitsData(data, blksize, true, acks, chunks);
    CountsOnceIffClean(data, 0, acks, blksize, 0);
    assert data[0..] == data;
  }

  /** If the bytes counted do not have the parity of the data, the checksum is wrong. */
  lemma OddExcessSpoilsChecksum(data: seq<Byte>, blksize: BlockSize, acks: seq<Ack>, chunks: seq<nat>)
    requires data != [] && OddBytes(Counted(data, 0, acks, blksize, 0)) != OddBytes(data)
    ensures var (s, e) := Transferred(data, blksize, acks, chunks);
      e.None? && s.done ==> s.lastBytesSent <= 7 && ChecksumIn(EndFrame(s)) != CrcHqx(data, 0) as int
  {
    hide WriteAll;
    hide Counted;
    hide CrcHqx;
    hide Odd;
    var counted := Counted(data, 0, acks, blksize, 0);
    EndFrameFitsData(data, blksize, true, acks, chunks);
    CrcKeepsParity(data, 0);
    CrcKeepsParity(counted, 0);
    DifferentNumbers(CrcHqx(counted, 0), CrcHqx(data, 0));
  }

  predicate AllZeros(data: seq<Byte>) {
    forall i :: 0 <= i < |data| ==> data[i] == 0
  }

  /** Data of zeros hides what is counted more than once. */
  lemma ZerosKeepChecksum(data: seq<Byte>, blksize: BlockSize, acks: seq<Ack>, chunks: seq<nat>)
    requires data != [] && AllZeros(data)
    ensures var (s, e) := Transferred(data, blksize, acks, chunks);
      e.None? && s.done ==> s.lastBytesSent <= 7 && ChecksumIn(EndFrame(s)) == CrcHqx(data, 0) as int
  {
    hide WriteAll;
    EndFrameFitsData(data, blksize, true, acks, chunks);
    CountedIsZeros(data, 0, acks, blksize, 0);
    CrcOfZeros(data);
    CrcOfZeros(Counted(data, 0, acks, blksize, 0));
  }

  lemma {:induction false} CountedIsZeros(data: seq<Byte>, from: nat, acks: seq<Ack>, blksize: nat, r: nat)
    requires AllZeros(data)
    ensures AllZeros(Counted(data, from, acks, blksize, r))
    decreases |acks|
  {
    if acks != [] && from + 7 * blksize < |data| {
      var lost := Min(acks[0].lost, blksize);
      var next, marked := from + 7 * (blksize - lost), MarkedNext(lost, blksize, r);
      CountedIsZeros(data, next, acks[1..], acks[0].blksize, marked);
      ConcatenatedZeros(Part(data, from + 7 * Min(r, blksize), from + 7 * blksize),
                        Counted(data, next, acks[1..], acks[0].blksize, marked));
    }
  }

  lemma ConcatenatedZeros(a: seq<Byte>, b: seq<Byte>)
    requires AllZeros(a) && AllZeros(b)
    ensures AllZeros(a + b)
  {
  }

  // ----- A nested loss -----

  /** Two of three segments are lost, and the first of them again, in a block of its own. */
  const NESTED_LOSS: seq<Ack> := [Ack(2, 1), Ack(1, 127), Ack(0, 127)]

  /** Four segments: the third one counts twice. */
  lemma NestedLossCountsTwice(data: seq<Byte>)
    requires 21 < |data| <= 28
    ensures FateOf(NESTED_LOSS, 3, 4) == Delivered && Counted(data, 0, NESTED_LOSS, 3, 0) == data[..21] + data[14..]
  {
    var a := NESTED_LOSS;
    assert a[1..] == [Ack(1, 127), Ack(0, 127)] && a[1..][1..] == [Ack(0, 127)];
    assert FateOf(a[1..][1..], 127, 3) == Delivered;
    assert FateOf(a[1..], 1, 3) == Delivered;
    assert Counted(data, 7, a[1..][1..], 127, 1) == data[14..];
    assert Part(data, 14, 14) == [];
    assert Counted(data, 7, a[1..], 1, 2) == data[14..];
    assert Part(data, 0, 21) == data[..21];
  }

  /**
   The transfer ends, the server has exactly the data, but the number it is sent is not its checksum
   as soon as the segment counted twice has an odd number of one bits.
   */
  lemma NestedLossSpoilsChecksum(data: seq<Byte>, chunks: seq<nat>)
    requires 21 < |data| <= 28 && OddBytes(data[14..21])
    requires |chunks| >= 4 && forall c :: c in chunks ==> c >= 7
    ensures var (s, e) := Transferred(data, 3, NESTED_LOSS, chunks);
      && e == None && s.lastBytesSent <= 7
      && TrimmedBy(EndFrame(s), s.acknowledged) == Some(data)
      && ChecksumIn(EndFrame(s)) != CrcHqx(data, 0) as int
  {
    hide WriteAll;
    hide Counted;
    hide FateOf;
    hide OddBytes;
    NestedLossCountsTwice(data);
    BlockDownloadMeetsFate(data, 3, true, NESTED_LOSS, chunks);
    assert data[..21] == data[..14] + data[14..21] && data == data[..14] + data[14..];
    OddBytesOfConcatenation(data[..21], data[14..]);
    OddBytesOfConcatenation(data[..14], data[14..21]);
    OddBytesOfConcatenation(data[..14], data[14..]);
    OddExcessSpoilsChecksum(data, 3, NESTED_LOSS, chunks);
    EndFrameFitsData(data, 3, true, NESTED_LOSS, chunks);
  }

  /** Twenty-eight bytes with a single one bit, in the third segment. */
  const ONE_BIT: seq<Byte> := seq(28, i => if i == 14 then 1 else 0)

  lemma NestedLossSpoilsOneBit()
    ensures var (s, e) := Transferred(ONE_BIT, 3, NESTED_LOSS, [7, 7, 7, 7]);
      && e == None && s.lastBytesSent <= 7
      && TrimmedBy(EndFrame(s), s.acknowledged) == Some(ONE_BIT)
      && ChecksumIn(EndFrame(s)) != CrcHqx(ONE_BIT, 0) as int
  {
    hide WriteAll;
    hide CrcHqx;
    OneBitIsOdd();
    NestedLossSpoilsChecksum(ONE_BIT, [7, 7, 7, 7]);
  }

  lemma OneBitIsOdd()
    ensures OddBytes(ONE_BIT[14..21])
  {
    var segment := ONE_BIT[14..21];
    assert segment == [1] + segment[1..];
    assert Odd(High(1)) by {
      HighOfOne();
    }
    EvenZeros(segment[1..]);
  }

  lemma {:induction false} EvenZeros(data: seq<Byte>)
    requires forall b :: b in data ==> b == 0
    ensures !OddBytes(data)
  {
    hide Odd;
    if data != [] {
      assert data[0] in data && forall b :: b in data[1..] ==> b in data;
      EvenZeros(data[1..]);
      EvenZero();
    }
  }

  lemma EvenZero()
    ensures !Odd(High(0))
  {
    OddOfXor(0, 0);
  }

  lemma HighOfOne()
    ensures Odd(High(1))
  {
  }
}
