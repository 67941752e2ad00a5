/** The block download stream object: its mutually recursive methods, proved against their functions. */
module BlockDownloadStream {
  import opened Bits
  import opened Crc
  import opened SdoFrames
  import opened Wrappers
  import B = BlockDownload

  class BlockDownloadStream {
    const size: Option<nat>
    const crcSupported: bool
    const crc: CrcXmodem
    var pos: int
    var done: bool
    var seqno: nat
    var lastBytesSent: nat
    var currentBlock: seq<seq<Byte>>
    var retransmitting: bool
    var blksize: nat
    // The server: frames of the current block, bytes it acknowledged, whether it saw the end, responses to come
    var wire: seq<Frame>
    var acknowledged: seq<Byte>
    var ended: bool
    var acks: seq<B.Ack>

    ghost predicate Valid()
      reads this, crc
    {
      crc.Valid()
    }

    ghost function State(): B.Stream
      reads this, crc
    {
      B.Stream(size, pos, done, seqno, crc.processed, lastBytesSent, currentBlock, retransmitting, blksize,
               crcSupported, wire, acknowledged, ended, acks)
    }

    constructor (size: Option<nat>, blksize: B.BlockSize, crcSupported: bool, acks: seq<B.Ack>)
      ensures Valid() && fresh(crc) && State() == B.Opened(size, blksize, crcSupported, acks)
    {
      this.size := size;
      this.crcSupported := crcSupported;
      crc := new CrcXmodem();
      pos := 0;
      done := false;
      seqno := 0;
      lastBytesSent := 0;
      currentBlock := [];
      retransmitting := false;
      this.blksize := blksize;
      wire := [];
      acknowledged := [];
      ended := false;
      this.acks := acks;
    }

    method Write(b: seq<Byte>) returns (r: B.Outcome)
      requires Valid()
      modifies this, crc
      ensures Valid() && (State(), r) == B.Write(old(State()), b)
      decreases |acks|, 3, 0
    {
      if done {
        return B.Raised(B.AllDataSent);
      }
      var data := if |b| <= 7 then b else b[..7];
      if size.Some? && pos + |data| >= size.value {
        r := Send(data, true);
      } else if |data| < 7 {
        r := B.TooShort;
      } else {
        r := Send(data, false);
      }
    }

    method Send(b: seq<Byte>, end: bool) returns (r: B.Outcome)
      requires Valid() && |b| <= 7
      modifies this, crc
      ensures Valid() && (State(), r) == B.Send(old(State()), b, end)
      decreases |acks|, 2, 0
    {
      PutOnWire(b, end);
      if seqno >= blksize {
        var raised := BlockAck();
        return if raised.Some? then B.Raised(raised.value) else B.Taken(|b|);
      }
      return B.Taken(|b|);
    }

    /** The first half of send: everything up to the wait for a response. */
    method PutOnWire(b: seq<Byte>, end: bool)
      requires Valid() && |b| <= 7
      modifies this, crc
      ensures Valid() && State() == B.Sent(old(State()), b, end)
    {
      hide CrcXmodem.Valid;
      hide B.SegmentFrame;
      hide CrcHqx;
      hide Padded;
      seqno := seqno + 1;
      if end {
        done := true;
        blksize := seqno;
        lastBytesSent := |b|;
      }
      wire := wire + [B.SegmentFrame(seqno, end, b)];
      pos := pos + |b|;
      currentBlock := currentBlock + [b];
      if crcSupported && !retransmitting {
        crc.Process(b);
      }
    }

    method BlockAck() returns (raised: Option<B.BlockError>)
      requires Valid()
      modifies this, crc
      ensures Valid() && (State(), raised) == B.BlockAck(old(State()))
      decreases |acks|, 1, 0
    {
      hide B.Payload;
      hide B.HasEnd;
      hide B.Retransmit;
      hide CrcHqx;
      if acks == [] {
        return Some(B.NoResponse);
      }
      var ack := acks[0];
      var ackseq := |wire| - Min(ack.lost, |wire|);
      acks := acks[1..];
      acknowledged := acknowledged + B.Payload(wire, ackseq);
      ended := ended || B.HasEnd(wire, ackseq);
      wire := [];
      if ackseq != blksize {
        raised := Retransmit(ackseq, ack.blksize);
        return;
      }
      currentBlock := [];
      blksize := ack.blksize;
      seqno := 0;
      return None;
    }

    method Retransmit(ackseq: nat, newSize: B.BlockSize) returns (raised: Option<B.BlockError>)
      requires Valid()
      modifies this, crc
      ensures Valid() && (State(), raised) == B.Retransmit(old(State()), ackseq, newSize)
      decreases |acks|, 5, 0
    {
      hide CrcHqx;
      hide B.Write;
      hide B.Resend;
      var block := if ackseq <= |currentBlock| then currentBlock[ackseq..] else [];
      pos := pos - 7 * |block|;
      currentBlock := [];
      seqno := 0;
      blksize := newSize;
      retransmitting := true;
      raised := Resend(block);
      if raised.None? {
        retransmitting := false;
      }
    }

    /** The loop of a retransmission. */
    method Resend(block: seq<seq<Byte>>) returns (raised: Option<B.BlockError>)
      requires Valid()
      modifies this, crc
      ensures Valid() && (State(), raised) == B.Resend(old(State()), block)
      decreases |acks|, 4, 0
    {
      hide B.Write;
      var i := 0;
      while i < |block|
        invariant 0 <= i <= |block| && Valid()
        invariant B.Resend(State(), block[i..]) == B.Resend(old(State()), block)
        invariant |acks| <= |old(acks)|
      {
        var r := Write(block[i]);
        assert block[i..][1..] == block[i + 1..];
        if r.Raised? {
          return Some(r.error);
        }
        i := i + 1;
      }
      return None;
    }

    /** The frame close sends. */
    method EndFrame() returns (f: Frame)
      requires Valid() && lastBytesSent <= 7
      ensures f == B.EndFrame(State())
    {
      var crcBytes := [0, 0];
      if crcSupported {
        var value := crc.Final();
        crcBytes := ToBytes(value as int, 2);
      }
      f := [0xC1 + 4 * (7 - lastBytesSent)] + crcBytes + [0, 0, 0, 0, 0];
    }
  }
}
