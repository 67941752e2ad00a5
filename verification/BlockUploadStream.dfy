/** The block upload stream object: its methods, proved against their functions. */
module BlockUploadStream {
  import opened Bits
  import opened Crc
  import opened SdoFrames
  import opened Wrappers
  import B = BlockUpload

  class BlockUploadStream {
    const crcSupported: bool
    const crc: CrcXmodem
    const data: seq<Byte>
    var done: bool
    var error: bool
    var pos: nat
    var ackseq: nat
    // The server's position, the frames on their way, and the losses to come
    var start: nat
    var channel: seq<Frame>
    var script: seq<B.Reception>
    var acksLost: seq<bool>
    ghost var timeouts: nat
    ghost var repeated: nat

    ghost predicate Valid()
      reads this, crc
    {
      crc.Valid()
    }

    ghost function State(): B.Stream
      reads this, crc
    {
      B.Stream(done, error, pos, crc.processed, ackseq, crcSupported, channel, data, start, script, acksLost,
               timeouts, repeated)
    }

    constructor (data: seq<Byte>, crcSupported: bool, script: seq<B.Reception>, acksLost: seq<bool>)
      ensures Valid() && fresh(crc) && State() == B.Opened(data, crcSupported, script, acksLost)
    {
      this.data := data;
      this.crcSupported := crcSupported;
      crc := new CrcXmodem();
      done := false;
      error := false;
      pos := 0;
      ackseq := 0;
      start := 0;
      channel := B.Block(data, 0, 0);
      this.script := script;
      this.acksLost := acksLost;
      timeouts := 0;
      repeated := 0;
    }

    method Read() returns (r: B.Outcome)
      requires Valid()
      modifies this, crc
      ensures Valid() && (State(), r) == B.Read(old(State()))
    {
      if done {
        return B.Data([]);
      }
      var response := ReadResponse();
      if response.Some? {
        r := CheckSequence(response.value);
      } else {
        timeouts := timeouts + 1;
        var again := Retransmit();
        if again.Err? {
          return B.Raised(again.error);
        }
        r := CheckSequence(again.value);
      }
    }

    method ReadResponse() returns (response: Option<Frame>)
      modifies `channel, `script
      ensures (State(), response) == B.Receive(old(State()))
    {
      if script == [] {
        return None;
      }
      var dropped := script[0].dropped;
      script := script[1..];
      if dropped >= |channel| {
        channel := [];
        return None;
      }
      response := Some(channel[dropped]);
      channel := channel[dropped + 1..];
    }

    method CheckSequence(f: Frame) returns (r: B.Outcome)
      requires Valid()
      modifies this, crc
      ensures Valid() && (State(), r) == B.CheckSequence(old(State()), f)
    {
      if f[0] % 128 == ackseq + 1 {
        ackseq := f[0] % 128;
        r := Accept(f);
      } else {
        var again := Retransmit();
        if again.Err? {
          return B.Raised(again.error);
        }
        r := Accept(again.value);
      }
    }

    /** Acknowledge what arrived in sequence, then skip frames until the stream is back in sync. */
    method Retransmit() returns (r: Result<Frame, B.UploadError>)
      modifies `channel, `script, `ackseq, `start, `error, `acksLost, `repeated
      ensures (State(), r) == B.Retransmit(old(State()))
    {
      hide B.Receive;
      hide B.AckBlock;
      hide CrcHqx;
      hide B.Block;
      hide B.EndFrame;
      hide B.SegmentFrame;
      AckBlock();
      ghost var begin := State();
      var late := false;
      while !late
        invariant if late then B.Resync(begin) == (State().(error := true), Err(B.DataLost))
                  else B.Resync(State()) == B.Resync(begin)
        invariant State() == begin.(channel := channel, script := script, ackseq := ackseq)
        decreases !late, |script|
      {
        late := script != [] && script[0].late;
        var response := ReadResponse();
        if response.None? {
          return Err(B.NoResponse);
        }
        if response.value[0] % 128 == ackseq + 1 {
          ackseq := response.value[0] % 128;
          return Ok(response.value);
        }
      }
      error := true;
      return Err(B.DataLost);
    }

    /** The server answers a block response that arrives with its next block, or with the end of the transfer. */
    method AckBlock()
      modifies `channel, `ackseq, `start, `acksLost, `repeated
      ensures State() == B.AckBlock(old(State()))
    {
      if acksLost != [] && acksLost[0] {
        repeated := repeated + ackseq;
      } else {
        start := Min(start + 7 * ackseq, |data|);
        channel := channel + if start == |data| then [B.EndFrame(data)] else B.Block(data, start, 0);
      }
      ackseq := 0;
      acksLost := if acksLost == [] then [] else acksLost[1..];
    }

    method Accept(f: Frame) returns (r: B.Outcome)
      requires Valid()
      modifies this, crc
      ensures Valid() && (State(), r) == B.Accept(old(State()), f)
    {
      var last := f[0] >= 128;
      if ackseq >= B.BLKSIZE || last {
        AckBlock();
      }
      if last {
        r := AcceptLast(f);
      } else {
        if crcSupported {
          crc.Process(f[1..8]);
        }
        pos := pos + 7;
        r := B.Data(f[1..8]);
      }
    }

    method AcceptLast(f: Frame) returns (r: B.Outcome)
      requires Valid()
      modifies this, crc
      ensures Valid() && (State(), r) == B.AcceptLast(old(State()), f)
    {
      hide Specifier;
      hide CrcHqx;
      hide FromBytes;
      var response := ReadResponse();
      if response.None? {
        return B.Raised(B.NoSuchAttribute);
      }
      var end := response.value;
      if Specifier(end) != RESPONSE_BLOCK_UPLOAD || end[0] % 4 != 1 {
        error := true;
        return B.Raised(B.BadEnd);
      }
      var bytes := f[1..8 - (end[0] / 4) % 8];
      done := true;
      if crcSupported {
        crc.Process(bytes);
        var value := crc.Final();
        if FromBytes(end[1..3]) != value as int {
          error := true;
          return B.Raised(B.CrcMismatch);
        }
      }
      pos := pos + |bytes|;
      return B.Data(bytes);
    }
  }
}
