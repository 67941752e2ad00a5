/**
 The SDO client and its expedited and segmented streams, method by method. Each method moves the
 object, the network behind it included, exactly as the functions of the transfer modules say.
 */
module SdoClient {
  import opened Bits
  import opened SdoCalm
  import opened SdoFrames
  import opened Wrappers
  import N = SdoNetwork
  import D = SdoDownload
  import U = SdoUpload

  class SdoClient {
    const maxRetries: nat
    var net: SdoNet

    constructor (net: SdoNet, maxRetries: nat)
      requires maxRetries >= 1
      ensures this.net == net && this.maxRetries == maxRetries
    {
      this.net := net;
      this.maxRetries := maxRetries;
    }

    method SendRequest(f: Frame)
      modifies this
      ensures net == N.Send(old(net), f)
    {
      net := N.Send(net, f);
    }

    method Abort(code: nat)
      modifies this
      ensures net == N.Send(old(net), ClientAbort(code))
    {
      SendRequest(ClientAbort(code));
    }

    method ReadResponse() returns (r: Result<Frame, N.SdoError>)
      modifies this
      ensures (net, r) == N.ReadResponse(old(net))
    {
      net := N.Settle(net);
      if net.queue == [] {
        return Err(N.NoResponse);
      }
      var response := net.queue[0];
      net := net.(queue := net.queue[1..]);
      if response[0] == 0x80 {
        return Err(N.Aborted(FromBytes(response[4..8])));
      }
      return Ok(response);
    }

    method RequestResponse(request: Frame) returns (r: Result<Frame, N.SdoError>)
      requires maxRetries >= 1
      modifies this
      ensures (net, r) == N.RequestResponse(old(net), request, maxRetries)
    {
      var retriesLeft := maxRetries;
      net := N.Settle(net);
      if net.queue != [] {
        net := net.(queue := []);
      }
      while true
        invariant retriesLeft >= 1
        invariant N.Attempts(net, request, retriesLeft) == N.RequestResponse(old(net), request, maxRetries)
        decreases retriesLeft
      {
        SendRequest(request);
        r := ReadResponse();
        if r != Err(N.NoResponse) {
          return;
        }
        retriesLeft := retriesLeft - 1;
        if retriesLeft == 0 {
          Abort(ABORT_TIMED_OUT);
          return;
        }
      }
    }

    /** Read an object; the data is cut to the size the server announced. */
    method Upload(cell: Cell) returns (data: seq<Byte>, raised: Option<N.SdoError>)
      requires maxRetries >= 1
      modifies this
      ensures var (r, all, e) := U.Upload(old(net), cell, maxRetries);
        net == r.net && data == all && raised == e
    {
      hide N.RequestResponse;
      var stream := new ReadableStream(this, cell);
      raised := stream.Initiate();
      if raised.Some? {
        return [], raised;
      }
      var responseSize := stream.size;
      ghost var begin := stream.State();
      data, raised := stream.ReadAll();
      U.ReadAllKeepsSize(begin, [], maxRetries);
      if responseSize.Some? && responseSize.value != 0 && responseSize.value < |data| {
        data := data[..responseSize.value];
      }
    }

    /** Write an object in slices of the given lengths; without enough slices the stream is left open. */
    method Download(cell: Cell, data: seq<Byte>, sized: bool, force: bool, slices: seq<nat>)
      returns (raised: Option<N.SdoError>)
      requires maxRetries >= 1
      modifies this
      ensures var (w, e) := D.Download(old(net), cell, data, sized, force, slices, maxRetries);
        net == w.net && raised == e
    {
      hide D.Write;
      hide D.Close;
      hide D.Open;
      hide N.RequestResponse;
      var stream := new WritableStream(this, cell, if sized then Some(|data|) else None);
      raised := stream.Initiate(force);
      if raised.Some? {
        return;
      }
      ghost var begin := stream.State();
      var i := 0;
      while i < |slices| && stream.pos < |data|
        invariant 0 <= i <= |slices| && stream.Valid() && fresh(stream)
        invariant D.Feed(stream.State(), data, slices[i..], maxRetries) == D.Feed(begin, data, slices, maxRetries)
      {
        assert slices[i..][1..] == slices[i + 1..];
        var taken := stream.Write(data[stream.pos..Min(stream.pos + slices[i], |data|)]);
        if taken.Err? {
          return Some(taken.error);
        }
        i := i + 1;
      }
      if stream.pos >= |data| {
        raised := stream.Close();
      }
    }
  }

  class WritableStream {
    const client: SdoClient
    const cell: Cell
    const size: Option<nat>
    var pos: nat
    var toggle: bool
    var expHeader: Option<seq<Byte>>
    var done: bool
    ghost var segments: nat

    ghost predicate Valid()
      reads this
    {
      client.maxRetries >= 1 &&
      (expHeader.Some? ==>
         D.IsExpedited(size, false) && expHeader.value == D.ExpeditedRequest(cell, size.value, [])[..4])
    }

    ghost function State(): D.Writer
      reads this, client
    {
      D.Writer(client.net, cell, size, pos, toggle, expHeader.Some?, done, segments)
    }

    constructor (client: SdoClient, cell: Cell, size: Option<nat>)
      requires client.maxRetries >= 1
      ensures Valid() && this.client == client && this.cell == cell && this.size == size
      ensures State() == D.Writer(client.net, cell, size, 0, false, false, false, 0)
    {
      this.client := client;
      this.cell := cell;
      this.size := size;
      pos := 0;
      toggle := false;
      expHeader := None;
      done := false;
      segments := 0;
    }

    /** The rest of the source's constructor, which may raise. */
    method Initiate(forceSegment: bool) returns (raised: Option<N.SdoError>)
      requires Valid() && pos == 0 && !toggle && expHeader == None && !done && segments == 0
      modifies this, client
      ensures Valid()
      ensures (State(), raised) == D.Open(old(client.net), cell, size, forceSegment, client.maxRetries)
    {
      hide N.RequestResponse;
      if size.None? || size.value < 1 || size.value > 4 || forceSegment {
        if size.Some? && size.value >= 0x1_0000_0000 {
          return Some(N.BadArgument);
        }
        var response := client.RequestResponse(D.InitRequest(cell, size));
        if response.Err? {
          return Some(response.error);
        }
        if response.value[0] != 0x60 {
          client.Abort(ABORT_INVALID_COMMAND_SPECIFIER);
          return Some(N.UnexpectedResponse);
        }
        return None;
      } else {
        var command := 0x23 + 4 * (4 - size.value);
        expHeader := Some([command, cell.index % 256, cell.index / 256, cell.subindex]);
        assert expHeader.value == D.ExpeditedRequest(cell, size.value, [])[..4];
        return None;
      }
    }

    method Write(b: seq<Byte>) returns (r: Result<nat, N.SdoError>)
      requires Valid()
      modifies this, client
      ensures Valid()
      ensures (State(), r) == D.Write(old(State()), b, client.maxRetries)
    {
      if done {
        return Err(N.BadArgument);
      }
      if expHeader.Some? {
        r := WriteExpedited(b);
      } else {
        r := WriteSegment(b);
      }
    }

    /** The expedited branch of write. */
    method WriteExpedited(b: seq<Byte>) returns (r: Result<nat, N.SdoError>)
      requires Valid() && !done && expHeader.Some?
      modifies this, client
      ensures Valid()
      ensures (State(), r) == D.WriteExpedited(old(State()), b, client.maxRetries)
    {
      hide N.RequestResponse;
      if |b| < size.value {
        return Ok(0);
      }
      if |b| > 4 {
        return Err(N.BadArgument);
      }
      var request: Frame := expHeader.value + Padded(b, 4);
      assert request == D.ExpeditedRequest(cell, size.value, b);
      var response := client.RequestResponse(request);
      if response.Err? {
        return Err(response.error);
      }
      if Specifier(response.value) != RESPONSE_DOWNLOAD {
        client.Abort(ABORT_INVALID_COMMAND_SPECIFIER);
        return Err(N.UnexpectedResponse);
      }
      done := true;
      pos := pos + |b|;
      return Ok(|b|);
    }

    /** The segmented branch of write. */
    method WriteSegment(b: seq<Byte>) returns (r: Result<nat, N.SdoError>)
      requires Valid() && !done && expHeader == None
      modifies this, client
      ensures Valid()
      ensures (State(), r) == D.WriteSegment(old(State()), b, client.maxRetries)
    {
      hide N.RequestResponse;
      var bytesSent := if |b| < 7 then |b| else 7;
      var sentToggle := toggle;
      toggle := !toggle;
      if size.Some? && pos + bytesSent >= size.value {
        done := true;
      }
      segments := segments + 1;
      var request := Segment(REQUEST_SEGMENT_DOWNLOAD, sentToggle, b[..bytesSent], done);
      var response := client.RequestResponse(request);
      if response.Err? {
        return Err(response.error);
      }
      if Specifier(response.value) != RESPONSE_SEGMENT_DOWNLOAD {
        client.Abort(ABORT_INVALID_COMMAND_SPECIFIER);
        return Err(N.UnexpectedResponse);
      }
      pos := pos + bytesSent;
      return Ok(bytesSent);
    }

    method Close() returns (raised: Option<N.SdoError>)
      requires Valid()
      modifies this, client
      ensures Valid()
      ensures (State(), raised) == D.Close(old(State()), client.maxRetries)
    {
      if !done && expHeader.None? {
        var response := client.RequestResponse(Segment(REQUEST_SEGMENT_DOWNLOAD, toggle, [], true));
        if response.Err? {
          return Some(response.error);
        }
        done := true;
      }
      return None;
    }
  }

  class ReadableStream {
    const client: SdoClient
    const cell: Cell
    var size: Option<nat>
    var pos: nat
    var toggle: bool
    var expData: Option<seq<Byte>>
    var done: bool

    ghost function State(): U.Reader
      reads this, client
    {
      U.Reader(client.net, size, pos, toggle, expData, done)
    }

    constructor (client: SdoClient, cell: Cell)
      ensures this.client == client && this.cell == cell
      ensures State() == U.Reader(client.net, None, 0, false, None, false)
    {
      this.client := client;
      this.cell := cell;
      size := None;
      pos := 0;
      toggle := false;
      expData := None;
      done := false;
    }

    /** The rest of the source's constructor, which may raise. */
    method Initiate() returns (raised: Option<N.SdoError>)
      requires client.maxRetries >= 1
      requires size == None && pos == 0 && !toggle && expData == None && !done
      modifies this, client
      ensures (State(), raised) == U.Open(old(client.net), cell, client.maxRetries)
    {
      var response := client.RequestResponse(U.InitRequest(cell));
      if response.Err? {
        return Some(response.error);
      }
      var f := response.value;
      if Specifier(f) != RESPONSE_UPLOAD {
        return Some(N.UnexpectedResponse);
      }
      if CellOf(f) != cell {
        return Some(N.WrongObject);
      }
      if Bit1(f) {
        if Bit0(f) {
          size := Some(4 - UnusedOfFour(f));
          expData := Some(f[4..8][..4 - UnusedOfFour(f)]);
        } else {
          expData := Some(f[4..8]);
        }
        pos := pos + |expData.value|;
      } else if Bit0(f) {
        size := Some(FromBytes(f[4..8]));
      }
      return None;
    }

    method Read() returns (r: Result<seq<Byte>, N.SdoError>)
      requires client.maxRetries >= 1
      modifies this, client
      ensures (State(), r) == U.Read(old(State()), client.maxRetries)
    {
      if done {
        return Ok([]);
      }
      if expData.Some? {
        done := true;
        return Ok(expData.value);
      }
      var response := client.RequestResponse(U.SegmentRequest(toggle));
      if response.Err? {
        return Err(response.error);
      }
      var f := response.value;
      if Specifier(f) != RESPONSE_SEGMENT_UPLOAD {
        client.Abort(ABORT_INVALID_COMMAND_SPECIFIER);
        return Err(N.UnexpectedResponse);
      }
      if ToggleBit(f) != toggle {
        client.Abort(ABORT_TOGGLE_NOT_ALTERNATED);
        return Err(N.ToggleMismatch);
      }
      var length := 7 - UnusedOfSeven(f);
      if Bit0(f) {
        done := true;
      }
      toggle := !toggle;
      pos := pos + length;
      return Ok(f[1..length + 1]);
    }

    /** readall: what was collected, and the exception that ended it, if any. */
    method ReadAll() returns (collected: seq<Byte>, raised: Option<N.SdoError>)
      requires client.maxRetries >= 1
      modifies this, client
      ensures (State(), collected, raised) == U.ReadAll(old(State()), [], client.maxRetries)
    {
      collected := [];
      while true
        invariant U.ReadAll(State(), collected, client.maxRetries) == U.ReadAll(old(State()), [], client.maxRetries)
        decreases |client.net.script|, !done
      {
        ghost var before := State();
        var data := Read();
        if data.Err? {
          return collected, Some(data.error);
        }
        if data.value == [] {
          return collected, None;
        }
        U.ReadMakesProgress(before, client.maxRetries);
        collected := collected + data.value;
      }
    }
  }
}
