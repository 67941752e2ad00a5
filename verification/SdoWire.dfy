/**
 The SDO protocol in bytes, after section 7.2.4.3 of CiA 301: what the client puts on the wire and how it
 takes the responses, whatever server gives them, and what the server answers.
 */
module SdoWire {
  import opened Bits
  import opened ObjectStore
  import opened SdoCalm
  import opened SdoFrames
  import opened SdoNetwork
  import opened SdoService
  import opened Wrappers
  import D = SdoDownload
  import U = SdoUpload

  // ----- Numbers and addresses -----

  /** The 32-bit number at the end of a frame. */
  function Number32(f: Frame): nat {
    var a: int, b: int, c: int, d: int := f[4], f[5], f[6], f[7];
    a + 0x100 * b + 0x1_0000 * c + 0x100_0000 * d
  }

  function LittleEndian(x: nat): (bs: seq<Byte>)
    ensures |bs| == 4
  {
    [x % 256, x / 0x100 % 256, x / 0x1_0000 % 256, x / 0x100_0000 % 256]
  }

  predicate Addresses(f: Frame, cell: Cell) {
    f[1] == cell.index % 256 && f[2] == cell.index / 256 && f[3] == cell.subindex
  }

  lemma NumbersAreLittleEndian(x: nat, f: Frame)
    ensures ToBytes(x, 4) == LittleEndian(x)
    ensures FromBytes(f[4..8]) == Number32(f)
  {
    FourBytes(x);
    assert f[4..8][1..] == f[5..8] && f[5..8][1..] == f[6..8] && f[6..8][1..] == f[7..8] && f[7..8][1..] == [];
    assert FromBytes(f[7..8]) == f[7];
    var c: int, b: int := f[6], f[5];
    assert FromBytes(f[6..8]) == c + 256 * FromBytes(f[7..8]);
    assert FromBytes(f[5..8]) == b + 256 * FromBytes(f[6..8]);
  }

  /** The index goes least significant byte first. */
  lemma AddressesAreLittleEndian(f: Frame, cell: Cell, command: Byte, data: seq<Byte>)
    requires |data| == 4
    ensures CellOf(f) == cell <==> Addresses(f, cell)
    ensures Multiplexed(command, cell, data) == [command, cell.index % 256, cell.index / 256, cell.subindex] + data
  {
  }

  // ----- The client, whatever answers it -----

  /** The network is quiet and prompt, and whatever is behind it answers the request so. */
  predicate Answers(n: SdoNet, request: Frame, response: Frame) {
    Quiet(n) && CYCLE <= n.script && n.serve(n.server, request).1 == [response]
  }

  /** The network afterwards. */
  function Answered(n: SdoNet, request: Frame): SdoNet
    requires |n.script| >= 4
  {
    n.(server := n.serve(n.server, request).0, queue := [], script := n.script[4..])
  }

  const ABORT_COMMAND: Frame := [0x80, 0, 0, 0, 0x01, 0x00, 0x04, 0x05]
  const ABORT_TOGGLE: Frame := [0x80, 0, 0, 0, 0x00, 0x00, 0x03, 0x05]
  const ABORT_TIMEOUT: Frame := [0x80, 0, 0, 0, 0x00, 0x00, 0x04, 0x05]

  lemma AbortFrames()
    ensures ClientAbort(ABORT_INVALID_COMMAND_SPECIFIER) == ABORT_COMMAND
    ensures ClientAbort(ABORT_TOGGLE_NOT_ALTERNATED) == ABORT_TOGGLE
    ensures ClientAbort(ABORT_TIMED_OUT) == ABORT_TIMEOUT
  {
    NumbersAreLittleEndian(ABORT_INVALID_COMMAND_SPECIFIER, ABORT_COMMAND);
    NumbersAreLittleEndian(ABORT_TOGGLE_NOT_ALTERNATED, ABORT_COMMAND);
    NumbersAreLittleEndian(ABORT_TIMED_OUT, ABORT_COMMAND);
  }

  lemma Exchanged(n: SdoNet, request: Frame, f: Frame, maxRetries: nat)
    requires maxRetries >= 1 && Answers(n, request, f)
    ensures RequestResponse(n, request, maxRetries) ==
      (Answered(n, request), if f[0] == 0x80 then Err(Aborted(Number32(f))) else Ok(f))
  {
    PromptExchange(n, request, maxRetries, n.serve(n.server, request).0, f);
    NumbersAreLittleEndian(0, f);
  }

  /** How the response to an upload request is taken, byte by byte. */
  lemma UploadOpens(n: SdoNet, cell: Cell, f: Frame, maxRetries: nat)
    requires maxRetries >= 1 && Answers(n, Multiplexed(0x40, cell, [0, 0, 0, 0]), f)
    ensures var (r, e) := U.Open(n, cell, maxRetries);
      r.net == Answered(n, Multiplexed(0x40, cell, [0, 0, 0, 0])) && !r.done && !r.toggle &&
      (e.Some? ==> r.size == None && r.expedited == None && r.pos == 0) &&
      if f[0] == 0x80 then e == Some(Aborted(Number32(f)))
      else if f[0] / 32 != 2 then e == Some(UnexpectedResponse)
      else if !Addresses(f, cell) then e == Some(WrongObject)
      else
        e == None && match f[0] % 4
        case 0 => r.size == None && r.expedited == None && r.pos == 0
        case 1 => r.size == Some(Number32(f)) && r.expedited == None && r.pos == 0
        case 2 => r.size == None && r.expedited == Some(f[4..8])
        case _ => var unused := f[0] / 4 % 4; r.size == Some(4 - unused) && r.expedited == Some(f[4..8 - unused])
  {
    hide RequestResponse;
    Exchanged(n, Multiplexed(0x40, cell, [0, 0, 0, 0]), f, maxRetries);
    AddressesAreLittleEndian(f, cell, 0x40, [0, 0, 0, 0]);
    NumbersAreLittleEndian(0, f);
    assert f[4..8][..4 - UnusedOfFour(f)] == f[4..8 - UnusedOfFour(f)];
  }

  /**
   An expedited upload returns the data bytes of the response, whatever server sends it: all four of them
   when the response does not say how many are used.
   */
  lemma ExpeditedUploadTakesResponse(n: SdoNet, cell: Cell, f: Frame, maxRetries: nat)
    requires maxRetries >= 1 && Answers(n, Multiplexed(0x40, cell, [0, 0, 0, 0]), f)
    requires f[0] / 32 == 2 && f[0] % 4 >= 2 && Addresses(f, cell)
    ensures var (_, data, e) := U.Upload(n, cell, maxRetries);
      e == None && data == if f[0] % 4 == 2 then f[4..8] else f[4..8 - f[0] / 4 % 4]
  {
    hide RequestResponse;
    UploadOpens(n, cell, f, maxRetries);
    var (r, e) := U.Open(n, cell, maxRetries);
    U.ReadAllExpedited(r, r.expedited.value, maxRetries);
  }

  function UploadSegmentRequest(toggle: bool): Frame {
    [if toggle then 0x70 else 0x60, 0, 0, 0, 0, 0, 0, 0]
  }

  /** How the response to a segment request is taken. */
  lemma UploadReads(r: U.Reader, f: Frame, maxRetries: nat)
    requires maxRetries >= 1 && !r.done && r.expedited == None && Answers(r.net, UploadSegmentRequest(r.toggle), f)
    ensures var (r1, read) := U.Read(r, maxRetries);
      var n := Answered(r.net, UploadSegmentRequest(r.toggle));
      if f[0] == 0x80 then r1 == r.(net := n) && read == Err(Aborted(Number32(f)))
      else if f[0] / 32 != 0 then r1 == r.(net := Send(n, ABORT_COMMAND)) && read == Err(UnexpectedResponse)
      else if (f[0] / 16 % 2 == 1) != r.toggle
      then r1 == r.(net := Send(n, ABORT_TOGGLE)) && read == Err(ToggleMismatch)
      else
        var unused := f[0] / 2 % 8;
        && read == Ok(f[1..8 - unused])
        && r1 == r.(net := n, done := f[0] % 2 == 1, toggle := !r.toggle, pos := r.pos + 7 - unused)
  {
    hide RequestResponse;
    assert U.SegmentRequest(r.toggle) == UploadSegmentRequest(r.toggle);
    Exchanged(r.net, UploadSegmentRequest(r.toggle), f, maxRetries);
    AbortFrames();
  }

  function Joined(segments: seq<seq<Byte>>): seq<Byte> {
    if segments == [] then [] else segments[0] + Joined(segments[1..])
  }

  /** A server that answers segment requests with these segments in turn, marking the last. */
  ghost predicate SendsSegments(serve: (Server, Frame) -> (Server, seq<Frame>), s: Server, toggle: bool,
                                segments: seq<seq<Byte>>)
    decreases |segments|
  {
    segments != [] ==>
      var (s1, responses) := serve(s, UploadSegmentRequest(toggle));
      var data, last := segments[0], |segments| == 1;
      && 1 <= |data| <= 7 && |responses| == 1
      && responses[0][0] == (if toggle then 0x10 else 0) + 2 * (7 - |data|) + (if last then 1 else 0)
      && responses[0][1..|data| + 1] == data
      && SendsSegments(serve, s1, !toggle, segments[1..])
  }

  lemma FirstResponse(serve: (Server, Frame) -> (Server, seq<Frame>), s: Server, toggle: bool,
                      segments: seq<seq<Byte>>) returns (f: Frame)
    requires segments != [] && SendsSegments(serve, s, toggle, segments)
    ensures serve(s, UploadSegmentRequest(toggle)).1 == [f]
    ensures f[0] != 0x80 && f[0] / 32 == 0 && (f[0] / 16 % 2 == 1) == toggle && (f[0] % 2 == 1) == (|segments| == 1)
    ensures f[0] / 2 % 8 <= 6 && f[1..8 - f[0] / 2 % 8] == segments[0]
    ensures SendsSegments(serve, serve(s, UploadSegmentRequest(toggle)).0, !toggle, segments[1..])
  {
    var responses := serve(s, UploadSegmentRequest(toggle)).1;
    f := responses[0];
    CommandOfSegment(f[0], Value(toggle), 7 - |segments[0]|, Value(|segments| == 1));
    assert f[1..|segments[0]| + 1] == segments[0];
  }

  lemma TakesSegment(r: U.Reader, segments: seq<seq<Byte>>, maxRetries: nat)
    requires maxRetries >= 1 && !r.done && r.expedited == None && segments != []
    requires Quiet(r.net) && CYCLE <= r.net.script && SendsSegments(r.net.serve, r.net.server, r.toggle, segments)
    ensures var (r1, read) := U.Read(r, maxRetries);
      && read == Ok(segments[0]) && segments[0] != [] && r1.expedited == None && r1.done == (|segments| == 1)
      && Quiet(r1.net) && r1.net.script == r.net.script[4..] && r1.net.serve == r.net.serve
      && SendsSegments(r1.net.serve, r1.net.server, r1.toggle, segments[1..])
  {
    hide U.Read;
    hide SendsSegments;
    var f := FirstResponse(r.net.serve, r.net.server, r.toggle, segments);
    UploadReads(r, f, maxRetries);
  }

  lemma ReadAllGoesOn(r: U.Reader, collected: seq<Byte>, maxRetries: nat)
    requires maxRetries >= 1
    ensures var (r1, read) := U.Read(r, maxRetries);
      read.Ok? && read.value != [] ==>
        U.ReadAll(r, collected, maxRetries) == U.ReadAll(r1, collected + read.value, maxRetries)
  {
    hide U.Read;
  }

  lemma ReadAllEnds(r: U.Reader, collected: seq<Byte>, maxRetries: nat)
    requires maxRetries >= 1 && r.done
    ensures U.ReadAll(r, collected, maxRetries) == (r, collected, None)
  {
  }

  lemma {:induction false} ReadAllJoins(r: U.Reader, collected: seq<Byte>, segments: seq<seq<Byte>>, k: nat,
                                        tail: seq<Event>, maxRetries: nat)
    requires maxRetries >= 1 && !r.done && r.expedited == None && segments != [] && k >= |segments|
    requires Quiet(r.net) && r.net.script == Cycles(k) + tail
    requires SendsSegments(r.net.serve, r.net.server, r.toggle, segments)
    ensures var (_, data, e) := U.ReadAll(r, collected, maxRetries);
      e == None && data == collected + Joined(segments)
    decreases |segments|
  {
    hide SendsSegments;
    hide U.Read;
    hide U.ReadAll;
    assert Cycles(k) + tail == CYCLE + (Cycles(k - 1) + tail);
    TakesSegment(r, segments, maxRetries);
    var (r1, read) := U.Read(r, maxRetries);
    ReadAllGoesOn(r, collected, maxRetries);
    assert collected + (segments[0] + Joined(segments[1..])) == collected + segments[0] + Joined(segments[1..]);
    if |segments| == 1 {
      ReadAllEnds(r1, collected + segments[0], maxRetries);
    } else {
      ReadAllJoins(r1, collected + segments[0], segments[1..], k - 1, tail, maxRetries);
    }
  }

  lemma CommandOfSegment(command: nat, toggle: nat, unused: nat, last: nat)
    requires toggle < 2 && unused < 7 && last < 2 && command == 16 * toggle + 2 * unused + last
    ensures command < 32 && command / 16 % 2 == toggle && command / 2 % 8 == unused && command % 2 == last
  {
  }

  /**
   An upload from any server that answers with segments, of whatever lengths, returns them joined; a size
   other than zero that the server announced is a limit.
   */
  lemma SegmentedUploadJoins(n: SdoNet, cell: Cell, f: Frame, segments: seq<seq<Byte>>, k: nat, tail: seq<Event>,
                             maxRetries: nat)
    requires maxRetries >= 1 && segments != [] && k > |segments| && n.script == Cycles(k) + tail
    requires Answers(n, Multiplexed(0x40, cell, [0, 0, 0, 0]), f)
    requires f[0] / 32 == 2 && f[0] % 4 < 2 && Addresses(f, cell)
    requires SendsSegments(n.serve, n.serve(n.server, Multiplexed(0x40, cell, [0, 0, 0, 0])).0, false, segments)
    ensures var (_, data, e) := U.Upload(n, cell, maxRetries);
      var whole := Joined(segments);
      e == None && data == if f[0] % 4 == 1 && 0 < Number32(f) < |whole| then whole[..Number32(f)] else whole
  {
    hide RequestResponse;
    UploadOpens(n, cell, f, maxRetries);
    var (r, e) := U.Open(n, cell, maxRetries);
    assert Cycles(k) + tail == CYCLE + (Cycles(k - 1) + tail);
    assert r.net.script == Cycles(k - 1) + tail;
    ReadAllJoins(r, [], segments, k - 1, tail, maxRetries);
  }

  // ----- Downloads -----

  function DownloadRequest(cell: Cell, size: Option<nat>): Frame {
    match size
    case Some(n) => Multiplexed(0x21, cell, LittleEndian(n))
    case None => Multiplexed(0x20, cell, [0, 0, 0, 0])
  }

  /** How the response to the request that opens a segmented download is taken. */
  lemma DownloadOpens(n: SdoNet, cell: Cell, size: Option<nat>, force: bool, f: Frame, maxRetries: nat)
    requires maxRetries >= 1 && Answers(n, DownloadRequest(cell, size), f)
    requires size.Some? ==> (size.value == 0 || size.value > 4 || force) && size.value < 0x1_0000_0000
    ensures var (w, e) := D.Open(n, cell, size, force, maxRetries);
      var n1 := Answered(n, DownloadRequest(cell, size));
      && (w.cell, w.size, w.pos, w.toggle, w.expedited, w.done) == (cell, size, 0, false, false, false)
      && if f[0] == 0x80 then w.net == n1 && e == Some(Aborted(Number32(f)))
         else if f[0] != 0x60 then w.net == Send(n1, ABORT_COMMAND) && e == Some(UnexpectedResponse)
         else w.net == n1 && e == None
  {
    hide RequestResponse;
    if size.Some? {
      NumbersAreLittleEndian(size.value, f);
    }
    Exchanged(n, DownloadRequest(cell, size), f, maxRetries);
    AbortFrames();
  }

  /** REQUEST_DOWNLOAD with the data in it, for one to four bytes. */
  function ExpeditedRequest(cell: Cell, data: seq<Byte>): Frame
    requires 1 <= |data| <= 4
  {
    Multiplexed([0x2F, 0x2B, 0x27, 0x23][|data| - 1], cell, Padded(data, 4))
  }

  lemma ExpeditedWrite(w: D.Writer, data: seq<Byte>, f: Frame, maxRetries: nat)
    requires maxRetries >= 1 && 1 <= |data| <= 4 && w.expedited && !w.done && w.size == Some(|data|) && w.pos == 0
    requires Answers(w.net, ExpeditedRequest(w.cell, data), f)
    ensures var n := Answered(w.net, ExpeditedRequest(w.cell, data));
      var (w1, r) := D.Write(w, data, maxRetries);
      if f[0] == 0x80 then w1 == w.(net := n) && r == Err(Aborted(Number32(f)))
      else if f[0] / 32 != 3 then w1 == w.(net := Send(n, ABORT_COMMAND)) && r == Err(UnexpectedResponse)
      else w1 == w.(net := n, done := true, pos := |data|) && r == Ok(|data|)
  {
    hide RequestResponse;
    assert ExpeditedRequest(w.cell, data) == D.ExpeditedRequest(w.cell, |data|, data);
    Exchanged(w.net, ExpeditedRequest(w.cell, data), f, maxRetries);
    AbortFrames();
  }

  /** Slices too short for all of the data are passed over. */
  lemma {:induction false} ExpeditedFeed(w: D.Writer, data: seq<Byte>, f: Frame, chunks: seq<nat>, maxRetries: nat)
    requires maxRetries >= 1 && 1 <= |data| <= 4 && w.expedited && !w.done && w.size == Some(|data|) && w.pos == 0
    requires Answers(w.net, ExpeditedRequest(w.cell, data), f) && exists c :: c in chunks && c >= |data|
    ensures var (w1, r) := D.Write(w, data, maxRetries);
      var (w2, e) := D.FeedAndClose(w, data, chunks, maxRetries);
      w2 == w1 && e == if r.Err? then Some(r.error) else None
    decreases |chunks|
  {
    var b := data[0..Min(chunks[0], |data|)];
    ExpeditedWrite(w, data, f, maxRetries);
    if chunks[0] < |data| {
      assert chunks == [chunks[0]] + chunks[1..];
      assert D.Write(w, b, maxRetries) == (w, Ok(0));
      hide D.Write;
      FeedGoesOn(w, data, chunks, maxRetries);
      ExpeditedFeed(w, data, f, chunks[1..], maxRetries);
    } else {
      assert b == data;
      hide D.Write;
      var (w1, r) := D.Write(w, data, maxRetries);
      if r.Ok? {
        assert D.Feed(w1, data, chunks[1..], maxRetries) == (w1, None);
      }
    }
  }

  /** An expedited download is one request that carries the data and its length, whatever the slices. */
  lemma ExpeditedDownloadInBytes(n: SdoNet, cell: Cell, data: seq<Byte>, f: Frame, chunks: seq<nat>, maxRetries: nat)
    requires maxRetries >= 1 && 1 <= |data| <= 4 && exists c :: c in chunks && c >= |data|
    requires Answers(n, ExpeditedRequest(cell, data), f)
    ensures var n1 := Answered(n, ExpeditedRequest(cell, data));
      var (w, e) := D.Download(n, cell, data, true, false, chunks, maxRetries);
      if f[0] == 0x80 then w.net == n1 && e == Some(Aborted(Number32(f)))
      else if f[0] / 32 != 3 then w.net == Send(n1, ABORT_COMMAND) && e == Some(UnexpectedResponse)
      else w.net == n1 && e == None && w.pos == |data|
  {
    hide D.Write;
    hide D.FeedAndClose;
    var w := D.Open(n, cell, Some(|data|), false, maxRetries).0;
    ExpeditedWrite(w, data, f, maxRetries);
    ExpeditedFeed(w, data, f, chunks, maxRetries);
  }

  /**
   What is not put on the wire: a size beyond 32 bits, anything after the end, and slices of an expedited
   download that are shorter than the size, which are passed over, or longer than four bytes.
   */
  lemma NothingIsSent(n: SdoNet, cell: Cell, w: D.Writer, size: nat, force: bool, b: seq<Byte>, maxRetries: nat)
    requires maxRetries >= 1 && (w.expedited ==> D.IsExpedited(w.size, false))
    ensures size >= 0x1_0000_0000 ==>
      var (w1, e) := D.Open(n, cell, Some(size), force, maxRetries);
      w1.net == n && e == Some(BadArgument)
    ensures w.done || (w.expedited && |b| > 4) ==> D.Write(w, b, maxRetries) == (w, Err(BadArgument))
    ensures !w.done && w.expedited && |b| < w.size.value ==> D.Write(w, b, maxRetries) == (w, Ok(0))
    ensures w.done || w.expedited ==> D.Close(w, maxRetries) == (w, None)
  {
  }

  function SegmentRequest(toggle: bool, data: seq<Byte>, last: bool): Frame
    requires |data| <= 7
  {
    [(if toggle then 0x10 else 0) + 2 * (7 - |data|) + (if last then 1 else 0)] + Padded(data, 7)
  }

  /** How the response to a segment is taken. */
  lemma DownloadWrites(w: D.Writer, b: seq<Byte>, f: Frame, maxRetries: nat)
    requires maxRetries >= 1 && !w.done && !w.expedited
    requires var n := Min(|b|, 7);
      Answers(w.net, SegmentRequest(w.toggle, b[..n], w.size.Some? && w.pos + n >= w.size.value), f)
    ensures var n := Min(|b|, 7);
      var last := w.size.Some? && w.pos + n >= w.size.value;
      var n1 := Answered(w.net, SegmentRequest(w.toggle, b[..n], last));
      var (w1, r) := D.Write(w, b, maxRetries);
      var sent := w.(toggle := !w.toggle, done := last, segments := w.segments + 1);
      if f[0] == 0x80 then w1 == sent.(net := n1) && r == Err(Aborted(Number32(f)))
      else if f[0] / 32 != 1 then w1 == sent.(net := Send(n1, ABORT_COMMAND)) && r == Err(UnexpectedResponse)
      else w1 == sent.(net := n1, pos := w.pos + n) && r == Ok(n)
  {
    hide RequestResponse;
    var n := Min(|b|, 7);
    var last := w.size.Some? && w.pos + n >= w.size.value;
    assert D.NextSegment(w, b) == SegmentRequest(w.toggle, b[..n], last);
    Exchanged(w.net, SegmentRequest(w.toggle, b[..n], last), f, maxRetries);
    AbortFrames();
  }

  /** The segments of a download, by the slices in which the data is presented. */
  function Segments(data: seq<Byte>, chunks: seq<nat>, toggle: bool, sized: bool, done: bool): seq<Frame>
    decreases |chunks|
  {
    if data == [] then if done then [] else [[if toggle then 0x1F else 0x0F, 0, 0, 0, 0, 0, 0, 0]]
    else if chunks == [] then []
    else
      var n := Min(Min(chunks[0], 7), |data|);
      var last := sized && n == |data|;
      [SegmentRequest(toggle, data[..n], last)] + Segments(data[n..], chunks[1..], !toggle, sized, last)
  }

  /** Each of these requests is confirmed by one response. */
  ghost predicate Confirms(serve: (Server, Frame) -> (Server, seq<Frame>), s: Server, requests: seq<Frame>)
    decreases |requests|
  {
    requests != [] ==>
      var (s1, responses) := serve(s, requests[0]);
      |responses| == 1 && responses[0][0] / 32 == 1 && Confirms(serve, s1, requests[1..])
  }

  function Served(serve: (Server, Frame) -> (Server, seq<Frame>), s: Server, requests: seq<Frame>): Server
    decreases |requests|
  {
    if requests == [] then s else Served(serve, serve(s, requests[0]).0, requests[1..])
  }

  lemma ServedFirst(serve: (Server, Frame) -> (Server, seq<Frame>), s: Server, request: Frame, rest: seq<Frame>)
    ensures Served(serve, s, [request] + rest) == Served(serve, serve(s, request).0, rest)
    ensures Confirms(serve, s, [request] + rest) ==>
      var (s1, responses) := serve(s, request);
      |responses| == 1 && responses == [responses[0]] && responses[0][0] / 32 == 1 && Confirms(serve, s1, rest)
  {
    assert ([request] + rest)[1..] == rest;
  }

  lemma NothingServed(serve: (Server, Frame) -> (Server, seq<Frame>), s: Server)
    ensures Served(serve, s, []) == s
  {
  }

  lemma ClosesInBytes(w: D.Writer, data: seq<Byte>, k: nat, tail: seq<Event>, maxRetries: nat)
    requires maxRetries >= 1 && !w.expedited && k >= 1 && Quiet(w.net) && w.net.script == Cycles(k) + tail
    requires Confirms(w.net.serve, w.net.server, Segments([], [], w.toggle, w.size.Some?, w.done))
    ensures var (w1, e) := D.Close(w, maxRetries);
      e == None && w1.pos == w.pos && w1.done &&
      w1.net.server == Served(w.net.serve, w.net.server, Segments([], [], w.toggle, w.size.Some?, w.done))
  {
    hide RequestResponse;
    if !w.done {
      var request := Segments([], [], w.toggle, w.size.Some?, w.done)[0];
      assert request == Segment(REQUEST_SEGMENT_DOWNLOAD, w.toggle, [], true);
      var responses := w.net.serve(w.net.server, request).1;
      assert responses == [responses[0]];
      assert Cycles(k) + tail == CYCLE + (Cycles(k - 1) + tail);
      Exchanged(w.net, request, responses[0], maxRetries);
    }
  }

  /** The first of the segments. */
  lemma FirstSegment(data: seq<Byte>, chunks: seq<nat>, toggle: bool, sized: bool)
    requires data != [] && chunks != []
    ensures var n := Min(Min(chunks[0], 7), |data|);
      var last := sized && n == |data|;
      Segments(data, chunks, toggle, sized, false) ==
        [SegmentRequest(toggle, data[..n], last)] + Segments(data[n..], chunks[1..], !toggle, sized, last)
  {
  }

  /** One slice of a download, of which at least a byte is left. */
  lemma WritesInBytes(w: D.Writer, data: seq<Byte>, chunks: seq<nat>, maxRetries: nat)
    requires maxRetries >= 1 && !w.expedited && !w.done && w.pos < |data| && (w.size.Some? ==> w.size.value == |data|)
    requires chunks != [] && Quiet(w.net) && CYCLE <= w.net.script
    requires Confirms(w.net.serve, w.net.server, Segments(data[w.pos..], chunks, w.toggle, w.size.Some?, false))
    ensures var (w1, r) := D.Write(w, data[w.pos..Min(w.pos + chunks[0], |data|)], maxRetries);
      var n := Min(Min(chunks[0], 7), |data| - w.pos);
      var rest := Segments(data[w.pos + n..], chunks[1..], w1.toggle, w1.size.Some?, w1.done);
      && r.Ok? && !w1.expedited && w1.pos == w.pos + n && w1.size == w.size && (w1.done ==> w1.pos == |data|)
      && Quiet(w1.net) && w1.net.script == w.net.script[4..] && w1.net.serve == w.net.serve
      && Confirms(w.net.serve, w1.net.server, rest)
      && Served(w.net.serve, w.net.server, Segments(data[w.pos..], chunks, w.toggle, w.size.Some?, false)) ==
         Served(w.net.serve, w1.net.server, rest)
  {
    hide D.Write;
    hide Confirms;
    hide Served;
    hide Segments;
    hide SegmentRequest;
    var b, left := data[w.pos..Min(w.pos + chunks[0], |data|)], data[w.pos..];
    var n := Min(Min(chunks[0], 7), |left|);
    assert b[..n] == left[..n] && left[n..] == data[w.pos + n..];
    FirstSegment(left, chunks, w.toggle, w.size.Some?);
    var last := w.size.Some? && n == |left|;
    var request := SegmentRequest(w.toggle, left[..n], last);
    ServedFirst(w.net.serve, w.net.server, request, Segments(left[n..], chunks[1..], !w.toggle, w.size.Some?, last));
    DownloadWrites(w, b, w.net.serve(w.net.server, request).1[0], maxRetries);
  }

  lemma FeedGoesOn(w: D.Writer, data: seq<Byte>, chunks: seq<nat>, maxRetries: nat)
    requires maxRetries >= 1 && (w.expedited ==> D.IsExpedited(w.size, false)) && w.pos < |data| && chunks != []
    ensures var (w1, r) := D.Write(w, data[w.pos..Min(w.pos + chunks[0], |data|)], maxRetries);
      r.Ok? && (w1.expedited ==> D.IsExpedited(w1.size, false)) ==>
        D.FeedAndClose(w, data, chunks, maxRetries) == D.FeedAndClose(w1, data, chunks[1..], maxRetries)
  {
    hide D.Write;
    hide D.Close;
  }

  /** What is left of a download puts exactly these segments on the wire, in this order. */
  lemma {:induction false} FeedsInBytes(w: D.Writer, data: seq<Byte>, chunks: seq<nat>, k: nat, tail: seq<Event>,
                                        maxRetries: nat)
    requires maxRetries >= 1 && !w.expedited && w.pos <= |data| && (w.size.Some? ==> w.size.value == |data|)
    requires Quiet(w.net) && w.net.script == Cycles(k) + tail && k > |chunks| && (w.done ==> w.pos == |data|)
    requires Confirms(w.net.serve, w.net.server, Segments(data[w.pos..], chunks, w.toggle, w.size.Some?, w.done))
    ensures var (w1, e) := D.FeedAndClose(w, data, chunks, maxRetries);
      e == None && w1.net.server ==
        Served(w.net.serve, w.net.server, Segments(data[w.pos..], chunks, w.toggle, w.size.Some?, w.done))
    decreases |chunks|
  {
    hide D.Write;
    hide D.Close;
    hide Confirms;
    hide Served;
    if w.pos == |data| {
      assert data[w.pos..] == [];
      ClosesInBytes(w, data, k, tail, maxRetries);
    } else if chunks == [] {
      NothingServed(w.net.serve, w.net.server);
    } else {
      hide Segments;
      assert Cycles(k) + tail == CYCLE + (Cycles(k - 1) + tail);
      WritesInBytes(w, data, chunks, maxRetries);
      var (w1, r) := D.Write(w, data[w.pos..Min(w.pos + chunks[0], |data|)], maxRetries);
      FeedGoesOn(w, data, chunks, maxRetries);
      hide D.FeedAndClose;
      FeedsInBytes(w1, data, chunks[1..], k - 1, tail, maxRetries);
    }
  }

  /**
   A segmented download to any server that confirms what it is sent puts exactly these frames on the wire:
   the request with the size, if it is announced, and the data in segments with alternating toggle.
   */
  lemma SegmentedDownloadInBytes(n: SdoNet, cell: Cell, data: seq<Byte>, sized: bool, force: bool, f: Frame,
                                 chunks: seq<nat>, k: nat, tail: seq<Event>, maxRetries: nat)
    requires maxRetries >= 1 && D.IsSegmented(data, sized, force) && |data| < 0x1_0000_0000
    requires n.script == Cycles(k) + tail && k > |chunks| + 1
    requires var request := DownloadRequest(cell, if sized then Some(|data|) else None);
      Answers(n, request, f) && f[0] == 0x60 &&
      Confirms(n.serve, n.serve(n.server, request).0, Segments(data, chunks, false, sized, false))
    ensures var request := DownloadRequest(cell, if sized then Some(|data|) else None);
      var (w, e) := D.Download(n, cell, data, sized, force, chunks, maxRetries);
      e == None && w.net.server == Served(n.serve, n.server, [request] + Segments(data, chunks, false, sized, false))
  {
    hide D.FeedAndClose;
    hide D.Open;
    hide DownloadRequest;
    hide Segments;
    hide Served;
    hide Confirms;
    var size := if sized then Some(|data|) else None;
    DownloadOpens(n, cell, size, force, f, maxRetries);
    var (w, e) := D.Open(n, cell, size, force, maxRetries);
    assert Cycles(k) + tail == CYCLE + (Cycles(k - 1) + tail);
    assert w.net.script == Cycles(k - 1) + tail && data[w.pos..] == data;
    FeedsInBytes(w, data, chunks, k - 1, tail, maxRetries);
    ServedFirst(n.serve, n.server, DownloadRequest(cell, size), Segments(data, chunks, false, sized, false));
  }

  function Copies(f: Frame, n: nat): seq<Frame> {
    if n == 0 then [] else [f] + Copies(f, n - 1)
  }

  lemma {:induction false} AttemptsTimeOut(n: SdoNet, request: Frame, retriesLeft: nat)
    requires retriesLeft >= 1 && n.queue == [] && n.script == []
    ensures Attempts(n, request, retriesLeft) ==
      (n.(requests := n.requests + Copies(request, retriesLeft) + [ABORT_TIMEOUT]), Err(NoResponse))
    decreases retriesLeft
  {
    AbortFrames();
    hide ClientAbort;
    var n1 := Send(n, request);
    assert ReadResponse(n1) == (n1, Err(NoResponse));
    if retriesLeft > 1 {
      AttemptsTimeOut(n1, request, retriesLeft - 1);
      assert n1.requests + Copies(request, retriesLeft - 1) == n.requests + Copies(request, retriesLeft);
    } else {
      assert Copies(request, 1) == [request] + Copies(request, 0) == [request];
    }
  }

  /** A request that nobody answers is sent as often as there are attempts, and then aborted as timed out. */
  lemma UnansweredRequest(n: SdoNet, request: Frame, maxRetries: nat)
    requires maxRetries >= 1 && n.script == []
    ensures RequestResponse(n, request, maxRetries) ==
      (n.(queue := [], requests := n.requests + Copies(request, maxRetries) + [ABORT_TIMEOUT]), Err(NoResponse))
  {
    AttemptsTimeOut(n.(queue := []), request, maxRetries);
  }

  // ----- The server -----

  function AbortFrame(cell: Cell, code: nat): Frame {
    Multiplexed(0x80, cell, LittleEndian(code))
  }

  lemma ServerAbortInBytes(cell: Cell, code: nat)
    ensures ServerAbort(cell, code) == AbortFrame(cell, code)
  {
    NumbersAreLittleEndian(code, ABORT_TOGGLE);
  }

  lemma LittleEndianNumber(cell: Cell, code: nat)
    requires code < 0x1_0000_0000
    ensures Number32(AbortFrame(cell, code)) == code
  {
    FourBytes(code);
  }

  /** The answer to an upload request; a block upload falls back to it. */
  lemma UploadIsAnswered(s: Server, f: Frame, cell: Cell)
    requires f[0] / 32 in {2, 5} && Addresses(f, cell)
    ensures var s1 := s.(cell := Some(cell));
      OnRequest(s, f) ==
      match DataAt(s.od, s.store, cell, true)
      case Err(code) => (s1, [AbortFrame(cell, code)])
      case Ok(data) =>
        if data == [] then (s1, [AbortFrame(cell, 0x0800_0024)])
        else if |data| <= 4 then (s1, [Multiplexed([0x4F, 0x4B, 0x47, 0x43][|data| - 1], cell, Padded(data, 4))])
        else if |data| >= 0x1_0000_0000 then (s1, [AbortFrame(cell, 0x0800_0000)])
        else (s1.(buffer := Some(data), toggle := false), [Multiplexed(0x41, cell, LittleEndian(|data|))])
  {
    hide Multiplexed;
    AddressesAreLittleEndian(f, cell, 0x80, [0, 0, 0, 0]);
    match DataAt(s.od, s.store, cell, true)
    case Err(code) =>
      ServerAbortInBytes(cell, code);
    case Ok(data) =>
      ServerAbortInBytes(cell, 0x0800_0024);
      ServerAbortInBytes(cell, 0x0800_0000);
      NumbersAreLittleEndian(|data|, f);
  }

  /** The answer to a request for a segment. */
  lemma UploadSegmentIsAnswered(s: Server, f: Frame, cell: Cell)
    requires f[0] / 32 == 3 && s.cell == Some(cell)
    ensures OnRequest(s, f) ==
      if (f[0] / 16 % 2 == 1) != s.toggle then (s, [AbortFrame(cell, 0x0503_0000)])
      else if s.buffer.None? then (s, [AbortFrame(cell, 0x0800_0000)])
      else
        var all := s.buffer.value;
        var n := Min(7, |all|);
        (s.(buffer := Some(all[n..]), toggle := !s.toggle), [SegmentRequest(s.toggle, all[..n], n == |all|)])
  {
    ServerAbortInBytes(cell, 0x0503_0000);
    ServerAbortInBytes(cell, 0x0800_0000);
    if s.buffer.Some? {
      var data, rest := Take7(s.buffer.value), s.buffer.value[|Take7(s.buffer.value)|..];
      assert Segment(RESPONSE_SEGMENT_UPLOAD, s.toggle, data, rest == []) == SegmentRequest(s.toggle, data, rest == []);
      assert data == s.buffer.value[..Min(7, |s.buffer.value|)];
    }
  }

  /** The answer to a request that opens a download, or makes it if it is expedited. */
  lemma DownloadIsAnswered(s: Server, f: Frame, cell: Cell)
    requires f[0] / 32 == 1 && Addresses(f, cell)
    ensures var s1 := s.(cell := Some(cell));
      OnRequest(s, f) ==
      if f[0] / 2 % 2 == 0 then (s1.(buffer := Some([]), toggle := false), [Multiplexed(0x60, cell, [0, 0, 0, 0])])
      else
        match StoreAfter(s.od, s.store, cell, if f[0] % 2 == 1 then f[4..8 - f[0] / 4 % 4] else f[4..8], true)
        case Err(code) => (s1, [AbortFrame(cell, code)])
        case Ok(store) => (s1.(store := store), [Multiplexed(0x60, cell, [0, 0, 0, 0])])
  {
    hide Multiplexed;
    AddressesAreLittleEndian(f, cell, 0x80, [0, 0, 0, 0]);
    var data := if f[0] % 2 == 1 then f[4..8 - f[0] / 4 % 4] else f[4..8];
    assert f[4..4 + (if Bit0(f) then 4 - UnusedOfFour(f) else 4)] == data;
    if StoreAfter(s.od, s.store, cell, data, true).Err? {
      ServerAbortInBytes(cell, StoreAfter(s.od, s.store, cell, data, true).error);
    }
  }

  /** The answer to a segment of a download. */
  lemma DownloadSegmentIsAnswered(s: Server, f: Frame, cell: Cell)
    requires f[0] / 32 == 0 && s.cell == Some(cell)
    ensures OnRequest(s, f) ==
      if (f[0] / 16 % 2 == 1) != s.toggle then (s, [AbortFrame(cell, 0x0503_0000)])
      else if s.buffer.None? then (s, [AbortFrame(cell, 0x0800_0000)])
      else
        var all := s.buffer.value + f[1..8 - f[0] / 2 % 8];
        var s1 := s.(buffer := Some(all), toggle := !s.toggle);
        var confirmation: Frame := [if s.toggle then 0x30 else 0x20, 0, 0, 0, 0, 0, 0, 0];
        if f[0] % 2 == 0 then (s1, [confirmation])
        else
          match StoreAfter(s.od, s.store, cell, all, true)
          case Err(code) => (s.(buffer := Some(all)), [AbortFrame(cell, code)])
          case Ok(store) => (s1.(store := store), [confirmation])
  {
    hide Multiplexed;
    ServerAbortInBytes(cell, 0x0503_0000);
    ServerAbortInBytes(cell, 0x0800_0000);
    var confirmation: Frame := [if s.toggle then 0x30 else 0x20, 0, 0, 0, 0, 0, 0, 0];
    assert CommandOnly(0x20 + 16 * Value(s.toggle)) == confirmation;
    if s.buffer.Some? {
      var all := s.buffer.value + f[1..8 - f[0] / 2 % 8];
      assert s.buffer.value + f[1..8 - UnusedOfSeven(f)] == all;
      if StoreAfter(s.od, s.store, cell, all, true).Err? {
        ServerAbortInBytes(cell, StoreAfter(s.od, s.store, cell, all, true).error);
      }
    }
  }

  /** An abort is noted; other commands, a block download included, are refused. */
  lemma OtherCommandsAreRefused(s: Server, f: Frame, cell: Cell)
    requires f[0] / 32 in {4, 6, 7} && Addresses(f, cell)
    ensures OnRequest(s, f) ==
      if f[0] / 32 == 4 then (s.(lastError := Number32(f)), [])
      else if f[0] / 32 == 6 then (s.(cell := Some(cell)), [AbortFrame(cell, 0x0504_0001)])
      else (s, if s.cell.None? then [] else [AbortFrame(s.cell.value, 0x0504_0001)])
  {
    hide Multiplexed;
    AddressesAreLittleEndian(f, cell, 0x80, [0, 0, 0, 0]);
    NumbersAreLittleEndian(0, f);
    ServerAbortInBytes(cell, 0x0504_0001);
    if s.cell.Some? {
      ServerAbortInBytes(s.cell.value, 0x0504_0001);
    }
  }

  // ----- The server, whoever asks it -----

  /** Pieces of seven bytes and the rest. */
  function Sevens(data: seq<Byte>): seq<seq<Byte>>
    decreases |data|
  {
    if |data| <= 7 then [data] else [data[..7]] + Sevens(data[7..])
  }

  lemma {:induction false} SegmentsGoOut(base: Server, cell: Cell, data: seq<Byte>, toggle: bool)
    requires data != []
    ensures SendsSegments(OnRequest, U.Sending(base, cell, data, toggle), toggle, Sevens(data))
    decreases |data|
  {
    hide OnRequest;
    var s, n := U.Sending(base, cell, data, toggle), Min(7, |data|);
    UploadSegmentIsAnswered(s, UploadSegmentRequest(toggle), cell);
    var f := SegmentRequest(toggle, data[..n], n == |data|);
    assert f[1..n + 1] == data[..n];
    if |data| > 7 {
      SegmentsGoOut(base, cell, data[7..], !toggle);
      assert Sevens(data)[1..] == Sevens(data[7..]) && Sevens(data[7..]) != [];
    } else {
      assert data[..n] == data && Sevens(data)[1..] == [];
    }
  }

  /** An upload request for more than four bytes is answered with their number, and they go out in pieces of seven. */
  lemma ServerSendsSegments(s: Server, f: Frame, cell: Cell, data: seq<Byte>)
    requires f[0] / 32 in {2, 5} && Addresses(f, cell)
    requires DataAt(s.od, s.store, cell, true) == Ok(data) && 4 < |data| < 0x1_0000_0000
    ensures OnRequest(s, f).1 == [Multiplexed(0x41, cell, LittleEndian(|data|))]
    ensures SendsSegments(OnRequest, OnRequest(s, f).0, false, Sevens(data))
  {
    hide OnRequest;
    UploadIsAnswered(s, f, cell);
    SegmentsGoOut(s, cell, data, false);
  }

  /** The server after a download up to some bytes. */
  function Holding(s: Server, cell: Cell, received: seq<Byte>, toggle: bool): Server {
    s.(cell := Some(cell), buffer := Some(received), toggle := toggle)
  }

  lemma SegmentComesIn(s: Server, cell: Cell, received: seq<Byte>, toggle: bool, segment: seq<Byte>, last: bool)
    requires |segment| <= 7 && (last ==> Accepts(s.od, cell, received + segment))
    ensures var (s1, responses) := OnRequest(Holding(s, cell, received, toggle), SegmentRequest(toggle, segment, last));
      && |responses| == 1 && responses[0][0] / 32 == 1
      && s1 == Holding(if last then s.(store := s.store[cell := received + segment]) else s,
                       cell, received + segment, !toggle)
  {
    var f := SegmentRequest(toggle, segment, last);
    CommandOfLast(f[0], Value(toggle), 7 - |segment|, Value(last));
    assert f[1..8 - f[0] / 2 % 8] == segment;
    DownloadSegmentIsAnswered(Holding(s, cell, received, toggle), f, cell);
  }

  lemma CommandOfLast(command: nat, toggle: nat, unused: nat, last: nat)
    requires toggle < 2 && unused < 8 && last < 2 && command == 16 * toggle + 2 * unused + last
    ensures command < 32 && command / 16 % 2 == toggle && command / 2 % 8 == unused && command % 2 == last
  {
  }

  lemma {:induction false} SegmentsComeIn(s: Server, cell: Cell, received: seq<Byte>, data: seq<Byte>, chunks: seq<nat>,
                                          toggle: bool, sized: bool)
    requires Accepts(s.od, cell, received + data) && |chunks| >= |data| && forall c :: c in chunks ==> c >= 1
    requires data == [] ==> !sized || received == []
    ensures var segments := Segments(data, chunks, toggle, sized, false);
      && Confirms(OnRequest, Holding(s, cell, received, toggle), segments)
      && Served(OnRequest, Holding(s, cell, received, toggle), segments).store == s.store[cell := received + data]
    decreases |chunks|
  {
    hide OnRequest;
    hide Accepts;
    hide SegmentRequest;
    if data == [] {
      assert received + data == received + [] == received;
      LastAlone(toggle);
      SegmentComesIn(s, cell, received, toggle, [], true);
      ServedFirst(OnRequest, Holding(s, cell, received, toggle), SegmentRequest(toggle, [], true), []);
      return;
    }
    var n := Min(Min(chunks[0], 7), |data|);
    var last := sized && n == |data|;
    var whole := received + data[..n];
    assert chunks[0] in chunks && forall c :: c in chunks[1..] ==> c in chunks;
    assert whole + data[n..] == received + data;
    assert n == |data| ==> data[n..] == [] && whole == received + data;
    SegmentComesIn(s, cell, received, toggle, data[..n], last);
    FirstSegment(data, chunks, toggle, sized);
    var rest := Segments(data[n..], chunks[1..], !toggle, sized, last);
    ServedFirst(OnRequest, Holding(s, cell, received, toggle), SegmentRequest(toggle, data[..n], last), rest);
    if !last {
      SegmentsComeIn(s, cell, whole, data[n..], chunks[1..], !toggle, sized);
    }
  }

  lemma LastAlone(toggle: bool)
    ensures SegmentRequest(toggle, [], true) == [if toggle then 0x1F else 0x0F, 0, 0, 0, 0, 0, 0, 0]
    ensures [SegmentRequest(toggle, [], true)] == [SegmentRequest(toggle, [], true)] + []
  {
  }

  /** Whoever sends accepted data in segments of any lengths has each of them confirmed and the data stored. */
  lemma ServerStoresSegments(s: Server, cell: Cell, data: seq<Byte>, sized: bool, chunks: seq<nat>)
    requires Accepts(s.od, cell, data) && |chunks| >= |data| && forall c :: c in chunks ==> c >= 1
    ensures var request := DownloadRequest(cell, if sized then Some(|data|) else None);
      var segments := Segments(data, chunks, false, sized, false);
      && OnRequest(s, request).1 == [Multiplexed(0x60, cell, [0, 0, 0, 0])]
      && Confirms(OnRequest, OnRequest(s, request).0, segments)
      && Served(OnRequest, s, [request] + segments).store == s.store[cell := data]
  {
    hide OnRequest;
    hide Accepts;
    var request := DownloadRequest(cell, if sized then Some(|data|) else None);
    DownloadRequestOpens(s, cell, if sized then Some(|data|) else None);
    hide DownloadRequest;
    hide Segments;
    assert [] + data == data;
    SegmentsComeIn(s, cell, [], data, chunks, false, sized);
    ServedFirst(OnRequest, s, request, Segments(data, chunks, false, sized, false));
    hide Served;
    hide Confirms;
  }

  lemma DownloadRequestOpens(s: Server, cell: Cell, size: Option<nat>)
    ensures OnRequest(s, DownloadRequest(cell, size)) ==
      (Holding(s, cell, [], false), [Multiplexed(0x60, cell, [0, 0, 0, 0])])
  {
    hide OnRequest;
    var request := DownloadRequest(cell, size);
    assert request[0] in {0x20, 0x21} && Addresses(request, cell);
    DownloadIsAnswered(s, request, cell);
  }
}
