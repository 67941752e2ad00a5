/**
 Expedited and segmented upload: what ReadableStream does, and what the client collects over every
 run of a network that may lose and delay frames.
 */
module SdoUpload {
  import opened Bits
  import opened ObjectStore
  import opened SdoCalm
  import opened SdoFrames
  import opened SdoNetwork
  import opened SdoService
  import opened Wrappers

  // ----- The stream -----

  datatype Reader = Reader(
    net: SdoNet, size: Option<nat>, pos: nat, toggle: bool, expedited: Option<seq<Byte>>, done: bool)

  function Raise(n: SdoNet, code: nat): SdoNet {
    Send(n, ClientAbort(code))
  }

  function InitRequest(cell: Cell): Frame {
    Multiplexed(0x40, cell, [0, 0, 0, 0])
  }

  /** What the response to the upload request says: expedited data, or the size if it is given. */
  function Opened(n: SdoNet, cell: Cell, f: Frame): (Reader, Option<SdoError>) {
    var r := Reader(n, None, 0, false, None, false);
    if Specifier(f) != RESPONSE_UPLOAD then (r, Some(UnexpectedResponse))
    else if CellOf(f) != cell then (r, Some(WrongObject))
    else if Bit1(f) then
      var data := if Bit0(f) then f[4..8][..4 - UnusedOfFour(f)] else f[4..8];
      (r.(size := if Bit0(f) then Some(|data|) else None, expedited := Some(data), pos := |data|), None)
    else if Bit0(f) then (r.(size := Some(FromBytes(f[4..8]))), None)
    else (r, None)
  }

  /** ReadableStream.__init__ */
  function Open(n: SdoNet, cell: Cell, maxRetries: nat): (Reader, Option<SdoError>)
    requires maxRetries >= 1
  {
    var (n1, r) := RequestResponse(n, InitRequest(cell), maxRetries);
    match r
    case Err(e) => (Reader(n1, None, 0, false, None, false), Some(e))
    case Ok(f) => Opened(n1, cell, f)
  }

  function SegmentRequest(toggle: bool): Frame {
    CommandOnly(0x60 + 16 * Value(toggle))
  }

  /** ReadableStream.read with a size: one segment, or nothing at the end. */
  function Read(r: Reader, maxRetries: nat): (Reader, Result<seq<Byte>, SdoError>)
    requires maxRetries >= 1
  {
    if r.done then (r, Ok([]))
    else if r.expedited.Some? then (r.(done := true), Ok(r.expedited.value))
    else
      var (n1, response) := RequestResponse(r.net, SegmentRequest(r.toggle), maxRetries);
      match response
      case Err(e) => (r.(net := n1), Err(e))
      case Ok(f) =>
        if Specifier(f) != RESPONSE_SEGMENT_UPLOAD
        then (r.(net := Raise(n1, ABORT_INVALID_COMMAND_SPECIFIER)), Err(UnexpectedResponse))
        else if ToggleBit(f) != r.toggle
        then (r.(net := Raise(n1, ABORT_TOGGLE_NOT_ALTERNATED)), Err(ToggleMismatch))
        else
          var length := 7 - UnusedOfSeven(f);
          (r.(net := n1, done := Bit0(f), toggle := !r.toggle, pos := r.pos + length), Ok(f[1..length + 1]))
  }

  /** readall: segments up to the first empty one. What was collected is kept when a read raises. */
  function ReadAll(r: Reader, collected: seq<Byte>, maxRetries: nat): (Reader, seq<Byte>, Option<SdoError>)
    requires maxRetries >= 1
    decreases |r.net.script|, !r.done
  {
    var (r1, read) := Read(r, maxRetries);
    match read
    case Err(e) => (r1, collected, Some(e))
    case Ok(data) =>
      if data == [] then (r1, collected, None)
      else
        ReadMakesProgress(r, maxRetries);
        ReadAll(r1, collected + data, maxRetries)
  }

  lemma ReadMakesProgress(r: Reader, maxRetries: nat)
    requires maxRetries >= 1 && Read(r, maxRetries).1.Ok? && Read(r, maxRetries).1.value != []
    ensures var r1 := Read(r, maxRetries).0;
      |r1.net.script| < |r.net.script| || (r1.net.script == r.net.script && r1.done && !r.done)
  {
    ExchangeShortensScript(r.net, SegmentRequest(r.toggle), maxRetries);
  }

  /** Only the initiate exchange sets the size. */
  lemma {:induction false} ReadAllKeepsSize(r: Reader, collected: seq<Byte>, maxRetries: nat)
    requires maxRetries >= 1
    ensures ReadAll(r, collected, maxRetries).0.size == r.size
    decreases |r.net.script|, !r.done
  {
    hide RequestResponse;
    var (r1, read) := Read(r, maxRetries);
    if read.Ok? && read.value != [] {
      ReadMakesProgress(r, maxRetries);
      ReadAllKeepsSize(r1, collected + read.value, maxRetries);
    }
  }

  /** SdoClient.upload: the data is cut to the announced size. */
  function Upload(n: SdoNet, cell: Cell, maxRetries: nat): (Reader, seq<Byte>, Option<SdoError>)
    requires maxRetries >= 1
  {
    var (r, e) := Open(n, cell, maxRetries);
    if e.Some? then (r, [], e)
    else
      var (r1, data, e1) := ReadAll(r, [], maxRetries);
      (r1, Truncated(data, r.size), e1)
  }

  function Truncated(data: seq<Byte>, size: Option<nat>): seq<Byte> {
    if size.Some? && size.value != 0 && size.value < |data| then data[..size.value] else data
  }

  // ----- The handshakes of a segmented upload -----

  /** The server in the middle of an upload, with this much left to send. */
  function Sending(base: Server, cell: Cell, rest: seq<Byte>, toggle: bool): Server {
    base.(cell := Some(cell), buffer := Some(rest), toggle := toggle)
  }

  function InitReply(cell: Cell, data: seq<Byte>): Frame
    requires |data| > 4
  {
    Multiplexed(0x41, cell, ToBytes(|data|, 4))
  }

  function ExpeditedReply(cell: Cell, data: seq<Byte>): Frame
    requires 1 <= |data| <= 4
  {
    Multiplexed(0x43 + 4 * (4 - |data|), cell, Padded(data, 4))
  }

  function Noise(cell: Cell, data: seq<Byte>, first: bool, maxRetries: nat): set<Frame>
    requires |data| > 4
  {
    if maxRetries == 1 then {}
    else if first then {InitReply(cell, data), ToggleAbort(cell)}
    else {ToggleAbort(cell)}
  }

  /** The object of a segmented upload. */
  predicate IsSegmented(s: Server, cell: Cell, data: seq<Byte>) {
    DataAt(s.od, s.store, cell, true) == Ok(data) && 4 < |data| < 0x1_0000_0000
  }

  function InitShake(base: Server, cell: Cell, data: seq<Byte>, maxRetries: nat): Handshake<Server>
    requires |data| > 4
  {
    Handshake(OnRequest, base, Sending(base, cell, data, false), InitRequest(cell),
              InitReply(cell, data), InitReply(cell, data), Leftovers(cell), maxRetries == 1)
  }

  lemma InitShakeIsValid(base: Server, cell: Cell, data: seq<Byte>, maxRetries: nat)
    requires IsSegmented(base, cell, data)
    ensures InitShake(base, cell, data, maxRetries).Valid()
  {
  }

  function SegmentReply(data: seq<Byte>, pos: nat, toggle: bool): Frame
    requires pos < |data|
  {
    var rest := data[pos..];
    Segment(RESPONSE_SEGMENT_UPLOAD, toggle, Take7(rest), |rest| <= 7)
  }

  function After(data: seq<Byte>, pos: nat): nat
    requires pos < |data|
  {
    pos + |Take7(data[pos..])|
  }

  function SegmentShake(base: Server, cell: Cell, data: seq<Byte>, pos: nat, toggle: bool, first: bool, maxRetries: nat)
    : Handshake<Server>
    requires pos < |data| && |data| > 4
  {
    Handshake(OnRequest, Sending(base, cell, data[pos..], toggle), Sending(base, cell, data[After(data, pos)..], !toggle),
              SegmentRequest(toggle), SegmentReply(data, pos, toggle), ToggleAbort(cell),
              Noise(cell, data, first, maxRetries), maxRetries == 1)
  }

  lemma SegmentShakeIsValid(base: Server, cell: Cell, data: seq<Byte>, pos: nat, toggle: bool, first: bool, maxRetries: nat)
    requires pos < |data| && |data| > 4
    ensures SegmentShake(base, cell, data, pos, toggle, first, maxRetries).Valid()
  {
    var rest := data[pos..];
    assert rest[|Take7(rest)|..] == data[After(data, pos)..];
    assert |rest| <= 7 <==> data[After(data, pos)..] == [];
  }

  // ----- Invariants of a run -----

  /** Between two segments: the server still has exactly what the client has not read. */
  ghost predicate Between(r: Reader, base: Server, cell: Cell, data: seq<Byte>, first: bool, maxRetries: nat) {
    !r.done && r.expedited == None && r.pos < |data| && |data| > 4 &&
    SegmentShake(base, cell, data, r.pos, r.toggle, first, maxRetries).Ready(r.net)
  }

  /** What the server has left is what the client misses, or one segment less. */
  ghost predicate InStep(s: Server, base: Server, cell: Cell, data: seq<Byte>, pos: nat) {
    exists k, t :: pos <= k <= pos + 7 && k <= |data| && s == Sending(base, cell, data[k..], t)
  }

  /** One read of a segmented upload. */
  lemma ReadKeepsStep(r: Reader, base: Server, cell: Cell, data: seq<Byte>, first: bool, maxRetries: nat)
    requires maxRetries >= 1 && Between(r, base, cell, data, first, maxRetries)
    ensures var (r1, read) := Read(r, maxRetries);
      match read
      case Err(_) => r1.pos == r.pos && InStep(r1.net.server, base, cell, data, r.pos)
      case Ok(bytes) =>
        r.pos < r1.pos <= |data| && bytes == data[r.pos..r1.pos] && r1.done == (r1.pos == |data|) &&
        if r1.done then InStep(r1.net.server, base, cell, data, |data|) && (maxRetries == 1 ==> Silent(r1.net))
        else Between(r1, base, cell, data, false, maxRetries)
  {
    hide OnRequest;
    hide RequestResponse;
    hide SegmentReply;
    hide Read;
    var h := SegmentShake(base, cell, data, r.pos, r.toggle, first, maxRetries);
    SegmentShakeIsValid(base, cell, data, r.pos, r.toggle, first, maxRetries);
    ExchangeOutcome(h, r.net, maxRetries);
    var next := After(data, r.pos);
    ReadTakesReply(r, cell, data, first, maxRetries);
    var (n1, response) := RequestResponse(r.net, h.request, maxRetries);
    if response == Ok(h.reply) {
      if maxRetries == 1 {
        SingleIsSilent(h, n1);
      }
      if next < |data| {
        NextHandshakeIsReady(h, SegmentShake(base, cell, data, next, !r.toggle, false, maxRetries), n1);
      }
    }
  }

  /** What a read makes of the answers a segment request may get. */
  lemma ReadTakesReply(r: Reader, cell: Cell, data: seq<Byte>, first: bool, maxRetries: nat)
    requires maxRetries >= 1 && !r.done && r.expedited == None && r.pos < |data| && |data| > 4
    ensures var (n1, response) := RequestResponse(r.net, SegmentRequest(r.toggle), maxRetries);
      var (r1, read) := Read(r, maxRetries);
      var next := After(data, r.pos);
      match response
      case Ok(f) =>
        if f == SegmentReply(data, r.pos, r.toggle)
        then r1 == r.(net := n1, done := next == |data|, toggle := !r.toggle, pos := next) && read == Ok(data[r.pos..next])
        else f in Noise(cell, data, first, maxRetries) ==> read.Err? && r1.pos == r.pos && r1.net.server == n1.server
      case Err(e) => read == Err(e) && r1 == r.(net := n1)
  {
    hide RequestResponse;
    var f := SegmentReply(data, r.pos, r.toggle);
    assert Take7(data[r.pos..]) == data[r.pos..After(data, r.pos)] == f[1..8 - UnusedOfSeven(f)];
  }

  /** Reading to the end, or to the first exception. */
  lemma {:induction false} ReadAllKeepsStep(r: Reader, base: Server, cell: Cell, data: seq<Byte>, first: bool,
                                            maxRetries: nat)
    requires maxRetries >= 1 && Between(r, base, cell, data, first, maxRetries)
    ensures var (r1, collected, e) := ReadAll(r, data[..r.pos], maxRetries);
      r1.pos <= |data| && collected == data[..r1.pos] && InStep(r1.net.server, base, cell, data, r1.pos) &&
      (e.None? ==> r1.pos == |data| && (maxRetries == 1 ==> Silent(r1.net)))
    decreases |data| - r.pos
  {
    hide RequestResponse;
    ReadKeepsStep(r, base, cell, data, first, maxRetries);
    var (r1, read) := Read(r, maxRetries);
    if read.Ok? {
      assert data[..r.pos] + read.value == data[..r1.pos];
      if r1.done {
        assert Read(r1, maxRetries) == (r1, Ok([]));
        assert ReadAll(r1, data[..r1.pos], maxRetries) == (r1, data[..r1.pos], None);
      } else {
        ReadAllKeepsStep(r1, base, cell, data, false, maxRetries);
      }
    }
  }

  /** Opening a segmented upload. */
  lemma OpenOutcome(n: SdoNet, cell: Cell, data: seq<Byte>, maxRetries: nat)
    requires maxRetries >= 1 && Calm(n, cell) && IsSegmented(n.server, cell, data)
    ensures var (r, e) := Open(n, cell, maxRetries);
      && (e.Some? ==> r.net.server == n.server || r.net.server == Sending(n.server, cell, data, false))
      && (e.None? ==> r.pos == 0 && r.size == Some(|data|) && Between(r, n.server, cell, data, true, maxRetries))
  {
    hide RequestResponse;
    hide OnRequest;
    var base := n.server;
    var h := InitShake(base, cell, data, maxRetries);
    InitShakeIsValid(base, cell, data, maxRetries);
    CalmIsReady(h, n, cell);
    ExchangeOutcome(h, n, maxRetries);
    SizeRoundTrip(|data|);
    assert data[0..] == data;
    var (r, e) := Open(n, cell, maxRetries);
    if e.None? {
      NextHandshakeIsReady(h, SegmentShake(base, cell, data, 0, false, true, maxRetries), r.net);
    }
  }

  // ----- Main results -----

  /**
   Although the server deletes what it sends, over every run and up to the first exception the
   client's bytes are a prefix of the object, the server is at most one segment ahead, and an
   upload that ends without exception returns the object.
   */
  lemma SegmentedUploadIsPrefix(n: SdoNet, cell: Cell, data: seq<Byte>, maxRetries: nat)
    requires maxRetries >= 1 && Calm(n, cell) && IsSegmented(n.server, cell, data)
    ensures var (r, collected, e) := Upload(n, cell, maxRetries);
      && collected <= data
      && (InStep(r.net.server, n.server, cell, data, |collected|) || (e.Some? && r.net.server == n.server))
      && (e.None? ==> collected == data && (maxRetries == 1 ==> Silent(r.net)))
  {
    hide RequestResponse;
    hide OnRequest;
    hide Open;
    OpenOutcome(n, cell, data, maxRetries);
    assert data[..0] == [] && data[0..] == data;
    var (r, e) := Open(n, cell, maxRetries);
    if e.None? {
      ReadAllKeepsStep(r, n.server, cell, data, true, maxRetries);
      ReadAllKeepsSize(r, [], maxRetries);
    }
  }

  lemma SizeRoundTrip(n: nat)
    requires n < 0x1_0000_0000
    ensures FromBytes(ToBytes(n, 4)) == n
  {
    Pow2Is32();
    NumberRoundTrip(n, 4);
  }

  // ----- Uploads answered at once -----

  /** A request the server answers in one frame, with at most four bytes or a refusal. */
  function ShortShake(base: Server, cell: Cell, reply: Frame, maxRetries: nat): Handshake<Server> {
    Handshake(OnRequest, base, base.(cell := Some(cell)), InitRequest(cell), reply, reply, Leftovers(cell),
              maxRetries == 1)
  }

  lemma ShortShakeIsValid(base: Server, cell: Cell, reply: Frame, maxRetries: nat)
    requires OnRequest(base, InitRequest(cell)) == (base.(cell := Some(cell)), [reply])
    ensures ShortShake(base, cell, reply, maxRetries).Valid()
  {
    hide Padded;
    var s := base.(cell := Some(cell));
    assert OnRequest(s, InitRequest(cell)) == (s, [reply]);
    var response := InitUpload(base, InitRequest(cell)).response;
    if response.Err? {
      OtherAbort(cell, response.error);
    }
  }

  lemma ShortUpload(n: SdoNet, cell: Cell, maxRetries: nat)
    requires maxRetries >= 1 && Calm(n, cell)
    requires var read := DataAt(n.server.od, n.server.store, cell, true);
      read.Err? || |read.value| <= 4 || |read.value| >= 0x1_0000_0000
    ensures var (r, collected, e) := Upload(n, cell, maxRetries);
      && r.net.server.od == n.server.od && r.net.server.store == n.server.store
      && (e.None? ==>
            DataAt(n.server.od, n.server.store, cell, true) == Ok(collected) && 1 <= |collected| <= 4 &&
            (maxRetries == 1 ==> Silent(r.net)))
  {
    hide RequestResponse;
    hide OnRequest;
    hide ExpeditedReply;
    hide Opened;
    var reply := ShortReply(n.server, cell);
    var h := ShortShake(n.server, cell, reply, maxRetries);
    ShortShakeIsValid(n.server, cell, reply, maxRetries);
    CalmIsReady(h, n, cell);
    ExchangeOutcome(h, n, maxRetries);
    var (n1, response) := RequestResponse(n, h.request, maxRetries);
    LeftoversAreRefused(n1, cell);
    if response.Ok? {
      OpenedKeepsNet(n1, cell, response.value);
    }
    var (r, e) := Open(n, cell, maxRetries);
    if e.None? {
      var data := DataAt(n.server.od, n.server.store, cell, true).value;
      ExpeditedReplyHoldsData(n1, cell, data);
      if maxRetries == 1 {
        SingleIsSilent(h, n1);
      }
      ReadAllExpedited(r, data, maxRetries);
    }
  }

  /** The answer to an upload request that does not start a segmented upload. */
  lemma ShortReply(base: Server, cell: Cell) returns (reply: Frame)
    requires var read := DataAt(base.od, base.store, cell, true);
      read.Err? || |read.value| <= 4 || |read.value| >= 0x1_0000_0000
    ensures OnRequest(base, InitRequest(cell)) == (base.(cell := Some(cell)), [reply])
    ensures reply[0] == 0x80 ||
            (var read := DataAt(base.od, base.store, cell, true);
             read.Ok? && 1 <= |read.value| <= 4 && reply == ExpeditedReply(cell, read.value))
  {
    reply := OnRequest(base, InitRequest(cell)).1[0];
  }

  lemma OpenedKeepsNet(n: SdoNet, cell: Cell, f: Frame)
    ensures Opened(n, cell, f).0.net == n
  {
  }

  /** Answers to a download do not open an upload. */
  lemma LeftoversAreRefused(n: SdoNet, cell: Cell)
    ensures forall f :: f in Leftovers(cell) ==> Opened(n, cell, f).1.Some?
  {
  }

  lemma ExpeditedReplyHoldsData(n: SdoNet, cell: Cell, data: seq<Byte>)
    requires 1 <= |data| <= 4
    ensures Opened(n, cell, ExpeditedReply(cell, data)) == (Reader(n, Some(|data|), |data|, false, Some(data), false), None)
  {
    var f := ExpeditedReply(cell, data);
    assert f[0] == 0x43 + 4 * (4 - |data|);
    assert Specifier(f) == RESPONSE_UPLOAD && UnusedOfFour(f) == 4 - |data| && Bit0(f) && Bit1(f);
    assert f[4..8][..|data|] == data;
  }

  lemma ReadAllExpedited(r: Reader, data: seq<Byte>, maxRetries: nat)
    requires maxRetries >= 1 && r.expedited == Some(data) && !r.done && data != []
    ensures ReadAll(r, [], maxRetries) == (r.(done := true), data, None)
  {
    var r1 := r.(done := true);
    assert Read(r, maxRetries) == (r1, Ok(data)) && Read(r1, maxRetries) == (r1, Ok([]));
    assert ReadAll(r1, data, maxRetries) == (r1, data, None);
    assert [] + data == data;
  }

  /** Over every run, what an upload returns without exception is what the node holds for the cell; no upload writes. */
  lemma UploadReturnsObject(n: SdoNet, cell: Cell, maxRetries: nat)
    requires maxRetries >= 1 && Calm(n, cell)
    ensures var (r, collected, e) := Upload(n, cell, maxRetries);
      && (e.None? ==>
            DataAt(n.server.od, n.server.store, cell, true) == Ok(collected) && (maxRetries == 1 ==> Silent(r.net)))
      && r.net.server.od == n.server.od && r.net.server.store == n.server.store
  {
    var read := DataAt(n.server.od, n.server.store, cell, true);
    if read.Ok? && 4 < |read.value| < 0x1_0000_0000 {
      SegmentedUploadIsPrefix(n, cell, read.value, maxRetries);
    } else {
      ShortUpload(n, cell, maxRetries);
    }
  }
}
