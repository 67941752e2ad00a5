/**
 Expedited and segmented download: what WritableStream does, and what the server ends up with over
 every run of a network that may lose and delay frames.
 */
module SdoDownload {
  import opened Bits
  import opened ObjectStore
  import opened SdoCalm
  import opened SdoFrames
  import opened SdoNetwork
  import opened SdoService
  import opened Wrappers

  // ----- The stream -----

  datatype Writer = Writer(
    net: SdoNet, cell: Cell, size: Option<nat>, pos: nat, toggle: bool, expedited: bool, done: bool, segments: nat)

  function Raise(n: SdoNet, code: nat): SdoNet {
    Send(n, ClientAbort(code))
  }

  /** REQUEST_DOWNLOAD of a segmented transfer. */
  function InitRequest(cell: Cell, size: Option<nat>): Frame
  {
    match size
    case Some(n) => Multiplexed(0x21, cell, ToBytes(n, 4))
    case None => Multiplexed(0x20, cell, [0, 0, 0, 0])
  }

  predicate IsExpedited(size: Option<nat>, force: bool) {
    size.Some? && 1 <= size.value <= 4 && !force
  }

  /** WritableStream.__init__ */
  function Open(n: SdoNet, cell: Cell, size: Option<nat>, force: bool, maxRetries: nat): (Writer, Option<SdoError>)
    requires maxRetries >= 1
  {
    var w := Writer(n, cell, size, 0, false, IsExpedited(size, force), false, 0);
    if w.expedited then (w, None)
    else if size.Some? && size.value >= 0x1_0000_0000 then (w, Some(BadArgument))
    else
      var (n1, r) := RequestResponse(n, InitRequest(cell, size), maxRetries);
      match r
      case Err(e) => (w.(net := n1), Some(e))
      case Ok(f) =>
        if f[0] != 0x60 then (w.(net := Raise(n1, ABORT_INVALID_COMMAND_SPECIFIER)), Some(UnexpectedResponse))
        else (w.(net := n1), None)
  }

  /** WritableStream.write: the number of bytes taken. */
  function Write(w: Writer, b: seq<Byte>, maxRetries: nat): (Writer, Result<nat, SdoError>)
    requires maxRetries >= 1 && (w.expedited ==> IsExpedited(w.size, false))
  {
    if w.done then (w, Err(BadArgument))
    else if w.expedited then WriteExpedited(w, b, maxRetries)
    else WriteSegment(w, b, maxRetries)
  }

  function WriteExpedited(w: Writer, b: seq<Byte>, maxRetries: nat): (Writer, Result<nat, SdoError>)
    requires maxRetries >= 1 && IsExpedited(w.size, false)
  {
    if |b| < w.size.value then (w, Ok(0))
    else if |b| > 4 then (w, Err(BadArgument))
    else
      var (n1, r) := RequestResponse(w.net, ExpeditedRequest(w.cell, w.size.value, b), maxRetries);
      match r
      case Err(e) => (w.(net := n1), Err(e))
      case Ok(f) =>
        if Specifier(f) != RESPONSE_DOWNLOAD
        then (w.(net := Raise(n1, ABORT_INVALID_COMMAND_SPECIFIER)), Err(UnexpectedResponse))
        else (w.(net := n1, done := true, pos := w.pos + |b|), Ok(|b|))
  }

  /** REQUEST_DOWNLOAD | EXPEDITED | SIZE_SPECIFIED with the unused byte count, and the data. */
  function ExpeditedRequest(cell: Cell, size: nat, b: seq<Byte>): Frame
    requires 1 <= size <= 4 && |b| <= 4
  {
    Multiplexed(0x23 + 4 * (4 - size), cell, Padded(b, 4))
  }

  /** The next segment of a slice, and whether it completes the announced size. */
  function NextSegment(w: Writer, b: seq<Byte>): Frame {
    var sent := Min(|b|, 7);
    Segment(REQUEST_SEGMENT_DOWNLOAD, w.toggle, b[..sent], CompletesSize(w, sent))
  }

  predicate CompletesSize(w: Writer, sent: nat) {
    w.size.Some? && w.pos + sent >= w.size.value
  }

  function WriteSegment(w: Writer, b: seq<Byte>, maxRetries: nat): (Writer, Result<nat, SdoError>)
    requires maxRetries >= 1
  {
    var sent := Min(|b|, 7);
    var (n1, r) := RequestResponse(w.net, NextSegment(w, b), maxRetries);
    var w1 := w.(net := n1, toggle := !w.toggle, done := CompletesSize(w, sent), segments := w.segments + 1);
    match r
    case Err(e) => (w1, Err(e))
    case Ok(f) =>
      if Specifier(f) != RESPONSE_SEGMENT_DOWNLOAD
      then (w1.(net := Raise(n1, ABORT_INVALID_COMMAND_SPECIFIER)), Err(UnexpectedResponse))
      else (w1.(pos := w.pos + sent), Ok(sent))
  }

  /** WritableStream.close: any response but an abort is taken for success. */
  function Close(w: Writer, maxRetries: nat): (Writer, Option<SdoError>)
    requires maxRetries >= 1
  {
    if w.done || w.expedited then (w, None)
    else
      var (n1, r) := RequestResponse(w.net, Segment(REQUEST_SEGMENT_DOWNLOAD, w.toggle, [], true), maxRetries);
      match r
      case Err(e) => (w.(net := n1), Some(e))
      case Ok(_) => (w.(net := n1, done := true), None)
  }

  /** The caller presents slices of what is left, of any lengths, until all is taken. */
  function Feed(w: Writer, data: seq<Byte>, chunks: seq<nat>, maxRetries: nat): (Writer, Option<SdoError>)
    requires maxRetries >= 1 && (w.expedited ==> IsExpedited(w.size, false))
    decreases |chunks|
  {
    if chunks == [] || w.pos >= |data| then (w, None)
    else
      var (w1, r) := Write(w, data[w.pos..Min(w.pos + chunks[0], |data|)], maxRetries);
      match r
      case Err(e) => (w1, Some(e))
      case Ok(_) => Feed(w1, data, chunks[1..], maxRetries)
  }

  /** Open, write everything, close; a run ends at its first exception, or before the close when slices run out. */
  function Download(n: SdoNet, cell: Cell, data: seq<Byte>, sized: bool, force: bool, chunks: seq<nat>, maxRetries: nat)
    : (Writer, Option<SdoError>)
    requires maxRetries >= 1
  {
    var (w, e) := Open(n, cell, if sized then Some(|data|) else None, force, maxRetries);
    if e.Some? then (w, e) else FeedAndClose(w, data, chunks, maxRetries)
  }

  function FeedAndClose(w: Writer, data: seq<Byte>, chunks: seq<nat>, maxRetries: nat): (Writer, Option<SdoError>)
    requires maxRetries >= 1 && (w.expedited ==> IsExpedited(w.size, false))
  {
    var (w1, e) := Feed(w, data, chunks, maxRetries);
    if e.Some? || w1.pos < |data| then (w1, e) else Close(w1, maxRetries)
  }

  // ----- The handshakes of a segmented download -----

  /** The server in the middle of a download. */
  function Receiving(base: Server, cell: Cell, received: seq<Byte>, toggle: bool): Server
  {
    base.(cell := Some(cell), buffer := Some(received), toggle := toggle)
  }

  /** What may still be read between two segments. */
  function Noise(cell: Cell, first: bool, maxRetries: nat): set<Frame>
  {
    if maxRetries == 1 then {}
    else if first then {DownloadReply(cell), ToggleAbort(cell)}
    else {ToggleAbort(cell)}
  }

  function InitShake(s: Server, cell: Cell, size: Option<nat>, maxRetries: nat): (h: Handshake<Server>)
  {
    Handshake(OnRequest, s, Receiving(s, cell, [], false), InitRequest(cell, size),
              DownloadReply(cell), DownloadReply(cell), {}, maxRetries == 1)
  }

  lemma InitShakeIsValid(s: Server, cell: Cell, size: Option<nat>, maxRetries: nat)
    ensures InitShake(s, cell, size, maxRetries).Valid()
  {
  }

  /** A segment that is not refused: a data segment, or a last one the object accepts. */
  function SegmentShake(base: Server, cell: Cell, received: seq<Byte>, toggle: bool, segment: seq<Byte>, last: bool,
                        first: bool, maxRetries: nat): (h: Handshake<Server>)
    requires |segment| <= 7
  {
    var whole := received + segment;
    var after := Receiving(if last then base.(store := base.store[cell := whole]) else base, cell, whole, !toggle);
    Handshake(OnRequest, Receiving(base, cell, received, toggle), after,
              Segment(REQUEST_SEGMENT_DOWNLOAD, toggle, segment, last), CommandOnly(0x20 + 16 * Value(toggle)),
              ToggleAbort(cell), Noise(cell, first, maxRetries), maxRetries == 1)
  }

  lemma SegmentShakeIsValid(base: Server, cell: Cell, received: seq<Byte>, toggle: bool, segment: seq<Byte>,
                            last: bool, first: bool, maxRetries: nat)
    requires |segment| <= 7
    requires last ==> Accepts(base.od, cell, received + segment)
    ensures SegmentShake(base, cell, received, toggle, segment, last, first, maxRetries).Valid()
  {
    var h := SegmentShake(base, cell, received, toggle, segment, last, first, maxRetries);
    assert h.request[1..8 - UnusedOfSeven(h.request)] == segment;
    ReadBack(base.od, base.store, cell, received + segment, cell);
  }

  /** The same last segment when the object refuses the data: it stays in the buffer, the toggle does not move. */
  function RefusedShake(base: Server, cell: Cell, received: seq<Byte>, toggle: bool, segment: seq<Byte>, code: nat,
                        first: bool, maxRetries: nat): (h: Handshake<Server>)
    requires |segment| <= 7
  {
    Handshake(OnRequest, Receiving(base, cell, received, toggle), Receiving(base, cell, received + segment, toggle),
              Segment(REQUEST_SEGMENT_DOWNLOAD, toggle, segment, true), ServerAbort(cell, code),
              ServerAbort(cell, code), Noise(cell, first, maxRetries), maxRetries == 1)
  }

  lemma RefusedShakeIsValid(base: Server, cell: Cell, received: seq<Byte>, toggle: bool, segment: seq<Byte>,
                            code: nat, first: bool, maxRetries: nat)
    requires |segment| <= 7
    requires StoreAfter(base.od, base.store, cell, received + segment, true) == Err(code)
    requires maxRetries == 1 || segment == []
    ensures RefusedShake(base, cell, received, toggle, segment, code, first, maxRetries).Valid()
  {
    var h := RefusedShake(base, cell, received, toggle, segment, code, first, maxRetries);
    assert h.request[1..8 - UnusedOfSeven(h.request)] == segment;
    if segment == [] {
      assert received + segment == received;
    }
    OtherAbort(cell, code);
  }

  // ----- Invariants of a run -----

  /** Between two segments: the server has exactly what the client has sent, and the network is calm. */
  ghost predicate Between(w: Writer, base: Server, data: seq<Byte>, first: bool, maxRetries: nat) {
    !w.expedited && !w.done && w.pos <= |data| &&
    SegmentShake(base, w.cell, data[..w.pos], w.toggle, [], false, first, maxRetries).Ready(w.net)
  }

  /** The server's buffer is a prefix of the data, at most one segment ahead of the client. */
  ghost predicate InStep(s: Server, base: Server, cell: Cell, data: seq<Byte>, pos: nat) {
    s.od == base.od && s.cell == Some(cell) &&
    exists k :: pos <= k <= pos + 7 && k <= |data| && s.buffer == Some(data[..k]) &&
      (s.store == base.store || (k == |data| && Accepts(base.od, cell, data) && s.store == base.store[cell := data]))
  }

  /** The whole data is in the store. */
  ghost predicate Stored(s: Server, base: Server, cell: Cell, data: seq<Byte>) {
    s.od == base.od && s.cell == Some(cell) && s.buffer == Some(data) &&
    Accepts(base.od, cell, data) && s.store == base.store[cell := data]
  }

  /**
   When a refused last segment can be served only once, or carries nothing. Callers can tell: the
   retry count, the access rights and size of the object, and whether the size was announced.
   */
  predicate Regular(od: Dictionary, cell: Cell, data: seq<Byte>, sized: bool, maxRetries: nat) {
    maxRetries == 1 || Accepts(od, cell, data) || !sized || data == []
  }

  /** The outcome of an exchange of the last segment. */
  lemma LastSegment(net: SdoNet, base: Server, cell: Cell, data: seq<Byte>, pos: nat, toggle: bool, first: bool,
                    maxRetries: nat)
    requires maxRetries >= 1 && pos <= |data| <= pos + 7
    requires maxRetries == 1 || Accepts(base.od, cell, data) || pos == |data|
    requires SegmentShake(base, cell, data[..pos], toggle, [], false, first, maxRetries).Ready(net)
    ensures var (n1, r) := RequestResponse(net, Segment(REQUEST_SEGMENT_DOWNLOAD, toggle, data[pos..], true), maxRetries);
      && InStep(n1.server, base, cell, data, pos)
      && (r.Ok? && r.value != DownloadReply(cell) ==>
            Stored(n1.server, base, cell, data) && Settled(n1, cell, maxRetries) &&
            Specifier(r.value) == RESPONSE_SEGMENT_DOWNLOAD)
      && (r.Ok? && r.value == DownloadReply(cell) ==> first && maxRetries > 1)
  {
    hide OnRequest;
    hide RequestResponse;
    var segment := data[pos..];
    assert data[..pos] + segment == data;
    assert data[..|data|] == data;
    var idle := SegmentShake(base, cell, data[..pos], toggle, [], false, first, maxRetries);
    if Accepts(base.od, cell, data) {
      var h := SegmentShake(base, cell, data[..pos], toggle, segment, true, first, maxRetries);
      SegmentShakeIsValid(base, cell, data[..pos], toggle, segment, true, first, maxRetries);
      ReadyForAnother(idle, h, net);
      ExchangeOutcome(h, net, maxRetries);
      var (n1, r) := RequestResponse(net, h.request, maxRetries);
      if r == Ok(h.reply) {
        FinishedIsCalm(h, n1, cell, maxRetries);
      }
    } else {
      LastSegmentRefused(net, base, cell, data, pos, toggle, first, maxRetries);
    }
  }

  /** A refused last segment is never answered like an accepted one. */
  lemma LastSegmentRefused(net: SdoNet, base: Server, cell: Cell, data: seq<Byte>, pos: nat, toggle: bool, first: bool,
                           maxRetries: nat)
    requires maxRetries >= 1 && pos <= |data| <= pos + 7
    requires !Accepts(base.od, cell, data) && (maxRetries == 1 || pos == |data|)
    requires SegmentShake(base, cell, data[..pos], toggle, [], false, first, maxRetries).Ready(net)
    ensures var (n1, r) := RequestResponse(net, Segment(REQUEST_SEGMENT_DOWNLOAD, toggle, data[pos..], true), maxRetries);
      && InStep(n1.server, base, cell, data, pos)
      && (r.Ok? ==> r.value == DownloadReply(cell) && first && maxRetries > 1)
  {
    hide RequestResponse;
    var segment := data[pos..];
    assert data[..pos] + segment == data && data[..|data|] == data;
    ReadBack(base.od, base.store, cell, data, cell);
    var code := StoreAfter(base.od, base.store, cell, data, true).error;
    var h := RefusedShake(base, cell, data[..pos], toggle, segment, code, first, maxRetries);
    RefusedShakeIsValid(base, cell, data[..pos], toggle, segment, code, first, maxRetries);
    ReadyForAnother(SegmentShake(base, cell, data[..pos], toggle, [], false, first, maxRetries), h, net);
    ExchangeOutcome(h, net, maxRetries);
  }

  /** The outcome of an exchange of any other segment. */
  lemma MiddleSegment(net: SdoNet, base: Server, cell: Cell, data: seq<Byte>, pos: nat, next: nat, toggle: bool,
                      first: bool, maxRetries: nat)
    requires maxRetries >= 1 && pos <= next <= |data| && next <= pos + 7
    requires SegmentShake(base, cell, data[..pos], toggle, [], false, first, maxRetries).Ready(net)
    ensures var f := Segment(REQUEST_SEGMENT_DOWNLOAD, toggle, data[pos..next], false);
      var (n1, r) := RequestResponse(net, f, maxRetries);
      && InStep(n1.server, base, cell, data, pos)
      && (r.Ok? && Specifier(r.value) == RESPONSE_SEGMENT_DOWNLOAD ==>
            SegmentShake(base, cell, data[..next], !toggle, [], false, false, maxRetries).Ready(n1))
  {
    hide RequestResponse;
    var segment := data[pos..next];
    assert data[..pos] + segment == data[..next];
    var idle := SegmentShake(base, cell, data[..pos], toggle, [], false, first, maxRetries);
    var h := SegmentShake(base, cell, data[..pos], toggle, segment, false, first, maxRetries);
    SegmentShakeIsValid(base, cell, data[..pos], toggle, segment, false, first, maxRetries);
    ReadyForAnother(idle, h, net);
    ExchangeOutcome(h, net, maxRetries);
    var (n1, r) := RequestResponse(net, h.request, maxRetries);
    if r.Ok? && Specifier(r.value) == RESPONSE_SEGMENT_DOWNLOAD {
      NextHandshakeIsReady(h, SegmentShake(base, cell, data[..next], !toggle, [], false, false, maxRetries), n1);
    }
  }

  /** What one call of write leaves behind. */
  ghost predicate Written(w: Writer, w1: Writer, r: Result<nat, SdoError>, base: Server, data: seq<Byte>, sent: nat,
                          maxRetries: nat)
  {
    w1.cell == w.cell && w1.size == w.size &&
    match r
    case Err(_) => w1.pos == w.pos && InStep(w1.net.server, base, w.cell, data, w.pos)
    case Ok(n) =>
      n == sent && w1.pos == w.pos + sent &&
      if w.size.Some? && w1.pos == |data|
      then w1.done && !w1.expedited && Stored(w1.net.server, base, w.cell, data) && Settled(w1.net, w.cell, maxRetries)
      else Between(w1, base, data, false, maxRetries)
  }

  lemma WriteCompletes(w: Writer, base: Server, data: seq<Byte>, end: nat, first: bool, maxRetries: nat)
    requires maxRetries >= 1 && Between(w, base, data, first, maxRetries) && w.pos <= end <= |data| && w.pos < |data|
    requires w.size == Some(|data|) && w.pos + Min(end - w.pos, 7) == |data|
    requires maxRetries == 1 || Accepts(base.od, w.cell, data)
    ensures var (w1, r) := WriteSegment(w, data[w.pos..end], maxRetries);
      Written(w, w1, r, base, data, Min(end - w.pos, 7), maxRetries)
  {
    hide RequestResponse;
    var b := data[w.pos..end];
    assert b[..Min(|b|, 7)] == data[w.pos..];
    LastSegment(w.net, base, w.cell, data, w.pos, w.toggle, first, maxRetries);
  }

  lemma WriteContinues(w: Writer, base: Server, data: seq<Byte>, end: nat, first: bool, maxRetries: nat)
    requires maxRetries >= 1 && Between(w, base, data, first, maxRetries) && w.pos <= end <= |data| && w.pos < |data|
    requires w.size == None || (w.size == Some(|data|) && w.pos + Min(end - w.pos, 7) < |data|)
    ensures var (w1, r) := WriteSegment(w, data[w.pos..end], maxRetries);
      Written(w, w1, r, base, data, Min(end - w.pos, 7), maxRetries)
  {
    hide RequestResponse;
    var b := data[w.pos..end];
    var sent := Min(|b|, 7);
    assert b[..sent] == data[w.pos..w.pos + sent];
    assert NextSegment(w, b) == Segment(REQUEST_SEGMENT_DOWNLOAD, w.toggle, data[w.pos..w.pos + sent], false);
    MiddleSegment(w.net, base, w.cell, data, w.pos, w.pos + sent, w.toggle, first, maxRetries);
  }

  /** One call of write in a segmented download. */
  lemma WriteKeepsStep(w: Writer, base: Server, data: seq<Byte>, end: nat, first: bool, maxRetries: nat)
    requires maxRetries >= 1 && Between(w, base, data, first, maxRetries) && w.pos <= end <= |data| && w.pos < |data|
    requires w.size.Some? ==> w.size.value == |data|
    requires Regular(base.od, w.cell, data, w.size.Some?, maxRetries)
    ensures var (w1, r) := Write(w, data[w.pos..end], maxRetries);
      Written(w, w1, r, base, data, Min(end - w.pos, 7), maxRetries)
  {
    if w.size.Some? && w.pos + Min(end - w.pos, 7) == |data| {
      WriteCompletes(w, base, data, end, first, maxRetries);
    } else {
      WriteContinues(w, base, data, end, first, maxRetries);
    }
  }

  function CeilDiv7(n: nat): nat {
    (n + 6) / 7
  }

  /** Where a sequence of writes may end. */
  ghost predicate Fed(w: Writer, e: Option<SdoError>, base: Server, data: seq<Byte>, first: bool, maxRetries: nat) {
    if e.Some? then InStep(w.net.server, base, w.cell, data, w.pos)
    else if w.done then
      Stored(w.net.server, base, w.cell, data) && Settled(w.net, w.cell, maxRetries) && w.pos == |data| && !w.expedited
    else Between(w, base, data, first, maxRetries)
  }

  /** Any sequence of writes. */
  lemma {:induction false} FeedKeepsStep(w: Writer, base: Server, data: seq<Byte>, chunks: seq<nat>, first: bool,
                                         maxRetries: nat)
    requires maxRetries >= 1 && (w.size.Some? ==> w.size.value == |data|)
    requires Between(w, base, data, first, maxRetries)
    requires Regular(base.od, w.cell, data, w.size.Some?, maxRetries)
    ensures var (w1, e) := Feed(w, data, chunks, maxRetries);
      w1.cell == w.cell && (Fed(w1, e, base, data, false, maxRetries) || (w1 == w && e == None))
    decreases |chunks|
  {
    hide RequestResponse;
    if chunks == [] || w.pos >= |data| {
      assert Feed(w, data, chunks, maxRetries) == (w, None);
      return;
    }
    var end := Min(w.pos + chunks[0], |data|);
    WriteKeepsStep(w, base, data, end, first, maxRetries);
    var (w1, r) := Write(w, data[w.pos..end], maxRetries);
    if r.Err? {
      assert Feed(w, data, chunks, maxRetries) == (w1, Some(r.error));
      return;
    }
    assert Feed(w, data, chunks, maxRetries) == Feed(w1, data, chunks[1..], maxRetries);
    if w1.done {
      assert Feed(w1, data, chunks[1..], maxRetries) == (w1, None);
    } else {
      FeedKeepsStep(w1, base, data, chunks[1..], false, maxRetries);
    }
  }

  /** What one call of write takes, whatever the server does. */
  lemma WriteTakesSegment(w: Writer, b: seq<Byte>, maxRetries: nat)
    requires maxRetries >= 1 && !w.expedited
    ensures var (w1, r) := Write(w, b, maxRetries);
      && w1.cell == w.cell && !w1.expedited
      && (r.Ok? ==> r.value == Min(|b|, 7) && w1.pos == w.pos + r.value && w1.segments == w.segments + 1)
  {
    hide RequestResponse;
  }

  /** Slices of at least seven bytes fill every segment but the last. */
  lemma {:induction false} FeedCountsSegments(w: Writer, data: seq<Byte>, chunks: seq<nat>, maxRetries: nat)
    requires maxRetries >= 1 && !w.expedited && w.pos <= |data|
    requires forall c :: c in chunks ==> c >= 7
    ensures var (w1, e) := Feed(w, data, chunks, maxRetries);
      e.None? ==> w.pos <= w1.pos <= |data| && w1.segments - w.segments == CeilDiv7(w1.pos - w.pos)
    decreases |chunks|
  {
    hide RequestResponse;
    if chunks == [] || w.pos >= |data| {
      assert Feed(w, data, chunks, maxRetries) == (w, None);
      return;
    }
    var b := data[w.pos..Min(w.pos + chunks[0], |data|)];
    WriteTakesSegment(w, b, maxRetries);
    var (w1, r) := Write(w, b, maxRetries);
    if r.Err? {
      assert Feed(w, data, chunks, maxRetries) == (w1, Some(r.error));
      return;
    }
    assert Feed(w, data, chunks, maxRetries) == Feed(w1, data, chunks[1..], maxRetries);
    assert chunks[0] in chunks && forall c :: c in chunks[1..] ==> c in chunks;
    FeedCountsSegments(w1, data, chunks[1..], maxRetries);
  }

  /** Opening a segmented download. */
  lemma OpenOutcome(n: SdoNet, cell: Cell, data: seq<Byte>, sized: bool, force: bool, maxRetries: nat)
    requires maxRetries >= 1 && n.serve == OnRequest && Quiet(n) && n.queue == []
    requires var size := if sized then Some(|data|) else None; !IsExpedited(size, force)
    ensures var size := if sized then Some(|data|) else None;
      var (w, e) := Open(n, cell, size, force, maxRetries);
      && w.cell == cell && w.size == size && w.segments == 0
      && (e.Some? ==> w.net.server == n.server || w.net.server == Receiving(n.server, cell, [], false))
      && (e.None? ==> Between(w, n.server, data, true, maxRetries) && w.pos == 0)
  {
    hide RequestResponse;
    var size := if sized then Some(|data|) else None;
    var h := InitShake(n.server, cell, size, maxRetries);
    InitShakeIsValid(n.server, cell, size, maxRetries);
    ExchangeOutcome(h, n, maxRetries);
    var (w, e) := Open(n, cell, size, force, maxRetries);
    if e.None? {
      assert data[..0] == [];
      NextHandshakeIsReady(h, SegmentShake(n.server, cell, [], false, [], false, true, maxRetries), w.net);
    }
  }

  // ----- Main results about segmented download -----

  predicate IsSegmented(data: seq<Byte>, sized: bool, force: bool) {
    !IsExpedited(if sized then Some(|data|) else None, force)
  }

  /**
   Alternating-bit safety. Over every run of the network, with any number of retries, any slicing
   of the writes, and up to the first exception, the server's buffer is a prefix of the data at
   most one segment ahead of the client; the store is untouched or holds exactly the data. A
   transfer of at least one byte that ends without exception has stored the data.
   */
  lemma SegmentedDownloadIsExactlyOnce(n: SdoNet, cell: Cell, data: seq<Byte>, sized: bool, force: bool,
                                       chunks: seq<nat>, maxRetries: nat)
    requires maxRetries >= 1 && n.serve == OnRequest && Quiet(n) && n.queue == []
    requires IsSegmented(data, sized, force) && Regular(n.server.od, cell, data, sized, maxRetries)
    ensures var (w, e) := Download(n, cell, data, sized, force, chunks, maxRetries);
      && (InStep(w.net.server, n.server, cell, data, w.pos) ||
            (e.Some? && w.segments == 0 && w.net.server == n.server))
      && (e.None? && w.pos == |data| && (maxRetries == 1 || data != []) ==>
            Stored(w.net.server, n.server, cell, data) && Settled(w.net, cell, maxRetries))
  {
    var base, size := n.server, if sized then Some(|data|) else None;
    OpenOutcome(n, cell, data, sized, force, maxRetries);
    var (w, e) := Open(n, cell, size, force, maxRetries);
    if e.Some? {
      assert data[..0] == [];
      return;
    }
    FeedAndCloseKeepStep(w, base, data, chunks, maxRetries);
  }

  lemma FeedAndCloseKeepStep(w: Writer, base: Server, data: seq<Byte>, chunks: seq<nat>, maxRetries: nat)
    requires maxRetries >= 1 && Between(w, base, data, true, maxRetries) && w.pos == 0
    requires w.size.Some? ==> w.size.value == |data|
    requires Regular(base.od, w.cell, data, w.size.Some?, maxRetries)
    ensures var (w1, e) := FeedAndClose(w, data, chunks, maxRetries);
      && InStep(w1.net.server, base, w.cell, data, w1.pos)
      && (e.None? && w1.pos == |data| && (maxRetries == 1 || data != []) ==>
            Stored(w1.net.server, base, w.cell, data) && Settled(w1.net, w.cell, maxRetries))
  {
    FeedKeepsStep(w, base, data, chunks, true, maxRetries);
    var (w1, e1) := Feed(w, data, chunks, maxRetries);
    assert Fed(w1, e1, base, data, w1 == w, maxRetries);
    if e1.None? {
      CloseOutcome(w1, base, data, w1 == w, maxRetries);
    }
  }

  /** The end of a run without exception so far: closing, or breaking off. */
  lemma CloseOutcome(w: Writer, base: Server, data: seq<Byte>, first: bool, maxRetries: nat)
    requires maxRetries >= 1 && Fed(w, None, base, data, first, maxRetries)
    ensures InStep(w.net.server, base, w.cell, data, w.pos)
    ensures w.pos == |data| ==>
      var (w1, e) := Close(w, maxRetries);
      && w1.pos == w.pos
      && InStep(w1.net.server, base, w.cell, data, w.pos)
      && (e.None? && (maxRetries == 1 || !first) ==>
            Stored(w1.net.server, base, w.cell, data) && Settled(w1.net, w.cell, maxRetries))
  {
    hide RequestResponse;
    assert data[..|data|] == data;
    if w.pos == |data| && !w.done {
      assert data[w.pos..] == [];
      LastSegment(w.net, base, w.cell, data, w.pos, w.toggle, first, maxRetries);
    }
  }

  /** A segmented download that succeeds with slices of at least seven bytes has used just enough segments. */
  lemma DownloadCountsSegments(n: SdoNet, cell: Cell, data: seq<Byte>, sized: bool, force: bool, chunks: seq<nat>,
                               maxRetries: nat)
    requires maxRetries >= 1 && IsSegmented(data, sized, force) && forall c :: c in chunks ==> c >= 7
    ensures var (w, e) := Download(n, cell, data, sized, force, chunks, maxRetries);
      e.None? && w.pos == |data| ==> w.segments == CeilDiv7(|data|)
  {
    hide RequestResponse;
    hide Feed;
    var (w, e) := Open(n, cell, if sized then Some(|data|) else None, force, maxRetries);
    if e.None? {
      FeedCountsSegments(w, data, chunks, maxRetries);
      var (w1, e1) := Feed(w, data, chunks, maxRetries);
      assert w.pos == w.segments == 0;
      assert e1.None? ==> Close(w1, maxRetries).0.segments == w1.segments && Close(w1, maxRetries).0.pos == w1.pos;
      assert Download(n, cell, data, sized, force, chunks, maxRetries) == FeedAndClose(w, data, chunks, maxRetries);
    }
  }

  // ----- Expedited download -----

  /** One request carries everything; a second copy writes the same bytes again or is refused again. */
  function ExpeditedShake(base: Server, cell: Cell, data: seq<Byte>, maxRetries: nat): Handshake<Server>
    requires 1 <= |data| <= 4
  {
    match StoreAfter(base.od, base.store, cell, data, true)
    case Ok(store) =>
      Handshake(OnRequest, base, base.(cell := Some(cell), store := store), ExpeditedRequest(cell, |data|, data),
                DownloadReply(cell), DownloadReply(cell), {}, maxRetries == 1)
    case Err(code) =>
      Handshake(OnRequest, base, base.(cell := Some(cell)), ExpeditedRequest(cell, |data|, data),
                ServerAbort(cell, code), ServerAbort(cell, code), {}, maxRetries == 1)
  }

  lemma ExpeditedShakeIsValid(base: Server, cell: Cell, data: seq<Byte>, maxRetries: nat)
    requires 1 <= |data| <= 4
    ensures ExpeditedShake(base, cell, data, maxRetries).Valid()
  {
    var f := ExpeditedRequest(cell, |data|, data);
    assert Specifier(f) == REQUEST_DOWNLOAD && Bit1(f) && Bit0(f) && UnusedOfFour(f) == 4 - |data|;
    assert f[4..4 + |data|] == data;
    assert base.store[cell := data][cell := data] == base.store[cell := data];
  }

  /** The store after an expedited download: untouched, or holding the data. */
  ghost predicate WrittenOnce(s: Server, base: Server, cell: Cell, data: seq<Byte>) {
    s.od == base.od && s.buffer == base.buffer && s.toggle == base.toggle &&
    (s.store == base.store || (Accepts(base.od, cell, data) && s.store == base.store[cell := data]))
  }

  ghost predicate ReadyForExpedited(w: Writer, data: seq<Byte>) {
    1 <= |data| <= 4 && w.expedited && !w.done && w.pos == 0 && w.size == Some(|data|) &&
    w.net.serve == OnRequest && Quiet(w.net) && w.net.queue == []
  }

  /** The one exchange of an expedited download, or none for a slice that is too short. */
  lemma ExpeditedWrite(w: Writer, data: seq<Byte>, maxRetries: nat)
    requires maxRetries >= 1 && ReadyForExpedited(w, data)
    ensures var (w1, r) := Write(w, data, maxRetries);
      && w1.cell == w.cell && w1.expedited && WrittenOnce(w1.net.server, w.net.server, w.cell, data)
      && (r.Ok? ==>
            w1.done && w1.pos == |data| && Accepts(w.net.server.od, w.cell, data) && Settled(w1.net, w.cell, maxRetries) &&
            w1.net.server.store == w.net.server.store[w.cell := data])
      && (r.Err? ==> w1.pos == 0)
  {
    hide RequestResponse;
    ExpeditedShakeIsValid(w.net.server, w.cell, data, maxRetries);
    var h := ExpeditedShake(w.net.server, w.cell, data, maxRetries);
    ExchangeOutcome(h, w.net, maxRetries);
    ReadBack(w.net.server.od, w.net.server.store, w.cell, data, w.cell);
    var (n1, r) := RequestResponse(w.net, h.request, maxRetries);
    if r == Ok(DownloadReply(w.cell)) {
      FinishedIsCalm(h, n1, w.cell, maxRetries);
    }
  }

  lemma {:induction false} ExpeditedFeed(w: Writer, data: seq<Byte>, chunks: seq<nat>, maxRetries: nat)
    requires maxRetries >= 1 && ReadyForExpedited(w, data)
    ensures var (w1, e) := Feed(w, data, chunks, maxRetries);
      && w1.cell == w.cell && w1.expedited && WrittenOnce(w1.net.server, w.net.server, w.cell, data)
      && (e.None? && w1.pos == |data| ==>
            Accepts(w.net.server.od, w.cell, data) && Settled(w1.net, w.cell, maxRetries) &&
            w1.net.server.store == w.net.server.store[w.cell := data])
    decreases |chunks|
  {
    if chunks == [] {
      return;
    }
    var b := data[0..Min(chunks[0], |data|)];
    if |b| < |data| {
      assert Write(w, b, maxRetries) == (w, Ok(0));
      assert Feed(w, data, chunks, maxRetries) == Feed(w, data, chunks[1..], maxRetries);
      ExpeditedFeed(w, data, chunks[1..], maxRetries);
      return;
    }
    assert b == data;
    ExpeditedWrite(w, data, maxRetries);
    var (w1, r) := Write(w, data, maxRetries);
    if r.Ok? {
      assert Feed(w1, data, chunks[1..], maxRetries) == (w1, None);
      assert Feed(w, data, chunks, maxRetries) == (w1, None);
    } else {
      assert Feed(w, data, chunks, maxRetries) == (w1, Some(r.error));
    }
  }

  /** Over every run, an expedited download writes its data or nothing, and reports success only for the former. */
  lemma ExpeditedDownloadIsExactlyOnce(n: SdoNet, cell: Cell, data: seq<Byte>, chunks: seq<nat>, maxRetries: nat)
    requires maxRetries >= 1 && 1 <= |data| <= 4 && n.serve == OnRequest && Quiet(n) && n.queue == []
    ensures var (w, e) := Download(n, cell, data, true, false, chunks, maxRetries);
      && WrittenOnce(w.net.server, n.server, cell, data)
      && (e.None? && w.pos == |data| ==>
            Accepts(n.server.od, cell, data) && Settled(w.net, cell, maxRetries) &&
            w.net.server.store == n.server.store[cell := data])
  {
    var (w, e) := Open(n, cell, Some(|data|), false, maxRetries);
    ExpeditedFeed(w, data, chunks, maxRetries);
    var (w1, e1) := Feed(w, data, chunks, maxRetries);
    assert Close(w1, maxRetries) == (w1, None);
  }
}
