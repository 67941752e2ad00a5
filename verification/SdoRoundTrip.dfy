/** A download followed by an upload of the same cell, over any network and over a prompt one. */
module SdoRoundTrip {
  import opened Bits
  import opened ObjectStore
  import opened SdoCalm
  import opened SdoFrames
  import opened SdoNetwork
  import opened SdoService
  import opened Wrappers
  import D = SdoDownload
  import H = SdoDownloadHonesty
  import R = SdoDownloadRuns
  import U = SdoUpload
  import W = SdoWire

  // ----- Over any network -----

  /** A download that ends without exception, where that can be trusted, has stored the data and leaves a calm network. */
  lemma DownloadOutcome(base: Server, cell: Cell, data: seq<Byte>, sized: bool, force: bool, script: seq<Event>,
                        chunks: seq<nat>, maxRetries: nat)
    requires maxRetries >= 1 && data != []
    requires D.IsSegmented(data, sized, force) ==> H.Trustworthy(base, cell, data, sized, maxRetries)
    ensures var (w, e) := D.Download(R.AtRest(base, script), cell, data, sized, force, chunks, maxRetries);
      e.None? && w.pos == |data| ==>
        && Calm(w.net, cell) && w.net.server.od == base.od
        && Accepts(base.od, cell, data) && w.net.server.store == base.store[cell := data]
  {
    hide D.Download;
    var n := R.AtRest(base, script);
    if !D.IsSegmented(data, sized, force) {
      D.ExpeditedDownloadIsExactlyOnce(n, cell, data, chunks, maxRetries);
    } else if D.Regular(base.od, cell, data, sized, maxRetries) {
      D.SegmentedDownloadIsExactlyOnce(n, cell, data, sized, force, chunks, maxRetries);
    } else {
      H.RefusedDownloadRaises(base, cell, data, force, maxRetries, script, chunks);
    }
  }

  /**
   Whatever the network loses or delays, in either transfer and between them: when a download and an
   upload of the same cell both end without exception, the upload returns the bytes downloaded, if
   the success of the download can be trusted.
   */
  lemma LossyRoundTrip(base: Server, cell: Cell, data: seq<Byte>, sized: bool, force: bool, script: seq<Event>,
                       chunks: seq<nat>, maxRetries: nat)
    requires maxRetries >= 1 && data != []
    requires D.IsSegmented(data, sized, force) ==> H.Trustworthy(base, cell, data, sized, maxRetries)
    ensures var (w, e) := D.Download(R.AtRest(base, script), cell, data, sized, force, chunks, maxRetries);
      e.None? && w.pos == |data| ==>
        var (_, collected, e1) := U.Upload(w.net, cell, maxRetries);
        e1.None? ==> collected == data
  {
    hide D.Download;
    hide U.Upload;
    DownloadOutcome(base, cell, data, sized, force, script, chunks, maxRetries);
    var (w, e) := D.Download(R.AtRest(base, script), cell, data, sized, force, chunks, maxRetries);
    if e.None? && w.pos == |data| {
      U.UploadReturnsObject(w.net, cell, maxRetries);
    }
  }

  // ----- Uploading over a prompt network -----

  ghost predicate Sending(r: U.Reader, base: Server, cell: Cell, data: seq<Byte>, k: nat, tail: seq<Event>) {
    !r.done && r.expedited == None && r.pos < |data| && |data| > 4 &&
    r.net == R.AtRest(U.Sending(base, cell, data[r.pos..], r.toggle), Cycles(k) + tail)
  }

  lemma PromptRead(r: U.Reader, base: Server, cell: Cell, data: seq<Byte>, k: nat, tail: seq<Event>, maxRetries: nat)
    requires maxRetries >= 1 && k >= 1 && Sending(r, base, cell, data, k, tail)
    ensures var (r1, read) := U.Read(r, maxRetries);
      read.Ok? && read.value != [] && r.pos < r1.pos <= |data| &&
      if r1.pos == |data| then r1.done else Sending(r1, base, cell, data, k - 1, tail)
  {
    hide RequestResponse;
    var h := U.SegmentShake(base, cell, data, r.pos, r.toggle, false, maxRetries);
    U.SegmentShakeIsValid(base, cell, data, r.pos, r.toggle, false, maxRetries);
    R.CyclesBeginWithCycle(k, tail);
    PromptExchange(r.net, h.request, maxRetries, h.after, h.reply);
  }

  lemma {:induction false} PromptReadAll(r: U.Reader, collected: seq<Byte>, base: Server, cell: Cell, data: seq<Byte>,
                                         k: nat, tail: seq<Event>, maxRetries: nat)
    requires maxRetries >= 1 && Sending(r, base, cell, data, k, tail) && k >= |data| - r.pos
    ensures U.ReadAll(r, collected, maxRetries).2 == None
    decreases |data| - r.pos
  {
    hide RequestResponse;
    PromptRead(r, base, cell, data, k, tail, maxRetries);
    var (r1, read) := U.Read(r, maxRetries);
    if r1.pos == |data| {
      assert U.Read(r1, maxRetries) == (r1, Ok([]));
      assert U.ReadAll(r1, collected + read.value, maxRetries).2 == None;
    } else {
      PromptReadAll(r1, collected + read.value, base, cell, data, k - 1, tail, maxRetries);
    }
  }

  lemma PromptOpen(base: Server, cell: Cell, data: seq<Byte>, k: nat, tail: seq<Event>, maxRetries: nat)
    requires maxRetries >= 1 && U.IsSegmented(base, cell, data) && k >= 1
    ensures var (r, e) := U.Open(R.AtRest(base, Cycles(k) + tail), cell, maxRetries);
      e == None && r.pos == 0 && Sending(r, base, cell, data, k - 1, tail)
  {
    hide RequestResponse;
    var h := U.InitShake(base, cell, data, maxRetries);
    U.InitShakeIsValid(base, cell, data, maxRetries);
    R.CyclesBeginWithCycle(k, tail);
    PromptExchange(R.AtRest(base, Cycles(k) + tail), h.request, maxRetries, h.after, h.reply);
    assert data[0..] == data;
  }

  lemma PromptSegmentedUpload(base: Server, cell: Cell, data: seq<Byte>, k: nat, tail: seq<Event>, maxRetries: nat)
    requires maxRetries >= 1 && U.IsSegmented(base, cell, data) && k >= |data| + 1
    ensures U.Upload(R.AtRest(base, Cycles(k) + tail), cell, maxRetries).2 == None
  {
    hide RequestResponse;
    PromptOpen(base, cell, data, k, tail, maxRetries);
    var (r, e) := U.Open(R.AtRest(base, Cycles(k) + tail), cell, maxRetries);
    PromptReadAll(r, [], base, cell, data, k - 1, tail, maxRetries);
  }

  lemma PromptExpeditedUpload(base: Server, cell: Cell, data: seq<Byte>, k: nat, tail: seq<Event>, maxRetries: nat)
    requires maxRetries >= 1 && DataAt(base.od, base.store, cell, true) == Ok(data) && 1 <= |data| <= 4 && k >= 1
    ensures U.Upload(R.AtRest(base, Cycles(k) + tail), cell, maxRetries).2 == None
  {
    hide RequestResponse;
    var n := R.AtRest(base, Cycles(k) + tail);
    R.CyclesBeginWithCycle(k, tail);
    PromptExchange(n, U.InitRequest(cell), maxRetries, base.(cell := Some(cell)), U.ExpeditedReply(cell, data));
    var (r, e) := U.Open(n, cell, maxRetries);
    U.ExpeditedReplyHoldsData(r.net, cell, data);
    U.ReadAllExpedited(r, data, maxRetries);
  }

  /** An upload of any readable object of a legal size succeeds and returns it. */
  lemma PromptUpload(base: Server, cell: Cell, data: seq<Byte>, k: nat, tail: seq<Event>, maxRetries: nat)
    requires maxRetries >= 1 && DataAt(base.od, base.store, cell, true) == Ok(data) && 1 <= |data| < 0x1_0000_0000
    requires k >= |data| + 1
    ensures var (r, collected, e) := U.Upload(R.AtRest(base, Cycles(k) + tail), cell, maxRetries);
      e == None && collected == data
  {
    U.UploadReturnsObject(R.AtRest(base, Cycles(k) + tail), cell, maxRetries);
    if |data| <= 4 {
      PromptExpeditedUpload(base, cell, data, k, tail, maxRetries);
    } else {
      PromptSegmentedUpload(base, cell, data, k, tail, maxRetries);
    }
  }

  /** The dictionary has this object at the cell: a variable under any subindex, or the member of a group. */
  predicate Defines(od: Dictionary, cell: Cell, obj: OdVariable) {
    cell.index in od &&
    match od[cell.index]
    case Variable(v) => v == obj
    case Group(members) => cell.subindex in members && members[cell.subindex] == obj
  }

  /**
   What an upload returns: what was written last, else the configured value, whatever the default, else the
   default, if there is one and the object is readable.
   */
  lemma UploadOfObject(base: Server, cell: Cell, obj: OdVariable, k: nat, tail: seq<Event>, maxRetries: nat)
    requires maxRetries >= 1 && k >= 1 && Defines(base.od, cell, obj)
    requires cell in base.store ==> k > |base.store[cell]|
    requires (obj.value.Some? ==> k > |obj.value.value|) && (obj.initial.Some? ==> k > |obj.initial.value|)
    ensures var (r, collected, e) := U.Upload(R.AtRest(base, Cycles(k) + tail), cell, maxRetries);
      if !obj.readable then e == Some(Aborted(0x0601_0001))
      else if cell in base.store then Uploaded(collected, e, base.store[cell])
      else
        match (obj.value, obj.initial)
        case (Some(v), _) => Uploaded(collected, e, v)
        case (None, Some(d)) => Uploaded(collected, e, d)
        case (None, None) => e == Some(Aborted(0x060A_0023))
  {
    match DataAt(base.od, base.store, cell, true)
    case Err(code) =>
      RefusedUpload(base, cell, code, k, tail, maxRetries);
    case Ok(data) =>
      if data == [] || |data| >= 0x1_0000_0000 {
        RefusedUpload(base, cell, if data == [] then 0x0800_0024 else 0x0800_0000, k, tail, maxRetries);
      } else {
        PromptUpload(base, cell, data, k, tail, maxRetries);
      }
  }

  /** The outcome for an object that holds these bytes: none, or too many to count, cannot be uploaded. */
  predicate Uploaded(collected: seq<Byte>, e: Option<SdoError>, held: seq<Byte>) {
    if held == [] then e == Some(Aborted(0x0800_0024))
    else if |held| >= 0x1_0000_0000 then e == Some(Aborted(0x0800_0000))
    else e == None && collected == held
  }

  lemma RefusedUpload(base: Server, cell: Cell, code: nat, k: nat, tail: seq<Event>, maxRetries: nat)
    requires maxRetries >= 1 && k >= 1 && code < 0x1_0000_0000
    requires match DataAt(base.od, base.store, cell, true)
      case Err(c) => c == code
      case Ok(data) => (data == [] && code == 0x0800_0024) || (|data| >= 0x1_0000_0000 && code == 0x0800_0000)
    ensures U.Upload(R.AtRest(base, Cycles(k) + tail), cell, maxRetries).2 == Some(Aborted(code))
  {
    var n := R.AtRest(base, Cycles(k) + tail);
    var request := Multiplexed(0x40, cell, [0, 0, 0, 0]);
    R.CyclesBeginWithCycle(k, tail);
    W.UploadIsAnswered(base, request, cell);
    W.UploadOpens(n, cell, W.AbortFrame(cell, code), maxRetries);
    W.LittleEndianNumber(cell, code);
  }

  /** Neither a variable nor a group with this member. */
  predicate IsMissing(od: Dictionary, cell: Cell) {
    cell.index in od ==> od[cell.index].Group? && cell.subindex !in od[cell.index].members
  }

  /** An upload of what the dictionary does not have raises. */
  lemma UploadOfNothing(base: Server, cell: Cell, k: nat, tail: seq<Event>, maxRetries: nat)
    requires maxRetries >= 1 && k >= 1 && IsMissing(base.od, cell)
    ensures U.Upload(R.AtRest(base, Cycles(k) + tail), cell, maxRetries).2 ==
      Some(Aborted(if cell.index in base.od then 0x0609_0011 else 0x0602_0000))
  {
    RefusedUpload(base, cell, if cell.index in base.od then 0x0609_0011 else 0x0602_0000, k, tail, maxRetries);
  }

  // ----- Expedited download over a prompt network -----

  lemma {:induction false} PromptExpeditedFeed(w: D.Writer, data: seq<Byte>, chunks: seq<nat>, k: nat, tail: seq<Event>,
                                               maxRetries: nat)
    requires maxRetries >= 1 && k >= 1 && D.ReadyForExpedited(w, data) && w.net.script == Cycles(k) + tail
    requires Accepts(w.net.server.od, w.cell, data) && exists c :: c in chunks && c >= |data|
    ensures var (w1, e) := D.Feed(w, data, chunks, maxRetries);
      e == None && w1.pos == |data| && w1.expedited && w1.net == R.AtRest(w1.net.server, Cycles(k - 1) + tail)
    decreases |chunks|
  {
    hide RequestResponse;
    var b := data[0..Min(chunks[0], |data|)];
    if |b| < |data| {
      assert chunks == [chunks[0]] + chunks[1..];
      assert D.Write(w, b, maxRetries) == (w, Ok(0));
      assert D.Feed(w, data, chunks, maxRetries) == D.Feed(w, data, chunks[1..], maxRetries);
      PromptExpeditedFeed(w, data, chunks[1..], k, tail, maxRetries);
      return;
    }
    assert b == data;
    var h := D.ExpeditedShake(w.net.server, w.cell, data, maxRetries);
    D.ExpeditedShakeIsValid(w.net.server, w.cell, data, maxRetries);
    ReadBack(w.net.server.od, w.net.server.store, w.cell, data, w.cell);
    R.CyclesBeginWithCycle(k, tail);
    PromptExchange(w.net, h.request, maxRetries, h.after, h.reply);
    var (w1, r) := D.Write(w, data, maxRetries);
    assert D.Feed(w1, data, chunks[1..], maxRetries) == (w1, None);
  }

  // ----- Refused downloads over a prompt network -----

  /** The abort code that refuses data an object does not accept. */
  function Refusal(od: Dictionary, cell: Cell): (code: nat)
    ensures code < 0x1_0000_0000
  {
    if cell.index !in od then 0x0602_0000
    else
      match od[cell.index]
      case Variable(v) => if v.writable then 0x0607_0010 else 0x0601_0002
      case Group(members) =>
        if cell.subindex !in members then 0x0609_0011
        else if members[cell.subindex].writable then 0x0607_0010 else 0x0601_0002
  }

  lemma RefusedLastSegment(net: SdoNet, base: Server, cell: Cell, received: seq<Byte>, toggle: bool, segment: seq<Byte>,
                           k: nat, tail: seq<Event>, maxRetries: nat)
    requires maxRetries >= 1 && k >= 1 && |segment| <= 7 && !Accepts(base.od, cell, received + segment)
    requires net == R.AtRest(D.Receiving(base, cell, received, toggle), Cycles(k) + tail)
    ensures var (n1, r) := RequestResponse(net, Segment(REQUEST_SEGMENT_DOWNLOAD, toggle, segment, true), maxRetries);
      r == Err(Aborted(Refusal(base.od, cell))) && n1.server.od == base.od && n1.server.store == base.store
  {
    var request := Segment(REQUEST_SEGMENT_DOWNLOAD, toggle, segment, true);
    var code := Refusal(base.od, cell);
    assert request[1..8 - request[0] / 2 % 8] == segment;
    assert StoreAfter(base.od, base.store, cell, received + segment, true) == Err(code);
    W.DownloadSegmentIsAnswered(net.server, request, cell);
    W.LittleEndianNumber(cell, code);
    R.CyclesBeginWithCycle(k, tail);
    W.Exchanged(net, request, W.AbortFrame(cell, code), maxRetries);
  }

  lemma RefusedLastWrite(w: D.Writer, base: Server, data: seq<Byte>, b: seq<Byte>, k: nat, tail: seq<Event>,
                         maxRetries: nat)
    requires maxRetries >= 1 && k >= 1 && w.pos <= |data| && R.AtEase(w, base, data[..w.pos], k, tail)
    requires w.size == Some(|data|) && b == data[w.pos..] && |b| <= 7 && !Accepts(base.od, w.cell, data)
    ensures var (w1, r) := D.Write(w, b, maxRetries);
      && r == Err(Aborted(Refusal(base.od, w.cell)))
      && w1.net.server.od == base.od && w1.net.server.store == base.store
  {
    hide RequestResponse;
    hide Accepts;
    hide Refusal;
    assert data[..w.pos] + b == data && b[..|b|] == b;
    RefusedLastSegment(w.net, base, w.cell, data[..w.pos], w.toggle, b, k, tail, maxRetries);
  }

  lemma {:induction false} PromptRefusal(w: D.Writer, base: Server, data: seq<Byte>, chunks: seq<nat>, k: nat,
                                         tail: seq<Event>, maxRetries: nat)
    requires maxRetries >= 1 && w.pos <= |data| && R.AtEase(w, base, data[..w.pos], k, tail) && k > |data| - w.pos
    requires R.Covers(chunks, |data| - w.pos) && !Accepts(base.od, w.cell, data)
    requires w.size == None || w.size == Some(|data|)
    ensures var (w1, e) := D.FeedAndClose(w, data, chunks, maxRetries);
      e == Some(Aborted(Refusal(base.od, w.cell))) && w1.net.server.od == base.od && w1.net.server.store == base.store
    decreases |chunks|
  {
    hide Accepts;
    hide RequestResponse;
    hide Refusal;
    if w.pos == |data| {
      assert data[..|data|] == data && data + [] == data;
      RefusedLastSegment(w.net, base, w.cell, data, w.toggle, [], k, tail, maxRetries);
      return;
    }
    var end := Min(w.pos + chunks[0], |data|);
    assert chunks[0] in chunks && forall c :: c in chunks[1..] ==> c in chunks;
    var b := data[w.pos..end];
    if w.size.Some? && w.pos + Min(|b|, 7) == |data| {
      RefusedLastWrite(w, base, data, b, k, tail, maxRetries);
      hide D.Write;
    } else {
      R.PromptMiddleSegment(w, base, data, end, k, tail, maxRetries);
      W.FeedGoesOn(w, data, chunks, maxRetries);
      hide D.FeedAndClose;
      PromptRefusal(D.Write(w, b, maxRetries).0, base, data, chunks[1..], k - 1, tail, maxRetries);
    }
  }

  lemma RefusedExpedited(base: Server, cell: Cell, data: seq<Byte>)
    requires 1 <= |data| <= 4 && !Accepts(base.od, cell, data)
    ensures OnRequest(base, W.ExpeditedRequest(cell, data)) ==
      (base.(cell := Some(cell)), [W.AbortFrame(cell, Refusal(base.od, cell))])
  {
    var request := W.ExpeditedRequest(cell, data);
    assert request[4..8 - request[0] / 4 % 4] == data;
    assert StoreAfter(base.od, base.store, cell, data, true) == Err(Refusal(base.od, cell));
    W.DownloadIsAnswered(base, request, cell);
  }

  /** Data the object does not accept raises the abort code that says why, and leaves the store alone. */
  lemma RefusedDownload(base: Server, cell: Cell, data: seq<Byte>, sized: bool, force: bool, chunks: seq<nat>, k: nat,
                        tail: seq<Event>, maxRetries: nat)
    requires maxRetries >= 1 && !Accepts(base.od, cell, data) && |data| < 0x1_0000_0000
    requires Suffices(chunks, data, sized, force) && k >= |data| + 2
    ensures var (w, e) := D.Download(R.AtRest(base, Cycles(k) + tail), cell, data, sized, force, chunks, maxRetries);
      e == Some(Aborted(Refusal(base.od, cell))) && w.net.server.od == base.od && w.net.server.store == base.store
  {
    hide RequestResponse;
    hide Refusal;
    hide W.ExpeditedRequest;
    hide D.FeedAndClose;
    hide Accepts;
    var n := R.AtRest(base, Cycles(k) + tail);
    if D.IsSegmented(data, sized, force) {
      var size := if sized then Some(|data|) else None;
      R.PromptOpen(base, cell, size, force, k, tail, maxRetries);
      var (w, e) := D.Open(n, cell, size, force, maxRetries);
      assert data[..0] == [];
      PromptRefusal(w, base, data, chunks, k - 1, tail, maxRetries);
    } else {
      RefusedExpedited(base, cell, data);
      R.CyclesBeginWithCycle(k, tail);
      W.LittleEndianNumber(cell, Refusal(base.od, cell));
      W.ExpeditedDownloadInBytes(n, cell, data, W.AbortFrame(cell, Refusal(base.od, cell)), chunks, maxRetries);
    }
  }

  // ----- The round trip -----

  /** Slices that let the stream take everything: an expedited one needs the data in one piece. */
  predicate Suffices(chunks: seq<nat>, data: seq<Byte>, sized: bool, force: bool) {
    if D.IsSegmented(data, sized, force) then R.Covers(chunks, |data|)
    else exists c :: c in chunks && c >= |data|
  }

  /** Any download the object accepts succeeds, whatever the kind of transfer and the slicing. */
  lemma PromptDownload(base: Server, cell: Cell, data: seq<Byte>, sized: bool, force: bool, chunks: seq<nat>, k: nat,
                       tail: seq<Event>, maxRetries: nat) returns (left: nat)
    requires maxRetries >= 1 && Accepts(base.od, cell, data) && |data| < 0x1_0000_0000
    requires Suffices(chunks, data, sized, force) && k >= |data| + 2
    ensures left >= k - |data| - 2
    ensures var (w, e) := D.Download(R.AtRest(base, Cycles(k) + tail), cell, data, sized, force, chunks, maxRetries);
      e == None && w.net == R.AtRest(w.net.server, Cycles(left) + tail) &&
      w.net.server.od == base.od && w.net.server.store == base.store[cell := data]
  {
    hide RequestResponse;
    hide D.Write;
    var n := R.AtRest(base, Cycles(k) + tail);
    if D.IsSegmented(data, sized, force) {
      left := R.PromptSegmentedDownload(base, cell, data, sized, force, chunks, k, tail, maxRetries);
    } else {
      left := k - 1;
      D.ExpeditedDownloadIsExactlyOnce(n, cell, data, chunks, maxRetries);
      var (w, e) := D.Open(n, cell, Some(|data|), force, maxRetries);
      PromptExpeditedFeed(w, data, chunks, k, tail, maxRetries);
    }
  }

  /**
   Every byte string of length 1 to 2^32 - 1 that the object's type and access rights allow comes
   back from an upload after a download, expedited or segmented, with the size announced or not,
   and however the writes are sliced.
   */
  lemma RoundTrip(base: Server, cell: Cell, data: seq<Byte>, sized: bool, force: bool, chunks: seq<nat>, k: nat,
                  tail: seq<Event>, maxRetries: nat)
    requires maxRetries >= 1 && 1 <= |data| < 0x1_0000_0000
    requires Accepts(base.od, cell, data) && Readable(base.od, cell)
    requires Suffices(chunks, data, sized, force) && k >= 2 * |data| + 3
    ensures var (w, e) := D.Download(R.AtRest(base, Cycles(k) + tail), cell, data, sized, force, chunks, maxRetries);
      e == None && U.Upload(w.net, cell, maxRetries).1 == data && U.Upload(w.net, cell, maxRetries).2 == None
  {
    var left := PromptDownload(base, cell, data, sized, force, chunks, k, tail, maxRetries);
    var (w, e) := D.Download(R.AtRest(base, Cycles(k) + tail), cell, data, sized, force, chunks, maxRetries);
    ReadBack(base.od, base.store, cell, data, cell);
    PromptUpload(w.net.server, cell, data, left, tail, maxRetries);
  }
}
