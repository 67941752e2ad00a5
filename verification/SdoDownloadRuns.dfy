/**
 Downloads over particular networks: a prompt one, on which every download succeeds, and the runs
 that show which conditions the safety results cannot do without.
 */
module SdoDownloadRuns {
  import opened Bits
  import opened ObjectStore
  import opened SdoCalm
  import opened SdoDownload
  import opened SdoFrames
  import opened SdoNetwork
  import opened SdoService
  import opened Wrappers

  /** A network at rest, with a script of what is going to happen. */
  function AtRest(server: Server, script: seq<Event>): SdoNet {
    Net(OnRequest, server, [], [], [], script)
  }

  lemma CyclesBeginWithCycle(k: nat, tail: seq<Event>)
    requires k >= 1
    ensures CYCLE <= Cycles(k) + tail
    ensures (Cycles(k) + tail)[4..] == Cycles(k - 1) + tail
  {
    assert Cycles(k) + tail == CYCLE + (Cycles(k - 1) + tail);
  }

  // ----- A prompt network -----

  /** Between two segments over a network at rest that stays prompt for k exchanges. */
  ghost predicate AtEase(w: Writer, base: Server, received: seq<Byte>, k: nat, tail: seq<Event>) {
    !w.expedited && !w.done && w.pos == |received| &&
    w.net == AtRest(Receiving(base, w.cell, received, w.toggle), Cycles(k) + tail)
  }

  lemma PromptOpen(base: Server, cell: Cell, size: Option<nat>, force: bool, k: nat, tail: seq<Event>, maxRetries: nat)
    requires maxRetries >= 1 && k >= 1 && !IsExpedited(size, force) && (size.Some? ==> size.value < 0x1_0000_0000)
    ensures var (w, e) := Open(AtRest(base, Cycles(k) + tail), cell, size, force, maxRetries);
      e == None && w.cell == cell && w.size == size && AtEase(w, base, [], k - 1, tail)
  {
    hide RequestResponse;
    var h := InitShake(base, cell, size, maxRetries);
    InitShakeIsValid(base, cell, size, maxRetries);
    CyclesBeginWithCycle(k, tail);
    PromptExchange(AtRest(base, Cycles(k) + tail), h.request, maxRetries, h.after, h.reply);
  }

  lemma PromptMiddleSegment(w: Writer, base: Server, data: seq<Byte>, end: nat, k: nat, tail: seq<Event>, maxRetries: nat)
    requires maxRetries >= 1 && k >= 1 && w.pos <= end <= |data| && AtEase(w, base, data[..w.pos], k, tail)
    requires w.size == None || (w.size == Some(|data|) && w.pos + Min(end - w.pos, 7) < |data|)
    ensures var (w1, r) := Write(w, data[w.pos..end], maxRetries);
      var next := w.pos + Min(end - w.pos, 7);
      r == Ok(next - w.pos) && w1.cell == w.cell && w1.size == w.size && AtEase(w1, base, data[..next], k - 1, tail)
  {
    hide RequestResponse;
    var b := data[w.pos..end];
    var next := w.pos + Min(|b|, 7);
    assert b[..Min(|b|, 7)] == data[w.pos..next] && data[..w.pos] + data[w.pos..next] == data[..next];
    var h := SegmentShake(base, w.cell, data[..w.pos], w.toggle, data[w.pos..next], false, false, maxRetries);
    SegmentShakeIsValid(base, w.cell, data[..w.pos], w.toggle, data[w.pos..next], false, false, maxRetries);
    CyclesBeginWithCycle(k, tail);
    PromptExchange(w.net, h.request, maxRetries, h.after, h.reply);
  }

  lemma PromptLastSegment(net: SdoNet, base: Server, cell: Cell, data: seq<Byte>, pos: nat, toggle: bool, k: nat,
                          tail: seq<Event>, maxRetries: nat)
    requires maxRetries >= 1 && k >= 1 && pos <= |data| <= pos + 7 && Accepts(base.od, cell, data)
    requires net == AtRest(Receiving(base, cell, data[..pos], toggle), Cycles(k) + tail)
    ensures var (n1, r) := RequestResponse(net, Segment(REQUEST_SEGMENT_DOWNLOAD, toggle, data[pos..], true), maxRetries);
      && n1 == AtRest(Receiving(base.(store := base.store[cell := data]), cell, data, !toggle), Cycles(k - 1) + tail)
      && r.Ok? && Specifier(r.value) == RESPONSE_SEGMENT_DOWNLOAD
  {
    hide RequestResponse;
    assert data[..pos] + data[pos..] == data;
    var h := SegmentShake(base, cell, data[..pos], toggle, data[pos..], true, false, maxRetries);
    SegmentShakeIsValid(base, cell, data[..pos], toggle, data[pos..], true, false, maxRetries);
    CyclesBeginWithCycle(k, tail);
    PromptExchange(net, h.request, maxRetries, h.after, h.reply);
  }

  /** Slices enough to present every byte, whatever their lengths. */
  predicate Covers(chunks: seq<nat>, n: nat) {
    |chunks| >= n && forall c :: c in chunks ==> c >= 1
  }

  /** Where a prompt download stands once all data has been taken. */
  ghost predicate AllTaken(w: Writer, e: Option<SdoError>, base: Server, cell: Cell, size: Option<nat>, data: seq<Byte>,
                           k: nat, tail: seq<Event>)
  {
    e == None && w.pos == |data| && w.cell == cell && w.size == size && !w.expedited &&
    if size.Some?
    then w.done && w.net == AtRest(w.net.server, Cycles(k) + tail) && Stored(w.net.server, base, cell, data)
    else AtEase(w, base, data, k, tail)
  }

  lemma PromptLastWrite(w: Writer, base: Server, data: seq<Byte>, end: nat, k: nat, tail: seq<Event>, maxRetries: nat)
    requires maxRetries >= 1 && k >= 1 && w.pos < |data| && end <= |data| && AtEase(w, base, data[..w.pos], k, tail)
    requires w.size == Some(|data|) && w.pos <= end && w.pos + Min(end - w.pos, 7) == |data|
    requires Accepts(base.od, w.cell, data)
    ensures var (w1, r) := Write(w, data[w.pos..end], maxRetries);
      r.Ok? && AllTaken(w1, None, base, w.cell, w.size, data, k - 1, tail)
  {
    hide RequestResponse;
    var b := data[w.pos..end];
    assert b[..Min(|b|, 7)] == data[w.pos..];
    PromptLastSegment(w.net, base, w.cell, data, w.pos, w.toggle, k, tail, maxRetries);
  }

  /** The rest of a download over a prompt network. */
  lemma {:induction false} PromptFeed(w: Writer, base: Server, data: seq<Byte>, chunks: seq<nat>, k: nat,
                                      tail: seq<Event>, maxRetries: nat) returns (left: nat)
    requires maxRetries >= 1 && w.pos <= |data| && AtEase(w, base, data[..w.pos], k, tail) && k > |data| - w.pos
    requires Covers(chunks, |data| - w.pos) && Accepts(base.od, w.cell, data)
    requires w.size == None || (w.size == Some(|data|) && w.pos < |data|)
    ensures var (w1, e) := Feed(w, data, chunks, maxRetries);
      AllTaken(w1, e, base, w.cell, w.size, data, left, tail)
    ensures left >= k - (|data| - w.pos)
    decreases |chunks|
  {
    hide Write;
    hide Accepts;
    hide RequestResponse;
    if w.pos == |data| {
      assert data[..|data|] == data;
      assert Feed(w, data, chunks, maxRetries) == (w, None);
      return k;
    }
    var end := Min(w.pos + chunks[0], |data|);
    assert chunks[0] in chunks && forall c :: c in chunks[1..] ==> c in chunks;
    var (w1, r) := Write(w, data[w.pos..end], maxRetries);
    if w.size.Some? && w.pos + Min(end - w.pos, 7) == |data| {
      PromptLastWrite(w, base, data, end, k, tail, maxRetries);
      assert Feed(w1, data, chunks[1..], maxRetries) == (w1, None);
      assert Feed(w, data, chunks, maxRetries) == (w1, None);
      return k - 1;
    }
    PromptMiddleSegment(w, base, data, end, k, tail, maxRetries);
    assert Feed(w, data, chunks, maxRetries) == Feed(w1, data, chunks[1..], maxRetries);
    left := PromptFeed(w1, base, data, chunks[1..], k - 1, tail, maxRetries);
  }

  lemma PromptClose(w: Writer, base: Server, data: seq<Byte>, k: nat, tail: seq<Event>, maxRetries: nat)
    requires maxRetries >= 1 && k >= 1 && AtEase(w, base, data, k, tail) && Accepts(base.od, w.cell, data)
    ensures var (w1, e) := Close(w, maxRetries);
      e == None && w1.pos == w.pos && Stored(w1.net.server, base, w.cell, data) &&
      w1.net == AtRest(w1.net.server, Cycles(k - 1) + tail)
  {
    hide RequestResponse;
    assert data[..|data|] == data && data[|data|..] == [];
    PromptLastSegment(w.net, base, w.cell, data, |data|, w.toggle, k, tail, maxRetries);
  }

  /** Over a prompt network every download the object accepts succeeds, however the data is sliced. */
  lemma PromptSegmentedDownload(base: Server, cell: Cell, data: seq<Byte>, sized: bool, force: bool, chunks: seq<nat>,
                                k: nat, tail: seq<Event>, maxRetries: nat) returns (left: nat)
    requires maxRetries >= 1 && IsSegmented(data, sized, force) && Accepts(base.od, cell, data)
    requires sized ==> |data| < 0x1_0000_0000
    requires Covers(chunks, |data|) && k >= |data| + 2
    ensures var (w, e) := Download(AtRest(base, Cycles(k) + tail), cell, data, sized, force, chunks, maxRetries);
      e == None && w.pos == |data| && Stored(w.net.server, base, cell, data) &&
      w.net == AtRest(w.net.server, Cycles(left) + tail)
    ensures left >= k - |data| - 2
  {
    var size := if sized then Some(|data|) else None;
    PromptOpen(base, cell, size, force, k, tail, maxRetries);
    var (w, e) := Open(AtRest(base, Cycles(k) + tail), cell, size, force, maxRetries);
    assert data[..0] == [];
    left := PromptFeedAndClose(w, base, data, chunks, k - 1, tail, maxRetries);
  }

  lemma PromptFeedAndClose(w: Writer, base: Server, data: seq<Byte>, chunks: seq<nat>, k: nat, tail: seq<Event>,
                           maxRetries: nat) returns (left: nat)
    requires maxRetries >= 1 && AtEase(w, base, [], k, tail) && k > |data|
    requires Covers(chunks, |data|) && Accepts(base.od, w.cell, data)
    requires w.size == None || w.size == Some(|data|)
    ensures var (w1, e) := FeedAndClose(w, data, chunks, maxRetries);
      e == None && w1.pos == |data| && Stored(w1.net.server, base, w.cell, data) &&
      w1.net == AtRest(w1.net.server, Cycles(left) + tail)
    ensures left >= k - |data| - 1
  {
    hide RequestResponse;
    assert data[..0] == [];
    if data == [] {
      assert Feed(w, data, chunks, maxRetries) == (w, None);
      left := k - 1;
      PromptClose(w, base, data, k, tail, maxRetries);
      return;
    }
    left := PromptFeed(w, base, data, chunks, k, tail, maxRetries);
    var (w1, e1) := Feed(w, data, chunks, maxRetries);
    if w.size.None? {
      PromptClose(w1, base, data, left, tail, maxRetries);
      left := left - 1;
    } else {
      assert Close(w1, maxRetries) == (w1, None);
    }
  }

  // ----- Up to the last segment -----

  /** Slices of one byte, then a last one. */
  function Singles(k: nat, last: nat): seq<nat> {
    if k == 0 then [last] else [1] + Singles(k - 1, last)
  }

  /** A download that has been prompt up to its last slice. */
  lemma ReachLastSlice(base: Server, cell: Cell, data: seq<Byte>, force: bool, size: nat, tail: seq<Event>,
                       maxRetries: nat) returns (w: Writer, last: Writer)
    requires maxRetries >= 1 && IsSegmented(data, true, force) && 1 <= size <= |data| < 0x1_0000_0000
    ensures var script := Cycles(|data| - size + 1) + tail;
      Open(AtRest(base, script), cell, Some(|data|), force, maxRetries) == (w, None) && !w.expedited
    ensures last.cell == cell && last.size == Some(|data|) && last.pos == |data| - size
    ensures AtEase(last, base, data[..last.pos], 0, tail)
    ensures Feed(w, data, Singles(|data| - size, size), maxRetries) == Feed(last, data, [size], maxRetries)
  {
    hide Feed;
    hide Write;
    hide RequestResponse;
    var k := |data| - size;
    PromptOpen(base, cell, Some(|data|), force, k + 1, tail, maxRetries);
    w := Open(AtRest(base, Cycles(k + 1) + tail), cell, Some(|data|), force, maxRetries).0;
    assert data[..0] == [];
    last := FeedToLastSlice(w, base, data, k, size, tail, maxRetries);
  }

  lemma {:induction false} FeedToLastSlice(w: Writer, base: Server, data: seq<Byte>, k: nat, size: nat, tail: seq<Event>,
                                           maxRetries: nat) returns (last: Writer)
    requires maxRetries >= 1 && w.size == Some(|data|) && size >= 1 && w.pos + k + size == |data|
    requires AtEase(w, base, data[..w.pos], k, tail)
    ensures last.cell == w.cell && last.size == w.size && last.pos + size == |data|
    ensures AtEase(last, base, data[..last.pos], 0, tail)
    ensures Feed(w, data, Singles(k, size), maxRetries) == Feed(last, data, [size], maxRetries)
    decreases k
  {
    hide RequestResponse;
    if k == 0 {
      return w;
    }
    assert Singles(k, size)[0] == 1 && Singles(k, size)[1..] == Singles(k - 1, size);
    PromptMiddleSegment(w, base, data, w.pos + 1, k, tail, maxRetries);
    var (w1, r) := Write(w, data[w.pos..w.pos + 1], maxRetries);
    assert Feed(w, data, Singles(k, size), maxRetries) == Feed(w1, data, Singles(k - 1, size), maxRetries);
    last := FeedToLastSlice(w1, base, data, k - 1, size, tail, maxRetries);
  }
}
