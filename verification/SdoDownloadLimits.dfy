/**
 Exactly when segmented downloads are safe. Two corners of the code fall short of the alternating-bit
 guarantee, and the conditions that exclude them are necessary as well as sufficient.
 */
module SdoDownloadLimits {
  import opened Bits
  import opened ObjectStore
  import opened SdoDownload
  import opened SdoDownloadRuns
  import opened SdoFrames
  import opened SdoNetwork
  import opened SdoService
  import opened Wrappers

  /** A run that keeps the server's buffer a prefix of the data, at most one segment ahead. */
  ghost predicate SafeRun(base: Server, cell: Cell, data: seq<Byte>, sized: bool, force: bool, maxRetries: nat,
                          script: seq<Event>, chunks: seq<nat>)
    requires maxRetries >= 1
  {
    var (w, e) := Download(AtRest(base, script), cell, data, sized, force, chunks, maxRetries);
    InStep(w.net.server, base, cell, data, w.pos) || (e.Some? && w.segments == 0 && w.net.server == base)
  }

  // ----- A refused last segment that is served twice -----

  /** The response to the last segment is lost, and the repeated segment is served. */
  const LOST_RESPONSE: seq<Event> := [Stop, Serve, LoseResponse, Stop, Serve]

  /** With nothing left in the script, no further attempt reaches the server. */
  lemma {:induction false} SilentAttempts<S>(n: Net<S>, request: Frame, retriesLeft: nat)
    requires retriesLeft >= 1 && n.script == [] && n.queue == []
    ensures Attempts(n, request, retriesLeft).0.server == n.server
    ensures Attempts(n, request, retriesLeft).1 == Err(NoResponse)
    decreases retriesLeft
  {
    if retriesLeft > 1 {
      SilentAttempts(Send(n, request), request, retriesLeft - 1);
    }
  }

  lemma NothingHappens<S>(n: Net<S>)
    requires n.script == []
    ensures Settle(n) == n
  {
  }

  /** A request is served, its response is lost, and its copy is served too. */
  lemma ServedTwice<S>(n: Net<S>, request: Frame, maxRetries: nat, s1: S, r1: Frame, s2: S, r2: Frame)
    requires maxRetries >= 2 && Quiet(n) && n.queue == [] && n.script == LOST_RESPONSE
    requires n.serve(n.server, request) == (s1, [r1]) && n.serve(s1, request) == (s2, [r2])
    ensures RequestResponse(n, request, maxRetries).0.server == s2
    ensures RequestResponse(n, request, maxRetries).1 == Err(NoResponse)
  {
    hide Settle;
    assert [] + [r1] == [r1] && [] + [r2] == [r2];
    StopsHere(n, LOST_RESPONSE[1..]);
    var m0 := n.(requests := [request], script := [Serve, LoseResponse, Stop, Serve]);
    assert Send(n.(script := LOST_RESPONSE[1..]), request) == m0;
    Serves(m0, [LoseResponse, Stop, Serve], request, s1, r1);
    var m1 := n.(server := s1, responses := [r1], script := [LoseResponse, Stop, Serve]);
    Loses(m1, [Stop, Serve], [], r1);
    var m2 := n.(server := s1, script := [Stop, Serve]);
    StopsHere(m2, [Serve]);
    var m3 := n.(server := s1, script := [Serve]);
    assert ReadResponse(m0) == (m3, Err(NoResponse));
    assert RequestResponse(n, request, maxRetries) == Attempts(m3, request, maxRetries - 1);
    var m4 := n.(server := s1, requests := [request], script := [Serve]);
    Serves(m4, [], request, s2, r2);
    var m5 := n.(server := s2, responses := [r2], script := []);
    assert Send(m3, request) == m4;
    NothingHappens(m5);
    assert ReadResponse(m4) == (m5, Err(NoResponse));
    if maxRetries > 2 {
      assert Attempts(m3, request, maxRetries - 1) == Attempts(m5, request, maxRetries - 2);
      SilentAttempts(m5, request, maxRetries - 2);
    }
  }

  /** A refused last segment is appended again when its response is lost. */
  lemma RefusedSegmentIsAppendedTwice(base: Server, cell: Cell, data: seq<Byte>, force: bool, maxRetries: nat)
    requires maxRetries >= 2 && IsSegmented(data, true, force) && 1 <= |data| < 0x1_0000_0000
    requires !Accepts(base.od, cell, data)
    ensures exists script, chunks :: !SafeRun(base, cell, data, true, force, maxRetries, script, chunks)
  {
    var script, chunks := Cycles(|data|) + LOST_RESPONSE, Singles(|data| - 1, 1);
    AppendedTwice(base, cell, data, force, maxRetries);
    var (w, e) := Download(AtRest(base, script), cell, data, true, force, chunks, maxRetries);
    assert !SafeRun(base, cell, data, true, force, maxRetries, script, chunks);
  }

  lemma AppendedTwice(base: Server, cell: Cell, data: seq<Byte>, force: bool, maxRetries: nat)
    requires maxRetries >= 2 && IsSegmented(data, true, force) && 1 <= |data| < 0x1_0000_0000
    requires !Accepts(base.od, cell, data)
    ensures var script, chunks := Cycles(|data|) + LOST_RESPONSE, Singles(|data| - 1, 1);
      var (w, e) := Download(AtRest(base, script), cell, data, true, force, chunks, maxRetries);
      e.Some? && w.segments > 0 && w.net.server.buffer.Some? && |w.net.server.buffer.value| > |data|
  {
    hide RequestResponse;
    var w, last := ReachLastSlice(base, cell, data, force, 1, LOST_RESPONSE, maxRetries);
    RefusedTwice(last, base, data, maxRetries);
    assert FeedAndClose(w, data, Singles(|data| - 1, 1), maxRetries) == Feed(last, data, [1], maxRetries);
  }

  lemma RefusedTwice(last: Writer, base: Server, data: seq<Byte>, maxRetries: nat)
    requires maxRetries >= 2 && last.size == Some(|data|) && last.pos + 1 == |data|
    requires AtEase(last, base, data[..last.pos], 0, LOST_RESPONSE) && !Accepts(base.od, last.cell, data)
    ensures var (w1, e) := Feed(last, data, [1], maxRetries);
      e.Some? && w1.segments > 0 && w1.net.server.buffer.Some? && |w1.net.server.buffer.value| > |data|
  {
    hide RequestResponse;
    hide Attempts;
    hide Settle;
    hide RequestResponse;
    var segment, pos := data[last.pos..], last.pos;
    assert data[..pos] + segment == data && segment[..|segment|] == segment;
    assert Cycles(0) + LOST_RESPONSE == LOST_RESPONSE;
    var f := Segment(REQUEST_SEGMENT_DOWNLOAD, last.toggle, segment, true);
    assert f[1..8 - UnusedOfSeven(f)] == segment;
    assert NextSegment(last, segment) == f;
    ReadBack(base.od, base.store, last.cell, data, last.cell);
    var s1 := Receiving(base, last.cell, data, last.toggle);
    var (s2, replies) := OnRequest(s1, f);
    assert OnRequest(last.net.server, f).0 == s1;
    assert s2.buffer == Some(data + segment);
    ServedTwice(last.net, f, maxRetries, s1, OnRequest(last.net.server, f).1[0], s2, replies[0]);
    assert data[pos..Min(pos + 1, |data|)] == segment;
  }

  /**
   The alternating-bit guarantee holds over all runs exactly when a refused last segment cannot be
   served twice, or carries nothing: one attempt only, or an object that accepts the data, or a
   download whose size is not announced, or no data.
   */
  lemma SafeExactlyWhenRegular(base: Server, cell: Cell, data: seq<Byte>, sized: bool, force: bool, maxRetries: nat)
    requires maxRetries >= 1 && IsSegmented(data, sized, force) && |data| < 0x1_0000_0000
    ensures Regular(base.od, cell, data, sized, maxRetries) <==>
      forall script, chunks :: SafeRun(base, cell, data, sized, force, maxRetries, script, chunks)
  {
    if Regular(base.od, cell, data, sized, maxRetries) {
      forall script, chunks ensures SafeRun(base, cell, data, sized, force, maxRetries, script, chunks) {
        SegmentedDownloadIsExactlyOnce(AtRest(base, script), cell, data, sized, force, chunks, maxRetries);
      }
    } else {
      RefusedSegmentIsAppendedTwice(base, cell, data, force, maxRetries);
    }
  }
}
