/**
 Whole sessions of one client: downloads and uploads of any cells one after another, over one script.
 A session ends at its first exception.
 */
module SdoSession {
  import opened Bits
  import opened ObjectStore
  import opened SdoCalm
  import opened SdoFrames
  import opened SdoNetwork
  import opened SdoService
  import opened Wrappers
  import D = SdoDownload
  import H = SdoDownloadHonesty
  import R = SdoDownloadRuns
  import U = SdoUpload

  /** SdoClient.download with a slicing of the writes, or SdoClient.upload. */
  datatype Transfer =
    | Download(cell: Cell, data: seq<Byte>, sized: bool, force: bool, chunks: seq<nat>)
    | Upload(cell: Cell)

  /** The network afterwards, and what an upload returned or a download wrote, if the transfer is complete. */
  function Perform(n: SdoNet, t: Transfer, maxRetries: nat): (SdoNet, Option<seq<Byte>>)
    requires maxRetries >= 1
  {
    match t
    case Download(cell, data, sized, force, chunks) =>
      var (w, e) := D.Download(n, cell, data, sized, force, chunks, maxRetries);
      (w.net, if e.None? && w.pos == |data| then Some(data) else None)
    case Upload(cell) =>
      var (r, data, e) := U.Upload(n, cell, maxRetries);
      (r.net, if e.None? then Some(data) else None)
  }

  /** All transfers up to the first one that is not complete: the network, and what the complete ones returned. */
  function Session(n: SdoNet, transfers: seq<Transfer>, maxRetries: nat): (SdoNet, seq<seq<Byte>>)
    requires maxRetries >= 1
    decreases |transfers|
  {
    if transfers == [] then (n, [])
    else
      var (n1, result) := Perform(n, transfers[0], maxRetries);
      if result.None? then (n1, [])
      else
        var (n2, results) := Session(n1, transfers[1..], maxRetries);
        (n2, [result.value] + results)
  }

  // ----- What a session ought to do -----

  function StoreWith(store: Store, t: Transfer): Store {
    if t.Download? then store[t.cell := t.data] else store
  }

  /** The store after some transfers: the downloads in order, each at its cell. */
  function Fold(store: Store, transfers: seq<Transfer>): Store
    decreases |transfers|
  {
    if transfers == [] then store else Fold(StoreWith(store, transfers[0]), transfers[1..])
  }

  /** What a transfer ought to return: an upload what the node holds at that time. */
  predicate Right(od: Dictionary, store: Store, t: Transfer, result: seq<Byte>) {
    match t
    case Download(cell, data, _, _, _) => Accepts(od, cell, data) && result == data
    case Upload(cell) => DataAt(od, store, cell, true) == Ok(result)
  }

  predicate AllRight(od: Dictionary, store: Store, transfers: seq<Transfer>, results: seq<seq<Byte>>)
    requires |results| <= |transfers|
    decreases |transfers|
  {
    results == [] ||
    (Right(od, store, transfers[0], results[0]) &&
     AllRight(od, StoreWith(store, transfers[0]), transfers[1..], results[1..]))
  }

  // ----- Clients that send every request once -----

  /** A single transfer over a silent network, with one attempt for each request. */
  lemma SingleTransfer(n: SdoNet, t: Transfer)
    requires Silent(n)
    ensures var (n1, result) := Perform(n, t, 1);
      && n1.server.od == n.server.od && n1.server.store in {n.server.store, StoreWith(n.server.store, t)}
      && (result.Some? ==>
            && Silent(n1) && n1.server.store == StoreWith(n.server.store, t)
            && Right(n.server.od, n.server.store, t, result.value))
  {
    hide D.Download;
    hide U.Upload;
    hide OnRequest;
    match t
    case Download(cell, data, sized, force, chunks) =>
      if D.IsSegmented(data, sized, force) {
        D.SegmentedDownloadIsExactlyOnce(n, cell, data, sized, force, chunks, 1);
      } else {
        D.ExpeditedDownloadIsExactlyOnce(n, cell, data, chunks, 1);
      }
    case Upload(cell) =>
      U.UploadReturnsObject(n, cell, 1);
  }

  /**
   Over every run, a client that sends every request once has done exactly the transfers that are
   complete, in order: the store is the fold of their downloads, except that the transfer that
   failed may have been done as well, and every upload has returned what the node held at that time.
   */
  lemma {:induction false} SessionIsFold(n: SdoNet, transfers: seq<Transfer>)
    requires Silent(n)
    ensures var (n1, results) := Session(n, transfers, 1);
      && |results| <= |transfers| && AllRight(n.server.od, n.server.store, transfers, results)
      && (n1.server.store == Fold(n.server.store, transfers[..|results|]) ||
          (|results| < |transfers| && n1.server.store == Fold(n.server.store, transfers[..|results| + 1])))
    decreases |transfers|
  {
    hide Perform;
    hide OnRequest;
    hide Right;
    if transfers != [] {
      var t, rest := transfers[0], transfers[1..];
      SingleTransfer(n, t);
      var (n1, result) := Perform(n, t, 1);
      if result.Some? {
        SessionIsFold(n1, rest);
        var (n2, results) := Session(n1, rest, 1);
        assert ([result.value] + results)[1..] == results;
        FoldFirst(n.server.store, transfers, |results|);
        if |results| < |rest| {
          FoldFirst(n.server.store, transfers, |results| + 1);
        }
      } else {
        FoldFirst(n.server.store, transfers, 0);
      }
    }
  }

  lemma FoldFirst(store: Store, transfers: seq<Transfer>, k: nat)
    requires k < |transfers|
    ensures Fold(store, transfers[..k + 1]) == Fold(StoreWith(store, transfers[0]), transfers[1..][..k])
    ensures Fold(store, []) == store
  {
    assert transfers[..k + 1][1..] == transfers[1..][..k];
  }

  // ----- Clients that repeat requests -----

  /** An expedited download in one slice. */
  function Expedited(cell: Cell, data: seq<Byte>): Transfer {
    Download(cell, data, true, false, [4])
  }

  /**
   With retries, a stale answer can be taken for the answer to another request: after an expedited
   download whose request was repeated, a second one is reported as complete although its request is
   never served, whatever its cell.
   */
  lemma StaleAnswerLosesWrite(base: Server, cell: Cell, data: seq<Byte>, cell2: Cell, data2: seq<Byte>, maxRetries: nat)
    requires maxRetries >= 2 && 1 <= |data| <= 4 && 1 <= |data2| <= 4 && Accepts(base.od, cell, data)
    ensures var transfers := [Expedited(cell, data), Expedited(cell2, data2)];
      var (n, results) := Session(R.AtRest(base, H.STALE_RESPONSE), transfers, maxRetries);
      results == [data, data2] && n.server.store == base.store[cell := data]
  {
    hide RequestResponse;
    hide Perform;
    var n := R.AtRest(base, H.STALE_RESPONSE);
    var n1 := FirstIsStored(base, cell, data, maxRetries);
    SecondIsLost(n1, DownloadReply(cell), cell2, data2, maxRetries);
    var transfers := [Expedited(cell, data), Expedited(cell2, data2)];
    assert transfers[1..] == [Expedited(cell2, data2)] && transfers[1..][1..] == [];
    var n2 := Perform(n1, Expedited(cell2, data2), maxRetries).0;
    assert Session(n2, [], maxRetries) == (n2, []);
    assert [Expedited(cell2, data2)][1..] == [] && [data2] + [] == [data2] && [data] + [data2] == [data, data2];
    assert Session(n1, [Expedited(cell2, data2)], maxRetries) == (n2, [data2]);
  }

  lemma FirstIsStored(base: Server, cell: Cell, data: seq<Byte>, maxRetries: nat) returns (n: SdoNet)
    requires maxRetries >= 2 && 1 <= |data| <= 4 && Accepts(base.od, cell, data)
    ensures Perform(R.AtRest(base, H.STALE_RESPONSE), Expedited(cell, data), maxRetries) == (n, Some(data))
    ensures n.server.store == base.store[cell := data]
    ensures n.requests == [] && n.queue == [] && n.responses == [DownloadReply(cell)] && n.script == [Stop, Deliver, Stop]
  {
    hide RequestResponse;
    hide OnRequest;
    var n0, h := R.AtRest(base, H.STALE_RESPONSE), D.ExpeditedShake(base, cell, data, 2);
    D.ExpeditedShakeIsValid(base, cell, data, 2);
    ReadBack(base.od, base.store, cell, data, cell);
    H.FirstAnswerIsLate(n0, h.request, h.after, h.reply, maxRetries);
    n := n0.(server := h.after, responses := [h.reply], script := [Stop, Deliver, Stop]);
    ExpeditedFeedsOnce(D.Open(n0, cell, Some(|data|), false, maxRetries).0, data, maxRetries);
  }

  lemma SecondIsLost(n: SdoNet, stale: Frame, cell: Cell, data: seq<Byte>, maxRetries: nat)
    requires maxRetries >= 2 && 1 <= |data| <= 4 && n.requests == [] && n.queue == [] && n.responses == [stale]
    requires n.script == [Stop, Deliver, Stop] && Specifier(stale) == RESPONSE_DOWNLOAD
    ensures var (n1, result) := Perform(n, Expedited(cell, data), maxRetries);
      result == Some(data) && n1.server == n.server
  {
    hide RequestResponse;
    H.StaleAnswer(n, D.ExpeditedRequest(cell, |data|, data), stale, maxRetries);
    ExpeditedFeedsOnce(D.Open(n, cell, Some(|data|), false, maxRetries).0, data, maxRetries);
  }

  /** The only slice is written at once. */
  lemma ExpeditedFeedsOnce(w: D.Writer, data: seq<Byte>, maxRetries: nat)
    requires maxRetries >= 1 && 1 <= |data| <= 4 && w.expedited && !w.done && w.pos == 0 && w.size == Some(|data|)
    ensures var (w1, r) := D.Write(w, data, maxRetries);
      r.Ok? && w1.done ==> D.Feed(w, data, [4], maxRetries) == (w1, None)
  {
    hide RequestResponse;
    assert data[0..Min(4, |data|)] == data && [4][1..] == [];
  }

  // ----- The exact condition -----

  /** A session that, if all its transfers are complete, has left the fold of its downloads. */
  ghost predicate HonestSession(base: Server, transfers: seq<Transfer>, maxRetries: nat, script: seq<Event>)
    requires maxRetries >= 1
  {
    var (n, results) := Session(R.AtRest(base, script), transfers, maxRetries);
    |results| == |transfers| ==> n.server.store == Fold(base.store, transfers)
  }

  /** On a node with an object that takes one to four bytes, sessions are honest over all runs exactly without retries. */
  lemma SessionsAreHonestIff(base: Server, cell: Cell, data: seq<Byte>, maxRetries: nat)
    requires maxRetries >= 1 && 1 <= |data| <= 4 && Accepts(base.od, cell, data)
    ensures (forall transfers, script :: HonestSession(base, transfers, maxRetries, script)) <==> maxRetries == 1
  {
    hide Session;
    if maxRetries == 1 {
      forall transfers, script ensures HonestSession(base, transfers, maxRetries, script) {
        SessionIsFold(R.AtRest(base, script), transfers);
        assert transfers[..|transfers|] == transfers;
      }
    } else {
      var other: seq<Byte> := if data == [0] then [1] else [0];
      var transfers := [Expedited(cell, data), Expedited(cell, other)];
      StaleAnswerLosesWrite(base, cell, data, cell, other, maxRetries);
      assert transfers[1..] == [Expedited(cell, other)] && transfers[1..][1..] == [];
      var store := base.store[cell := data];
      assert Fold(store[cell := other], []) == store[cell := other];
      assert Fold(store, [Expedited(cell, other)]) == store[cell := other] by {
        assert [Expedited(cell, other)][1..] == [];
      }
      assert Fold(base.store, transfers) == store[cell := other];
      assert Fold(base.store, transfers)[cell] == other && base.store[cell := data][cell] == data;
      assert !HonestSession(base, transfers, maxRetries, H.STALE_RESPONSE);
    }
  }
}
