/**
 Exactly when a download that ends without exception has stored its data. Two families of runs report
 success too early or for the wrong data, and the condition that excludes them is necessary as well
 as sufficient.
 */
module SdoDownloadHonesty {
  import opened Bits
  import opened ObjectStore
  import opened SdoCalm
  import opened SdoDownload
  import opened SdoDownloadRuns
  import opened SdoFrames
  import opened SdoNetwork
  import opened SdoService
  import opened Wrappers

  // ----- An empty download that is reported too early -----

  /** The initiate request times out once, both copies are answered late, and the second answer ends the close. */
  const STALE_RESPONSE: seq<Event> := [Stop, Serve, Stop, Serve, Deliver, Stop, Stop, Deliver, Stop]

  lemma StaleInitiate(base: Server, cell: Cell, size: Option<nat>, maxRetries: nat)
    requires maxRetries >= 2
    ensures var n := AtRest(base, STALE_RESPONSE);
      RequestResponse(n, InitRequest(cell, size), maxRetries) ==
        (n.(server := Receiving(base, cell, [], false), responses := [DownloadReply(cell)], script := [Stop, Deliver, Stop]),
         Ok(DownloadReply(cell)))
  {
    hide OnRequest;
    hide RequestResponse;
    InitShakeIsValid(base, cell, size, 2);
    FirstAnswerIsLate(AtRest(base, STALE_RESPONSE), InitRequest(cell, size), Receiving(base, cell, [], false),
                      DownloadReply(cell), maxRetries);
  }

  lemma FirstAnswerIsLate<S>(n: Net<S>, f: Frame, s: S, reply: Frame, maxRetries: nat)
    requires maxRetries >= 2 && Quiet(n) && n.queue == [] && n.script == STALE_RESPONSE
    requires n.serve(n.server, f) == (s, [reply]) && n.serve(s, f) == (s, [reply]) && reply[0] != 0x80
    ensures RequestResponse(n, f, maxRetries) ==
      (n.(server := s, responses := [reply], script := [Stop, Deliver, Stop]), Ok(reply))
  {
    hide Settle;
    assert [] + [reply] == [reply];
    StopsHere(n, [Serve, Stop, Serve, Deliver, Stop, Stop, Deliver, Stop]);
    var m0 := n.(requests := [f], script := [Serve, Stop, Serve, Deliver, Stop, Stop, Deliver, Stop]);
    assert Send(n.(script := m0.script), f) == m0;
    Serves(m0, [Stop, Serve, Deliver, Stop, Stop, Deliver, Stop], f, s, reply);
    var m1 := n.(server := s, responses := [reply], script := [Stop, Serve, Deliver, Stop, Stop, Deliver, Stop]);
    StopsHere(m1, [Serve, Deliver, Stop, Stop, Deliver, Stop]);
    var m2 := m1.(script := [Serve, Deliver, Stop, Stop, Deliver, Stop]);
    assert ReadResponse(m0) == (m2, Err(NoResponse));
    assert RequestResponse(n, f, maxRetries) == Attempts(m2, f, maxRetries - 1);
    SecondAnswerIsLate(m2, f, reply, maxRetries - 1);
  }

  lemma SecondAnswerIsLate<S>(n: Net<S>, f: Frame, reply: Frame, retriesLeft: nat)
    requires retriesLeft >= 1 && n.requests == [] && n.responses == [reply] && n.queue == []
    requires n.serve(n.server, f) == (n.server, [reply]) && reply[0] != 0x80
    requires n.script == [Serve, Deliver, Stop, Stop, Deliver, Stop]
    ensures Attempts(n, f, retriesLeft) == (n.(script := [Stop, Deliver, Stop]), Ok(reply))
  {
    hide Settle;
    assert [reply] + [reply] == [reply, reply] && [] + [reply] == [reply] && [reply][1..] == [];
    var m0 := n.(requests := [f]);
    assert Send(n, f) == m0;
    Serves(m0, [Deliver, Stop, Stop, Deliver, Stop], f, n.server, reply);
    var m1 := n.(responses := [reply, reply], script := [Deliver, Stop, Stop, Deliver, Stop]);
    Delivers(m1, [Stop, Stop, Deliver, Stop], [reply], reply);
    var m2 := n.(queue := [reply], script := [Stop, Stop, Deliver, Stop]);
    StopsHere(m2, [Stop, Deliver, Stop]);
    assert ReadResponse(m0) == (n.(script := [Stop, Deliver, Stop]), Ok(reply));
  }

  /** A late response is taken for the answer to a request that has not been served. */
  lemma StaleAnswer<S>(n: Net<S>, f: Frame, stale: Frame, maxRetries: nat)
    requires maxRetries >= 1 && n.requests == [] && n.responses == [stale] && n.queue == [] && stale[0] != 0x80
    requires n.script == [Stop, Deliver, Stop]
    ensures RequestResponse(n, f, maxRetries).0.server == n.server
    ensures RequestResponse(n, f, maxRetries).1 == Ok(stale)
  {
    hide Settle;
    assert [] + [stale] == [stale] && [stale][1..] == [];
    StopsHere(n, [Deliver, Stop]);
    var m0 := n.(requests := [f], script := [Deliver, Stop]);
    assert Send(n.(script := [Deliver, Stop]), f) == m0;
    Delivers(m0, [Stop], [], stale);
    var m1 := m0.(responses := [], queue := [stale], script := [Stop]);
    StopsHere(m1, []);
    assert ReadResponse(m0) == (m0.(responses := [], script := []), Ok(stale));
  }

  /** An empty download can end without exception although nothing has been stored. */
  lemma EmptyDownloadIsReportedEarly(base: Server, cell: Cell, sized: bool, force: bool, maxRetries: nat)
    requires maxRetries >= 2
    ensures var (w, e) := Download(AtRest(base, STALE_RESPONSE), cell, [], sized, force, [], maxRetries);
      e == None && w.pos == 0 && w.net.server.store == base.store
  {
    var size := if sized then Some(0) else None;
    StaleInitiate(base, cell, size, maxRetries);
    var (w, e) := Open(AtRest(base, STALE_RESPONSE), cell, size, force, maxRetries);
    assert e == None && Feed(w, [], [], maxRetries) == (w, None);
    StaleAnswer(w.net, Segment(REQUEST_SEGMENT_DOWNLOAD, w.toggle, [], true), DownloadReply(cell), maxRetries);
  }

  // ----- A refused last segment whose copy is accepted -----

  /** A segment so many times. */
  function Copies(segment: seq<Byte>, m: nat): seq<Byte> {
    if m == 0 then [] else Copies(segment, m - 1) + segment
  }

  lemma {:induction false} CopiesFollow(received: seq<Byte>, segment: seq<Byte>, m: nat)
    ensures received + Copies(segment, m + 1) == received + segment + Copies(segment, m)
  {
    if m > 0 {
      CopiesFollow(received, segment, m - 1);
      assert Copies(segment, m + 1) == Copies(segment, m) + segment;
      assert received + Copies(segment, m + 1) == (received + Copies(segment, m)) + segment;
      assert received + segment + Copies(segment, m) == (received + segment + Copies(segment, m - 1)) + segment;
    }
  }

  /** The server after some copies of the last segment, all of them refused. */
  function Refused(base: Server, cell: Cell, received: seq<Byte>, toggle: bool, segment: seq<Byte>, copies: nat): Server {
    Receiving(base, cell, received + Copies(segment, copies), toggle)
  }

  /** One more copy: refused, it is appended and draws an abort; accepted, it is stored with all copies before it. */
  lemma OneMoreCopy(base: Server, cell: Cell, received: seq<Byte>, toggle: bool, segment: seq<Byte>, copies: nat)
    requires |segment| <= 7
    ensures var f := Segment(REQUEST_SEGMENT_DOWNLOAD, toggle, segment, true);
      var whole := received + Copies(segment, copies + 1);
      var (s, replies) := OnRequest(Refused(base, cell, received, toggle, segment, copies), f);
      if Accepts(base.od, cell, whole)
      then s == Receiving(base.(store := base.store[cell := whole]), cell, whole, !toggle) &&
           replies == [CommandOnly(0x20 + 16 * Value(toggle))]
      else s == Refused(base, cell, received, toggle, segment, copies + 1) && |replies| == 1 && replies[0][0] == 0x80
  {
    var f := Segment(REQUEST_SEGMENT_DOWNLOAD, toggle, segment, true);
    var whole := received + Copies(segment, copies + 1);
    assert f[1..8 - UnusedOfSeven(f)] == segment;
    assert received + Copies(segment, copies) + segment == whole;
    ReadBack(base.od, base.store, cell, whole, cell);
  }

  /** The responses to the first m copies are lost, that to the next one arrives. */
  function LostResponses(m: nat): seq<Event> {
    if m == 0 then [Serve, Deliver, Stop] else [Serve, LoseResponse, Stop] + LostResponses(m - 1)
  }

  lemma AnswerIsLost<S>(n: Net<S>, f: Frame, s: S, reply: Frame, rest: seq<Event>, retriesLeft: nat)
    requires retriesLeft >= 2 && Quiet(n) && n.queue == [] && n.script == [Serve, LoseResponse, Stop] + rest
    requires n.serve(n.server, f) == (s, [reply])
    ensures Attempts(n, f, retriesLeft) == Attempts(n.(server := s, script := rest), f, retriesLeft - 1)
  {
    hide Settle;
    assert [] + [reply] == [reply];
    assert n.script == [Serve] + ([LoseResponse, Stop] + rest);
    var m0 := n.(requests := [f]);
    assert Send(n, f) == m0;
    Serves(m0, [LoseResponse, Stop] + rest, f, s, reply);
    var m1 := n.(server := s, responses := [reply], script := [LoseResponse, Stop] + rest);
    assert m1.script == [LoseResponse] + ([Stop] + rest);
    Loses(m1, [Stop] + rest, [], reply);
    StopsHere(n.(server := s, script := [Stop] + rest), rest);
    assert ReadResponse(m0) == (n.(server := s, script := rest), Err(NoResponse));
  }

  lemma AnswerArrives<S>(n: Net<S>, f: Frame, s: S, reply: Frame, retriesLeft: nat)
    requires retriesLeft >= 1 && Quiet(n) && n.queue == [] && n.script == [Serve, Deliver, Stop]
    requires n.serve(n.server, f) == (s, [reply]) && reply[0] != 0x80
    ensures Attempts(n, f, retriesLeft) == (n.(server := s, script := []), Ok(reply))
  {
    hide Settle;
    assert [] + [reply] == [reply];
    var m0 := n.(requests := [f]);
    assert Send(n, f) == m0;
    Serves(m0, [Deliver, Stop], f, s, reply);
    Delivers(n.(server := s, responses := [reply], script := [Deliver, Stop]), [Stop], [], reply);
    StopsHere(n.(server := s, queue := [reply], script := [Stop]), []);
    assert ReadResponse(m0) == (n.(server := s, script := []), Ok(reply));
  }

  /** After m refused copies whose responses are lost, the next one is accepted and answered. */
  lemma {:induction false} CopyIsTaken(base: Server, cell: Cell, received: seq<Byte>, toggle: bool, segment: seq<Byte>,
                                       copies: nat, m: nat, retriesLeft: nat)
    requires |segment| <= 7 && retriesLeft > m
    requires forall i :: copies < i <= copies + m ==> !Accepts(base.od, cell, received + Copies(segment, i))
    requires Accepts(base.od, cell, received + Copies(segment, copies + m + 1))
    ensures var n := AtRest(Refused(base, cell, received, toggle, segment, copies), LostResponses(m));
      var whole := received + Copies(segment, copies + m + 1);
      Attempts(n, Segment(REQUEST_SEGMENT_DOWNLOAD, toggle, segment, true), retriesLeft) ==
        (AtRest(Receiving(base.(store := base.store[cell := whole]), cell, whole, !toggle), []),
         Ok(CommandOnly(0x20 + 16 * Value(toggle))))
    decreases m
  {
    hide Attempts;
    hide OnRequest;
    hide Accepts;
    hide Refused;
    hide Segment;
    var f := Segment(REQUEST_SEGMENT_DOWNLOAD, toggle, segment, true);
    var n := AtRest(Refused(base, cell, received, toggle, segment, copies), LostResponses(m));
    OneMoreCopy(base, cell, received, toggle, segment, copies);
    var (s, replies) := OnRequest(n.server, f);
    assert replies == [replies[0]];
    if m == 0 {
      AnswerArrives(n, f, s, replies[0], retriesLeft);
    } else {
      AnswerIsLost(n, f, s, replies[0], LostResponses(m - 1), retriesLeft);
      CopyIsTaken(base, cell, received, toggle, segment, copies + 1, m - 1, retriesLeft - 1);
    }
  }

  /**
   The object refuses the data but would take it with some copies of a last segment appended, and
   there are retries enough for that many copies.
   */
  ghost predicate TakesDuplicate(od: Dictionary, cell: Cell, data: seq<Byte>, maxRetries: nat) {
    exists m, size :: 1 <= m < maxRetries && 1 <= size <= Min(7, |data|) && DuplicateFits(od, cell, data, m, size)
  }

  predicate DuplicateFits(od: Dictionary, cell: Cell, data: seq<Byte>, m: nat, size: nat)
    requires size <= |data|
  {
    Accepts(od, cell, data + Copies(data[|data| - size..], m))
  }

  /** The fewest copies that fit. */
  lemma {:induction false} FewestCopies(od: Dictionary, cell: Cell, data: seq<Byte>, m: nat, size: nat) returns (k: nat)
    requires 1 <= m && size <= |data| && DuplicateFits(od, cell, data, m, size)
    ensures 1 <= k <= m && DuplicateFits(od, cell, data, k, size)
    ensures forall i :: 1 <= i < k ==> !DuplicateFits(od, cell, data, i, size)
  {
    if i :| 1 <= i < m && DuplicateFits(od, cell, data, i, size) {
      k := FewestCopies(od, cell, data, i, size);
    } else {
      k := m;
    }
  }

  /** The run: prompt up to the last segment, whose first m responses are lost. */
  function DuplicateRun(data: seq<Byte>, m: nat, size: nat): seq<Event>
    requires size <= |data|
  {
    Cycles(|data| - size + 1) + ([Stop] + LostResponses(m))
  }

  /** The download is reported as a success, although the object holds the data and m copies of its last segment. */
  lemma DuplicateIsStored(base: Server, cell: Cell, data: seq<Byte>, force: bool, maxRetries: nat, m: nat, size: nat)
    requires IsSegmented(data, true, force) && 1 <= size <= Min(7, |data|) && |data| < 0x1_0000_0000
    requires 1 <= m < maxRetries && !Accepts(base.od, cell, data) && DuplicateFits(base.od, cell, data, m, size)
    requires forall i :: 1 <= i < m ==> !DuplicateFits(base.od, cell, data, i, size)
    ensures var (w, e) := Download(AtRest(base, DuplicateRun(data, m, size)), cell, data, true, force,
                                   Singles(|data| - size, size), maxRetries);
      && e == None && w.pos == |data|
      && w.net.server.store == base.store[cell := data + Copies(data[|data| - size..], m)]
  {
    hide Write;
    hide Open;
    hide Accepts;
    hide RequestResponse;
    var w, last := ReachLastSlice(base, cell, data, force, size, [Stop] + LostResponses(m), maxRetries);
    LastSegmentDuplicated(last, base, data, maxRetries, m, size);
    var (w1, r) := Write(last, data[last.pos..], maxRetries);
    assert data[last.pos..Min(last.pos + size, |data|)] == data[last.pos..] && [size][1..] == [];
    assert Feed(last, data, [size], maxRetries) == (w1, None);
    assert FeedAndClose(w, data, Singles(|data| - size, size), maxRetries) == Close(w1, maxRetries);
  }

  lemma LastSegmentDuplicated(last: Writer, base: Server, data: seq<Byte>, maxRetries: nat, m: nat, size: nat)
    requires 1 <= size <= Min(7, |data|) && last.pos == |data| - size && last.size == Some(|data|)
    requires AtEase(last, base, data[..last.pos], 0, [Stop] + LostResponses(m))
    requires 1 <= m < maxRetries && !Accepts(base.od, last.cell, data) && DuplicateFits(base.od, last.cell, data, m, size)
    requires forall i :: 1 <= i < m ==> !DuplicateFits(base.od, last.cell, data, i, size)
    ensures var (w1, r) := Write(last, data[last.pos..], maxRetries);
      && r.Ok? && w1.done && w1.pos == |data|
      && w1.net.server.store == base.store[last.cell := data + Copies(data[last.pos..], m)]
  {
    hide Settle;
    hide Attempts;
    var received, segment := data[..last.pos], data[last.pos..];
    assert received + segment == data && segment[..Min(|segment|, 7)] == segment;
    forall i | 0 <= i ensures received + Copies(segment, i + 1) == data + Copies(segment, i) {
      CopiesFollow(received, segment, i);
    }
    assert received + Copies(segment, 0) == received;
    assert Cycles(0) + ([Stop] + LostResponses(m)) == [Stop] + LostResponses(m);
    StopsHere(last.net, LostResponses(m));
    forall i | 0 < i <= m ensures !Accepts(base.od, last.cell, received + Copies(segment, i)) {
      assert received + Copies(segment, i - 1 + 1) == data + Copies(segment, i - 1);
      assert i > 1 ==> !DuplicateFits(base.od, last.cell, data, i - 1, size);
    }
    assert DuplicateFits(base.od, last.cell, data, m, size);
    CopyIsTaken(base, last.cell, received, last.toggle, segment, 0, m, maxRetries);
  }

  // ----- No copy is ever accepted -----

  /** A last segment, and the server it is sent to. */
  datatype LastRequest = LastRequest(
    base: Server, cell: Cell, received: seq<Byte>, toggle: bool, segment: seq<Byte>, first: bool, maxRetries: nat)
  {
    function Frame(): Frame
      requires |segment| <= 7
    {
      Segment(REQUEST_SEGMENT_DOWNLOAD, toggle, segment, true)
    }

    function Idle(): Handshake<Server> {
      SegmentShake(base, cell, received, toggle, [], false, first, maxRetries)
    }

    /** The object refuses the data with any number of copies the client may cause. */
    ghost predicate Hopeless() {
      |segment| <= 7 && forall i :: 1 <= i <= maxRetries ==> !Accepts(base.od, cell, received + Copies(segment, i))
    }

    /** After some refused copies: old frames that do nothing, then copies; and no answer that looks like success. */
    ghost predicate UnderWay(n: SdoNet, copies: nat, old_: nat, pending: nat)
      requires |segment| <= 7
    {
      && n.serve == OnRequest && n.server == Refused(base, cell, received, toggle, segment, copies)
      && |n.requests| == old_ + pending && (copies > 0 ==> old_ == 0)
      && (forall i :: 0 <= i < old_ ==> Idle().Harmless(n.requests[i]))
      && (forall i :: old_ <= i < |n.requests| ==> n.requests[i] == Frame())
      && NoSuccess(n.Unread())
    }
  }

  /** None of these is taken for the answer to a segment. */
  ghost predicate NoSuccess(unread: seq<Frame>) {
    forall f :: f in unread ==> Specifier(f) != RESPONSE_SEGMENT_DOWNLOAD
  }

  lemma ServingIsHopeless(r: LastRequest, n: SdoNet, copies: nat, old_: nat, pending: nat)
    returns (copies1: nat, old1: nat, pending1: nat)
    requires r.Hopeless() && r.UnderWay(n, copies, old_, pending) && n.requests != [] && copies + pending <= r.maxRetries
    ensures r.UnderWay(Happen(n, Serve), copies1, old1, pending1) && copies1 + pending1 <= copies + pending
  {
    hide OnRequest;
    hide Accepts;
    hide SegmentShake;
    hide Refused;
    var n1 := Happen(n, Serve);
    var replies := OnRequest(n.server, n.requests[0]).1;
    assert n1.Unread() == n.Unread() + replies;
    assert forall i :: 0 <= i < |n.requests| - 1 ==> n1.requests[i] == n.requests[i + 1];
    if old_ > 0 {
      OldFrameIsHarmless(r, n.requests[0]);
      return copies, old_ - 1, pending;
    }
    CopyIsRefused(r, copies);
    return copies + 1, 0, pending - 1;
  }

  lemma OldFrameIsHarmless(r: LastRequest, f: Frame)
    requires |r.segment| <= 7 && r.Idle().Harmless(f)
    ensures var s := Refused(r.base, r.cell, r.received, r.toggle, r.segment, 0);
      OnRequest(s, f).0 == s && NoSuccess(OnRequest(s, f).1)
  {
    hide OnRequest;
    assert r.received + Copies(r.segment, 0) == r.received;
    assert r.Idle().before == Refused(r.base, r.cell, r.received, r.toggle, r.segment, 0);
    assert forall f :: f in r.Idle().noise ==> Specifier(f) != RESPONSE_SEGMENT_DOWNLOAD;
  }

  lemma CopyIsRefused(r: LastRequest, copies: nat)
    requires r.Hopeless() && copies < r.maxRetries
    ensures var s := Refused(r.base, r.cell, r.received, r.toggle, r.segment, copies);
      OnRequest(s, r.Frame()).0 == Refused(r.base, r.cell, r.received, r.toggle, r.segment, copies + 1) &&
      NoSuccess(OnRequest(s, r.Frame()).1)
  {
    hide OnRequest;
    OneMoreCopy(r.base, r.cell, r.received, r.toggle, r.segment, copies);
  }

  lemma HappenIsHopeless(r: LastRequest, n: SdoNet, e: Event, copies: nat, old_: nat, pending: nat)
    returns (copies1: nat, old1: nat, pending1: nat)
    requires r.Hopeless() && r.UnderWay(n, copies, old_, pending) && copies + pending <= r.maxRetries
    ensures r.UnderWay(Happen(n, e), copies1, old1, pending1) && copies1 + pending1 <= copies + pending
  {
    var n1 := Happen(n, e);
    match e {
      case Serve =>
        if n.requests != [] {
          copies1, old1, pending1 := ServingIsHopeless(r, n, copies, old_, pending);
          return;
        }
      case LoseRequest =>
        assert n1.Unread() == n.Unread();
        if n.requests != [] {
          assert forall i :: 0 <= i < |n.requests| - 1 ==> n1.requests[i] == n.requests[i + 1];
          if old_ > 0 {
            return copies, old_ - 1, pending;
          }
          return copies, 0, pending - 1;
        }
      case LoseResponse =>
        if n.responses != [] {
          var k := |n.queue|;
          assert n1.Unread() == n.Unread()[..k] + n.Unread()[k + 1..];
        }
      case Deliver =>
        assert n1.Unread() == n.Unread();
      case Stop =>
    }
    return copies, old_, pending;
  }

  lemma {:induction false} SettleIsHopeless(r: LastRequest, n: SdoNet, copies: nat, old_: nat, pending: nat)
    returns (copies1: nat, old1: nat, pending1: nat)
    requires r.Hopeless() && r.UnderWay(n, copies, old_, pending) && copies + pending <= r.maxRetries
    ensures r.UnderWay(Settle(n), copies1, old1, pending1) && copies1 + pending1 <= copies + pending
    decreases |n.script|
  {
    hide Happen;
    copies1, old1, pending1 := copies, old_, pending;
    if n.script != [] {
      var rest := n.(script := n.script[1..]);
      assert rest.Unread() == n.Unread() && r.UnderWay(rest, copies, old_, pending);
      if n.script[0] != Stop {
        copies1, old1, pending1 := HappenIsHopeless(r, rest, n.script[0], copies, old_, pending);
        HappenKeepsScript(rest, n.script[0]);
        copies1, old1, pending1 := SettleIsHopeless(r, Happen(rest, n.script[0]), copies1, old1, pending1);
      }
    }
  }

  lemma HappenKeepsScript<S>(n: Net<S>, e: Event)
    ensures Happen(n, e).script == n.script
  {
  }

  /** However often it is sent, the segment does not draw an answer that looks like success. */
  lemma {:induction false} AttemptsAreHopeless(r: LastRequest, n: SdoNet, copies: nat, old_: nat, pending: nat, left: nat)
    requires r.Hopeless() && r.UnderWay(n, copies, old_, pending) && 1 <= left && copies + pending + left <= r.maxRetries
    ensures var answer := Attempts(n, r.Frame(), left).1;
      answer.Ok? ==> Specifier(answer.value) != RESPONSE_SEGMENT_DOWNLOAD
    decreases left
  {
    hide Settle;
    var sent := Send(n, r.Frame());
    assert sent.Unread() == n.Unread() && r.UnderWay(sent, copies, old_, pending + 1);
    var copies1, old1, pending1 := SettleIsHopeless(r, sent, copies, old_, pending + 1);
    var n1 := Settle(sent);
    if n1.queue == [] {
      if left > 1 {
        AttemptsAreHopeless(r, n1, copies1, old1, pending1, left - 1);
      }
    } else {
      assert n1.Unread()[0] == n1.queue[0];
    }
  }

  /** The exchange of a last segment that no number of copies makes acceptable. */
  lemma HopelessExchange(r: LastRequest, n: SdoNet)
    requires r.maxRetries >= 1 && r.Hopeless() && r.Idle().Ready(n)
    ensures var answer := RequestResponse(n, r.Frame(), r.maxRetries).1;
      answer.Ok? ==> Specifier(answer.value) != RESPONSE_SEGMENT_DOWNLOAD
  {
    hide Settle;
    hide Attempts;
    assert r.received + Copies(r.segment, 0) == r.received == r.received + [];
    forall f | f in n.Unread() ensures Specifier(f) != RESPONSE_SEGMENT_DOWNLOAD {
      assert f in r.Idle().noise;
    }
    assert r.UnderWay(n, 0, |n.requests|, 0);
    var copies, old_, pending := SettleIsHopeless(r, n, 0, |n.requests|, 0);
    var n1 := Settle(n).(queue := []);
    assert Settle(n).Unread()[|Settle(n).queue|..] == n1.Unread();
    assert r.UnderWay(n1, copies, old_, pending);
    AttemptsAreHopeless(r, n1, copies, old_, pending, r.maxRetries);
  }

  /** Without an acceptable duplicate, a refused announced download never takes its last bytes. */
  lemma {:induction false} RefusedFeed(w: Writer, base: Server, data: seq<Byte>, chunks: seq<nat>, first: bool,
                                       maxRetries: nat)
    requires maxRetries >= 1 && Between(w, base, data, first, maxRetries) && w.pos < |data| && w.size == Some(|data|)
    requires !Accepts(base.od, w.cell, data) && !TakesDuplicate(base.od, w.cell, data, maxRetries)
    ensures var (w1, e) := Feed(w, data, chunks, maxRetries);
      e.None? ==> w1.pos < |data|
    decreases |chunks|
  {
    hide WriteSegment;
    if chunks == [] {
      return;
    }
    var end := Min(w.pos + chunks[0], |data|);
    var (w1, r) := Write(w, data[w.pos..end], maxRetries);
    assert Write(w, data[w.pos..end], maxRetries) == WriteSegment(w, data[w.pos..end], maxRetries);
    if w.pos + Min(end - w.pos, 7) == |data| {
      RefusedLastWrite(w, base, data, end, first, maxRetries);
    } else {
      WriteContinues(w, base, data, end, first, maxRetries);
      if r.Ok? {
        RefusedFeed(w1, base, data, chunks[1..], false, maxRetries);
      }
    }
  }

  lemma RefusedLastWrite(w: Writer, base: Server, data: seq<Byte>, end: nat, first: bool, maxRetries: nat)
    requires maxRetries >= 1 && Between(w, base, data, first, maxRetries) && w.pos <= end <= |data| && w.pos < |data|
    requires w.size == Some(|data|) && w.pos + Min(end - w.pos, 7) == |data|
    requires !Accepts(base.od, w.cell, data) && !TakesDuplicate(base.od, w.cell, data, maxRetries)
    ensures WriteSegment(w, data[w.pos..end], maxRetries).1.Err?
  {
    hide RequestResponse;
    var received, segment := data[..w.pos], data[w.pos..];
    assert received + segment == data && data[w.pos..end][..Min(end - w.pos, 7)] == segment;
    var r := LastRequest(base, w.cell, received, w.toggle, segment, first, maxRetries);
    forall i | 1 <= i <= maxRetries ensures !Accepts(base.od, w.cell, received + Copies(segment, i)) {
      CopiesFollow(received, segment, i - 1);
      if i == 1 {
        assert data + Copies(segment, 0) == data;
      } else {
        assert data[|data| - |segment|..] == segment;
        assert !DuplicateFits(base.od, w.cell, data, i - 1, |segment|);
      }
    }
    HopelessExchange(r, w.net);
  }

  lemma RefusedDownloadRaises(base: Server, cell: Cell, data: seq<Byte>, force: bool, maxRetries: nat,
                              script: seq<Event>, chunks: seq<nat>)
    requires maxRetries >= 1 && IsSegmented(data, true, force) && data != []
    requires !Accepts(base.od, cell, data) && !TakesDuplicate(base.od, cell, data, maxRetries)
    ensures var (w, e) := Download(AtRest(base, script), cell, data, true, force, chunks, maxRetries);
      e.None? ==> w.pos < |data|
  {
    hide RequestResponse;
    OpenOutcome(AtRest(base, script), cell, data, true, force, maxRetries);
    var (w, e) := Open(AtRest(base, script), cell, Some(|data|), force, maxRetries);
    if e.None? {
      RefusedFeed(w, base, data, chunks, true, maxRetries);
      var (w1, e1) := Feed(w, data, chunks, maxRetries);
      assert Download(AtRest(base, script), cell, data, true, force, chunks, maxRetries) ==
        FeedAndClose(w, data, chunks, maxRetries);
      assert e1.None? ==> FeedAndClose(w, data, chunks, maxRetries) == (w1, e1);
    }
  }

  // ----- The exact condition -----

  /** A run that, if it ends without exception, has stored the data. */
  ghost predicate HonestRun(base: Server, cell: Cell, data: seq<Byte>, sized: bool, force: bool, maxRetries: nat,
                            script: seq<Event>, chunks: seq<nat>)
    requires maxRetries >= 1
  {
    var (w, e) := Download(AtRest(base, script), cell, data, sized, force, chunks, maxRetries);
    e.None? && w.pos == |data| ==> Stored(w.net.server, base, cell, data)
  }

  /** The cell already holds the data and may be written. */
  predicate AlreadyStored(base: Server, cell: Cell, data: seq<Byte>) {
    Accepts(base.od, cell, data) && cell in base.store && base.store[cell] == data
  }

  /**
   When success can be trusted: with a single attempt; for data the object accepts, unless it is
   empty and not stored already; and for data the object refuses, unless it is empty or an announced
   download could be taken with a repeated last segment.
   */
  ghost predicate Trustworthy(base: Server, cell: Cell, data: seq<Byte>, sized: bool, maxRetries: nat) {
    maxRetries == 1 ||
    if Accepts(base.od, cell, data) then data != [] || AlreadyStored(base, cell, data)
    else data != [] && !(sized && TakesDuplicate(base.od, cell, data, maxRetries))
  }

  /** A download without exception has stored its data, over all runs and slicings, exactly when success can be trusted. */
  lemma HonestExactlyWhenTrustworthy(base: Server, cell: Cell, data: seq<Byte>, sized: bool, force: bool, maxRetries: nat)
    requires maxRetries >= 1 && IsSegmented(data, sized, force) && |data| < 0x1_0000_0000
    ensures Trustworthy(base, cell, data, sized, maxRetries) <==>
      forall script, chunks :: HonestRun(base, cell, data, sized, force, maxRetries, script, chunks)
  {
    if Trustworthy(base, cell, data, sized, maxRetries) {
      forall script, chunks ensures HonestRun(base, cell, data, sized, force, maxRetries, script, chunks) {
        TrustworthyRun(base, cell, data, sized, force, maxRetries, script, chunks);
      }
    } else {
      DishonestRun(base, cell, data, sized, force, maxRetries);
    }
  }

  lemma TrustworthyRun(base: Server, cell: Cell, data: seq<Byte>, sized: bool, force: bool, maxRetries: nat,
                       script: seq<Event>, chunks: seq<nat>)
    requires maxRetries >= 1 && IsSegmented(data, sized, force) && Trustworthy(base, cell, data, sized, maxRetries)
    ensures HonestRun(base, cell, data, sized, force, maxRetries, script, chunks)
  {
    hide Download;
    if Regular(base.od, cell, data, sized, maxRetries) {
      SegmentedDownloadIsExactlyOnce(AtRest(base, script), cell, data, sized, force, chunks, maxRetries);
      if AlreadyStored(base, cell, data) {
        assert base.store[cell := data] == base.store;
      }
    } else {
      RefusedDownloadRaises(base, cell, data, force, maxRetries, script, chunks);
    }
  }

  lemma DishonestRun(base: Server, cell: Cell, data: seq<Byte>, sized: bool, force: bool, maxRetries: nat)
    requires maxRetries >= 1 && IsSegmented(data, sized, force) && |data| < 0x1_0000_0000
    requires !Trustworthy(base, cell, data, sized, maxRetries)
    ensures exists script, chunks :: !HonestRun(base, cell, data, sized, force, maxRetries, script, chunks)
  {
    hide Download;
    if data == [] {
      EmptyDownloadIsReportedEarly(base, cell, sized, force, maxRetries);
      assert HonestRun(base, cell, data, sized, force, maxRetries, STALE_RESPONSE, []) ==>
        base.store == base.store[cell := data];
      assert !HonestRun(base, cell, data, sized, force, maxRetries, STALE_RESPONSE, []);
    } else {
      var m, size :| 1 <= m < maxRetries && 1 <= size <= Min(7, |data|) && DuplicateFits(base.od, cell, data, m, size);
      var k := FewestCopies(base.od, cell, data, m, size);
      DuplicateIsStored(base, cell, data, force, maxRetries, k, size);
      var script, chunks := DuplicateRun(data, k, size), Singles(|data| - size, size);
      assert !HonestRun(base, cell, data, sized, force, maxRetries, script, chunks);
    }
  }
}
