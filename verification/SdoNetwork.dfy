/**
 An SDO client and its server joined by two FIFO channels that may lose or delay any frame, and
 the client's request/response exchange with its retries.

 Everything that happens outside the client is read from a script: the server answering the oldest
 request, a frame being lost, a response reaching the client's queue, and Stop, which lets the
 client act. A client that waits and finds its queue empty at a Stop has timed out. A statement
 about every script is a statement about every run, and about every moment of it, because a script
 may break off anywhere.

 The server is a state S with a function that answers one request, so that nothing here depends
 on what the requests mean.
 */
module SdoNetwork {
  import opened Bits
  import opened SdoFrames
  import opened Wrappers

  datatype Event = Serve | LoseRequest | LoseResponse | Deliver | Stop

  datatype Net<!S> = Net(
    serve: (S, Frame) -> (S, seq<Frame>), server: S,
    requests: seq<Frame>, responses: seq<Frame>, queue: seq<Frame>, script: seq<Event>)
  {
    /** Responses the client may still read, oldest first. */
    function Unread(): seq<Frame> {
      queue + responses
    }
  }

  datatype SdoError =
    | NoResponse | Aborted(code: nat) | UnexpectedResponse | ToggleMismatch | WrongObject | BadArgument

  function Happen<S>(n: Net<S>, e: Event): Net<S> {
    match e
    case Serve =>
      if n.requests == [] then n
      else
        var (server, replies) := n.serve(n.server, n.requests[0]);
        n.(server := server, requests := n.requests[1..], responses := n.responses + replies)
    case LoseRequest => if n.requests == [] then n else n.(requests := n.requests[1..])
    case LoseResponse => if n.responses == [] then n else n.(responses := n.responses[1..])
    case Deliver =>
      if n.responses == [] then n
      else n.(responses := n.responses[1..], queue := n.queue + [n.responses[0]])
    case Stop => n
  }

  /** The network runs until the client acts. */
  function Settle<S>(n: Net<S>): Net<S>
    decreases |n.script|
  {
    if n.script == [] then n
    else
      var rest := n.(script := n.script[1..]);
      if n.script[0] == Stop then rest else Settle(Happen(rest, n.script[0]))
  }

  function Send<S>(n: Net<S>, f: Frame): Net<S> {
    n.(requests := n.requests + [f])
  }

  /** SdoClient.read_response */
  function ReadResponse<S>(n: Net<S>): (Net<S>, Result<Frame, SdoError>) {
    var n1 := Settle(n);
    if n1.queue == [] then (n1, Err(NoResponse))
    else
      var f := n1.queue[0];
      (n1.(queue := n1.queue[1..]), if f[0] == 0x80 then Err(Aborted(FromBytes(f[4..8]))) else Ok(f))
  }

  /** The retry loop of SdoClient.request_response. */
  function Attempts<S>(n: Net<S>, request: Frame, retriesLeft: nat): (Net<S>, Result<Frame, SdoError>)
    requires retriesLeft >= 1
    decreases retriesLeft
  {
    var (n1, r) := ReadResponse(Send(n, request));
    if r != Err(NoResponse) then (n1, r)
    else if retriesLeft == 1 then (Send(n1, ClientAbort(ABORT_TIMED_OUT)), r)
    else Attempts(n1, request, retriesLeft - 1)
  }

  /** SdoClient.request_response: drop what is in the queue, then send until something is answered. */
  function RequestResponse<S>(n: Net<S>, request: Frame, maxRetries: nat): (Net<S>, Result<Frame, SdoError>)
    requires maxRetries >= 1
  {
    Attempts(Settle(n).(queue := []), request, maxRetries)
  }

  // ----- Handshakes -----

  /**
   One request that takes the server from one state to another. A second copy finds the server in
   the later state and only draws the repeat. Noise is what the client may read besides the reply.
   A single-shot handshake sends one copy only.
   */
  datatype Handshake<!S> = Handshake(
    serve: (S, Frame) -> (S, seq<Frame>), before: S, after: S, request: Frame, reply: Frame, repeat: Frame,
    noise: set<Frame>, single: bool)
  {
    ghost predicate Valid() {
      serve(before, request) == (after, [reply]) && reply !in noise &&
      (single || (serve(after, request) == (after, [repeat]) && repeat in noise + {reply}))
    }

    /** An old frame that still may be served before the request without doing anything. */
    ghost predicate Harmless(f: Frame) {
      serve(before, f).0 == before && forall r :: r in serve(before, f).1 ==> r in noise
    }

    /** Old harmless frames, then copies of the request. */
    ghost predicate Pending(requests: seq<Frame>) {
      (forall i :: 0 <= i < |requests| ==> requests[i] == request || Harmless(requests[i])) && CopiesLast(requests)
    }

    ghost predicate CopiesLast(requests: seq<Frame>) {
      && (forall i, j :: 0 <= i < j < |requests| && requests[i] == request ==> requests[j] == request)
      && (single ==> forall i :: 0 <= i < |requests| - 1 ==> requests[i] != request)
    }

    /** Only copies of a served request. */
    ghost predicate Copies(requests: seq<Frame>) {
      (forall i :: 0 <= i < |requests| ==> requests[i] == request) && (single ==> requests == [])
    }

    ghost predicate OnlyNoise(unread: seq<Frame>) {
      forall i :: 0 <= i < |unread| ==> unread[i] in noise
    }

    /** Noise and the reply, and nothing but repeats after the reply. */
    ghost predicate AtMostReply(unread: seq<Frame>) {
      (forall i :: 0 <= i < |unread| ==> unread[i] in noise + {reply}) &&
      (forall i, j :: 0 <= i < j < |unread| && unread[i] == reply ==> unread[j] == repeat) &&
      (single ==> forall i :: 0 <= i < |unread| - 1 ==> unread[i] != reply)
    }

    ghost predicate OnlyRepeats(unread: seq<Frame>) {
      (forall i :: 0 <= i < |unread| ==> unread[i] == repeat) && (single ==> unread == [])
    }

    ghost predicate Waiting(n: Net<S>) {
      n.serve == serve && n.server == before && Pending(n.requests) && OnlyNoise(n.Unread())
    }

    ghost predicate Answered(n: Net<S>) {
      n.serve == serve && n.server == after && Copies(n.requests) && AtMostReply(n.Unread())
    }

    /** Before the request is sent: nothing under way changes the server. */
    ghost predicate Ready(n: Net<S>) {
      n.serve == serve && n.server == before && OnlyNoise(n.Unread()) &&
      forall i :: 0 <= i < |n.requests| ==> Harmless(n.requests[i])
    }

    /** After the reply has been read. */
    ghost predicate Finished(n: Net<S>) {
      n.serve == serve && n.server == after && Copies(n.requests) && OnlyRepeats(n.Unread())
    }

    /** What an exchange may end in. */
    ghost predicate Outcome(n: Net<S>, r: Result<Frame, SdoError>) {
      match r
      case Ok(f) => f[0] != 0x80 && ((f == reply && Finished(n)) || (f in noise && UnderWay(n)))
      case Err(NoResponse) => n.serve == serve && (n.server == before || n.server == after)
      case Err(Aborted(_)) =>
        n.serve == serve &&
        ((reply[0] == 0x80 && n.server == after) ||
         ((exists f :: f in noise && f[0] == 0x80) && (n.server == before || n.server == after)))
      case Err(_) => false
    }

    ghost predicate UnderWay(n: Net<S>) {
      Waiting(n) || Answered(n)
    }
  }

  lemma RemoveOne<S>(h: Handshake<S>, u: seq<Frame>, k: nat)
    requires k < |u|
    ensures var v := u[..k] + u[k + 1..];
      (h.OnlyNoise(u) ==> h.OnlyNoise(v)) && (h.AtMostReply(u) ==> h.AtMostReply(v))
  {
    var v := u[..k] + u[k + 1..];
    assert forall i :: 0 <= i < |v| ==> v[i] == u[if i < k then i else i + 1];
  }

  lemma RemoveFirst<S>(h: Handshake<S>, requests: seq<Frame>)
    requires requests != []
    ensures h.Pending(requests) ==> h.Pending(requests[1..])
    ensures h.Copies(requests) ==> h.Copies(requests[1..])
    ensures h.Pending(requests) && requests[0] == h.request ==> h.Copies(requests[1..])
  {
    assert forall i :: 0 <= i < |requests| - 1 ==> requests[1..][i] == requests[i + 1];
  }

  /** The server answers the oldest request. */
  lemma ServingKeepsHandshake<S>(h: Handshake<S>, n: Net<S>)
    requires h.Valid() && h.UnderWay(n) && n.requests != []
    ensures h.UnderWay(Happen(n, Serve))
  {
    var n', f := Happen(n, Serve), n.requests[0];
    var replies := n.serve(n.server, f).1;
    RemoveFirst(h, n.requests);
    assert n'.Unread() == n.Unread() + replies;
    if h.Waiting(n) {
      if f == h.request {
        assert h.AtMostReply(n'.Unread());
      } else {
        assert h.Harmless(f);
        assert h.OnlyNoise(n'.Unread());
      }
    } else {
      assert f == h.request && replies == [h.repeat];
      assert h.AtMostReply(n'.Unread());
    }
  }

  lemma HappenKeepsHandshake<S>(h: Handshake<S>, n: Net<S>, e: Event)
    requires h.Valid() && h.UnderWay(n)
    ensures h.UnderWay(Happen(n, e))
  {
    var n' := Happen(n, e);
    match e {
      case Serve =>
        if n.requests != [] {
          ServingKeepsHandshake(h, n);
        }
      case LoseRequest =>
        if n.requests != [] {
          RemoveFirst(h, n.requests);
          assert n'.Unread() == n.Unread();
        }
      case LoseResponse =>
        if n.responses != [] {
          RemoveOne(h, n.Unread(), |n.queue|);
          assert n'.Unread() == n.Unread()[..|n.queue|] + n.Unread()[|n.queue| + 1..];
        }
      case Deliver =>
        if n.responses != [] {
          assert n'.Unread() == n.Unread();
        }
      case Stop =>
    }
  }

  lemma {:induction false} SettleKeepsHandshake<S>(h: Handshake<S>, n: Net<S>)
    requires h.Valid() && h.UnderWay(n)
    ensures h.UnderWay(Settle(n))
    decreases |n.script|
  {
    if n.script != [] {
      var rest := n.(script := n.script[1..]);
      assert rest.Unread() == n.Unread();
      if n.script[0] != Stop {
        HappenKeepsHandshake(h, rest, n.script[0]);
        SettleKeepsHandshake(h, Happen(rest, n.script[0]));
      }
    }
  }

  lemma {:induction false} SettleKeepsReady<S>(h: Handshake<S>, n: Net<S>)
    requires h.Ready(n)
    ensures h.Ready(Settle(n))
    decreases |n.script|
  {
    if n.script != [] {
      var rest := n.(script := n.script[1..]);
      assert rest.Unread() == n.Unread();
      if n.script[0] != Stop {
        HappenKeepsReady(h, rest, n.script[0]);
        SettleKeepsReady(h, Happen(rest, n.script[0]));
      }
    }
  }

  lemma HappenKeepsReady<S>(h: Handshake<S>, n: Net<S>, e: Event)
    requires h.Ready(n)
    ensures h.Ready(Happen(n, e))
  {
    var n' := Happen(n, e);
    if e == Serve && n.requests != [] {
      assert h.Harmless(n.requests[0]);
      assert n'.Unread() == n.Unread() + n.serve(n.server, n.requests[0]).1;
    } else if e == LoseResponse && n.responses != [] {
      RemoveOne(h, n.Unread(), |n.queue|);
      assert n'.Unread() == n.Unread()[..|n.queue|] + n.Unread()[|n.queue| + 1..];
    } else {
      assert n'.Unread() == n.Unread();
    }
  }

  /** Sending the request, for the first time or again. */
  lemma SendingStartsHandshake<S>(h: Handshake<S>, n: Net<S>)
    requires h.Valid() && (h.Ready(n) || (h.UnderWay(n) && !h.single))
    ensures h.UnderWay(Send(n, h.request))
  {
    var n' := Send(n, h.request);
    assert n'.Unread() == n.Unread();
    if h.Ready(n) {
      assert h.reply in h.serve(h.before, h.request).1;
      assert forall i :: 0 <= i < |n.requests| ==> h.Harmless(n.requests[i]) && n.requests[i] != h.request;
      assert h.Waiting(n');
    }
  }

  lemma ReplyIsLast<S>(h: Handshake<S>, u: seq<Frame>, rest: seq<Frame>)
    requires u == [h.reply] + rest && h.AtMostReply(u)
    ensures h.OnlyRepeats(rest)
  {
    assert u[0] == h.reply;
    forall i | 0 <= i < |rest| ensures rest[i] == h.repeat {
      assert u[i + 1] == rest[i];
    }
  }

  /** What reading one response tells. */
  lemma ReadingResponse<S>(h: Handshake<S>, n: Net<S>)
    requires h.Valid() && h.UnderWay(n)
    ensures var (n1, r) := ReadResponse(n);
      h.Outcome(n1, r) && (r == Err(NoResponse) ==> h.UnderWay(n1))
  {
    SettleKeepsHandshake(h, n);
    var n1 := Settle(n);
    if n1.queue != [] {
      var f := n1.queue[0];
      var n2 := n1.(queue := n1.queue[1..]);
      assert n1.Unread() == [f] + n2.Unread();
      assert n1.Unread()[0] == f;
      RemoveOne(h, n1.Unread(), 0);
      assert n2.Unread() == n1.Unread()[..0] + n1.Unread()[1..];
      assert forall i :: 0 <= i < |n2.Unread()| ==> n2.Unread()[i] == n1.Unread()[i + 1];
      if f == h.reply {
        ReplyIsLast(h, n1.Unread(), n2.Unread());
      } else {
        assert f in h.noise && h.UnderWay(n2);
      }
    }
  }

  lemma {:induction false} AttemptsOutcome<S>(h: Handshake<S>, n: Net<S>, retriesLeft: nat)
    requires retriesLeft >= 1 && h.Valid() && (h.single ==> retriesLeft == 1)
    requires h.Ready(n) || (h.UnderWay(n) && !h.single)
    ensures var (n1, r) := Attempts(n, h.request, retriesLeft);
      h.Outcome(n1, r)
    decreases retriesLeft
  {
    SendingStartsHandshake(h, n);
    ReadingResponse(h, Send(n, h.request));
    var (n1, r) := ReadResponse(Send(n, h.request));
    if r == Err(NoResponse) && retriesLeft > 1 {
      AttemptsOutcome(h, n1, retriesLeft - 1);
    }
  }

  /**
   The alternating-bit argument, once and for all: over any run, an exchange that starts from a
   quiet network ends with the reply and the server in the later state, with a piece of noise, or
   with an exception, and then the server is in one of the two states.
   */
  lemma ExchangeOutcome<S>(h: Handshake<S>, n: Net<S>, maxRetries: nat)
    requires maxRetries >= 1 && h.Valid() && (h.single ==> maxRetries == 1) && h.Ready(n)
    ensures var (n1, r) := RequestResponse(n, h.request, maxRetries);
      h.Outcome(n1, r)
  {
    SettleKeepsReady(h, n);
    var n1 := Settle(n);
    var n2 := n1.(queue := []);
    assert n1.Unread() == n1.queue + n2.Unread();
    assert forall i :: 0 <= i < |n2.Unread()| ==> n2.Unread()[i] == n1.Unread()[|n1.queue| + i];
    AttemptsOutcome(h, n2, maxRetries);
  }

  /** The reply to a request finds the network quiet again for the next one. */
  lemma NextHandshakeIsReady<S>(h: Handshake<S>, next: Handshake<S>, n: Net<S>)
    requires h.Valid() && h.Finished(n)
    requires next.serve == h.serve && next.before == h.after && (h.single || h.repeat in next.noise)
    ensures next.Ready(n)
  {
    if !h.single {
      assert next.Harmless(h.request);
    }
  }

  /** Being ready depends on the server state and the noise only. */
  lemma ReadyForAnother<S>(h: Handshake<S>, other: Handshake<S>, n: Net<S>)
    requires h.Ready(n) && other.serve == h.serve && other.before == h.before && other.noise == h.noise
    ensures other.Ready(n)
  {
    assert forall f :: h.Harmless(f) ==> other.Harmless(f);
  }

  // ----- A network that loses nothing -----

  /** The events of one exchange without loss or delay. */
  const CYCLE: seq<Event> := [Stop, Serve, Deliver, Stop]

  function Cycles(k: nat): seq<Event> {
    if k == 0 then [] else CYCLE + Cycles(k - 1)
  }

  /** Nothing is under way. */
  predicate Quiet<S>(n: Net<S>) {
    n.requests == [] && n.responses == []
  }

  /** Over a prompt network an exchange is exactly one step of the server. */
  lemma PromptExchange<S>(n: Net<S>, request: Frame, maxRetries: nat, server: S, reply: Frame)
    requires maxRetries >= 1 && Quiet(n) && CYCLE <= n.script
    requires n.serve(n.server, request) == (server, [reply])
    ensures RequestResponse(n, request, maxRetries) ==
      (n.(server := server, queue := [], script := n.script[4..]),
       if reply[0] == 0x80 then Err(Aborted(FromBytes(reply[4..8]))) else Ok(reply))
  {
    var n1 := Send(Settle(n).(queue := []), request);
    assert n.script[0] == Stop;
    assert n1.script == n.script[1..] && n1.requests == [request];
    assert n1.script[0] == n.script[1] == Serve;
    var n2 := Happen(n1.(script := n1.script[1..]), Serve);
    assert n2.script == n.script[2..] && n2.requests == [] && n2.responses == [reply];
    assert n2.script[0] == n.script[2] == Deliver;
    var n3 := Happen(n2.(script := n2.script[1..]), Deliver);
    assert n3.script == n.script[3..] && n3.responses == [] && n3.queue == [reply];
    assert n3.script[0] == n.script[3] == Stop;
    assert Settle(n3) == n3.(script := n.script[4..]);
    assert Settle(n2) == Settle(n3);
    assert Settle(n1) == Settle(n2);
  }

  // ----- One event at a time -----

  lemma StopsHere<S>(n: Net<S>, rest: seq<Event>)
    requires n.script == [Stop] + rest
    ensures Settle(n) == n.(script := rest)
  {
  }

  lemma Serves<S>(n: Net<S>, rest: seq<Event>, f: Frame, server: S, reply: Frame)
    requires n.script == [Serve] + rest && n.requests == [f] && n.serve(n.server, f) == (server, [reply])
    ensures Settle(n) ==
      Settle(n.(server := server, requests := [], responses := n.responses + [reply], script := rest))
  {
    assert Happen(n.(script := rest), Serve) ==
      n.(server := server, requests := [], responses := n.responses + [reply], script := rest);
  }

  lemma Loses<S>(n: Net<S>, rest: seq<Event>, others: seq<Frame>, f: Frame)
    requires n.script == [LoseResponse] + rest && n.responses == [f] + others
    ensures Settle(n) == Settle(n.(responses := others, script := rest))
  {
    assert Happen(n.(script := rest), LoseResponse) == n.(responses := others, script := rest);
  }

  lemma Delivers<S>(n: Net<S>, rest: seq<Event>, others: seq<Frame>, f: Frame)
    requires n.script == [Deliver] + rest && n.responses == [f] + others
    ensures Settle(n) == Settle(n.(responses := others, queue := n.queue + [f], script := rest))
  {
    assert Happen(n.(script := rest), Deliver) == n.(responses := others, queue := n.queue + [f], script := rest);
  }

  /** Every exchange that is not a timeout uses up part of the script. */
  lemma {:induction false} SettleShortensScript<S>(n: Net<S>)
    ensures |Settle(n).script| <= |n.script|
    ensures n.script != [] ==> |Settle(n).script| < |n.script|
    ensures n.script == [] ==> Settle(n) == n
    decreases |n.script|
  {
    if n.script != [] && n.script[0] != Stop {
      SettleShortensScript(Happen(n.(script := n.script[1..]), n.script[0]));
    }
  }

  lemma {:induction false} AttemptsShortenScript<S>(n: Net<S>, request: Frame, retriesLeft: nat)
    requires retriesLeft >= 1
    ensures var (n1, r) := Attempts(n, request, retriesLeft);
      |n1.script| <= |n.script| && (r.Ok? && n.queue == [] ==> |n1.script| < |n.script|)
    decreases retriesLeft
  {
    SettleShortensScript(Send(n, request));
    var (n1, r) := ReadResponse(Send(n, request));
    if r == Err(NoResponse) && retriesLeft > 1 {
      AttemptsShortenScript(n1, request, retriesLeft - 1);
    }
  }

  lemma ExchangeShortensScript<S>(n: Net<S>, request: Frame, maxRetries: nat)
    requires maxRetries >= 1
    ensures var (n1, r) := RequestResponse(n, request, maxRetries);
      |n1.script| <= |n.script| && (r.Ok? ==> |n1.script| < |n.script|)
  {
    SettleShortensScript(n);
    AttemptsShortenScript(Settle(n).(queue := []), request, maxRetries);
  }
}
