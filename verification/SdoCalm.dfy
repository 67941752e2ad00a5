/** What one transfer may leave on the network for the next one to the same cell. */
module SdoCalm {
  import opened Bits
  import opened SdoFrames
  import opened SdoNetwork
  import opened SdoService

  type SdoNet = Net<Server>

  /** The response that opens or completes a download. */
  function DownloadReply(cell: Cell): Frame {
    Multiplexed(0x60, cell, [0, 0, 0, 0])
  }

  function ToggleAbort(cell: Cell): Frame {
    ServerAbort(cell, ABORT_TOGGLE_NOT_ALTERNATED)
  }

  /** An abort code whose top byte is not 0x05 cannot be taken for the toggle abort. */
  lemma OtherAbort(cell: Cell, code: nat)
    requires (code / 256 / 256 / 256) % 256 != 0x05
    ensures ServerAbort(cell, code) != ToggleAbort(cell)
  {
    TopByte(code);
    TopByte(ABORT_TOGGLE_NOT_ALTERNATED);
    assert ServerAbort(cell, code)[4..8][3] != ToggleAbort(cell)[4..8][3];
  }

  lemma TopByte(x: nat)
    ensures ToBytes(x, 4)[3] == (x / 256 / 256 / 256) % 256
  {
    assert ToBytes(x, 4) == [x % 256] + ToBytes(x / 256, 3);
    assert ToBytes(x / 256, 3) == [x / 256 % 256] + ToBytes(x / 256 / 256, 2);
    assert ToBytes(x / 256 / 256, 2) == [x / 256 / 256 % 256] + ToBytes(x / 256 / 256 / 256, 1);
  }

  /** Answers to repeated requests of a download. */
  function Leftovers(cell: Cell): set<Frame> {
    {DownloadReply(cell), ToggleAbort(cell)}
  }

  /** Nothing under way changes the server, or is an answer to an upload. */
  ghost predicate Calm(n: SdoNet, cell: Cell) {
    && n.serve == OnRequest
    && (forall f :: f in n.Unread() ==> f in Leftovers(cell))
    && (forall f :: f in n.requests ==>
      OnRequest(n.server, f).0 == n.server && forall r :: r in OnRequest(n.server, f).1 ==> r in Leftovers(cell))
  }

  /** Nothing is under way at all. */
  ghost predicate Silent(n: SdoNet) {
    n.serve == OnRequest && n.requests == [] && n.responses == [] && n.queue == []
  }

  /** Where a download leaves the network: calm, and silent if it sends every request only once. */
  ghost predicate Settled(n: SdoNet, cell: Cell, maxRetries: nat) {
    Calm(n, cell) && (maxRetries == 1 ==> Silent(n))
  }

  lemma SingleIsSilent(h: Handshake<Server>, n: SdoNet)
    requires h.Finished(n) && h.single && h.serve == OnRequest
    ensures Silent(n)
  {
    assert n.queue + n.responses == [];
  }

  /** After a request whose copies only draw such answers. */
  lemma FinishedIsCalm(h: Handshake<Server>, n: SdoNet, cell: Cell, maxRetries: nat)
    requires h.Valid() && h.Finished(n) && h.serve == OnRequest && (h.single || h.repeat in Leftovers(cell))
    requires h.single == (maxRetries == 1)
    ensures Settled(n, cell, maxRetries)
  {
    if h.single {
      SingleIsSilent(h, n);
    }
    hide OnRequest;
    forall f | f in n.requests ensures !h.single && f == h.request {}
    forall f | f in n.Unread() ensures !h.single && f == h.repeat {}
  }

  /** A handshake that takes such answers for noise can begin. */
  lemma CalmIsReady(h: Handshake<Server>, n: SdoNet, cell: Cell)
    requires Calm(n, cell) && h.serve == OnRequest && h.before == n.server && Leftovers(cell) <= h.noise
    ensures h.Ready(n)
  {
    hide OnRequest;
  }
}
