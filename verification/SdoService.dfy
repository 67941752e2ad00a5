/** The SDO server: one request frame in, at most one response frame out. */
module SdoService {
  import opened Bits
  import opened ObjectStore
  import opened SdoFrames
  import opened Wrappers

  /** The server with its node's store. The buffer serves uploads and downloads alike. */
  datatype Server = Server(
    od: Dictionary, store: Store, buffer: Option<seq<Byte>>, toggle: bool, cell: Option<Cell>, lastError: nat)

  /** A handler's outcome: the new state and the response, or the abort code of its exception. */
  datatype Handled = Handled(server: Server, response: Result<Frame, nat>)

  function InitUpload(s: Server, f: Frame): Handled {
    var s1 := s.(cell := Some(CellOf(f)));
    match DataAt(s.od, s.store, CellOf(f), true)
    case Err(code) => Handled(s1, Err(code))
    case Ok(data) =>
      var size := |data|;
      if size == 0 then Handled(s1, Err(ABORT_NO_DATA_AVAILABLE))
      else if size <= 4 then
        // RESPONSE_UPLOAD | SIZE_SPECIFIED | EXPEDITED | unused bytes
        Handled(s1, Ok(Multiplexed(0x43 + 4 * (4 - size), CellOf(f), Padded(data, 4))))
      else if size >= 0x1_0000_0000 then Handled(s1, Err(ABORT_GENERAL_ERROR))
      else
        Handled(s1.(buffer := Some(data), toggle := false), Ok(Multiplexed(0x41, CellOf(f), ToBytes(size, 4))))
  }

  function SegmentedUpload(s: Server, f: Frame): Handled {
    if ToggleBit(f) != s.toggle then Handled(s, Err(ABORT_TOGGLE_NOT_ALTERNATED))
    else if s.buffer.None? then Handled(s, Err(ABORT_GENERAL_ERROR))
    else
      var data := Take7(s.buffer.value);
      var rest := s.buffer.value[|data|..];
      Handled(s.(buffer := Some(rest), toggle := !s.toggle),
              Ok(Segment(RESPONSE_SEGMENT_UPLOAD, s.toggle, data, rest == [])))
  }

  function InitDownload(s: Server, f: Frame): Handled {
    var s1 := s.(cell := Some(CellOf(f)));
    var response := Multiplexed(0x60, CellOf(f), [0, 0, 0, 0]);
    if Bit1(f) then
      var size := if Bit0(f) then 4 - UnusedOfFour(f) else 4;
      match StoreAfter(s.od, s.store, CellOf(f), f[4..4 + size], true)
      case Err(code) => Handled(s1, Err(code))
      case Ok(store) => Handled(s1.(store := store), Ok(response))
    else
      Handled(s1.(buffer := Some([]), toggle := false), Ok(response))
  }

  /** A refused final segment stays in the buffer and leaves the toggle as it was. */
  function SegmentedDownload(s: Server, f: Frame): Handled {
    if ToggleBit(f) != s.toggle then Handled(s, Err(ABORT_TOGGLE_NOT_ALTERNATED))
    else if s.buffer.None? then Handled(s, Err(ABORT_GENERAL_ERROR))
    else
      var s1 := s.(buffer := Some(s.buffer.value + f[1..8 - UnusedOfSeven(f)]));
      var response := CommandOnly(0x20 + 16 * Value(s.toggle));
      if Bit0(f) then
        if s.cell.None? then Handled(s1, Err(ABORT_GENERAL_ERROR))
        else
          match StoreAfter(s.od, s.store, s.cell.value, s1.buffer.value, true)
          case Err(code) => Handled(s1, Err(code))
          case Ok(store) => Handled(s1.(store := store, toggle := !s.toggle), Ok(response))
      else Handled(s1.(toggle := !s.toggle), Ok(response))
  }

  function Take7(data: seq<Byte>): seq<Byte> {
    if |data| <= 7 then data else data[..7]
  }

  function Handle(s: Server, f: Frame): Handled {
    match Specifier(f)
    case 0 => SegmentedDownload(s, f)
    case 1 => InitDownload(s, f)
    case 2 => InitUpload(s, f)
    case 3 => SegmentedUpload(s, f)
    case 5 => InitUpload(s, f)  // block upload falls back to a regular upload
    case 6 => Handled(s.(cell := Some(CellOf(f))), Err(ABORT_INVALID_COMMAND_SPECIFIER))
    case _ => Handled(s, Err(ABORT_INVALID_COMMAND_SPECIFIER))
  }

  /** State after a request, and the frames sent. Without an index, even the abort fails to be sent. */
  function OnRequest(s: Server, f: Frame): (Server, seq<Frame>) {
    if Specifier(f) == REQUEST_ABORTED then (s.(lastError := FromBytes(f[4..8])), [])
    else
      var h := Handle(s, f);
      match h.response
      case Ok(response) => (h.server, [response])
      case Err(code) =>
        if h.server.cell.None? then (h.server, []) else (h.server, [ServerAbort(h.server.cell.value, code)])
  }

  /** Data is only buffered for an address. */
  predicate WellFormed(s: Server) {
    s.buffer.Some? ==> s.cell.Some?
  }

  /** State after a run of requests, and everything sent. */
  function Run(s: Server, requests: seq<Frame>): (r: (Server, seq<Frame>))
    decreases |requests|
  {
    if requests == [] then (s, [])
    else
      var (s1, replies) := OnRequest(s, requests[0]);
      var (s2, rest) := Run(s1, requests[1..]);
      (s2, replies + rest)
  }

  /** A freshly created server. */
  function Fresh(od: Dictionary): Server {
    Server(od, map[], None, false, None, 0)
  }

  // ----- One request -----

  /**
   Exactly one reply to everything but an abort, as soon as an address is known; before that, the
   segment requests and the unassigned specifier go unanswered.
   */
  lemma OneReply(s: Server, f: Frame)
    requires WellFormed(s)
    ensures WellFormed(OnRequest(s, f).0)
    ensures |OnRequest(s, f).1| ==
      if Specifier(f) == REQUEST_ABORTED || (s.cell.None? && Specifier(f) in {0, 3, 7}) then 0 else 1
    ensures s.cell.Some? ==> OnRequest(s, f).0.cell.Some?
  {
  }

  /** A segment with the wrong toggle changes nothing and is answered by an abort. */
  lemma WrongToggleChangesNothing(s: Server, f: Frame)
    requires s.cell.Some? && Specifier(f) in {REQUEST_SEGMENT_DOWNLOAD, REQUEST_SEGMENT_UPLOAD}
    requires ToggleBit(f) != s.toggle
    ensures OnRequest(s, f) == (s, [ServerAbort(s.cell.value, ABORT_TOGGLE_NOT_ALTERNATED)])
  {
  }

  /** The one write a request may make. */
  function WrittenData(s: Server, f: Frame): Option<(Cell, seq<Byte>)> {
    if Specifier(f) == REQUEST_DOWNLOAD && Bit1(f) then
      Some((CellOf(f), f[4..4 + (if Bit0(f) then 4 - UnusedOfFour(f) else 4)]))
    else if Specifier(f) == REQUEST_SEGMENT_DOWNLOAD && Bit0(f) && ToggleBit(f) == s.toggle &&
            s.buffer.Some? && s.cell.Some? then
      Some((s.cell.value, s.buffer.value + f[1..8 - UnusedOfSeven(f)]))
    else None
  }

  /** The store changes only by an expedited or final segment the object accepts, and only at its cell. */
  lemma StoreChangesOnlyByAcceptedWrites(s: Server, f: Frame)
    requires WellFormed(s)
    ensures var w := WrittenData(s, f);
      OnRequest(s, f).0.store ==
        if w.Some? && Accepts(s.od, w.value.0, w.value.1) then s.store[w.value.0 := w.value.1] else s.store
    ensures OnRequest(s, f).0.od == s.od
  {
    hide Multiplexed;
    hide Padded;
    hide ToBytes;
    hide Segment;
    hide CommandOnly;
    hide CellOf;
    hide ServerAbort;
    hide DataAt;
    hide Take7;
    hide Bit0;
    hide Bit1;
    hide ToggleBit;
    hide FromBytes;
  }

  // ----- Runs -----

  /** Every stored value of a number-typed object has its type's size. */
  ghost predicate SizesMatch(s: Server) {
    forall c :: c in s.store ==>
      match ObjectAt(s.od, c)
      case Err(_) => false
      case Ok(obj) => obj.writable && (IsNumber(obj.dataType) ==> 8 * |s.store[c]| == BitLength(obj.dataType))
  }

  /** What holds of a server stays true over any run of requests. */
  lemma {:induction false} RunKeepsInvariants(s: Server, requests: seq<Frame>)
    requires WellFormed(s) && SizesMatch(s)
    ensures var s' := Run(s, requests).0;
      WellFormed(s') && SizesMatch(s') && s'.od == s.od && (s.cell.Some? ==> s'.cell.Some?)
    ensures |Run(s, requests).1| <= |requests|
    decreases |requests|
  {
    if requests != [] {
      OneReply(s, requests[0]);
      StoreChangesOnlyByAcceptedWrites(s, requests[0]);
      RunKeepsInvariants(OnRequest(s, requests[0]).0, requests[1..]);
    }
  }

  /** Whatever clients send to a fresh server, a stored number always decodes. */
  lemma StoredNumbersDecode(od: Dictionary, requests: seq<Frame>, c: Cell)
    requires c in Run(Fresh(od), requests).0.store
    ensures var store := Run(Fresh(od), requests).0.store;
      ObjectAt(od, c).Ok? && (IsNumber(ObjectAt(od, c).value.dataType) ==> Decodes(ObjectAt(od, c).value.dataType, store[c]))
  {
    RunKeepsInvariants(Fresh(od), requests);
  }

  /** An expedited download of two bytes. */
  function TwoByteRequest(c: Cell): Frame {
    Multiplexed(0x2B, c, [1, 1, 0, 0])
  }

  /** A writable BOOLEAN object takes two bytes, which its codec does not decode. */
  lemma BooleanTakesTwoBytes(od: Dictionary, c: Cell)
    requires ObjectAt(od, c).Ok? && ObjectAt(od, c).value.writable && ObjectAt(od, c).value.dataType == BOOLEAN
    ensures var store := Run(Fresh(od), [TwoByteRequest(c)]).0.store;
      c in store && !Decodes(BOOLEAN, store[c])
  {
    hide OnRequest;
    var f := TwoByteRequest(c);
    assert CellOf(f) == c && Specifier(f) == 1 && Bit1(f) && Bit0(f) && UnusedOfFour(f) == 2;
    StoreChangesOnlyByAcceptedWrites(Fresh(od), f);
    assert [f][1..] == [];
    assert Run(Fresh(od), [f]).0.store == OnRequest(Fresh(od), f).0.store;
  }

  /**
   Whatever clients send to a fresh server, what is stored for an object decodes, if and only if the
   object is not a writable BOOLEAN: those escape the size check although their codec has a fixed size.
   */
  lemma StoredValuesDecodeIff(od: Dictionary, c: Cell)
    requires ObjectAt(od, c).Ok?
    ensures var obj := ObjectAt(od, c).value;
      (forall requests :: c in Run(Fresh(od), requests).0.store ==>
        Decodes(obj.dataType, Run(Fresh(od), requests).0.store[c])) <==>
      !(obj.writable && obj.dataType == BOOLEAN)
  {
    var obj := ObjectAt(od, c).value;
    if obj.writable && obj.dataType == BOOLEAN {
      BooleanTakesTwoBytes(od, c);
    } else {
      forall requests | c in Run(Fresh(od), requests).0.store
        ensures Decodes(obj.dataType, Run(Fresh(od), requests).0.store[c])
      {
        RunKeepsInvariants(Fresh(od), requests);
      }
    }
  }
}
