/** The SDO server object, handler by handler, proved against its specification. */
module SdoServer {
  import opened Bits
  import opened ObjectStore
  import opened SdoFrames
  import opened Wrappers
  import Service = SdoService

  class SdoServer {
    const node: LocalNode
    var buffer: Option<seq<Byte>>
    var toggle: bool
    var cell: Option<Cell>
    var lastReceivedError: nat
    var sent: seq<Frame>  // everything put on the network

    constructor (node: LocalNode)
      requires node.dataStore == map[]
      ensures this.node == node && State() == Service.Fresh(node.od) && sent == []
    {
      this.node := node;
      buffer := None;
      toggle := false;
      cell := None;
      lastReceivedError := 0;
      sent := [];
    }

    ghost function State(): Service.Server
      reads this, node
    {
      Service.Server(node.od, node.dataStore, buffer, toggle, cell, lastReceivedError)
    }

    /** Every request moves the server to the specified state and sends the specified frames. */
    method OnRequest(f: Frame)
      requires Service.WellFormed(State())
      modifies this, node
      ensures Service.WellFormed(State())
      ensures State() == Service.OnRequest(old(State()), f).0
      ensures sent == old(sent) + Service.OnRequest(old(State()), f).1
    {
      Service.OneReply(State(), f);
      var ccs := Specifier(f);
      var raised: Option<nat> := None;
      if ccs == REQUEST_ABORTED {
        lastReceivedError := FromBytes(f[4..8]);
        return;
      }
      if ccs == REQUEST_UPLOAD || ccs == REQUEST_BLOCK_UPLOAD {
        raised := InitUpload(f);
      } else if ccs == REQUEST_SEGMENT_UPLOAD {
        raised := SegmentedUpload(f);
      } else if ccs == REQUEST_DOWNLOAD {
        raised := InitDownload(f);
      } else if ccs == REQUEST_SEGMENT_DOWNLOAD {
        raised := SegmentedDownload(f);
      } else {
        if ccs == REQUEST_BLOCK_DOWNLOAD {
          cell := Some(CellOf(f));
        }
        raised := Some(ABORT_INVALID_COMMAND_SPECIFIER);
      }
      if raised.Some? && cell.Some? {
        sent := sent + [ServerAbort(cell.value, raised.value)];
      }
    }

    method InitUpload(f: Frame) returns (raised: Option<nat>)
      modifies this`cell, this`buffer, this`toggle, this`sent
      ensures Outcome(Service.InitUpload(old(State()), f), old(sent), raised)
    {
      cell := Some(CellOf(f));
      var read := node.GetData(CellOf(f), true);
      if read.Err? {
        return Some(read.error);
      }
      var data := read.value;
      var size := |data|;
      var response: Frame;
      if size == 0 {
        return Some(ABORT_NO_DATA_AVAILABLE);
      } else if size <= 4 {
        response := Multiplexed(0x43 + 4 * (4 - size), CellOf(f), Padded(data, 4));
      } else {
        if size >= 0x1_0000_0000 {
          return Some(ABORT_GENERAL_ERROR);
        }
        buffer := Some(data);
        toggle := false;
        response := Multiplexed(0x41, CellOf(f), ToBytes(size, 4));
      }
      sent := sent + [response];
      return None;
    }

    method SegmentedUpload(f: Frame) returns (raised: Option<nat>)
      modifies this`buffer, this`toggle, this`sent
      ensures Outcome(Service.SegmentedUpload(old(State()), f), old(sent), raised)
    {
      if ToggleBit(f) != toggle {
        return Some(ABORT_TOGGLE_NOT_ALTERNATED);
      }
      if buffer.None? {
        return Some(ABORT_GENERAL_ERROR);
      }
      var data := Service.Take7(buffer.value);
      buffer := Some(buffer.value[|data|..]);
      sent := sent + [Segment(RESPONSE_SEGMENT_UPLOAD, toggle, data, buffer.value == [])];
      toggle := !toggle;
      return None;
    }

    method InitDownload(f: Frame) returns (raised: Option<nat>)
      modifies this`cell, this`buffer, this`toggle, this`sent, node
      ensures Outcome(Service.InitDownload(old(State()), f), old(sent), raised)
    {
      cell := Some(CellOf(f));
      if Bit1(f) {
        var size := if Bit0(f) then 4 - UnusedOfFour(f) else 4;
        raised := node.SetData(CellOf(f), f[4..4 + size], true);
        if raised.Some? {
          return;
        }
      } else {
        buffer := Some([]);
        toggle := false;
      }
      sent := sent + [Multiplexed(0x60, CellOf(f), [0, 0, 0, 0])];
      return None;
    }

    method SegmentedDownload(f: Frame) returns (raised: Option<nat>)
      modifies this`buffer, this`toggle, this`sent, node
      ensures Outcome(Service.SegmentedDownload(old(State()), f), old(sent), raised)
    {
      if ToggleBit(f) != toggle {
        return Some(ABORT_TOGGLE_NOT_ALTERNATED);
      }
      if buffer.None? {
        return Some(ABORT_GENERAL_ERROR);
      }
      buffer := Some(buffer.value + f[1..8 - UnusedOfSeven(f)]);
      if Bit0(f) {
        if cell.None? {
          return Some(ABORT_GENERAL_ERROR);
        }
        raised := node.SetData(cell.value, buffer.value, true);
        if raised.Some? {
          return;
        }
      }
      sent := sent + [CommandOnly(0x20 + 16 * Value(toggle))];
      toggle := !toggle;
      return None;
    }

    /** A handler reached the specified state and either sent the response or raised. */
    ghost predicate Outcome(h: Service.Handled, before: seq<Frame>, raised: Option<nat>)
      reads this, node
    {
      State() == h.server &&
      match h.response
      case Ok(response) => raised == None && sent == before + [response]
      case Err(code) => raised == Some(code) && sent == before
    }
  }
}
