/**
 The object store behind the SDO server (LocalNode.get_data, set_data and _find_object), with
 the parts of the object dictionary it consults. Read and write callbacks are not modelled.
 */
module ObjectStore {
  import opened Bits
  import opened Codecs
  import opened SdoFrames
  import opened Wrappers

  // Data type codes
  const BOOLEAN := 0x1
  const REAL32 := 0x8
  const REAL64 := 0x11

  /** Width of a signed integer type. */
  function SignedWidth(dataType: nat): Option<Width> {
    match dataType
    case 0x2 => Some(8)
    case 0x3 => Some(16)
    case 0x10 => Some(24)
    case 0x4 => Some(32)
    case 0x12 => Some(40)
    case 0x13 => Some(48)
    case 0x14 => Some(56)
    case 0x15 => Some(64)
    case _ => None
  }

  /** Width of an unsigned integer type. */
  function UnsignedWidth(dataType: nat): Option<Width> {
    match dataType
    case 0x5 => Some(8)
    case 0x6 => Some(16)
    case 0x16 => Some(24)
    case 0x7 => Some(32)
    case 0x18 => Some(40)
    case 0x19 => Some(48)
    case 0x1A => Some(56)
    case 0x1B => Some(64)
    case _ => None
  }

  function CodecOf(dataType: nat): Option<Codec> {
    match SignedWidth(dataType)
    case Some(w) => Some(Codec(w, true))
    case None =>
      match UnsignedWidth(dataType)
      case Some(w) => Some(Codec(w, false))
      case None => None
  }

  /** Membership in STRUCT_TYPES. */
  predicate IsFixedSize(dataType: nat) {
    dataType == BOOLEAN || IsNumber(dataType)
  }

  /** Membership in NUMBER_TYPES, which leaves out BOOLEAN. */
  predicate IsNumber(dataType: nat) {
    CodecOf(dataType).Some? || dataType == REAL32 || dataType == REAL64
  }

  /** Length of a variable in bits. */
  function BitLength(dataType: nat): nat {
    match CodecOf(dataType)
    case Some(codec) => codec.width
    case None => if dataType == REAL32 then 32 else if dataType == REAL64 then 64 else 8
  }

  /** Whether ODVariable.decode_raw accepts the bytes; it raises otherwise. */
  predicate Decodes(dataType: nat, data: seq<Byte>) {
    match CodecOf(dataType)
    case Some(codec) => codec.Unpack(data).Some?
    case None => IsFixedSize(dataType) ==> 8 * |data| == BitLength(dataType)
  }

  /** An object dictionary variable; value and initial are already encoded to bytes. */
  datatype OdVariable = OdVariable(
    dataType: nat, readable: bool, writable: bool, value: Option<seq<Byte>>, initial: Option<seq<Byte>>)

  /** A record or an array is a group of variables by subindex. */
  datatype OdEntry = Variable(variable: OdVariable) | Group(members: map<nat, OdVariable>)

  type Dictionary = map<nat, OdEntry>

  type Store = map<Cell, seq<Byte>>

  function ObjectAt(od: Dictionary, cell: Cell): Result<OdVariable, nat> {
    if cell.index !in od then Err(ABORT_NOT_IN_OD)
    else
      match od[cell.index]
      case Variable(v) => Ok(v)
      case Group(members) =>
        if cell.subindex !in members then Err(ABORT_NO_SUBINDEX) else Ok(members[cell.subindex])
  }

  function DataAt(od: Dictionary, store: Store, cell: Cell, checkReadable: bool): Result<seq<Byte>, nat> {
    match ObjectAt(od, cell)
    case Err(code) => Err(code)
    case Ok(obj) =>
      if checkReadable && !obj.readable then Err(ABORT_READ_WRITEONLY)
      else if cell in store then Ok(store[cell])
      else if obj.value.Some? then Ok(obj.value.value)
      else if obj.initial.Some? then Ok(obj.initial.value)
      else Err(ABORT_NO_SDO_CONNECTION)
  }

  function StoreAfter(od: Dictionary, store: Store, cell: Cell, data: seq<Byte>, checkWritable: bool): Result<Store, nat> {
    match ObjectAt(od, cell)
    case Err(code) => Err(code)
    case Ok(obj) =>
      if checkWritable && !obj.writable then Err(ABORT_WRITE_READONLY)
      else if IsNumber(obj.dataType) && 8 * |data| != BitLength(obj.dataType) then Err(ABORT_LENGTH_NOT_MATCHED)
      else Ok(store[cell := data])
  }

  /** A client may write these bytes to the cell. */
  predicate Accepts(od: Dictionary, cell: Cell, data: seq<Byte>) {
    match ObjectAt(od, cell)
    case Err(_) => false
    case Ok(obj) => obj.writable && (IsNumber(obj.dataType) ==> 8 * |data| == BitLength(obj.dataType))
  }

  /** Size in bytes of the number types of CiA 301, by their codes. */
  function NumberSize(dataType: nat): Option<nat> {
    if dataType in {0x02, 0x05} then Some(1)
    else if dataType in {0x03, 0x06} then Some(2)
    else if dataType in {0x10, 0x16} then Some(3)
    else if dataType in {0x04, 0x07, 0x08} then Some(4)
    else if dataType in {0x12, 0x18} then Some(5)
    else if dataType in {0x13, 0x19} then Some(6)
    else if dataType in {0x14, 0x1A} then Some(7)
    else if dataType in {0x11, 0x15, 0x1B} then Some(8)
    else None
  }

  /**
   A client may write exactly to writable objects that exist, and to numbers exactly as many bytes as they have.
   What it writes decodes, unless it is a BOOLEAN of another size than one byte.
   */
  lemma AcceptedSizes(od: Dictionary, cell: Cell, data: seq<Byte>)
    ensures Accepts(od, cell, data) <==>
      && ObjectAt(od, cell).Ok? && ObjectAt(od, cell).value.writable
      && NumberSize(ObjectAt(od, cell).value.dataType) in {None, Some(|data|)}
    ensures Accepts(od, cell, data) ==>
      var kind := ObjectAt(od, cell).value.dataType;
      Decodes(kind, data) <==> kind != 0x01 || |data| == 1
  {
    hide NumberSize;
    hide BitLength;
    hide CodecOf;
    hide Codec.Unpack;
    if ObjectAt(od, cell).Ok? {
      var kind := ObjectAt(od, cell).value.dataType;
      SizesOfTypes(kind);
      if CodecOf(kind).Some? {
        UnpackAcceptsItsSize(CodecOf(kind).value, data);
      }
    }
  }

  lemma SizesOfTypes(dataType: nat)
    ensures IsNumber(dataType) <==> NumberSize(dataType).Some?
    ensures IsNumber(dataType) ==> BitLength(dataType) == 8 * NumberSize(dataType).value
    ensures CodecOf(dataType).Some? ==> 8 * CodecOf(dataType).value.Size() == BitLength(dataType)
    ensures CodecOf(dataType).Some? && CodecOf(dataType).value.signed <==>
      dataType in {0x02, 0x03, 0x04, 0x10, 0x12, 0x13, 0x14, 0x15}
    ensures CodecOf(0x01).None? && BitLength(0x01) == 8 && !IsNumber(0x01)
  {
  }

  /** A client may read the cell. */
  predicate Readable(od: Dictionary, cell: Cell) {
    match ObjectAt(od, cell)
    case Err(_) => false
    case Ok(obj) => obj.readable
  }

  /** What was written is what is read, at that cell; every other cell reads as before. */
  lemma ReadBack(od: Dictionary, store: Store, cell: Cell, data: seq<Byte>, other: Cell)
    ensures StoreAfter(od, store, cell, data, true).Ok? <==> Accepts(od, cell, data)
    ensures Accepts(od, cell, data) ==>
      var after := StoreAfter(od, store, cell, data, true).value;
      && DataAt(od, after, cell, false) == Ok(data)
      && (Readable(od, cell) <==> DataAt(od, after, cell, true) == Ok(data))
      && (other != cell ==> DataAt(od, after, other, true) == DataAt(od, store, other, true))
  {
  }

  class LocalNode {
    const od: Dictionary
    var dataStore: Store

    constructor (od: Dictionary)
      ensures this.od == od && dataStore == map[]
    {
      this.od := od;
      dataStore := map[];
    }

    method FindObject(cell: Cell) returns (r: Result<OdVariable, nat>)
      ensures r == ObjectAt(od, cell)
    {
      if cell.index !in od {
        return Err(ABORT_NOT_IN_OD);
      }
      match od[cell.index] {
        case Variable(v) =>
          return Ok(v);
        case Group(members) =>
          if cell.subindex !in members {
            return Err(ABORT_NO_SUBINDEX);
          }
          return Ok(members[cell.subindex]);
      }
    }

    method GetData(cell: Cell, checkReadable: bool) returns (r: Result<seq<Byte>, nat>)
      ensures r == DataAt(od, dataStore, cell, checkReadable)
    {
      var found := FindObject(cell);
      if found.Err? {
        return Err(found.error);
      }
      var obj := found.value;
      if checkReadable && !obj.readable {
        return Err(ABORT_READ_WRITEONLY);
      }
      if cell in dataStore {
        return Ok(dataStore[cell]);
      }
      if obj.value.Some? {
        return Ok(obj.value.value);
      }
      if obj.initial.Some? {
        return Ok(obj.initial.value);
      }
      return Err(ABORT_NO_SDO_CONNECTION);
    }

    /** Returns the abort code raised, if any; only then is the store untouched. */
    method SetData(cell: Cell, data: seq<Byte>, checkWritable: bool) returns (raised: Option<nat>)
      modifies this
      ensures match StoreAfter(od, old(dataStore), cell, data, checkWritable)
        case Ok(store) => raised == None && dataStore == store
        case Err(code) => raised == Some(code) && dataStore == old(dataStore)
    {
      var found := FindObject(cell);
      if found.Err? {
        return Some(found.error);
      }
      var obj := found.value;
      if checkWritable && !obj.writable {
        return Some(ABORT_WRITE_READONLY);
      }
      if IsNumber(obj.dataType) && 8 * |data| != BitLength(obj.dataType) {
        return Some(ABORT_LENGTH_NOT_MATCHED);
      }
      dataStore := dataStore[cell := data];
      return None;
    }
  }
}
