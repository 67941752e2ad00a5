/** The eight-byte SDO frames of CiA 301 and their fields. */
module SdoFrames {
  import opened Bits

  type Frame = f: seq<Byte> | |f| == 8 witness [0, 0, 0, 0, 0, 0, 0, 0]

  type Index = x: int | 0 <= x < 0x1_0000

  /** An object dictionary address. */
  datatype Cell = Cell(index: Index, subindex: Byte)

  // Command specifiers, the top three bits of the first byte
  const REQUEST_SEGMENT_DOWNLOAD := 0
  const REQUEST_DOWNLOAD := 1
  const REQUEST_UPLOAD := 2
  const REQUEST_SEGMENT_UPLOAD := 3
  const REQUEST_ABORTED := 4
  const REQUEST_BLOCK_UPLOAD := 5
  const REQUEST_BLOCK_DOWNLOAD := 6

  const RESPONSE_SEGMENT_UPLOAD := 0
  const RESPONSE_SEGMENT_DOWNLOAD := 1
  const RESPONSE_UPLOAD := 2
  const RESPONSE_DOWNLOAD := 3
  const RESPONSE_ABORTED := 4
  const RESPONSE_BLOCK_UPLOAD := 6

  // Abort codes
  const ABORT_TOGGLE_NOT_ALTERNATED := 0x0503_0000
  const ABORT_TIMED_OUT := 0x0504_0000
  const ABORT_INVALID_COMMAND_SPECIFIER := 0x0504_0001
  const ABORT_READ_WRITEONLY := 0x0601_0001
  const ABORT_WRITE_READONLY := 0x0601_0002
  const ABORT_NOT_IN_OD := 0x0602_0000
  const ABORT_LENGTH_NOT_MATCHED := 0x0607_0010
  const ABORT_NO_SUBINDEX := 0x0609_0011
  const ABORT_NO_SDO_CONNECTION := 0x060A_0023
  const ABORT_GENERAL_ERROR := 0x0800_0000
  const ABORT_NO_DATA_AVAILABLE := 0x0800_0024

  /** command & 0xE0, shifted down. */
  function Specifier(f: Frame): nat {
    f[0] / 32
  }

  /** command & TOGGLE_BIT */
  predicate ToggleBit(f: Frame) {
    (f[0] / 16) % 2 == 1
  }

  /** command & EXPEDITED in an initiate frame, also BLOCK_SIZE_SPECIFIED in a block initiate frame. */
  predicate Bit1(f: Frame) {
    (f[0] / 2) % 2 == 1
  }

  /** command & SIZE_SPECIFIED in an initiate frame, command & NO_MORE_DATA in a segment. */
  predicate Bit0(f: Frame) {
    f[0] % 2 == 1
  }

  /** Unused data bytes of an expedited frame: (command >> 2) & 0x3. */
  function UnusedOfFour(f: Frame): nat {
    (f[0] / 4) % 4
  }

  /** Unused data bytes of a segment: (command >> 1) & 0x7. */
  function UnusedOfSeven(f: Frame): nat {
    (f[0] / 2) % 8
  }

  function CellOf(f: Frame): Cell {
    var low: int, high: int := f[1], f[2];
    Cell(low + 256 * high, f[3])
  }

  function Value(b: bool): nat {
    if b then 1 else 0
  }

  /** Command, index, subindex and four bytes. */
  function Multiplexed(command: Byte, cell: Cell, data: seq<Byte>): (f: Frame)
    requires |data| == 4
    ensures f[0] == command && CellOf(f) == cell && f[4..8] == data
  {
    [command, cell.index % 256, cell.index / 256, cell.subindex] + data
  }

  /** A segment: toggle, data of up to seven bytes, and whether it is the last. */
  function Segment(specifier: nat, toggle: bool, data: seq<Byte>, last: bool): (f: Frame)
    requires specifier < 8 && |data| <= 7
    ensures Specifier(f) == specifier && ToggleBit(f) == toggle && Bit0(f) == last
    ensures UnusedOfSeven(f) == 7 - |data| && f[1..|data| + 1] == data
  {
    SegmentFields(specifier, Value(toggle), 7 - |data|, Value(last));
    [32 * specifier + 16 * Value(toggle) + 2 * (7 - |data|) + Value(last)] + Padded(data, 7)
  }

  lemma SegmentFields(specifier: nat, toggle: nat, unused: nat, last: nat)
    requires specifier < 8 && toggle < 2 && unused < 8 && last < 2
    ensures var command := 32 * specifier + 16 * toggle + 2 * unused + last;
      && command < 256 && command / 32 == specifier && (command / 16) % 2 == toggle
      && (command / 2) % 8 == unused && command % 2 == last
  {
  }

  /** A frame of which only the command byte matters. */
  function CommandOnly(command: Byte): (f: Frame)
    ensures f[0] == command
  {
    [command] + Padded([], 7)
  }

  /** Fill up with zero bytes. */
  function Padded(data: seq<Byte>, n: nat): (r: seq<Byte>)
    requires |data| <= n
    ensures |r| == n && r[..|data|] == data && forall i :: |data| <= i < n ==> r[i] == 0
  {
    data + seq(n - |data|, _ => 0)
  }

  function ServerAbort(cell: Cell, code: nat): (f: Frame)
    ensures Specifier(f) == RESPONSE_ABORTED && f[0] == 0x80
  {
    Multiplexed(0x80, cell, ToBytes(code, 4))
  }

  function ClientAbort(code: nat): (f: Frame)
    ensures Specifier(f) == REQUEST_ABORTED
  {
    [0x80, 0, 0, 0] + ToBytes(code, 4)
  }

  // ----- The field extractors are the source's masks -----

  /** command & 0xE0 */
  lemma SpecifierIsMask(f: Frame)
    ensures And(0xE0, f[0]) == 32 * Specifier(f)
  {
    hide And;
    var c: nat := f[0];
    MaskAboveShift(7, 5, c);
    ShiftsOfCommand(c, 7);
    ShiftsOfCommand(c, Specifier(f));
    LowThreeBits(c / 32);
  }

  /** command & TOGGLE_BIT */
  lemma ToggleIsMask(f: Frame)
    ensures And(0x10, f[0]) == 16 * Value(ToggleBit(f))
  {
    hide And;
    var c: nat := f[0];
    MaskAboveShift(1, 4, c);
    ShiftsOfCommand(c, 1);
    ShiftsOfCommand(c, Value(ToggleBit(f)));
    LowBit(c / 16);
  }

  lemma {:induction false} MaskAboveShift(mask: nat, shift: nat, x: nat)
    requires mask > 0
    ensures And(Shl(mask, shift), x) == Shl(And(mask, Shr(x, shift)), shift) && Shl(mask, shift) > 0
    decreases shift
  {
    hide And;
    if shift > 0 {
      MaskAboveShift(mask, shift - 1, x / 2);
      var half := Shl(mask, shift - 1);
      assert Shl(mask, shift) == 2 * half && 2 * half / 2 == half;
      EvenMask(2 * half, x);
    }
  }

  lemma ShiftsOfCommand(c: nat, v: nat)
    ensures Shr(c, 4) == c / 16 && Shr(c, 5) == c / 32
    ensures Shl(v, 4) == 16 * v && Shl(v, 5) == 32 * v
  {
    assert Shl(v, 1) == 2 * v && Shl(v, 4) == 2 * Shl(v, 3);
    assert Shr(c, 5) == Shr(c / 2, 4) == Shr(c / 4, 3) == Shr(c / 8, 2) == Shr(c / 16, 1);
    assert Shr(c, 4) == Shr(c / 2, 3) == Shr(c / 4, 2) == Shr(c / 8, 1);
    assert Shl(v, 5) == 2 * Shl(v, 4) == 4 * Shl(v, 3) == 8 * Shl(v, 2) == 16 * Shl(v, 1);
  }

  /** (command >> 1) & 0x7 and (command >> 2) & 0x3 */
  lemma UnusedIsMask(f: Frame)
    ensures And(0x7, Shr(f[0], 1)) == UnusedOfSeven(f)
    ensures And(0x3, Shr(f[0], 2)) == UnusedOfFour(f)
  {
    hide And;
    var c: nat := f[0];
    LowThreeBits(c / 2);
    LowTwoBits(c / 4);
    assert Shr(c, 2) == Shr(c / 2, 1) == c / 4;
  }

  lemma EvenMask(mask: nat, x: nat)
    requires mask > 0 && mask % 2 == 0
    ensures And(mask, x) == 2 * And(mask / 2, x / 2)
  {
  }

  lemma LowBit(x: nat)
    ensures And(1, x) == x % 2
  {
    assert And(0, x / 2) == 0;
  }

  lemma LowTwoBits(x: nat)
    ensures And(3, x) == x % 4
  {
    LowBit(x / 2);
    assert And(3, x) == 2 * And(1, x / 2) + x % 2;
  }

  lemma LowThreeBits(x: nat)
    ensures And(7, x) == x % 8
  {
    LowTwoBits(x / 2);
    assert And(7, x) == 2 * And(3, x / 2) + x % 2;
  }
}
