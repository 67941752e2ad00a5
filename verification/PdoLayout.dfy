/**
 Bit layout of process data objects: variables packed back to back in one byte buffer, read and
 written through two code paths. Byte-aligned variables of whole bytes are copied; all others are
 shifted and masked inside an integer of the type's struct format, the container.
 */
module PdoLayout {
  import opened Bits
  import opened Codecs
  import opened Wrappers

  /**
   Type of a variable: an integer of any width, a BOOLEAN being an unsigned byte; or a type of so many
   bytes that is no integer, such as REAL32 and REAL64.
   */
  datatype Kind = Integer(codec: Codec) | Bytes(size: nat) {
    function Size(): nat {
      if Integer? then codec.Size() else size
    }

    predicate Signed() {
      Integer? && codec.signed
    }
  }

  /** A mapped variable: object address, position and length in bits, and type. */
  datatype Variable = Variable(index: nat, subindex: nat, offset: nat, length: nat, kind: Kind) {
    function FirstByte(): nat {
      offset / 8
    }

    function Shift(): nat {
      offset % 8
    }

    function Width(): nat {
      8 * kind.Size()
    }

    predicate OnBitPath() {
      Shift() != 0 || length % 8 != 0
    }

    /** The struct format underneath: unpack_from and pack_into use all of it, whatever the type's own width. */
    function Machine(): Codec
      requires kind.Integer?
    {
      Codec(8 * kind.codec.StructSize(), kind.codec.signed)
    }

    /** Number of bits the variable's path reads or writes, from its first byte on. */
    function Span(): nat {
      if OnBitPath() && kind.Integer? then Machine().width else Width()
    }

    predicate ContainerInside(size: nat) {
      8 * FirstByte() + Span() <= 8 * size
    }

    /** The fields the code handles for every value and whatever surrounds them. */
    predicate Sound() {
      if !OnBitPath() then length == Width()
      else kind.Integer? &&
           if kind.Signed() || Width() != Span() then Shift() + length == Span()
           else Shift() + length <= Span()
    }
  }

  // ----- The two operations -----

  /** Python's buffer[from:to] */
  function Slice(buffer: seq<Byte>, from: nat, to: nat): seq<Byte>
    requires from <= to
  {
    buffer[Min(from, |buffer|)..Min(to, |buffer|)]
  }

  /** Python's buffer[from:from + len(piece)] = piece */
  function Splice(buffer: seq<Byte>, from: nat, piece: seq<Byte>): seq<Byte> {
    buffer[..Min(from, |buffer|)] + piece + buffer[Min(from + |piece|, |buffer|)..]
  }

  /** The bytes of the variable's own size, as far as the buffer has them. */
  function Window(buffer: seq<Byte>, v: Variable): seq<Byte> {
    Slice(buffer, v.FirstByte(), v.FirstByte() + v.kind.Size())
  }

  /** The bytes of the struct format. */
  function MachineWindow(buffer: seq<Byte>, v: Variable): seq<Byte>
    requires v.kind.Integer?
  {
    Slice(buffer, v.FirstByte(), v.FirstByte() + v.Machine().Size())
  }

  /** The number the bit path cuts out of the container. */
  function FieldBits(buffer: seq<Byte>, v: Variable): int
    requires v.kind.Integer? && v.OnBitPath() && v.ContainerInside(|buffer|)
  {
    UnpackAcceptsItsSize(v.Machine(), MachineWindow(buffer, v));
    And(Shr(v.Machine().Unpack(MachineWindow(buffer, v)).value, v.Shift()), Mask(v.length))
  }

  /** What get_data makes of the bits of a signed field. */
  function Extended(bits: int, length: nat): int
    requires length > 0
  {
    if Shl(1, length - 1) < bits then Or(bits, Not(Mask(length))) else bits
  }

  /** PdoVariable.get_data, or None where the type has no integer format, or struct or the shift count raises. */
  function GetData(buffer: seq<Byte>, v: Variable): Option<seq<Byte>> {
    if v.OnBitPath() then
      if v.kind.Bytes? || !v.ContainerInside(|buffer|) || (v.kind.Signed() && v.length == 0) then None
      else
        var bits := FieldBits(buffer, v);
        v.kind.codec.Pack(if v.kind.Signed() then Extended(bits, v.length) else bits)
    else Some(Window(buffer, v))
  }

  /** The integer that goes back into the container. */
  function Merged(whole: int, value: int, v: Variable): int {
    var shifted := And(Shl(Mask(v.length), v.Shift()), Mask(v.Width()));
    var others := And(Not(shifted), Mask(v.Width()));
    Or(Shl(value, v.Shift()), And(whole, others))
  }

  /** PdoVariable.set_data: the new buffer, or None where the type has no integer format or struct raises. */
  function SetData(buffer: seq<Byte>, v: Variable, data: seq<Byte>): Option<seq<Byte>> {
    if v.OnBitPath() then
      if v.kind.Bytes? then None
      else
        var whole := v.kind.codec.Unpack(Window(buffer, v));
        var value := v.kind.codec.Unpack(data);
        if whole.None? || value.None? || !v.ContainerInside(|buffer|) then None
        else
          var merged := v.Machine().Pack(Merged(whole.value, value.value, v));
          if merged.None? then None else Some(Splice(buffer, v.FirstByte(), merged.value))
    else Some(Splice(buffer, v.FirstByte(), data))
  }

  // ----- One specification for both paths -----

  /** The bits [offset, offset + length) are replaced by the low bits of a value; nothing else changes. */
  ghost predicate Replaced(before: seq<Byte>, after: seq<Byte>, offset: nat, length: nat, value: int) {
    |after| == |before| && offset + length <= 8 * |before| &&
    forall k: nat :: k < 8 * |before| ==>
      BufferBit(after, k) == if offset <= k < offset + length then Bit(value, k - offset) else BufferBit(before, k)
  }

  /** The number a byte string of the variable's size stands for. */
  function Value(v: Variable, data: seq<Byte>): int
    requires |data| == v.kind.Size()
  {
    if v.kind.Integer? then v.kind.codec.Unpack(data).value else FromBytes(data)
  }

  /** The write succeeds and replaces the variable's own bits, nothing more and nothing less. */
  ghost predicate WritesExactly(buffer: seq<Byte>, v: Variable, data: seq<Byte>)
    requires |data| == v.kind.Size()
  {
    SetData(buffer, v, data).Some? &&
    Replaced(buffer, SetData(buffer, v, data).value, v.offset, v.length, Value(v, data))
  }

  /** The value can be told from its low bits alone. */
  predicate InField(value: int, length: nat, signed: bool) {
    if length == 0 then value == 0 else Fits(value, length, signed)
  }

  /** All bits from n on are zero, or for signed values copies of the top bit. */
  ghost predicate HighBits(x: int, n: nat, signed: bool) {
    forall k: nat :: k >= n ==> Bit(x, k) == (signed && n > 0 && Bit(x, n - 1))
  }

  // ----- Bits of the containers -----

  lemma InFieldIsHighBits(x: int, n: nat, signed: bool)
    ensures InField(x, n, signed) <==> HighBits(x, n, signed)
  {
    if InField(x, n, signed) {
      forall k: nat | k >= n ensures Bit(x, k) == (signed && n > 0 && Bit(x, n - 1)) {
        if n == 0 {
          BitOfConstant(k);
        } else if signed {
          SignedHighBits(x, n, k);
          SignedHighBits(x, n, n - 1);
        } else {
          SmallHasNoHighBits(x, n, k);
        }
      }
    }
    if HighBits(x, n, signed) {
      if signed && n > 0 {
        SignBitsAgree(x, n);
      } else {
        NoHighBitsIsSmall(x, n);
      }
    }
  }

  lemma UnpackedBits(c: Codec, bytes: seq<Byte>)
    requires |bytes| == c.Size()
    ensures c.Unpack(bytes).Some? && HighBits(c.Unpack(bytes).value, c.width, c.signed)
    ensures forall k: nat :: k < c.width ==> Bit(c.Unpack(bytes).value, k) == BufferBit(bytes, k)
  {
    var x := c.Unpack(bytes).value;
    UnpackThenPack(c, bytes);
    InFieldIsHighBits(x, c.width, c.signed);
    ToBytesPrefix(x, c.StructSize(), c.Size());
    forall k: nat | k < c.width ensures Bit(x, k) == BufferBit(bytes, k) {
      BitOfToBytes(x, c.Size(), k);
    }
  }

  lemma ValueBits(v: Variable, data: seq<Byte>)
    requires |data| == v.kind.Size()
    ensures HighBits(Value(v, data), v.Width(), v.kind.Signed())
    ensures forall k: nat :: k < v.Width() ==> Bit(Value(v, data), k) == BufferBit(data, k)
  {
    if v.kind.Integer? {
      UnpackedBits(v.kind.codec, data);
    } else {
      forall k: nat ensures Bit(FromBytes(data), k) == (k < v.Width() && BufferBit(data, k)) {
        BitOfFromBytes(data, k);
      }
    }
  }

  lemma PackedBits(c: Codec, x: int)
    requires c.Size() == c.StructSize()
    ensures c.Pack(x).Some? <==> HighBits(x, c.width, c.signed)
    ensures c.Pack(x).Some? ==> |c.Pack(x).value| == c.Size()
    ensures c.Pack(x).Some? ==> forall k: nat :: k < c.width ==> BufferBit(c.Pack(x).value, k) == Bit(x, k)
  {
    InFieldIsHighBits(x, c.width, c.signed);
    forall k: nat | k < c.width ensures BufferBit(ToBytes(x, c.Size()), k) == Bit(x, k) {
      BitOfToBytes(x, c.Size(), k);
    }
  }

  lemma SplicedBits(buffer: seq<Byte>, from: nat, piece: seq<Byte>)
    requires from + |piece| <= |buffer|
    ensures |Splice(buffer, from, piece)| == |buffer|
    ensures forall k: nat :: k < 8 * |buffer| ==>
      BufferBit(Splice(buffer, from, piece), k) ==
      if 8 * from <= k < 8 * (from + |piece|) then BufferBit(piece, k - 8 * from) else BufferBit(buffer, k)
  {
  }

  lemma MergedBits(whole: int, value: int, v: Variable, k: nat)
    ensures Bit(Merged(whole, value, v), k) <==>
      (k >= v.Shift() && Bit(value, k - v.Shift())) ||
      (k < v.Width() && Bit(whole, k) && !(v.Shift() <= k < v.Shift() + v.length))
  {
    var w, shift := v.Width(), v.Shift();
    var shifted := And(Shl(Mask(v.length), shift), Mask(w));
    var others := And(Not(shifted), Mask(w));
    BitOfOr(Shl(value, shift), And(whole, others), k);
    BitOfShl(value, shift, k);
    BitOfAnd(whole, others, k);
    BitOfAnd(Not(shifted), Mask(w), k);
    BitOfNot(shifted, k);
    BitOfAnd(Shl(Mask(v.length), shift), Mask(w), k);
    BitOfShl(Mask(v.length), shift, k);
    BitOfMask(w, k);
    if k >= shift {
      BitOfMask(v.length, k - shift);
    }
  }

  /** What the bit path puts into the container: the value shifted in, beyond the field too, over the other bits. */
  ghost predicate Overlays(merged: int, buffer: seq<Byte>, v: Variable, value: int)
    requires v.OnBitPath() && v.kind.Integer? && v.ContainerInside(|buffer|)
  {
    forall k: nat :: Bit(merged, k) <==>
      (k >= v.Shift() && Bit(value, k - v.Shift())) ||
      (k < v.Width() && BufferBit(buffer, 8 * v.FirstByte() + k) && !(v.Shift() <= k < v.Shift() + v.length))
  }

  lemma MergedOverlays(buffer: seq<Byte>, v: Variable, value: int)
    requires v.OnBitPath() && v.kind.Integer? && v.ContainerInside(|buffer|)
    ensures v.kind.codec.Unpack(Window(buffer, v)).Some?
    ensures Overlays(Merged(v.kind.codec.Unpack(Window(buffer, v)).value, value, v), buffer, v, value)
  {
    hide Bit;
    hide Merged;
    var window := Window(buffer, v);
    UnpackedBits(v.kind.codec, window);
    var whole := v.kind.codec.Unpack(window).value;
    forall k: nat ensures Bit(Merged(whole, value, v), k) <==>
      (k >= v.Shift() && Bit(value, k - v.Shift())) ||
      (k < v.Width() && BufferBit(buffer, 8 * v.FirstByte() + k) && !(v.Shift() <= k < v.Shift() + v.length))
    {
      MergedBits(whole, value, v, k);
      if k < v.Width() {
        assert window[k / 8] == buffer[v.FirstByte() + k / 8] == buffer[(8 * v.FirstByte() + k) / 8];
      }
    }
  }

  /** The container's bits are those of a number, all others are as before. */
  ghost predicate Stored(before: seq<Byte>, after: seq<Byte>, v: Variable, merged: int) {
    |after| == |before| &&
    forall k: nat :: k < 8 * |before| ==>
      var base := 8 * v.FirstByte();
      BufferBit(after, k) == if base <= k < base + v.Span() then Bit(merged, k - base) else BufferBit(before, k)
  }

  /** The bit path raises exactly when the merged number does not fit the container's format. */
  lemma BitPathStores(buffer: seq<Byte>, v: Variable, data: seq<Byte>) returns (merged: int)
    requires v.OnBitPath() && v.kind.Integer? && v.ContainerInside(|buffer|) && |data| == v.kind.Size()
    ensures Overlays(merged, buffer, v, Value(v, data))
    ensures SetData(buffer, v, data).Some? <==> HighBits(merged, v.Span(), v.kind.Signed())
    ensures SetData(buffer, v, data).Some? ==> Stored(buffer, SetData(buffer, v, data).value, v, merged)
  {
    hide Merged;
    hide HighBits;
    hide Overlays;
    hide Stored;
    hide Codec.Pack;
    hide Codec.Unpack;
    var c := v.kind.codec;
    UnpackedBits(c, data);
    MergedOverlays(buffer, v, c.Unpack(data).value);
    merged := Merged(c.Unpack(Window(buffer, v)).value, c.Unpack(data).value, v);
    PackedBits(v.Machine(), merged);
    if v.Machine().Pack(merged).Some? {
      SpliceStores(buffer, v, v.Machine().Pack(merged).value, merged);
    }
  }

  lemma SpliceStores(buffer: seq<Byte>, v: Variable, packed: seq<Byte>, merged: int)
    requires v.ContainerInside(|buffer|) && 8 * |packed| == v.Span()
    requires forall k: nat :: k < v.Span() ==> BufferBit(packed, k) == Bit(merged, k)
    ensures Stored(buffer, Splice(buffer, v.FirstByte(), packed), v, merged)
  {
    hide Splice;
    SplicedBits(buffer, v.FirstByte(), packed);
  }

  /** The bit path raises for other types than integers, and when value or container do not have their size. */
  lemma BitPathRaises(buffer: seq<Byte>, v: Variable, data: seq<Byte>)
    requires v.OnBitPath() && (v.kind.Bytes? || |data| != v.kind.Size() || !v.ContainerInside(|buffer|))
    ensures SetData(buffer, v, data).None?
  {
    hide Codec.Unpack;
    hide Codec.Pack;
    hide Merged;
    if v.kind.Integer? {
      UnpackAcceptsItsSize(v.kind.codec, data);
    }
  }

  /** The copy never raises: it puts the bytes in, however many there are. */
  lemma CopyPathStores(buffer: seq<Byte>, v: Variable, data: seq<Byte>)
    requires !v.OnBitPath() && v.offset / 8 + |data| <= |buffer|
    ensures SetData(buffer, v, data) ==
      Some(buffer[..v.offset / 8] + data + buffer[v.offset / 8 + |data|..])
  {
  }

  // ----- When a write is exact -----

  /** Written through the bit path, a value that fits its field replaces exactly the field. */
  lemma BitPathIsExact(buffer: seq<Byte>, v: Variable, data: seq<Byte>)
    requires v.OnBitPath() && v.Sound() && v.ContainerInside(|buffer|) && |data| == v.kind.Size()
    requires HighBits(Value(v, data), v.length, v.kind.Signed())
    ensures WritesExactly(buffer, v, data)
  {
    hide BufferBit;
    hide Bit;
    hide SetData;
    var w := v.Span();
    var value, shift, base := Value(v, data), v.Shift(), 8 * v.FirstByte();
    var merged := BitPathStores(buffer, v, data);
    forall k: nat | k >= w
      ensures Bit(merged, k) == (v.kind.Signed() && Bit(merged, w - 1))
    {
      assert Bit(merged, k) == Bit(value, k - shift);
    }
    var after := SetData(buffer, v, data).value;
    forall k: nat | k < 8 * |buffer|
      ensures BufferBit(after, k) ==
        if v.offset <= k < v.offset + v.length then Bit(value, k - v.offset) else BufferBit(buffer, k)
    {
      if base <= k < base + w {
        assert Bit(merged, k - base) == BufferBit(after, k);
        assert k - base >= shift ==> k - base - shift == k - v.offset;
      }
    }
  }

  lemma CopyIsExact(buffer: seq<Byte>, v: Variable, data: seq<Byte>)
    requires !v.OnBitPath() && v.Sound() && v.ContainerInside(|buffer|) && |data| == v.kind.Size()
    ensures WritesExactly(buffer, v, data)
  {
    hide Splice;
    ValueBits(v, data);
    SplicedBits(buffer, v.FirstByte(), data);
  }

  function Filled(n: nat, one: bool): (bytes: seq<Byte>)
    ensures |bytes| == n
  {
    seq(n, _ => if one then 255 else 0)
  }

  lemma FilledBits(n: nat, one: bool, k: nat)
    requires k < 8 * n
    ensures BufferBit(Filled(n, one), k) == one
  {
    FillByte();
  }

  /** A field that reaches beyond its container keeps the bits there, whatever is written. */
  lemma ExactFieldIsContained(v: Variable, data: seq<Byte>, n: nat)
    requires |data| == v.kind.Size() && v.OnBitPath()
    requires WritesExactly(Filled(n, false), v, data) && WritesExactly(Filled(n, true), v, data)
    ensures v.kind.Integer? && v.ContainerInside(n) && v.Shift() + v.length <= v.Span()
  {
    hide Bit;
    hide Merged;
    var k := 8 * v.FirstByte() + v.Span();
    if v.Shift() + v.length > v.Span() {
      var _ := BitPathStores(Filled(n, false), v, data);
      var _ := BitPathStores(Filled(n, true), v, data);
      FilledBits(n, false, k);
      FilledBits(n, true, k);
    }
  }

  /** What an exact write over a plain background puts into the container. */
  ghost predicate OverBackground(merged: int, value: int, shift: nat, length: nat, width: nat, span: nat, one: bool) {
    && (forall k: nat :: shift + length <= k < span ==> Bit(merged, k) == one)
    && (forall j: nat :: Bit(value, j) ==> Bit(merged, j + shift))
    && (forall j: nat :: j < length || j + shift >= width ==> Bit(merged, j + shift) == Bit(value, j))
  }

  lemma ExactOverBackground(v: Variable, data: seq<Byte>, n: nat, one: bool) returns (merged: int)
    requires |data| == v.kind.Size() && v.OnBitPath() && v.kind.Integer? && WritesExactly(Filled(n, one), v, data)
    requires v.ContainerInside(n) && v.Shift() + v.length <= v.Span()
    ensures HighBits(merged, v.Span(), v.kind.Signed())
    ensures OverBackground(merged, Value(v, data), v.Shift(), v.length, v.Width(), v.Span(), one)
  {
    hide BufferBit;
    hide Filled;
    hide HighBits;
    hide SetData;
    hide Bit;
    var base := 8 * v.FirstByte();
    merged := BitPathStores(Filled(n, one), v, data);
    forall k: nat | v.Shift() + v.length <= k < v.Span()
      ensures Bit(merged, k) == one
    {
      FilledBits(n, one, base + k);
      assert BufferBit(SetData(Filled(n, one), v, data).value, base + k) == Bit(merged, k);
    }
  }

  /** Two backgrounds, all zeros and all ones, already tell whether the value fits the field. */
  lemma ExactValueFits(v: Variable, data: seq<Byte>, n: nat)
    requires |data| == v.kind.Size() && v.OnBitPath() && v.kind.Integer?
    requires WritesExactly(Filled(n, false), v, data) && WritesExactly(Filled(n, true), v, data)
    requires v.ContainerInside(n) && v.Shift() + v.length <= v.Span()
    ensures v.Sound() && HighBits(Value(v, data), v.length, v.kind.Signed())
  {
    hide WritesExactly;
    hide OverBackground;
    hide HighBits;
    var zeros := ExactOverBackground(v, data, n, false);
    var ones := ExactOverBackground(v, data, n, true);
    if v.kind.Signed() {
      SignedValueFits(Value(v, data), zeros, ones, v.Shift(), v.length, v.Width(), v.Span());
    } else {
      UnsignedValueFits(Value(v, data), zeros, ones, v.Shift(), v.length, v.Width(), v.Span());
    }
  }

  lemma UnsignedValueFits(value: int, zeros: int, ones: int, shift: nat, length: nat, width: nat, span: nat)
    requires width <= span && shift + length <= span && shift < span && HighBits(zeros, span, false)
    requires OverBackground(zeros, value, shift, length, width, span, false)
    requires OverBackground(ones, value, shift, length, width, span, true)
    ensures HighBits(value, length, false) && (width < span ==> shift + length == span)
  {
    hide Bit;
    assert width < span ==>
      Bit(zeros, span - 1 - shift + shift) == Bit(value, span - 1 - shift) == Bit(ones, span - 1 - shift + shift);
    forall j: nat | j >= length ensures !Bit(value, j) {
      assert Bit(zeros, j + shift) || !Bit(value, j);
    }
  }

  lemma SignedValueFits(value: int, zeros: int, ones: int, shift: nat, length: nat, width: nat, span: nat)
    requires width <= span && shift + length <= span && shift < span
    requires HighBits(zeros, span, true) && HighBits(ones, span, true)
    requires OverBackground(zeros, value, shift, length, width, span, false)
    requires OverBackground(ones, value, shift, length, width, span, true)
    ensures shift + length == span && HighBits(value, length, true)
  {
    hide Bit;
    assert Bit(zeros, span - shift + shift) == Bit(value, span - shift) == Bit(ones, span - shift + shift);
    assert Bit(zeros, span) == Bit(zeros, span - 1) && Bit(ones, span) == Bit(ones, span - 1);
    forall j: nat | j >= length ensures Bit(value, j) == Bit(value, length - 1) {
      assert Bit(zeros, j + shift) == Bit(zeros, span - 1) == Bit(zeros, length - 1 + shift);
    }
  }

  // ----- The exact condition, for both paths -----

  /**
   A write replaces exactly the variable's own bits, whatever surrounds them, if and only if the
   field is sound, the value fits the field, and the container lies inside the buffer. On the bit
   path a field of a signed type, or of one narrower than its struct format, is sound only at the top
   of its container; an aligned field only when the mapped length is the length of the type.
   */
  lemma WriteIsExactIff(v: Variable, data: seq<Byte>, n: nat)
    requires |data| == v.kind.Size()
    ensures (forall buffer: seq<Byte> :: |buffer| == n ==> WritesExactly(buffer, v, data)) <==>
            v.Sound() && InField(Value(v, data), v.length, v.kind.Signed()) && v.ContainerInside(n)
  {
    hide WritesExactly;
    InFieldIsHighBits(Value(v, data), v.length, v.kind.Signed());
    if v.Sound() && InField(Value(v, data), v.length, v.kind.Signed()) && v.ContainerInside(n) {
      forall buffer: seq<Byte> | |buffer| == n ensures WritesExactly(buffer, v, data) {
        if v.OnBitPath() {
          BitPathIsExact(buffer, v, data);
        } else {
          CopyIsExact(buffer, v, data);
        }
      }
    }
    if forall buffer: seq<Byte> :: |buffer| == n ==> WritesExactly(buffer, v, data) {
      assert WritesExactly(Filled(n, false), v, data) && WritesExactly(Filled(n, true), v, data);
      if v.OnBitPath() {
        ExactFieldIsContained(v, data, n);
        ExactValueFits(v, data, n);
      } else {
        ExactCopyIsWhole(v, data, n);
      }
    }
  }

  /** A copy writes all bytes of the type, however long the field is. */
  lemma ExactCopyIsWhole(v: Variable, data: seq<Byte>, n: nat)
    requires |data| == v.kind.Size() && !v.OnBitPath()
    requires WritesExactly(Filled(n, false), v, data) && WritesExactly(Filled(n, true), v, data)
    ensures v.Sound() && v.ContainerInside(n) && HighBits(Value(v, data), v.length, v.kind.Signed())
  {
    hide Bit;
    var w, from := v.Width(), v.FirstByte();
    ValueBits(v, data);
    if v.length != w {
      // The first bit that is in the field but not copied, or copied but not in the field
      var k := Min(v.length, w);
      SplicedBits(Filled(n, false), from, data);
      SplicedBits(Filled(n, true), from, data);
      FilledBits(n, false, 8 * from + k);
      FilledBits(n, true, 8 * from + k);
    }
  }

  // ----- Reading back -----

  /** The variable's own bits are the low bits of a value. */
  ghost predicate Holds(buffer: seq<Byte>, v: Variable, value: int) {
    v.offset + v.length <= 8 * |buffer| &&
    forall k: nat :: k < v.length ==> BufferBit(buffer, v.offset + k) == Bit(value, k)
  }

  lemma FieldBitsAreHeld(buffer: seq<Byte>, v: Variable, value: int)
    requires v.kind.Integer? && v.OnBitPath() && v.ContainerInside(|buffer|)
    requires v.Shift() + v.length <= v.Span() && Holds(buffer, v, value)
    ensures forall k: nat :: Bit(FieldBits(buffer, v), k) == (k < v.length && Bit(value, k))
  {
    hide Bit;
    hide BufferBit;
    hide MachineWindow;
    var window := MachineWindow(buffer, v);
    UnpackAcceptsItsSize(v.Machine(), window);
    MachineWindowBits(buffer, v);
    UnpackedBits(v.Machine(), window);
    var whole := v.Machine().Unpack(window).value;
    forall k: nat ensures Bit(FieldBits(buffer, v), k) == (k < v.length && Bit(value, k)) {
      BitOfAnd(Shr(whole, v.Shift()), Mask(v.length), k);
      BitOfShr(whole, v.Shift(), k);
      BitOfMask(v.length, k);
      if k < v.length {
        assert Bit(whole, v.Shift() + k) == BufferBit(window, v.Shift() + k) == BufferBit(buffer, v.offset + k);
      }
    }
  }

  lemma MachineWindowBits(buffer: seq<Byte>, v: Variable)
    requires v.kind.Integer? && v.OnBitPath() && v.ContainerInside(|buffer|)
    ensures |MachineWindow(buffer, v)| == v.Machine().Size()
    ensures forall j: nat :: j < v.Span() ==>
      BufferBit(MachineWindow(buffer, v), j) == BufferBit(buffer, 8 * v.FirstByte() + j)
  {
  }

  /** The strict comparison misses exactly the smallest number of the field: it comes out positive. */
  lemma ExtendedIsValue(bits: int, value: int, length: nat)
    requires length > 0 && Fits(value, length, true)
    requires forall k: nat :: Bit(bits, k) == (k < length && Bit(value, k))
    ensures Extended(bits, length) == if value == -Pow2(length - 1) then Pow2(length - 1) else value
  {
    ShlOneIsPow2(length - 1);
    if value < 0 {
      SignedBits(bits, value, length);
      if value != -Pow2(length - 1) {
        forall k: nat ensures Bit(Extended(bits, length), k) == Bit(value, k) {
          BitOfOr(bits, Not(Mask(length)), k);
          BitOfNot(Mask(length), k);
          BitOfMask(length, k);
          if k >= length {
            SignedHighBits(value, length, k);
          }
        }
        SameBits(Extended(bits, length), value);
      }
    } else {
      forall k: nat ensures Bit(bits, k) == Bit(value, k) {
        if k >= length {
          SignedHighBits(value, length, k);
        }
      }
      SameBits(bits, value);
    }
  }

  lemma SignedBits(bits: int, value: int, length: nat)
    requires length > 0 && Fits(value, length, true) && value < 0
    requires forall k: nat :: Bit(bits, k) == (k < length && Bit(value, k))
    ensures bits == value + Pow2(length) && Pow2(length) == 2 * Pow2(length - 1)
  {
    NoHighBitsIsSmall(bits, length);
    ShlMinusOne(length);
    forall k: nat ensures Bit(bits + Shl(-1, length), k) == Bit(value, k) {
      BitAboveShift(bits, -1, length, k);
      if k >= length {
        BitOfConstant(k - length);
        SignedHighBits(value, length, k);
      }
    }
    SameBits(bits + Shl(-1, length), value);
  }

  /** What reading makes of a value that a field holds: the smallest number of a signed field loses its sign. */
  function ReadAs(v: Variable, value: int): int {
    if IsLost(v, value) then -value else value
  }

  /**
   Whoever wrote the buffer: a field of the bit path inside its container, wherever it ends, reads as the
   value it holds, encoded as the type encodes it, and never raises. Reading does not need a sound field.
   */
  lemma FieldReadsAsValue(buffer: seq<Byte>, v: Variable, value: int)
    requires v.kind.Integer? && v.OnBitPath() && v.ContainerInside(|buffer|) && v.Shift() + v.length <= v.Span()
    requires InField(value, v.length, v.kind.Signed()) && (v.kind.Signed() ==> v.length > 0)
    requires Holds(buffer, v, value)
    ensures GetData(buffer, v) == v.kind.codec.Pack(ReadAs(v, value)) && GetData(buffer, v).Some?
  {
    hide FieldBits;
    hide Extended;
    hide Holds;
    hide Bit;
    FieldBitsAreHeld(buffer, v, value);
    var bits := FieldBits(buffer, v);
    if v.kind.Signed() {
      ExtendedIsValue(bits, value, v.length);
    } else {
      HeldIsValue(bits, value, v.length);
    }
    ReadIsPacked(v, value);
  }

  /** On the bit path a field is shorter than its container. */
  lemma ReadIsPacked(v: Variable, value: int)
    requires v.kind.Integer? && v.OnBitPath() && v.Shift() + v.length <= v.Span()
    requires InField(value, v.length, v.kind.Signed()) && (v.kind.Signed() ==> v.length > 0)
    ensures v.kind.codec.Pack(ReadAs(v, value)).Some?
  {
    assert v.length < v.Span() && v.Span() == 8 * v.kind.codec.StructSize();
    if v.length > 0 {
      Pow2Monotone(v.length, v.Span());
      Pow2Monotone(v.length - 1, v.Span() - 1);
    }
  }

  /** Reading raises for a type that is no integer, a container beyond the buffer, and a signed field of no bits only. */
  lemma ReadRaisesIff(buffer: seq<Byte>, v: Variable)
    requires v.Shift() + v.length <= v.Span()
    ensures GetData(buffer, v).None? <==>
      v.OnBitPath() && (v.kind.Bytes? || !v.ContainerInside(|buffer|) || (v.kind.Signed() && v.length == 0))
  {
    if v.OnBitPath() && v.kind.Integer? && v.ContainerInside(|buffer|) && (v.kind.Signed() ==> v.length > 0) {
      var value := HeldValue(buffer, v);
      FieldReadsAsValue(buffer, v, value);
    }
  }

  /** Every field holds a number of its length. */
  lemma HeldValue(buffer: seq<Byte>, v: Variable) returns (value: int)
    requires v.kind.Integer? && v.OnBitPath() && v.ContainerInside(|buffer|) && v.Shift() + v.length <= v.Span()
    ensures InField(value, v.length, v.kind.Signed()) && Holds(buffer, v, value)
  {
    hide Bit;
    hide MachineWindow;
    var window := MachineWindow(buffer, v);
    MachineWindowBits(buffer, v);
    var bits := And(Shr(FromBytes(window), v.Shift()), Mask(v.length));
    forall k: nat ensures Bit(bits, k) == (k < v.length && BufferBit(buffer, v.offset + k)) {
      BitOfAnd(Shr(FromBytes(window), v.Shift()), Mask(v.length), k);
      BitOfShr(FromBytes(window), v.Shift(), k);
      BitOfMask(v.length, k);
      if k < v.length {
        BitOfFromBytes(window, v.Shift() + k);
      }
    }
    value := NumberOfBits(bits, v.length, v.kind.Signed());
  }

  lemma NumberOfBits(bits: int, length: nat, signed: bool) returns (value: int)
    requires forall k: nat :: k >= length ==> !Bit(bits, k)
    ensures InField(value, length, signed) && forall k: nat :: k < length ==> Bit(value, k) == Bit(bits, k)
  {
    hide Bit;
    NoHighBitsIsSmall(bits, length);
    if signed && length > 0 && Bit(bits, length - 1) {
      value := bits + Shl(-1, length);
      forall k: nat ensures Bit(value, k) == (k >= length || Bit(bits, k)) {
        BitAboveShift(bits, -1, length, k);
        if k >= length {
          BitOfConstant(k - length);
        }
      }
    } else {
      value := bits;
    }
    InFieldIsHighBits(value, length, signed);
  }

  /** A copied variable reads as the bytes of its type, from its first byte on, whatever its mapped length. */
  lemma CopyReadsBytes(buffer: seq<Byte>, v: Variable)
    requires !v.OnBitPath() && v.offset / 8 + v.kind.Size() <= |buffer|
    ensures GetData(buffer, v).Some? && |GetData(buffer, v).value| == v.kind.Size()
    ensures forall i :: 0 <= i < v.kind.Size() ==> GetData(buffer, v).value[i] == buffer[v.offset / 8 + i]
  {
  }

  /**
   A sound field that holds a value reads back as that value, on both paths, except for the smallest
   number of a signed field on the bit path, which reads back as its negation.
   */
  lemma ReadsBack(buffer: seq<Byte>, v: Variable, data: seq<Byte>)
    requires |data| == v.kind.Size() && v.Sound() && v.ContainerInside(|buffer|)
    requires InField(Value(v, data), v.length, v.kind.Signed()) && Holds(buffer, v, Value(v, data))
    ensures GetData(buffer, v) == Some(data) <==> !IsLost(v, Value(v, data))
    ensures IsLost(v, Value(v, data)) ==>
      && GetData(buffer, v).Some? && |GetData(buffer, v).value| == v.kind.Size()
      && Value(v, GetData(buffer, v).value) == -Value(v, data)
  {
    hide FieldBits;
    hide Extended;
    hide HighBits;
    hide Holds;
    hide Bit;
    hide Codec.Pack;
    hide Codec.Unpack;
    var value := Value(v, data);
    if v.OnBitPath() {
      FieldBitsAreHeld(buffer, v, value);
      var bits := FieldBits(buffer, v);
      if v.kind.Signed() {
        ExtendedIsValue(bits, value, v.length);
      } else {
        HeldIsValue(bits, value, v.length);
      }
      UnpackThenPack(v.kind.codec, data);
      ReadFits(v, value);
      PackedValue(v, data, if IsLost(v, value) then -value else value);
      UnpackAcceptsItsSize(v.kind.codec, GetData(buffer, v).value);
    } else {
      CopyReadsBack(buffer, v, data);
    }
  }

  lemma HeldIsValue(bits: int, value: int, length: nat)
    requires InField(value, length, false) && forall k: nat :: Bit(bits, k) == (k < length && Bit(value, k))
    ensures bits == value
  {
    InFieldIsHighBits(value, length, false);
    SameBits(bits, value);
  }

  /** What is read fits the type: a type narrower than its struct format has no value to lose. */
  lemma ReadFits(v: Variable, value: int)
    requires v.Sound() && v.OnBitPath() && InField(value, v.length, v.kind.Signed()) && v.kind.codec.InRange(value)
    ensures v.kind.codec.InRange(if IsLost(v, value) then -value else value)
  {
    if IsLost(v, value) {
      if v.Width() == v.Span() {
        Pow2Monotone(v.length - 1, v.Width() - 1);
      } else {
        Pow2Monotone(v.Width() - 1, v.length - 1);
      }
    }
  }

  /** The one value a sound field does not return. */
  predicate IsLost(v: Variable, value: int) {
    v.OnBitPath() && v.kind.Signed() && v.length > 0 && value == -Pow2(v.length - 1)
  }

  lemma PackedValue(v: Variable, data: seq<Byte>, x: int)
    requires v.kind.Integer? && |data| == v.kind.Size() && v.kind.codec.InRange(x)
    ensures v.kind.codec.Pack(x).Some? && v.kind.codec.Unpack(v.kind.codec.Pack(x).value) == Some(x)
    ensures v.kind.codec.Pack(x) == Some(data) <==> x == Value(v, data)
  {
    PackThenUnpack(v.kind.codec, x);
    UnpackThenPack(v.kind.codec, data);
  }

  lemma CopyReadsBack(buffer: seq<Byte>, v: Variable, data: seq<Byte>)
    requires |data| == v.kind.Size() && v.Sound() && v.ContainerInside(|buffer|) && !v.OnBitPath()
    requires Holds(buffer, v, Value(v, data))
    ensures GetData(buffer, v) == Some(data)
  {
    var window := Window(buffer, v);
    ValueBits(v, data);
    forall k: nat | k < 8 * |data| ensures BufferBit(window, k) == BufferBit(data, k) {
      assert BufferBit(window, k) == BufferBit(buffer, v.offset + k);
    }
    SameBufferBits(window, data);
  }
}
