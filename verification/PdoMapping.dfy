/**
 The variables of one process data object: PdoMap.add_variable and clear, and what happens to the
 buffer when the mapped variables are written one after another.
 */
module PdoMapping {
  import opened Bits
  import opened Codecs
  import opened PdoLayout
  import opened Wrappers

  /** The type the object dictionary gives to an index and subindex, if it knows the object. */
  type Dictionary = (nat, nat) -> Option<Kind>

  datatype Pdo = Pdo(variables: seq<Variable>, length: nat, data: seq<Byte>)

  datatype Entry = Entry(index: nat, subindex: nat, length: Option<nat>)

  /** Number of bytes for a number of bits. */
  function DataSize(length: nat): nat {
    (length + 7) / 8
  }

  /** PdoMap.clear: the buffer stays. */
  function Clear(p: Pdo): Pdo {
    p.(variables := [], length := 0)
  }

  /** PdoMap.add_variable: the buffer is zeroed even when the object is not found. */
  function AddVariable(p: Pdo, types: Dictionary, e: Entry): Pdo {
    var found := types(e.index, e.subindex);
    var p1 :=
      if found.None? then p
      else
        var bits := if e.length.Some? then e.length.value else 8 * found.value.Size();
        var v := Variable(e.index, e.subindex, p.length, bits, found.value);
        p.(variables := p.variables + [v], length := p.length + bits);
    p1.(data := Filled(DataSize(p1.length), false))
  }

  function AddAll(p: Pdo, types: Dictionary, entries: seq<Entry>): Pdo
    decreases |entries|
  {
    if entries == [] then p else AddAll(AddVariable(p, types, entries[0]), types, entries[1..])
  }

  // ----- The layout -----

  /** The first bit behind a variable. */
  function EndOf(v: Variable): nat {
    v.offset + v.length
  }

  /** The variables follow one another without gap or overlap. */
  ghost predicate BackToBack(p: Pdo) {
    && (forall i :: 0 < i < |p.variables| ==> p.variables[i].offset == p.variables[i - 1].offset + p.variables[i - 1].length)
    && (p.variables != [] ==> p.variables[0].offset == 0)
    && p.length == if p.variables == [] then 0 else EndOf(p.variables[|p.variables| - 1])
  }

  /** Each variable found gets the next bits, under its own address, and the buffer is zeroed and just large enough. */
  lemma {:induction false} AddingExtendsLayout(p: Pdo, types: Dictionary, entries: seq<Entry>)
    requires BackToBack(p)
    ensures BackToBack(AddAll(p, types, entries))
    ensures entries != [] ==>
      AddAll(p, types, entries).data == Filled(DataSize(AddAll(p, types, entries).length), false)
    ensures p.variables <= AddAll(p, types, entries).variables
    ensures Mapped(AddAll(p, types, entries).variables[|p.variables|..]) == Found(types, entries)
    decreases |entries|
  {
    hide BackToBack;
    if entries != [] {
      var p1 := AddVariable(p, types, entries[0]);
      AddingKeepsOrder(p, types, entries[0]);
      AddingExtendsLayout(p1, types, entries[1..]);
      var all := AddAll(p, types, entries).variables;
      if |p1.variables| > |p.variables| {
        assert all[|p.variables|..] == [p1.variables[|p.variables|]] + all[|p1.variables|..];
      }
    }
  }

  lemma AddingKeepsOrder(p: Pdo, types: Dictionary, e: Entry)
    requires BackToBack(p)
    ensures BackToBack(AddVariable(p, types, e))
  {
  }

  /** Address, bit length and type of each variable. */
  function Mapped(variables: seq<Variable>): seq<(nat, nat, nat, Kind)> {
    if variables == [] then []
    else
      var v := variables[0];
      [(v.index, v.subindex, v.length, v.kind)] + Mapped(variables[1..])
  }

  /** The entries the dictionary knows, with the length of the type where none is given. */
  function Found(types: Dictionary, entries: seq<Entry>): seq<(nat, nat, nat, Kind)> {
    if entries == [] then []
    else
      var e := entries[0];
      match types(e.index, e.subindex)
      case None => Found(types, entries[1..])
      case Some(c) =>
        [(e.index, e.subindex, if e.length.Some? then e.length.value else 8 * c.Size(), c)] + Found(types, entries[1..])
  }

  lemma {:induction false} FieldsAreOrdered(p: Pdo, i: nat, j: nat)
    requires BackToBack(p) && i < j <= |p.variables|
    ensures p.variables[i].offset + p.variables[i].length <= if j < |p.variables| then p.variables[j].offset else p.length
    decreases j
  {
    if j > i + 1 {
      FieldsAreOrdered(p, i, j - 1);
    }
  }

  // ----- Runs of writes -----

  datatype Write = Write(i: nat, data: seq<Byte>)

  /** A write the layout supports: sound field, value in the field, container inside the buffer. */
  predicate Supported(p: Pdo, w: Write, size: nat) {
    w.i < |p.variables| &&
    var v := p.variables[w.i];
    |w.data| == v.kind.Size() && v.Sound() && v.ContainerInside(size) &&
    InField(Value(v, w.data), v.length, v.kind.Signed())
  }

  /** The buffer after a run of writes, or None when one of them raises. */
  function RunWrites(p: Pdo, buffer: seq<Byte>, writes: seq<Write>): Option<seq<Byte>> {
    if writes == [] then Some(buffer)
    else
      var w := writes[|writes| - 1];
      match RunWrites(p, buffer, writes[..|writes| - 1])
      case None => None
      case Some(b) => if w.i < |p.variables| then SetData(b, p.variables[w.i], w.data) else None
  }

  function LastWrite(writes: seq<Write>, i: nat): Option<seq<Byte>> {
    if writes == [] then None
    else if writes[|writes| - 1].i == i then Some(writes[|writes| - 1].data)
    else LastWrite(writes[..|writes| - 1], i)
  }

  /** The bits of a buffer after a run of writes: each field holds what was last written to it, all else is as before. */
  ghost predicate EachHoldsItsOwn(p: Pdo, before: seq<Byte>, after: seq<Byte>, writes: seq<Write>) {
    && |after| == |before|
    && (forall i :: 0 <= i < |p.variables| ==> HoldsItsOwn(p.variables[i], before, after, LastWrite(writes, i)))
    && SameBitsIn(before, after, p.length, 8 * |before|)
  }

  ghost predicate HoldsItsOwn(v: Variable, before: seq<Byte>, after: seq<Byte>, last: Option<seq<Byte>>) {
    match last
    case Some(d) => |d| == v.kind.Size() && Holds(after, v, Value(v, d))
    case None => SameBitsIn(before, after, v.offset, v.offset + v.length)
  }

  ghost predicate SameBitsIn(before: seq<Byte>, after: seq<Byte>, from: nat, to: nat) {
    |after| == |before| &&
    forall k: nat :: from <= k < to && k < 8 * |before| ==> BufferBit(after, k) == BufferBit(before, k)
  }

  /**
   Variables do not interfere. After any run of supported writes to the variables of a map, in any
   order, each variable holds its own last written value, and the bits of the variables that were
   not written and those behind the last variable are unchanged.
   */
  lemma {:induction false} WritesDoNotInterfere(p: Pdo, buffer: seq<Byte>, writes: seq<Write>)
    requires BackToBack(p) && forall w :: w in writes ==> Supported(p, w, |buffer|)
    ensures RunWrites(p, buffer, writes).Some?
    ensures EachHoldsItsOwn(p, buffer, RunWrites(p, buffer, writes).value, writes)
    decreases |writes|
  {
    hide SetData;
    hide BackToBack;
    hide BufferBit;
    if writes != [] {
      var w, rest := writes[|writes| - 1], writes[..|writes| - 1];
      WritesDoNotInterfere(p, buffer, rest);
      OneMoreWrite(p, buffer, RunWrites(p, buffer, rest).value, rest, w);
      assert writes == rest + [w];
    }
  }

  lemma OneMoreWrite(p: Pdo, buffer: seq<Byte>, b: seq<Byte>, rest: seq<Write>, w: Write)
    requires BackToBack(p) && Supported(p, w, |buffer|) && EachHoldsItsOwn(p, buffer, b, rest)
    ensures SetData(b, p.variables[w.i], w.data).Some?
    ensures EachHoldsItsOwn(p, buffer, SetData(b, p.variables[w.i], w.data).value, rest + [w])
  {
    hide SetData;
    hide BackToBack;
    hide BufferBit;
    hide HoldsItsOwn;
    var v, value := p.variables[w.i], Value(p.variables[w.i], w.data);
    WriteIsExactIff(v, w.data, |b|);
    assert WritesExactly(b, v, w.data);
    var after := SetData(b, v, w.data).value;
    assert (rest + [w])[..|rest|] == rest;
    forall i | 0 <= i < |p.variables|
      ensures HoldsItsOwn(p.variables[i], buffer, after, LastWrite(rest + [w], i))
    {
      if i == w.i {
        WrittenIsHeld(v, buffer, b, after, w.data);
      } else {
        FieldsAreOrdered(p, Min(i, w.i), if i < w.i then w.i else i);
        OthersAreKept(p.variables[i], buffer, b, after, v, value, LastWrite(rest, i));
      }
    }
    FieldsAreOrdered(p, w.i, |p.variables|);
  }

  lemma WrittenIsHeld(v: Variable, before: seq<Byte>, b: seq<Byte>, after: seq<Byte>, data: seq<Byte>)
    requires |data| == v.kind.Size() && |before| == |b| && Replaced(b, after, v.offset, v.length, Value(v, data))
    ensures HoldsItsOwn(v, before, after, Some(data))
  {
    hide BufferBit;
    hide Bit;
    forall k: nat | k < v.length ensures BufferBit(after, v.offset + k) == Bit(Value(v, data), k) {
      assert v.offset + k - v.offset == k;
    }
  }

  lemma OthersAreKept(u: Variable, before: seq<Byte>, b: seq<Byte>, after: seq<Byte>, v: Variable, value: int,
                      last: Option<seq<Byte>>)
    requires |before| == |b| && HoldsItsOwn(u, before, b, last) && Replaced(b, after, v.offset, v.length, value)
    requires u.offset + u.length <= v.offset || v.offset + v.length <= u.offset
    ensures HoldsItsOwn(u, before, after, last)
  {
    hide BufferBit;
    hide Bit;
  }

  /**
   Each variable reads back its own last written value, except for the smallest number of a signed
   field on the bit path.
   */
  lemma ReadsLastWrite(p: Pdo, buffer: seq<Byte>, writes: seq<Write>, i: nat)
    requires BackToBack(p) && (forall w :: w in writes ==> Supported(p, w, |buffer|)) && i < |p.variables|
    requires LastWrite(writes, i).Some?
    ensures |LastWrite(writes, i).value| == p.variables[i].kind.Size()
    ensures RunWrites(p, buffer, writes).Some?
    ensures GetData(RunWrites(p, buffer, writes).value, p.variables[i]) == LastWrite(writes, i) <==>
            !IsLost(p.variables[i], Value(p.variables[i], LastWrite(writes, i).value))
  {
    WritesDoNotInterfere(p, buffer, writes);
    LastIsWritten(writes, i);
    ReadsBack(RunWrites(p, buffer, writes).value, p.variables[i], LastWrite(writes, i).value);
  }

  lemma {:induction false} LastIsWritten(writes: seq<Write>, i: nat)
    requires LastWrite(writes, i).Some?
    ensures Write(i, LastWrite(writes, i).value) in writes
  {
    var n := |writes| - 1;
    if writes[n].i == i {
      assert writes[n] in writes;
    } else {
      LastIsWritten(writes[..n], i);
    }
  }
}
