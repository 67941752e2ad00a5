/** The process data object itself: its methods update its fields, and are proved against their functions. */
module PdoMap {
  import opened Bits
  import Codecs
  import opened PdoConfig
  import opened PdoLayout
  import opened PdoMapping
  import opened PdoWords
  import opened Wrappers

  /** Access to the communication and mapping parameters of a device. */
  class ParameterAccess {
    var device: Device

    constructor (device: Device)
      ensures this.device == device
    {
      this.device := device;
    }

    method Put(at: Address, value: nat) returns (e: Option<SaveError>)
      modifies this
      ensures (device, e) == PdoConfig.Put(old(device), at, value)
    {
      if at !in device.registers {
        return Some(KeyError);
      }
      var r := device.registers[at];
      if value >= Pow2(r.width) {
        return Some(EncodingError);
      }
      if r.refusal(value).Some? {
        return Some(Aborted(r.refusal(value).value));
      }
      device := device.(registers := device.registers[at := r.(value := value)], log := device.log + [Event(at, value)]);
      return None;
    }
  }

  class PdoMap {
    const parameters: ParameterAccess
    const types: Dictionary
    const swapped: bool
    var variables: seq<Variable>
    var length: nat
    var data: seq<Byte>
    var cobId: Option<nat>
    var enabled: bool
    var rtrAllowed: bool
    var transType: Option<nat>
    var inhibitTime: Option<nat>
    var eventTimer: Option<nat>
    var syncStart: Option<nat>

    ghost function Layout(): Pdo
      reads this
    {
      Pdo(variables, length, data)
    }

    ghost function State(): Config
      reads this
    {
      Config(Layout(), cobId, enabled, rtrAllowed, transType, inhibitTime, eventTimer, syncStart)
    }

    constructor (parameters: ParameterAccess, types: Dictionary, swapped: bool)
      ensures this.parameters == parameters && this.types == types && this.swapped == swapped
      ensures State() == Config(Pdo([], 0, []), None, false, true, None, None, None, None) && BackToBack(Layout())
    {
      this.parameters := parameters;
      this.types := types;
      this.swapped := swapped;
      variables := [];
      length := 0;
      data := [];
      cobId := None;
      enabled := false;
      rtrAllowed := true;
      transType := None;
      inhibitTime := None;
      eventTimer := None;
      syncStart := None;
    }

    // ----- Layout -----

    method Clear()
      modifies `variables, `length
      ensures Layout() == PdoMapping.Clear(old(Layout())) && BackToBack(Layout())
      ensures variables == [] && length == 0 && data == old(data)
    {
      variables := [];
      length := 0;
    }

    method UpdateDataSize()
      modifies `data
      ensures data == Filled(DataSize(length), false)
    {
      data := seq((length + 7) / 8, _ => 0);
    }

    method AddVariable(index: nat, subindex: nat, bits: Option<nat>)
      modifies `variables, `length, `data
      ensures Layout() == PdoMapping.AddVariable(old(Layout()), types, Entry(index, subindex, bits))
      ensures old(BackToBack(Layout())) ==> BackToBack(Layout())
    {
      hide BackToBack;
      ghost var before, e := Layout(), Entry(index, subindex, bits);
      if BackToBack(before) {
        AddingKeepsOrder(before, types, e);
      }
      var found := types(index, subindex);
      if found.Some? {
        var v := Variable(index, subindex, length, 8 * found.value.Size(), found.value);
        if bits.Some? {
          v := v.(length := bits.value);
        }
        variables := variables + [v];
        length := length + v.length;
      }
      UpdateDataSize();
    }

    // ----- Variables in the buffer -----

    method GetData(v: Variable) returns (r: Option<seq<Byte>>)
      ensures r == PdoLayout.GetData(data, v)
    {
      hide And;
      hide Or;
      hide Shl;
      hide Shr;
      hide Codecs.Codec.Pack;
      hide Codecs.Codec.Unpack;
      var from, shift := v.offset / 8, v.offset % 8;
      if shift == 0 && v.length % 8 == 0 {
        return Some(Slice(data, from, from + v.kind.Size()));
      }
      if v.kind.Bytes? {
        return None;
      }
      var machine := v.Machine();
      if from + machine.Size() > |data| || (machine.signed && v.length == 0) {
        return None;
      }
      Codecs.UnpackAcceptsItsSize(machine, MachineWindow(data, v));
      var bits := machine.Unpack(MachineWindow(data, v)).value;
      bits := And(Shr(bits, shift), Shl(1, v.length) - 1);
      if machine.signed && Shl(1, v.length - 1) < bits {
        bits := Or(bits, Not(Shl(1, v.length) - 1));
      }
      return v.kind.codec.Pack(bits);
    }

    /** Either the buffer is replaced as the function says, or struct raises and it is left alone. */
    method SetData(v: Variable, bytes: seq<Byte>) returns (ok: bool)
      modifies `data
      ensures ok <==> PdoLayout.SetData(old(data), v, bytes).Some?
      ensures data == if ok then PdoLayout.SetData(old(data), v, bytes).value else old(data)
    {
      hide And;
      hide Or;
      hide Shl;
      hide Splice;
      hide Codecs.Codec.Pack;
      hide Codecs.Codec.Unpack;
      var from, shift := v.offset / 8, v.offset % 8;
      if shift == 0 && v.length % 8 == 0 {
        data := Splice(data, from, bytes);
        return true;
      }
      if v.kind.Bytes? {
        return false;
      }
      var current := v.kind.codec.Unpack(Slice(data, from, from + v.kind.Size()));
      var value := v.kind.codec.Unpack(bytes);
      if current.None? || value.None? || from + v.Machine().Size() > |data| {
        return false;
      }
      var all := Shl(1, 8 * v.kind.Size()) - 1;
      var shifted := And(Shl(Shl(1, v.length) - 1, shift), all);
      var bitwiseNot := And(Not(shifted), all);
      var merged := v.Machine().Pack(Or(Shl(value.value, shift), And(current.value, bitwiseNot)));
      if merged.None? {
        return false;
      }
      data := Splice(data, from, merged.value);
      return true;
    }

    // ----- Saving -----

    method SetComRecord(sub: nat, value: Option<nat>) returns (e: Option<SaveError>)
      modifies parameters
      ensures (parameters.device, e) == PdoConfig.SetComRecord(old(parameters.device), sub, value)
    {
      if value.None? {
        return None;
      }
      if Com(sub) !in parameters.device.registers {
        return Some(KeyError);
      }
      if parameters.device.registers[Com(sub)].writable {
        e := parameters.Put(Com(sub), value.value);
        return;
      }
      return None;
    }

    method FillMap(needed: nat)
      modifies `variables
      ensures Layout() == PdoConfig.FillMap(old(Layout()), needed)
    {
      while |variables| < needed
        invariant PdoConfig.FillMap(Layout(), needed) == PdoConfig.FillMap(old(Layout()), needed)
        invariant length == old(length) && data == old(data)
      {
        variables := variables + [Variable(0, 0, length, 0, Bytes(1))];
      }
    }

    method Disable() returns (e: Option<SaveError>)
      requires cobId.Some?
      modifies parameters
      ensures (parameters.device, e) == PdoConfig.Disable(State(), cobId.value, old(parameters.device))
    {
      e := parameters.Put(Com(1), CobWord(cobId.value, false, rtrAllowed));
      if e.Some? {
        return;
      }
      var settings := [(2, transType), (3, inhibitTime), (5, eventTimer), (6, syncStart)];
      ghost var d := parameters.device;
      var i := 0;
      while i < |settings|
        invariant 0 <= i <= |settings| && e.None?
        invariant SetComRecords(d, settings) == SetComRecords(parameters.device, settings[i..])
      {
        e := SetComRecord(settings[i].0, settings[i].1);
        assert settings[i..][1..] == settings[i + 1..];
        if e.Some? {
          return;
        }
        i := i + 1;
      }
    }

    method WriteMapping() returns (e: Option<SaveError>)
      requires this as object != parameters
      modifies `variables, parameters
      ensures (State(), parameters.device, e) == PdoConfig.WriteMapping(old(State()), old(parameters.device), swapped)
    {
      e := parameters.Put(Mapping(0), 0);
      if e.Some? && e.value.Aborted? {
        FillMap(parameters.device.registers[Mapping(0)].value);
      } else if e.Some? {
        return;
      }
      ghost var c1, d1 := State(), parameters.device;
      var visited := Visited(parameters.device);
      var i := 0;
      while i < |variables| && i < visited
        invariant State() == c1
        invariant WriteEntries(d1, variables, visited, 0, swapped) ==
                  WriteEntries(parameters.device, variables, visited, i, swapped)
        decreases |variables| - i
      {
        if Mapping(i + 1) !in parameters.device.registers {
          return Some(KeyError);
        }
        if parameters.device.registers[Mapping(i + 1)].writable {
          e := parameters.Put(Mapping(i + 1), EntryWord(variables[i], swapped));
          if e.Some? {
            return;
          }
        }
        i := i + 1;
      }
      e := parameters.Put(Mapping(0), |variables|);
      if e == Some(Aborted(READ_ONLY)) {
        e := None;
      }
    }

    method Save() returns (e: Option<SaveError>)
      requires this as object != parameters
      modifies `variables, `data, parameters
      ensures (State(), parameters.device, e) == PdoConfig.Save(old(State()), old(parameters.device), swapped)
    {
      if cobId.None? {
        return None;
      }
      e := Disable();
      if e.Some? {
        return;
      }
      e := WriteMapping();
      if e.Some? {
        return;
      }
      UpdateDataSize();
      if enabled {
        e := parameters.Put(Com(1), CobWord(cobId.value, true, rtrAllowed));
      }
    }

    // ----- Reading -----

    /** The configuration of the device, or as much of it as there is before an exception. */
    method Read() returns (ok: bool)
      requires this as object != parameters
      modifies this
      ensures (State(), ok) == PdoConfig.Read(old(State()), parameters.device, types, swapped)
    {
      hide ReadEntries;
      hide AddAll;
      hide And;
      hide Shl;
      var d := parameters.device;
      if Com(1) !in d.registers {
        return false;
      }
      var word := d.registers[Com(1)].value;
      AndIsNatural(word, 0x1FFF_FFFF);
      cobId := Some(And(word, 0x1FFF_FFFF));
      enabled := And(word, Shl(1, PDO_NOT_VALID_BIT)) == 0;
      rtrAllowed := And(word, Shl(1, RTR_NOT_ALLOWED_BIT)) == 0;
      if Com(2) !in d.registers {
        return false;
      }
      var transmission := d.registers[Com(2)].value;
      transType := Some(transmission);
      inhibitTime := ReadTimer(d, 3, transmission, inhibitTime);
      eventTimer := ReadTimer(d, 5, transmission, eventTimer);
      syncStart := ReadTimer(d, 6, transmission, syncStart);
      Clear();
      if Mapping(0) !in d.registers {
        return false;
      }
      ok := ReadMapping(d, d.registers[Mapping(0)].value);
    }

    method ReadMapping(d: Device, n: nat) returns (ok: bool)
      modifies `variables, `length, `data
      ensures var (entries, complete) := ReadEntries(d, 0, n, swapped);
        ok == complete && Layout() == AddAll(old(Layout()), types, entries)
    {
      hide EntryFields;
      hide PdoMapping.AddVariable;
      ghost var (all, complete) := ReadEntries(d, 0, n, swapped);
      var i := 0;
      while i < n
        invariant 0 <= i <= n
        invariant ReadEntries(d, i, n, swapped).1 == complete
        invariant AddAll(Layout(), types, ReadEntries(d, i, n, swapped).0) == AddAll(old(Layout()), types, all)
      {
        if Mapping(i + 1) !in d.registers {
          return false;
        }
        var (index, subindex, size) := EntryFields(d.registers[Mapping(i + 1)].value, swapped);
        ghost var rest := ReadEntries(d, i + 1, n, swapped).0;
        if index != 0 && size != 0 {
          assert ([Entry(index, subindex, Some(size))] + rest)[1..] == rest;
          AddVariable(index, subindex, Some(size));
        }
        i := i + 1;
      }
      return true;
    }
  }
}
