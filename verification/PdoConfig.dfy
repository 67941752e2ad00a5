/**
 Saving a process data object's configuration to a device and reading it back: PdoMap.save and
 PdoMap.read over the registers of the communication and mapping parameters.
 */
module PdoConfig {
  import opened Bits
  import opened PdoLayout
  import opened PdoMapping
  import opened PdoWords
  import opened Wrappers

  const READ_ONLY := 0x06010002

  // ----- The device -----

  /** Subindices of the communication and of the mapping parameter. */
  datatype Address = Com(sub: nat) | Mapping(sub: nat)

  /** A number, its width in bits, its access type, and the abort code with which the device refuses a value, if it does. */
  datatype Register = Register(value: nat, width: nat, writable: bool, refusal: nat -> Option<nat>)

  datatype Event = Event(at: Address, value: nat)

  /**
   Its registers, whether the mapping parameter is described as an array, the number of mapping
   entries of a record, and the writes it accepted.
   */
  datatype Device = Device(registers: map<Address, Register>, isArray: bool, entries: nat, log: seq<Event>)

  datatype SaveError = KeyError | EncodingError | Aborted(code: nat)

  /** One assignment to the raw value of a parameter. */
  function Put(d: Device, at: Address, value: int): (Device, Option<SaveError>) {
    if at !in d.registers then (d, Some(KeyError))
    else
      var r := d.registers[at];
      if value < 0 || value >= Pow2(r.width) then (d, Some(EncodingError))
      else if r.refusal(value).Some? then (d, Some(Aborted(r.refusal(value).value)))
      else (d.(registers := d.registers[at := r.(value := value)], log := d.log + [Event(at, value)]), None)
  }

  // ----- The configuration -----

  datatype Config = Config(
    pdo: Pdo, cobId: Option<nat>, enabled: bool, rtrAllowed: bool,
    transType: Option<nat>, inhibitTime: Option<nat>, eventTimer: Option<nat>, syncStart: Option<nat>)

  // ----- PdoMap.save -----

  function SetComRecord(d: Device, sub: nat, value: Option<nat>): (Device, Option<SaveError>) {
    if value.None? then (d, None)
    else if Com(sub) !in d.registers then (d, Some(KeyError))
    else if d.registers[Com(sub)].writable then Put(d, Com(sub), value.value)
    else (d, None)
  }

  function SetComRecords(d: Device, settings: seq<(nat, Option<nat>)>): (Device, Option<SaveError>)
    decreases |settings|
  {
    if settings == [] then (d, None)
    else
      var (d1, e) := SetComRecord(d, settings[0].0, settings[0].1);
      if e.Some? then (d1, e) else SetComRecords(d1, settings[1..])
  }

  function Settings(c: Config): seq<(nat, Option<nat>)> {
    [(2, c.transType), (3, c.inhibitTime), (5, c.eventTimer), (6, c.syncStart)]
  }

  /** Mark the PDO invalid, then set the other communication parameters. */
  function Disable(c: Config, cobId: nat, d: Device): (Device, Option<SaveError>) {
    var (d1, e) := Put(d, Com(1), CobWord(cobId, false, c.rtrAllowed));
    if e.Some? then (d1, e) else SetComRecords(d1, Settings(c))
  }

  /** Dummy variables of no length, for mapping parameters with a fixed number of entries. */
  function FillMap(p: Pdo, needed: nat): Pdo
    decreases needed - |p.variables|
  {
    if |p.variables| >= needed then p
    else FillMap(p.(variables := p.variables + [Variable(0, 0, p.length, 0, Bytes(1))]), needed)
  }

  /** Write a count of zero; a device that refuses gets its entries overwritten instead. */
  function ClearCount(c: Config, d: Device): (Config, Device, Option<SaveError>) {
    match Put(d, Mapping(0), 0)
    case (d1, Some(Aborted(_))) => (c.(pdo := FillMap(c.pdo, d.registers[Mapping(0)].value)), d1, None)
    case (d1, e) => (c, d1, e)
  }

  /** Iterating over an array asks the device for its count; iterating over a record does not. */
  function Visited(d: Device): nat {
    if !d.isArray then d.entries
    else if Mapping(0) in d.registers then d.registers[Mapping(0)].value
    else 0
  }

  /** The entries from number i on, as far as there are both variables and parameters. */
  function WriteEntries(d: Device, variables: seq<Variable>, visited: nat, i: nat, swapped: bool)
    : (Device, Option<SaveError>)
    decreases |variables| - i
  {
    if i >= |variables| || i >= visited then (d, None)
    else if Mapping(i + 1) !in d.registers then (d, Some(KeyError))
    else if !d.registers[Mapping(i + 1)].writable then WriteEntries(d, variables, visited, i + 1, swapped)
    else
      var (d1, e) := Put(d, Mapping(i + 1), EntryWord(variables[i], swapped));
      if e.Some? then (d1, e) else WriteEntries(d1, variables, visited, i + 1, swapped)
  }

  /** Write the number of variables; only a read-only count may refuse. */
  function SetCount(d: Device, count: nat): (Device, Option<SaveError>) {
    var (d1, e) := Put(d, Mapping(0), count);
    if e == Some(Aborted(READ_ONLY)) then (d1, None) else (d1, e)
  }

  /** The mapping parameter: count zero, the entries, the count. */
  function WriteMapping(c: Config, d: Device, swapped: bool): (Config, Device, Option<SaveError>) {
    var (c1, d1, e1) := ClearCount(c, d);
    if e1.Some? then (c1, d1, e1)
    else
      var (d2, e2) := WriteEntries(d1, c1.pdo.variables, Visited(d1), 0, swapped);
      if e2.Some? then (c1, d2, e2)
      else
        var (d3, e3) := SetCount(d2, |c1.pdo.variables|);
        (c1, d3, e3)
  }

  function Save(c: Config, d: Device, swapped: bool): (Config, Device, Option<SaveError>) {
    if c.cobId.None? then (c, d, None)
    else
      var (d1, e1) := Disable(c, c.cobId.value, d);
      if e1.Some? then (c, d1, e1)
      else
        var (c2, d2, e2) := WriteMapping(c, d1, swapped);
        if e2.Some? then (c2, d2, e2)
        else
          var c3 := c2.(pdo := c2.pdo.(data := Filled(DataSize(c2.pdo.length), false)));
          if !c.enabled then (c3, d2, None)
          else
            var (d3, e3) := Put(d2, Com(1), CobWord(c.cobId.value, true, c.rtrAllowed));
            (c3, d3, e3)
  }

  // ----- PdoMap.read -----

  /** The entries that map something, up to the first parameter that does not exist, and whether there is none such. */
  function ReadEntries(d: Device, i: nat, n: nat, swapped: bool): (seq<Entry>, bool)
    decreases n - i
  {
    if i >= n then ([], true)
    else if Mapping(i + 1) !in d.registers then ([], false)
    else
      var (index, subindex, size) := EntryFields(d.registers[Mapping(i + 1)].value, swapped);
      var (rest, ok) := ReadEntries(d, i + 1, n, swapped);
      (if index != 0 && size != 0 then [Entry(index, subindex, Some(size))] + rest else rest, ok)
  }

  /** A timer is only read for event-driven transmission, and kept when the device does not have it. */
  function ReadTimer(d: Device, sub: nat, transType: nat, kept: Option<nat>): Option<nat> {
    if transType >= 254 && Com(sub) in d.registers then Some(d.registers[Com(sub)].value) else kept
  }

  function ReadCobId(c: Config, word: nat): Config {
    AndIsNatural(word, 0x1FFF_FFFF);
    c.(cobId := Some(And(word, 0x1FFF_FFFF)), enabled := And(word, Shl(1, PDO_NOT_VALID_BIT)) == 0,
       rtrAllowed := And(word, Shl(1, RTR_NOT_ALLOWED_BIT)) == 0)
  }

  function ReadSettings(c: Config, d: Device, transType: nat): Config {
    c.(transType := Some(transType), inhibitTime := ReadTimer(d, 3, transType, c.inhibitTime),
       eventTimer := ReadTimer(d, 5, transType, c.eventTimer), syncStart := ReadTimer(d, 6, transType, c.syncStart))
  }

  /** The configuration read from a device, as far as it gets, and whether no missing parameter raises. */
  function Read(c: Config, d: Device, types: Dictionary, swapped: bool): (Config, bool) {
    if Com(1) !in d.registers then (c, false)
    else
      var c1 := ReadCobId(c, d.registers[Com(1)].value);
      if Com(2) !in d.registers then (c1, false)
      else
        var c2 := ReadSettings(c1, d, d.registers[Com(2)].value).(pdo := Clear(c.pdo));
        if Mapping(0) !in d.registers then (c2, false)
        else
          var (entries, ok) := ReadEntries(d, 0, d.registers[Mapping(0)].value, swapped);
          (c2.(pdo := AddAll(c2.pdo, types, entries)), ok)
  }

  // ----- Safe ordering -----

  /** The registers after some accepted writes. */
  function Replay(registers: map<Address, Register>, log: seq<Event>): map<Address, Register> {
    if log == [] then registers
    else
      var before := Replay(registers, log[..|log| - 1]);
      var e := log[|log| - 1];
      if e.at in before then before[e.at := before[e.at].(value := e.value)] else before
  }

  /** The device takes the PDO for invalid: bit 31 of the COB-ID. */
  predicate Invalid(registers: map<Address, Register>) {
    Com(1) in registers && Bit(registers[Com(1)].value, 31)
  }

  /** The count of mapping entries has this value, or does not take it. */
  predicate CountIs(registers: map<Address, Register>, n: nat) {
    Mapping(0) in registers && (registers[Mapping(0)].value == n || registers[Mapping(0)].refusal(n).Some?)
  }

  /**
   An entry is only written while the PDO is invalid and the count zero; the PDO only becomes valid
   with the final count.
   */
  predicate StepIsSafe(registers: map<Address, Register>, e: Event, count: nat) {
    match e.at
    case Mapping(sub) => sub > 0 ==> Invalid(registers) && CountIs(registers, 0)
    case Com(sub) => sub == 1 && !Bit(e.value, 31) ==> CountIs(registers, count)
  }

  predicate Safe(registers: map<Address, Register>, log: seq<Event>, count: nat) {
    log == [] ||
    (Safe(registers, log[..|log| - 1], count) && StepIsSafe(Replay(registers, log[..|log| - 1]), log[|log| - 1], count))
  }

  /** What holds of the device at every point of a save. */
  ghost predicate Orderly(start: Device, d: Device, count: nat) {
    d.registers == Replay(start.registers, d.log) && Safe(start.registers, d.log, count)
  }

  lemma NothingWritten(d: Device, count: nat)
    requires d.log == []
    ensures Orderly(d, d, count)
  {
  }

  lemma PutIsOrderly(start: Device, d: Device, at: Address, value: int, count: nat)
    requires Orderly(start, d, count)
    requires value >= 0 ==> StepIsSafe(d.registers, Event(at, value), count)
    ensures Orderly(start, Put(d, at, value).0, count)
  {
    var (d1, e) := Put(d, at, value);
    if e.None? {
      assert d1.log[..|d.log|] == d.log;
    }
  }

  lemma {:induction false} ComRecordsAreOrderly(start: Device, d: Device, settings: seq<(nat, Option<nat>)>, count: nat)
    requires Orderly(start, d, count) && Invalid(d.registers) && forall s :: s in settings ==> s.0 != 1
    ensures var d1 := SetComRecords(d, settings).0;
      Orderly(start, d1, count) && Invalid(d1.registers)
    decreases |settings|
  {
    if settings != [] {
      var (sub, value) := settings[0];
      if value.Some? {
        PutIsOrderly(start, d, Com(sub), value.value, count);
      }
      var (d1, e) := SetComRecord(d, sub, value);
      if e.None? {
        ComRecordsAreOrderly(start, d1, settings[1..], count);
      }
    }
  }

  lemma {:induction false} EntriesAreOrderly(start: Device, d: Device, variables: seq<Variable>, visited: nat,
                                             i: nat, swapped: bool, count: nat)
    requires Orderly(start, d, count) && Invalid(d.registers) && CountIs(d.registers, 0)
    ensures var d1 := WriteEntries(d, variables, visited, i, swapped).0;
      Orderly(start, d1, count) && Invalid(d1.registers)
    decreases |variables| - i
  {
    if i < |variables| && i < visited && Mapping(i + 1) in d.registers {
      if d.registers[Mapping(i + 1)].writable {
        var word := EntryWord(variables[i], swapped);
        PutIsOrderly(start, d, Mapping(i + 1), word, count);
        var (d1, e) := Put(d, Mapping(i + 1), word);
        if e.None? {
          EntriesAreOrderly(start, d1, variables, visited, i + 1, swapped, count);
        }
      } else {
        EntriesAreOrderly(start, d, variables, visited, i + 1, swapped, count);
      }
    }
  }

  lemma MarkingIsOrderly(c: Config, cobId: nat, d: Device, count: nat)
    requires d.log == []
    ensures var (d1, e) := Put(d, Com(1), CobWord(cobId, false, c.rtrAllowed));
      Orderly(d, d1, count) && (e.None? ==> Invalid(d1.registers))
  {
    CobRoundTrip(cobId, false, c.rtrAllowed);
    hide CobWord;
    hide Bit;
    PutIsOrderly(d, d, Com(1), CobWord(cobId, false, c.rtrAllowed), count);
  }

  lemma DisableIsOrderly(c: Config, cobId: nat, d: Device, count: nat)
    requires d.log == []
    ensures var (d1, e) := Disable(c, cobId, d);
      Orderly(d, d1, count) && (e.None? ==> Invalid(d1.registers))
  {
    hide Put;
    hide Orderly;
    hide Invalid;
    hide SetComRecords;
    MarkingIsOrderly(c, cobId, d, count);
    var (d1, e) := Put(d, Com(1), CobWord(cobId, false, c.rtrAllowed));
    if e.None? {
      ComRecordsAreOrderly(d, d1, Settings(c), count);
    }
  }

  lemma ClearIsOrderly(start: Device, d: Device, c: Config, count: nat)
    requires Orderly(start, d, count) && Invalid(d.registers)
    ensures var (_, d1, e) := ClearCount(c, d);
      Orderly(start, d1, count) && (e.None? ==> Invalid(d1.registers) && CountIs(d1.registers, 0))
  {
    PutIsOrderly(start, d, Mapping(0), 0, count);
  }

  lemma SetCountIsOrderly(start: Device, d: Device, n: nat, count: nat)
    requires Orderly(start, d, count)
    ensures var (d1, e) := SetCount(d, n);
      Orderly(start, d1, count) && (e.None? ==> CountIs(d1.registers, n))
  {
    PutIsOrderly(start, d, Mapping(0), n, count);
  }

  lemma MappingIsOrderly(start: Device, d: Device, c: Config, swapped: bool, count: nat)
    requires Orderly(start, d, count) && Invalid(d.registers)
    ensures var (c1, d1, e) := WriteMapping(c, d, swapped);
      Orderly(start, d1, count) && (e.None? ==> CountIs(d1.registers, |c1.pdo.variables|))
  {
    hide Orderly;
    hide ClearCount;
    hide WriteEntries;
    hide SetCount;
    ClearIsOrderly(start, d, c, count);
    var (c1, d1, e1) := ClearCount(c, d);
    if e1.None? {
      EntriesAreOrderly(start, d1, c1.pdo.variables, Visited(d1), 0, swapped, count);
      var (d2, e2) := WriteEntries(d1, c1.pdo.variables, Visited(d1), 0, swapped);
      SetCountIsOrderly(start, d2, |c1.pdo.variables|, count);
    }
  }

  /**
   Saving is safe at every point, also when it stops early: the PDO is marked invalid before its
   mapping is touched, and marked valid again only when the mapping is complete.
   */
  lemma SaveIsSafe(c: Config, d: Device, swapped: bool)
    requires d.log == []
    ensures var (c1, d1, e) := Save(c, d, swapped);
      Orderly(d, d1, |c1.pdo.variables|)
  {
    hide Disable;
    hide WriteMapping;
    hide Orderly;
    hide Put;
    if c.cobId.None? {
      NothingWritten(d, |c.pdo.variables|);
    } else {
      var count := |Save(c, d, swapped).0.pdo.variables|;
      var (d1, e1) := Disable(c, c.cobId.value, d);
      DisableIsOrderly(c, c.cobId.value, d, count);
      if e1.None? {
        MappingIsOrderly(d, d1, c, swapped, count);
        var (c2, d2, e2) := WriteMapping(c, d1, swapped);
        if e2.None? {
          PutIsOrderly(d, d2, Com(1), CobWord(c.cobId.value, true, c.rtrAllowed), count);
        }
      }
    }
  }
}
