/** What a saved configuration reads back as. */
module PdoRoundTrip {
  import opened Bits
  import opened PdoConfig
  import opened PdoLayout
  import opened PdoMapping
  import opened PdoWords
  import opened Wrappers

  // ----- What saving leaves in the registers -----

  /** Same registers with the same access, whatever their values. */
  ghost predicate SameShape(d: Device, d1: Device) {
    && d1.registers.Keys == d.registers.Keys && d1.isArray == d.isArray && d1.entries == d.entries
    && forall at :: at in d.registers ==> d1.registers[at] == d.registers[at].(value := d1.registers[at].value)
  }

  /** No other registers than those of the settings have changed. */
  ghost predicate OnlySettings(d: Device, d1: Device, settings: seq<(nat, Option<nat>)>) {
    SameShape(d, d1) &&
    forall at :: at in d.registers && (at.Mapping? || (forall s :: s in settings ==> s.0 != at.sub)) ==>
      d1.registers[at] == d.registers[at]
  }

  /** Every given and writable setting is in its register. */
  ghost predicate AreSet(d: Device, settings: seq<(nat, Option<nat>)>) {
    forall i :: 0 <= i < |settings| && settings[i].1.Some? ==>
      var at := Com(settings[i].0);
      at in d.registers && (d.registers[at].writable ==> d.registers[at].value == settings[i].1.value)
  }

  /** What one setting leaves in its register. */
  lemma ComRecordIsSet(d: Device, sub: nat, setting: Option<nat>)
    ensures var (d1, e) := SetComRecord(d, sub, setting);
      e.None? ==>
        && SameShape(d, d1) && (forall at :: at in d.registers && at != Com(sub) ==> d1.registers[at] == d.registers[at])
        && (setting.Some? ==>
              Com(sub) in d.registers && (d.registers[Com(sub)].writable ==> d1.registers[Com(sub)].value == setting.value))
  {
  }

  lemma {:induction false} ComRecordsAreSet(d: Device, settings: seq<(nat, Option<nat>)>)
    requires forall i, j :: 0 <= i < j < |settings| ==> settings[i].0 != settings[j].0
    requires forall i :: 0 <= i < |settings| ==> settings[i].0 != 1
    ensures var (d1, e) := SetComRecords(d, settings);
      e.None? ==> OnlySettings(d, d1, settings) && AreSet(d1, settings)
    decreases |settings|
  {
    hide SetComRecord;
    if settings != [] {
      var (sub, setting) := settings[0];
      ComRecordIsSet(d, sub, setting);
      var (d1, e) := SetComRecord(d, sub, setting);
      if e.None? {
        ComRecordsAreSet(d1, settings[1..]);
        var (d2, e2) := SetComRecords(d1, settings[1..]);
        if e2.None? {
          FirstStaysSet(d, d1, d2, settings);
        }
      }
    }
  }

  lemma FirstStaysSet(d: Device, d1: Device, d2: Device, settings: seq<(nat, Option<nat>)>)
    requires settings != [] && forall i :: 0 < i < |settings| ==> settings[i].0 != settings[0].0
    requires SameShape(d, d1)
    requires forall at :: at in d.registers && at != Com(settings[0].0) ==> d1.registers[at] == d.registers[at]
    requires settings[0].1.Some? ==>
      var at := Com(settings[0].0);
      at in d.registers && (d.registers[at].writable ==> d1.registers[at].value == settings[0].1.value)
    requires OnlySettings(d1, d2, settings[1..]) && AreSet(d2, settings[1..])
    ensures OnlySettings(d, d2, settings) && AreSet(d2, settings)
  {
    assert forall i :: 0 < i < |settings| ==> settings[1..][i - 1] == settings[i];
  }

  /** One register has a new value, all others are as before. */
  ghost predicate OnlyChanged(d: Device, d1: Device, at: Address, value: int) {
    && SameShape(d, d1) && at in d.registers && d1.registers[at].value == value
    && forall x :: x in d.registers && x != at ==> d1.registers[x].value == d.registers[x].value
  }

  lemma PutChanges(d: Device, at: Address, value: int)
    ensures var (d1, e) := Put(d, at, value);
      e.None? ==> OnlyChanged(d, d1, at, value)
  {
  }

  /** The value of a register after the entries from number i on are written. */
  function EntryValue(d: Device, variables: seq<Variable>, visited: nat, i: nat, swapped: bool, at: Address): nat
    requires at in d.registers
  {
    if at.Mapping? && i < at.sub <= Min(|variables|, visited) && d.registers[at].writable
    then EntryWord(variables[at.sub - 1], swapped)
    else d.registers[at].value
  }

  ghost predicate Entered(d: Device, d1: Device, variables: seq<Variable>, visited: nat, i: nat, swapped: bool) {
    && SameShape(d, d1)
    && (forall at :: at in d.registers ==> d1.registers[at].value == EntryValue(d, variables, visited, i, swapped, at))
    && (forall sub :: i < sub <= Min(|variables|, visited) ==> Mapping(sub) in d.registers)
  }

  lemma {:induction false} EntriesAreWritten(d: Device, variables: seq<Variable>, visited: nat, i: nat, swapped: bool)
    ensures var (d1, e) := WriteEntries(d, variables, visited, i, swapped);
      e.None? ==> Entered(d, d1, variables, visited, i, swapped)
    decreases |variables| - i
  {
    hide EntryWord;
    hide Entered;
    if i < |variables| && i < visited && Mapping(i + 1) in d.registers {
      var at, word := Mapping(i + 1), EntryWord(variables[i], swapped);
      var d1 := if d.registers[at].writable then Put(d, at, word).0 else d;
      EntriesAreWritten(d1, variables, visited, i + 1, swapped);
      var (d2, e) := WriteEntries(d1, variables, visited, i + 1, swapped);
      if WriteEntries(d, variables, visited, i, swapped).1.None? {
        OneMoreEntered(d, d1, d2, variables, visited, i, swapped);
      }
    } else if i >= |variables| || i >= visited {
      NothingEntered(d, variables, visited, i, swapped);
    }
  }

  lemma NothingEntered(d: Device, variables: seq<Variable>, visited: nat, i: nat, swapped: bool)
    requires i >= |variables| || i >= visited
    ensures Entered(d, d, variables, visited, i, swapped)
  {
  }

  lemma OneMoreEntered(d: Device, d1: Device, d2: Device, variables: seq<Variable>, visited: nat, i: nat, swapped: bool)
    requires i < |variables| && i < visited && Mapping(i + 1) in d.registers
    requires
      var at := Mapping(i + 1);
      if d.registers[at].writable then OnlyChanged(d, d1, at, EntryWord(variables[i], swapped)) else d1 == d
    requires Entered(d1, d2, variables, visited, i + 1, swapped)
    ensures Entered(d, d2, variables, visited, i, swapped)
  {
    hide EntryWord;
  }

  // ----- A completed save -----

  predicate RefusesZero(d: Device) {
    Mapping(0) in d.registers && d.registers[Mapping(0)].refusal(0).Some?
  }

  function OldCount(d: Device): nat {
    if Mapping(0) in d.registers then d.registers[Mapping(0)].value else 0
  }

  /** The variables a save writes: a device that refuses a count of zero gets dummies for its other entries. */
  function Written(p: Pdo, d: Device): seq<Variable> {
    if RefusesZero(d) then FillMap(p, OldCount(d)).variables else p.variables
  }

  /** Number of entries a save visits: none of an array whose count has just been set to zero. */
  function Reached(d: Device): nat {
    if RefusesZero(d) then Visited(d) else if d.isArray then 0 else d.entries
  }

  /** The count a completed save leaves: a device that refuses the new one keeps what it has. */
  function CountLeft(p: Pdo, d: Device): nat {
    var n := |Written(p, d)|;
    if Mapping(0) in d.registers && d.registers[Mapping(0)].refusal(n).Some?
    then if RefusesZero(d) then OldCount(d) else 0
    else n
  }

  /** The mapping parameter: the count, and the entries as far as they are reached and writable. */
  ghost predicate MappingStored(p: Pdo, d: Device, d1: Device, swapped: bool) {
    && SameShape(d, d1) && Mapping(0) in d.registers && d1.registers[Mapping(0)].value == CountLeft(p, d)
    && (forall at :: at in d.registers && at.Mapping? && at.sub > 0 ==>
      d1.registers[at].value == EntryValue(d, Written(p, d), Reached(d), 0, swapped, at))
    && (forall sub :: 0 < sub <= Min(|Written(p, d)|, Reached(d)) ==> Mapping(sub) in d.registers)
  }

  ghost predicate ComStored(c: Config, cobId: nat, valid: bool, d: Device, d1: Device) {
    && SameShape(d, d1) && Com(1) in d.registers && AreSet(d1, Settings(c))
    && d1.registers[Com(1)].value == CobWord(cobId, valid, c.rtrAllowed)
  }

  lemma ComStoredKeepsShape(c: Config, cobId: nat, d: Device, d1: Device)
    requires ComStored(c, cobId, false, d, d1)
    ensures SameShape(d, d1)
  {
  }

  lemma DisableStores(c: Config, cobId: nat, d: Device)
    ensures var (d1, e) := Disable(c, cobId, d);
      e.None? ==> ComStored(c, cobId, false, d, d1) &&
                  forall at :: at in d.registers && at.Mapping? ==> d1.registers[at] == d.registers[at]
  {
    var d1 := Put(d, Com(1), CobWord(cobId, false, c.rtrAllowed)).0;
    ComRecordsAreSet(d1, Settings(c));
  }

  lemma WriteMappingStores(c: Config, d: Device, swapped: bool)
    ensures var (_, d1, e) := WriteMapping(c, d, swapped);
      e.None? ==> MappingStored(c.pdo, d, d1, swapped) &&
                  forall at :: at in d.registers && at.Com? ==> d1.registers[at].value == d.registers[at].value
  {
    hide EntryWord;
    hide WriteEntries;
    hide SetCount;
    hide ClearCount;
    hide MappingStored;
    hide OnlyChanged;
    hide Entered;
    var (c1, d1, e1) := ClearCount(c, d);
    if e1.None? {
      ZeroIsWritten(c, d);
      EntriesAreWritten(d1, c1.pdo.variables, Visited(d1), 0, swapped);
      var (d2, e2) := WriteEntries(d1, c1.pdo.variables, Visited(d1), 0, swapped);
      if e2.None? {
        EnteredKeepsShape(d1, d2, c1.pdo.variables, Visited(d1), 0, swapped);
        CountIsSet(d2, |c1.pdo.variables|);
        var (d3, e3) := SetCount(d2, |c1.pdo.variables|);
        if e3.None? {
          CountIsLeft(c.pdo, d, d1, d2, d3, swapped);
        }
      }
    }
  }

  lemma EnteredKeepsShape(d: Device, d1: Device, variables: seq<Variable>, visited: nat, i: nat, swapped: bool)
    requires Entered(d, d1, variables, visited, i, swapped)
    ensures SameShape(d, d1)
  {
  }

  /** The first step of a save, if it does not raise. */
  lemma ZeroIsWritten(c: Config, d: Device)
    ensures var (c1, d1, e) := ClearCount(c, d);
      e.None? ==>
        && Mapping(0) in d.registers && SameShape(d, d1)
        && c1.pdo.variables == Written(c.pdo, d) && Visited(d1) == Reached(d)
        && if RefusesZero(d) then d1 == d else OnlyChanged(d, d1, Mapping(0), 0)
  {
    hide FillMap;
    PutChanges(d, Mapping(0), 0);
  }

  /** Only a read-only count may refuse, and then it stays. */
  lemma CountIsSet(d: Device, n: nat)
    requires Mapping(0) in d.registers
    ensures var (d1, e) := SetCount(d, n);
      e.None? ==> if d.registers[Mapping(0)].refusal(n).Some? then d1 == d else OnlyChanged(d, d1, Mapping(0), n)
  {
    PutChanges(d, Mapping(0), n);
  }

  lemma CountIsLeft(p: Pdo, d: Device, d1: Device, d2: Device, d3: Device, swapped: bool)
    requires Mapping(0) in d.registers
    requires if RefusesZero(d) then d1 == d else OnlyChanged(d, d1, Mapping(0), 0)
    requires Entered(d1, d2, Written(p, d), Reached(d), 0, swapped) && Mapping(0) in d2.registers
    requires var n := |Written(p, d)|;
      if d2.registers[Mapping(0)].refusal(n).Some? then d3 == d2 else OnlyChanged(d2, d3, Mapping(0), n)
    ensures MappingStored(p, d, d3, swapped)
    ensures forall at :: at in d.registers && at.Com? ==> d3.registers[at].value == d.registers[at].value
  {
    hide EntryWord;
    hide Written;
    hide Reached;
    var written, reached := Written(p, d), Reached(d);
    forall at | at in d.registers && at != Mapping(0)
      ensures d2.registers[at].value == EntryValue(d, written, reached, 0, swapped, at)
    {
      assert d2.registers[at].value == EntryValue(d1, written, reached, 0, swapped, at);
    }
    assert d2.registers[Mapping(0)].value == d1.registers[Mapping(0)].value;
  }

  lemma SaveStores(c: Config, d: Device, swapped: bool)
    requires c.cobId.Some?
    ensures var (_, d1, e) := Save(c, d, swapped);
      e.None? ==> MappingStored(c.pdo, d, d1, swapped) && ComStored(c, c.cobId.value, c.enabled, d, d1)
  {
    hide Disable;
    hide WriteMapping;
    hide CobWord;
    hide Put;
    hide MappingStored;
    hide ComStored;
    var cobId := c.cobId.value;
    var (d1, e1) := Disable(c, cobId, d);
    DisableStores(c, cobId, d);
    if e1.None? {
      ComStoredKeepsShape(c, cobId, d, d1);
      WriteMappingStores(c, d1, swapped);
      var (_, d2, e2) := WriteMapping(c, d1, swapped);
      if e2.None? {
        MappingStaysStored(c, cobId, d, d1, d2, swapped);
        PutChanges(d2, Com(1), CobWord(cobId, true, c.rtrAllowed));
        if c.enabled && Put(d2, Com(1), CobWord(cobId, true, c.rtrAllowed)).1.None? {
          EnableStores(c, cobId, d, d2, Put(d2, Com(1), CobWord(cobId, true, c.rtrAllowed)).0, swapped);
        }
      }
    }
  }

  /** Disabling the PDO does not change what a save does to the mapping. */
  lemma SameMapping(p: Pdo, d: Device, d1: Device)
    requires SameShape(d, d1) && forall at :: at in d.registers && at.Mapping? ==> d1.registers[at] == d.registers[at]
    ensures Written(p, d1) == Written(p, d) && Reached(d1) == Reached(d) && CountLeft(p, d1) == CountLeft(p, d)
  {
    hide FillMap;
  }

  lemma MappingStaysStored(c: Config, cobId: nat, d: Device, d1: Device, d2: Device, swapped: bool)
    requires ComStored(c, cobId, false, d, d1) && MappingStored(c.pdo, d1, d2, swapped)
    requires forall at :: at in d.registers && at.Mapping? ==> d1.registers[at] == d.registers[at]
    requires forall at :: at in d1.registers && at.Com? ==> d2.registers[at].value == d1.registers[at].value
    ensures MappingStored(c.pdo, d, d2, swapped) && ComStored(c, cobId, false, d, d2)
  {
    hide EntryWord;
    hide CobWord;
    hide Written;
    hide Reached;
    hide CountLeft;
    SameMapping(c.pdo, d, d1);
    forall at | at in d.registers && at.Mapping? && at.sub > 0
      ensures EntryValue(d1, Written(c.pdo, d), Reached(d), 0, swapped, at) ==
              EntryValue(d, Written(c.pdo, d), Reached(d), 0, swapped, at)
    {
    }
  }

  lemma EnableStores(c: Config, cobId: nat, d: Device, d2: Device, d3: Device, swapped: bool)
    requires MappingStored(c.pdo, d, d2, swapped) && ComStored(c, cobId, false, d, d2)
    requires OnlyChanged(d2, d3, Com(1), CobWord(cobId, true, c.rtrAllowed))
    ensures MappingStored(c.pdo, d, d3, swapped) && ComStored(c, cobId, true, d, d3)
  {
    hide Written;
    hide CountLeft;
    hide EntryWord;
    hide CobWord;
    hide EntryValue;
  }

  // ----- Reading the mapping -----

  /** The mapping entry of a register reads as this variable. */
  predicate Decodes(d: Device, sub: nat, v: Variable, swapped: bool) {
    Mapping(sub) in d.registers &&
    EntryFields(d.registers[Mapping(sub)].value, swapped) == (v.index, v.subindex, v.length)
  }

  /** A variable a mapping entry can describe. */
  predicate Mappable(v: Variable, swapped: bool) {
    FitsEntry(v, swapped) && v.index > 0 && v.length > 0
  }

  /** Reading adds a variable for this entry. */
  predicate Counts(d: Device, sub: nat, types: Dictionary, swapped: bool) {
    Mapping(sub) in d.registers &&
    var (index, subindex, size) := EntryFields(d.registers[Mapping(sub)].value, swapped);
    index != 0 && size != 0 && types(index, subindex).Some?
  }

  ghost predicate AllCount(d: Device, n: nat, types: Dictionary, swapped: bool) {
    forall sub :: 0 < sub <= n ==> Counts(d, sub, types, swapped)
  }

  function AddedBy(d: Device, sub: nat, types: Dictionary, swapped: bool): (nat, nat, nat, Kind)
    requires Counts(d, sub, types, swapped)
  {
    var (index, subindex, size) := EntryFields(d.registers[Mapping(sub)].value, swapped);
    (index, subindex, size, types(index, subindex).value)
  }

  /** What the entries from number i on add to the map. */
  function Added(d: Device, i: nat, n: nat, types: Dictionary, swapped: bool): seq<(nat, nat, nat, Kind)>
    decreases n - i
  {
    if i >= n then []
    else
      (if Counts(d, i + 1, types, swapped) then [AddedBy(d, i + 1, types, swapped)] else []) +
      Added(d, i + 1, n, types, swapped)
  }

  lemma {:induction false} ReadingAdds(d: Device, i: nat, n: nat, types: Dictionary, swapped: bool)
    ensures var (entries, ok) := ReadEntries(d, i, n, swapped);
      && (ok <==> forall sub :: i < sub <= n ==> Mapping(sub) in d.registers)
      && (ok ==> Found(types, entries) == Added(d, i, n, types, swapped))
    decreases n - i
  {
    hide EntryFields;
    if i < n && Mapping(i + 1) in d.registers {
      ReadingAdds(d, i + 1, n, types, swapped);
      var entries, rest := ReadEntries(d, i, n, swapped).0, ReadEntries(d, i + 1, n, swapped).0;
      assert entries != rest ==> entries[1..] == rest;
    }
  }

  /** Entries that all count keep their place; entries of which none counts add nothing. */
  lemma {:induction false} AddedInPlace(d: Device, i: nat, n: nat, types: Dictionary, swapped: bool)
    requires i <= n
    ensures var added := Added(d, i, n, types, swapped);
      && |added| <= n - i
      && (|added| == n - i <==> forall sub :: i < sub <= n ==> Counts(d, sub, types, swapped))
      && (|added| == n - i ==> forall sub :: i < sub <= n ==> added[sub - 1 - i] == AddedBy(d, sub, types, swapped))
      && (added == [] <==> forall sub :: i < sub <= n ==> !Counts(d, sub, types, swapped))
    decreases n - i
  {
    hide Counts;
    hide AddedBy;
    if i < n {
      AddedInPlace(d, i + 1, n, types, swapped);
    }
  }

  lemma {:induction false} AddedSplits(d: Device, i: nat, m: nat, n: nat, types: Dictionary, swapped: bool)
    requires i <= m <= n
    ensures Added(d, i, n, types, swapped) == Added(d, i, m, types, swapped) + Added(d, m, n, types, swapped)
    decreases m - i
  {
    hide Counts;
    hide AddedBy;
    if i < m {
      AddedSplits(d, i + 1, m, n, types, swapped);
    }
  }

  lemma {:induction false} MappedAt(variables: seq<Variable>)
    ensures |Mapped(variables)| == |variables|
    ensures forall k :: 0 <= k < |variables| ==>
      var v := variables[k];
      Mapped(variables)[k] == (v.index, v.subindex, v.length, v.kind)
  {
    if variables != [] {
      MappedAt(variables[1..]);
    }
  }

  /** Addresses, lengths and types in order determine the layout, offsets included. */
  lemma LayoutIsDetermined(p: Pdo, q: Pdo)
    requires BackToBack(p) && BackToBack(q) && Mapped(p.variables) == Mapped(q.variables)
    ensures p.variables == q.variables && p.length == q.length
  {
    MappedAt(p.variables);
    MappedAt(q.variables);
    assert forall k :: 0 <= k < |p.variables| ==> Mapped(p.variables)[k] == Mapped(q.variables)[k];
    SameOffsets(p, q, |p.variables|);
  }

  lemma {:induction false} SameOffsets(p: Pdo, q: Pdo, n: nat)
    requires BackToBack(p) && BackToBack(q) && n <= |p.variables| == |q.variables|
    requires forall k :: 0 <= k < |p.variables| ==> p.variables[k].length == q.variables[k].length
    ensures forall k :: 0 <= k < n ==> p.variables[k].offset == q.variables[k].offset
  {
    if n > 0 {
      SameOffsets(p, q, n - 1);
      assert n > 1 ==> p.variables[n - 1].offset == p.variables[n - 2].offset + p.variables[n - 2].length;
      assert n > 1 ==> q.variables[n - 1].offset == q.variables[n - 2].offset + q.variables[n - 2].length;
    }
  }

  /** Variables the dictionary knows and a mapping entry can describe, laid out back to back. */
  ghost predicate WellFormed(p: Pdo, types: Dictionary, swapped: bool) {
    BackToBack(p) && forall v :: v in p.variables ==> Mappable(v, swapped) && types(v.index, v.subindex) == Some(v.kind)
  }

  /** The first entries are those of the variables, and the others add nothing. */
  ghost predicate HoldsMap(d: Device, p: Pdo, count: nat, types: Dictionary, swapped: bool) {
    && |p.variables| <= count
    && (forall k :: 0 <= k < |p.variables| ==> Decodes(d, k + 1, p.variables[k], swapped))
    && (forall sub :: |p.variables| < sub <= count ==> Mapping(sub) in d.registers && !Counts(d, sub, types, swapped))
  }

  lemma DecodingCounts(d: Device, p: Pdo, k: nat, types: Dictionary, swapped: bool)
    requires WellFormed(p, types, swapped) && k < |p.variables| == |Mapped(p.variables)|
    ensures Decodes(d, k + 1, p.variables[k], swapped) <==>
            Counts(d, k + 1, types, swapped) && AddedBy(d, k + 1, types, swapped) == Mapped(p.variables)[k]
  {
    hide EntryFields;
    hide FitsEntry;
    MappedAt(p.variables);
    assert p.variables[k] in p.variables;
  }

  lemma HeldMapIsAdded(d: Device, p: Pdo, count: nat, types: Dictionary, swapped: bool)
    requires WellFormed(p, types, swapped) && HoldsMap(d, p, count, types, swapped)
    ensures Added(d, 0, count, types, swapped) == Mapped(p.variables)
  {
    hide Counts;
    hide AddedBy;
    hide WellFormed;
    hide Decodes;
    var n, mapped := |p.variables|, Mapped(p.variables);
    MappedAt(p.variables);
    AddedSplits(d, 0, n, count, types, swapped);
    AddedInPlace(d, 0, n, types, swapped);
    AddedInPlace(d, n, count, types, swapped);
    forall sub | 0 < sub <= n ensures Counts(d, sub, types, swapped) && AddedBy(d, sub, types, swapped) == mapped[sub - 1] {
      assert Decodes(d, (sub - 1) + 1, p.variables[sub - 1], swapped);
      DecodingCounts(d, p, sub - 1, types, swapped);
    }
    var first := Added(d, 0, n, types, swapped);
    forall k | 0 <= k < n ensures first[k] == mapped[k] {
      assert first[(k + 1) - 1 - 0] == AddedBy(d, k + 1, types, swapped);
    }
    assert first == mapped;
  }

  /** If so many entries are added and the first ones all count, these are what is added. */
  lemma FirstAreAdded(d: Device, n: nat, count: nat, types: Dictionary, swapped: bool)
    requires |Added(d, 0, count, types, swapped)| == n && (count > n ==> AllCount(d, n, types, swapped))
    ensures n <= count && AllCount(d, n, types, swapped)
    ensures forall sub :: 0 < sub <= n ==> Added(d, 0, count, types, swapped)[sub - 1] == AddedBy(d, sub, types, swapped)
    ensures forall sub :: n < sub <= count ==> !Counts(d, sub, types, swapped)
  {
    hide Counts;
    hide AddedBy;
    AddedInPlace(d, 0, count, types, swapped);
    if count > n {
      AddedSplits(d, 0, n, count, types, swapped);
      AddedInPlace(d, 0, n, types, swapped);
      AddedInPlace(d, n, count, types, swapped);
    }
  }

  /** Without a gap in front of surplus entries, the entries add the map only if they hold it. */
  lemma AddedMapIsHeld(d: Device, p: Pdo, count: nat, types: Dictionary, swapped: bool)
    requires WellFormed(p, types, swapped) && Added(d, 0, count, types, swapped) == Mapped(p.variables)
    requires count > |p.variables| ==> AllCount(d, |p.variables|, types, swapped)
    requires forall sub :: 0 < sub <= count ==> Mapping(sub) in d.registers
    ensures HoldsMap(d, p, count, types, swapped)
  {
    hide Counts;
    hide AddedBy;
    hide WellFormed;
    hide Decodes;
    hide Added;
    MappedAt(p.variables);
    FirstAreAdded(d, |p.variables|, count, types, swapped);
    forall k | 0 <= k < |p.variables| ensures Decodes(d, k + 1, p.variables[k], swapped) {
      var sub := k + 1;
      assert Counts(d, sub, types, swapped) && Mapped(p.variables)[sub - 1] == AddedBy(d, sub, types, swapped);
      DecodingCounts(d, p, k, types, swapped);
    }
  }

  /** What reading makes of a device that has this count. */
  lemma MapIsRecoveredIff(p: Pdo, q: Pdo, d: Device, count: nat, types: Dictionary, swapped: bool)
    requires WellFormed(p, types, swapped)
    ensures var (entries, ok) := ReadEntries(d, 0, count, swapped);
      var read := AddAll(Clear(q), types, entries);
      && (HoldsMap(d, p, count, types, swapped) ==> ok && read.variables == p.variables && read.length == p.length)
      && (ok && read.variables == p.variables &&
          (count > |p.variables| ==> AllCount(d, |p.variables|, types, swapped)) ==>
            HoldsMap(d, p, count, types, swapped))
  {
    hide Counts;
    var (entries, ok) := ReadEntries(d, 0, count, swapped);
    ReadingAdds(d, 0, count, types, swapped);
    AddingExtendsLayout(Clear(q), types, entries);
    var read := AddAll(Clear(q), types, entries);
    assert read.variables[0..] == read.variables;
    if HoldsMap(d, p, count, types, swapped) {
      HeldEntriesExist(d, p, count, types, swapped);
      HeldMapIsAdded(d, p, count, types, swapped);
      LayoutIsDetermined(read, p);
    } else if ok && read.variables == p.variables && (count > |p.variables| ==> AllCount(d, |p.variables|, types, swapped)) {
      AddedMapIsHeld(d, p, count, types, swapped);
    }
  }

  lemma HeldEntriesExist(d: Device, p: Pdo, count: nat, types: Dictionary, swapped: bool)
    requires HoldsMap(d, p, count, types, swapped)
    ensures forall sub :: 0 < sub <= count ==> Mapping(sub) in d.registers
  {
    forall sub | 0 < sub <= count ensures Mapping(sub) in d.registers {
      var k := sub - 1;
      assert k < |p.variables| ==> Decodes(d, k + 1, p.variables[k], swapped);
    }
  }

  // ----- Save, then read -----

  /** A save writes this entry, if it has a variable for it. */
  predicate IsWritten(d: Device, sub: nat) {
    Mapping(sub) in d.registers && sub <= Reached(d) && d.registers[Mapping(sub)].writable
  }

  /** What the device must be like before a save for the variable's entry to be right after it. */
  predicate WillBeStored(d: Device, sub: nat, v: Variable, swapped: bool) {
    IsWritten(d, sub) || Decodes(d, sub, v, swapped)
  }

  /** And for a surplus entry to add nothing. */
  predicate WillBeSkipped(d: Device, sub: nat, types: Dictionary, swapped: bool) {
    Mapping(sub) in d.registers && (IsWritten(d, sub) || !Counts(d, sub, types, swapped))
  }

  /** The count left is large enough, each variable is written or right before, each surplus entry overwritten or null. */
  ghost predicate WillHold(d: Device, p: Pdo, types: Dictionary, swapped: bool) {
    && |p.variables| <= CountLeft(p, d)
    && (forall k :: 0 <= k < |p.variables| ==> WillBeStored(d, k + 1, p.variables[k], swapped))
    && (forall sub :: |p.variables| < sub <= CountLeft(p, d) ==> WillBeSkipped(d, sub, types, swapped))
  }

  /** Where a save leaves surplus entries, none of the first entries is a null entry that stays. */
  ghost predicate NoGaps(d: Device, p: Pdo, types: Dictionary, swapped: bool) {
    CountLeft(p, d) > |p.variables| ==>
      forall sub :: 0 < sub <= |p.variables| ==> IsWritten(d, sub) || Counts(d, sub, types, swapped)
  }

  /**
   A completed save reads back as the same variables at the same bit offsets if the device will hold
   them: each entry is reached and writable, or was right before, and surplus entries are overwritten
   or null. That is also necessary, unless a null entry stays in front of surplus ones, so that the
   entries behind it could take its place. No entry of a mapping parameter described as an array is
   reached if the device takes a count of zero: the loop asks it for the count that has just been set.
   */
  lemma MappingRoundTrip(c: Config, c0: Config, d: Device, types: Dictionary, swapped: bool)
    requires WellFormed(c.pdo, types, swapped) && c.cobId.Some? && Com(2) in d.registers
    ensures var (_, d1, e) := Save(c, d, swapped);
      e.None? ==>
        var (read, ok) := Read(c0, d1, types, swapped);
        && (WillHold(d, c.pdo, types, swapped) ==>
              ok && read.pdo.variables == c.pdo.variables && read.pdo.length == c.pdo.length)
        && (NoGaps(d, c.pdo, types, swapped) && ok && read.pdo.variables == c.pdo.variables ==>
              WillHold(d, c.pdo, types, swapped))
  {
    hide Save;
    hide WellFormed;
    hide HoldsMap;
    hide WillHold;
    hide NoGaps;
    hide Counts;
    hide AddAll;
    hide ReadEntries;
    SaveStores(c, d, swapped);
    var (_, d1, e) := Save(c, d, swapped);
    if e.None? {
      MapIsRecoveredIff(c.pdo, c0.pdo, d1, CountLeft(c.pdo, d), types, swapped);
      WillHoldIsHeld(c.pdo, d, d1, types, swapped);
      if NoGaps(d, c.pdo, types, swapped) {
        GapsStay(c.pdo, d, d1, types, swapped);
      }
    }
  }

  lemma WillHoldIsHeld(p: Pdo, d: Device, d1: Device, types: Dictionary, swapped: bool)
    requires WellFormed(p, types, swapped) && MappingStored(p, d, d1, swapped)
    ensures WillHold(d, p, types, swapped) <==> HoldsMap(d1, p, CountLeft(p, d), types, swapped)
  {
    hide Counts;
    hide MappingStored;
    hide Decodes;
    forall k | 0 <= k < |p.variables|
      ensures Decodes(d1, k + 1, p.variables[k], swapped) <==> WillBeStored(d, k + 1, p.variables[k], swapped)
    {
      EntryIsStored(p, d, d1, k, types, swapped);
    }
    forall sub | |p.variables| < sub <= CountLeft(p, d)
      ensures (Mapping(sub) in d1.registers && !Counts(d1, sub, types, swapped)) <==>
              WillBeSkipped(d, sub, types, swapped)
    {
      SurplusIsSkipped(p, d, d1, sub - 1, types, swapped);
    }
  }

  lemma GapsStay(p: Pdo, d: Device, d1: Device, types: Dictionary, swapped: bool)
    requires WellFormed(p, types, swapped) && MappingStored(p, d, d1, swapped) && NoGaps(d, p, types, swapped)
    ensures CountLeft(p, d) > |p.variables| ==> AllCount(d1, |p.variables|, types, swapped)
  {
    hide Counts;
    hide MappingStored;
    if CountLeft(p, d) > |p.variables| {
      forall sub | 0 < sub <= |p.variables| ensures Counts(d1, sub, types, swapped) {
        EntryIsStored(p, d, d1, sub - 1, types, swapped);
      }
    }
  }

  /** The map gets dummies of no index and no length, up to the number of entries. */
  lemma {:induction false} FilledUp(p: Pdo, needed: nat)
    ensures var q := FillMap(p, needed);
      && p.variables <= q.variables && |q.variables| == (if |p.variables| >= needed then |p.variables| else needed)
      && (forall k :: |p.variables| <= k < |q.variables| ==>
          q.variables[k].index == q.variables[k].subindex == q.variables[k].length == 0)
    decreases needed - |p.variables|
  {
    if |p.variables| < needed {
      FilledUp(p.(variables := p.variables + [Variable(0, 0, p.length, 0, Bytes(1))]), needed);
    }
  }

  lemma WrittenExtends(p: Pdo, d: Device)
    ensures p.variables <= Written(p, d) && CountLeft(p, d) <= |Written(p, d)|
    ensures forall k :: |p.variables| <= k < |Written(p, d)| ==>
      var v := Written(p, d)[k];
      v.index == v.subindex == v.length == 0
  {
    hide FillMap;
    FilledUp(p, OldCount(d));
  }

  lemma EntryIsStored(p: Pdo, d: Device, d1: Device, k: nat, types: Dictionary, swapped: bool)
    requires WellFormed(p, types, swapped) && MappingStored(p, d, d1, swapped) && k < |p.variables|
    ensures Decodes(d1, k + 1, p.variables[k], swapped) <==> WillBeStored(d, k + 1, p.variables[k], swapped)
    ensures Counts(d1, k + 1, types, swapped) <==> IsWritten(d, k + 1) || Counts(d, k + 1, types, swapped)
  {
    hide EntryFields;
    hide EntryWord;
    hide Written;
    hide Reached;
    hide CountLeft;
    hide BackToBack;
    var v := p.variables[k];
    WrittenExtends(p, d);
    EntryRoundTrip(v, swapped);
    assert v in p.variables && Written(p, d)[k] == v;
    if Mapping(k + 1) in d.registers {
      assert d1.registers[Mapping(k + 1)].value == EntryValue(d, Written(p, d), Reached(d), 0, swapped, Mapping(k + 1));
    }
  }

  lemma SurplusIsSkipped(p: Pdo, d: Device, d1: Device, k: nat, types: Dictionary, swapped: bool)
    requires MappingStored(p, d, d1, swapped) && |p.variables| <= k < CountLeft(p, d)
    ensures (Mapping(k + 1) in d1.registers && !Counts(d1, k + 1, types, swapped)) <==>
            WillBeSkipped(d, k + 1, types, swapped)
  {
    hide EntryFields;
    hide EntryWord;
    hide Written;
    hide Reached;
    hide CountLeft;
    WrittenExtends(p, d);
    EntryRoundTrip(Written(p, d)[k], swapped);
    if Mapping(k + 1) in d.registers {
      assert d1.registers[Mapping(k + 1)].value == EntryValue(d, Written(p, d), Reached(d), 0, swapped, Mapping(k + 1));
    }
  }

  /** What the entries from number i on will add to the map after a save. */
  function AddedAfter(d: Device, p: Pdo, i: nat, n: nat, types: Dictionary, swapped: bool): seq<(nat, nat, nat, Kind)>
    decreases n - i
  {
    if i >= n then []
    else
      (if IsWritten(d, i + 1) then
         if i < |p.variables| then Mapped([p.variables[i]]) else []
       else if Counts(d, i + 1, types, swapped) then [AddedBy(d, i + 1, types, swapped)]
       else []) +
      AddedAfter(d, p, i + 1, n, types, swapped)
  }

  lemma {:induction false} AddedAsForeseen(p: Pdo, d: Device, d1: Device, i: nat, types: Dictionary, swapped: bool)
    requires WellFormed(p, types, swapped) && MappingStored(p, d, d1, swapped)
    ensures Added(d1, i, CountLeft(p, d), types, swapped) == AddedAfter(d, p, i, CountLeft(p, d), types, swapped)
    decreases CountLeft(p, d) - i
  {
    hide Counts;
    hide AddedBy;
    hide IsWritten;
    hide MappingStored;
    hide WellFormed;
    hide CountLeft;
    hide Mapped;
    if i < CountLeft(p, d) {
      AddedAsForeseen(p, d, d1, i + 1, types, swapped);
      OneAsForeseen(p, d, d1, i, types, swapped);
    }
  }

  lemma OneAsForeseen(p: Pdo, d: Device, d1: Device, i: nat, types: Dictionary, swapped: bool)
    requires WellFormed(p, types, swapped) && MappingStored(p, d, d1, swapped) && i < CountLeft(p, d)
    ensures Counts(d1, i + 1, types, swapped) <==>
            if IsWritten(d, i + 1) then i < |p.variables| else Counts(d, i + 1, types, swapped)
    ensures Counts(d1, i + 1, types, swapped) ==>
      [AddedBy(d1, i + 1, types, swapped)] ==
        if IsWritten(d, i + 1) then Mapped([p.variables[i]]) else [AddedBy(d, i + 1, types, swapped)]
  {
    hide EntryFields;
    hide Written;
    hide Reached;
    hide CountLeft;
    hide EntryWord;
    hide WellFormed;
    if i < |p.variables| {
      EntryIsStored(p, d, d1, i, types, swapped);
      MappedAt(p.variables);
      MappedAt([p.variables[i]]);
      DecodingCounts(d1, p, i, types, swapped);
    } else {
      SurplusIsSkipped(p, d, d1, i, types, swapped);
    }
    if !IsWritten(d, i + 1) {
      UntouchedEntry(p, d, d1, i + 1, swapped);
    }
  }

  lemma UntouchedEntry(p: Pdo, d: Device, d1: Device, sub: nat, swapped: bool)
    requires MappingStored(p, d, d1, swapped) && sub > 0 && !IsWritten(d, sub)
    ensures Mapping(sub) in d1.registers <==> Mapping(sub) in d.registers
    ensures Mapping(sub) in d.registers ==> d1.registers[Mapping(sub)].value == d.registers[Mapping(sub)].value
  {
    hide Written;
    hide Reached;
    hide CountLeft;
    hide EntryWord;
    if Mapping(sub) in d.registers {
      assert d1.registers[Mapping(sub)].value == EntryValue(d, Written(p, d), Reached(d), 0, swapped, Mapping(sub));
    }
  }

  /**
   The exact condition, for every device: a completed save reads back as the same variables if and
   only if all entries the count left covers exist, and those that are written or stay add up to the map.
   */
  lemma MappingIsReadBackIff(c: Config, c0: Config, d: Device, types: Dictionary, swapped: bool)
    requires WellFormed(c.pdo, types, swapped) && c.cobId.Some? && Com(2) in d.registers
    ensures var (_, d1, e) := Save(c, d, swapped);
      e.None? ==>
        var (read, ok) := Read(c0, d1, types, swapped);
        var count := CountLeft(c.pdo, d);
        (ok && read.pdo.variables == c.pdo.variables) <==>
          ((forall sub :: 0 < sub <= count ==> Mapping(sub) in d.registers) &&
           AddedAfter(d, c.pdo, 0, count, types, swapped) == Mapped(c.pdo.variables))
  {
    hide Save;
    hide WellFormed;
    hide Counts;
    hide AddAll;
    hide ReadEntries;
    hide CountLeft;
    SaveStores(c, d, swapped);
    var (_, d1, e) := Save(c, d, swapped);
    if e.None? {
      var count := CountLeft(c.pdo, d);
      AddedAsForeseen(c.pdo, d, d1, 0, types, swapped);
      RecoveredIffAdded(c.pdo, c0.pdo, d1, count, types, swapped);
    }
  }

  lemma RecoveredIffAdded(p: Pdo, q: Pdo, d: Device, count: nat, types: Dictionary, swapped: bool)
    requires WellFormed(p, types, swapped)
    ensures var (entries, ok) := ReadEntries(d, 0, count, swapped);
      (ok && AddAll(Clear(q), types, entries).variables == p.variables) <==>
        ((forall sub :: 0 < sub <= count ==> Mapping(sub) in d.registers) &&
         Added(d, 0, count, types, swapped) == Mapped(p.variables))
  {
    hide Counts;
    var (entries, ok) := ReadEntries(d, 0, count, swapped);
    ReadingAdds(d, 0, count, types, swapped);
    AddingExtendsLayout(Clear(q), types, entries);
    var read := AddAll(Clear(q), types, entries);
    assert read.variables[0..] == read.variables;
    if ok && Added(d, 0, count, types, swapped) == Mapped(p.variables) {
      LayoutIsDetermined(read, p);
    }
  }

  /** The setting of one register is read back. */
  ghost predicate SettingReadBack(d: Device, sub: nat, setting: Option<nat>, read: Option<nat>) {
    Com(sub) in d.registers && d.registers[Com(sub)].writable && setting.Some? ==> read == setting
  }

  /**
   The communication parameters: the COB-ID is read back exactly when it has at most 29 bits, and
   then so are both flags; every setting whose register is writable is read back, the timers only
   when the transmission type is event-driven.
   */
  lemma CommunicationRoundTrip(c: Config, c0: Config, d: Device, types: Dictionary, swapped: bool)
    requires c.cobId.Some?
    ensures var (_, d1, e) := Save(c, d, swapped);
      var (r, ok) := Read(c0, d1, types, swapped);
      e.None? && ok ==>
        && (r.cobId == c.cobId <==> c.cobId.value < Pow2(29))
        && (c.cobId.value < Pow2(29) ==> r.enabled == c.enabled && r.rtrAllowed == c.rtrAllowed)
        && SettingReadBack(d, 2, c.transType, r.transType)
        && (r.transType.Some? && r.transType.value >= 254 ==>
            SettingReadBack(d, 3, c.inhibitTime, r.inhibitTime) &&
            SettingReadBack(d, 5, c.eventTimer, r.eventTimer) &&
            SettingReadBack(d, 6, c.syncStart, r.syncStart))
  {
    hide ReadEntries;
    hide AddAll;
    hide And;
    hide Shl;
    hide CobWord;
    hide Save;
    hide MappingStored;
    SaveStores(c, d, swapped);
    var d1 := Save(c, d, swapped).1;
    CobRoundTrip(c.cobId.value, c.enabled, c.rtrAllowed);
    ZeroHasNoBits(CobWord(c.cobId.value, c.enabled, c.rtrAllowed), PDO_NOT_VALID_BIT);
    ZeroHasNoBits(CobWord(c.cobId.value, c.enabled, c.rtrAllowed), RTR_NOT_ALLOWED_BIT);
    assert Settings(c)[0] == (2, c.transType) && Settings(c)[1] == (3, c.inhibitTime);
    assert Settings(c)[2] == (5, c.eventTimer) && Settings(c)[3] == (6, c.syncStart);
  }

  // ----- Saves that complete -----

  /** A register takes every number of its width. */
  ghost predicate Takes(d: Device, at: Address, width: nat) {
    at in d.registers && d.registers[at].width == width && forall n :: d.registers[at].refusal(n).None?
  }

  /** The parameters are as wide as CiA 301 defines them, and the device refuses none of them. */
  ghost predicate Conforming(d: Device, needed: nat) {
    && Takes(d, Com(1), 32) && Takes(d, Com(2), 8) && Takes(d, Com(3), 16) && Takes(d, Com(5), 16)
    && Takes(d, Com(6), 8)
    && Takes(d, Mapping(0), 8) && forall sub :: 0 < sub <= needed ==> Takes(d, Mapping(sub), 32)
  }

  predicate SettingFits(setting: Option<nat>, width: nat) {
    setting.Some? ==> setting.value < Pow2(width)
  }

  ghost predicate Saveable(c: Config, types: Dictionary, swapped: bool) {
    && WellFormed(c.pdo, types, swapped) && |c.pdo.variables| < 256
    && (forall v :: v in c.pdo.variables ==> v.index < 65536)
    && c.cobId.Some? && c.cobId.value < Pow2(29) && SettingFits(c.transType, 8) && SettingFits(c.syncStart, 8)
    && SettingFits(c.inhibitTime, 16) && SettingFits(c.eventTimer, 16)
  }

  lemma ShapeKeepsConforming(d: Device, d1: Device, needed: nat)
    requires SameShape(d, d1) && Conforming(d, needed)
    ensures Conforming(d1, needed)
  {
    forall at | at in d.registers ensures d1.registers[at].width == d.registers[at].width {}
  }

  lemma SettingIsTaken(d: Device, sub: nat, setting: Option<nat>, width: nat)
    requires Takes(d, Com(sub), width) && SettingFits(setting, width)
    ensures var (d1, e) := SetComRecord(d, sub, setting);
      e.None? && SameShape(d, d1)
  {
  }

  lemma SettingsAreTaken(c: Config, d: Device, needed: nat)
    requires Conforming(d, needed) && SettingFits(c.transType, 8) && SettingFits(c.syncStart, 8)
    requires SettingFits(c.inhibitTime, 16) && SettingFits(c.eventTimer, 16)
    ensures SetComRecords(d, Settings(c)).1.None?
  {
    hide SettingFits;
    hide SetComRecord;
    TakenAll(d, Settings(c), needed, [8, 16, 16, 8]);
  }

  lemma {:induction false} TakenAll(d: Device, settings: seq<(nat, Option<nat>)>, needed: nat, widths: seq<nat>)
    requires Conforming(d, needed) && |settings| == |widths|
    requires forall i :: 0 <= i < |settings| ==>
      Takes(d, Com(settings[i].0), widths[i]) && SettingFits(settings[i].1, widths[i])
    ensures SetComRecords(d, settings).1.None?
    decreases |settings|
  {
    if settings != [] {
      SettingIsTaken(d, settings[0].0, settings[0].1, widths[0]);
      var d1 := SetComRecord(d, settings[0].0, settings[0].1).0;
      ShapeKeepsConforming(d, d1, needed);
      TakenAll(d1, settings[1..], needed, widths[1..]);
    }
  }

  lemma {:induction false} EntriesAreTaken(d: Device, variables: seq<Variable>, visited: nat, i: nat, swapped: bool)
    requires forall sub :: 0 < sub <= |variables| ==> Takes(d, Mapping(sub), 32)
    requires forall v :: v in variables ==> FitsEntry(v, swapped) && v.index < 65536
    ensures WriteEntries(d, variables, visited, i, swapped).1.None?
    decreases |variables| - i
  {
    hide EntryWord;
    if i < |variables| && i < visited {
      var at := Mapping(i + 1);
      assert Takes(d, at, 32);
      EntryWordFits(variables[i], swapped);
      var d1 := if d.registers[at].writable then Put(d, at, EntryWord(variables[i], swapped)).0 else d;
      EntriesAreTaken(d1, variables, visited, i + 1, swapped);
    }
  }

  lemma DisableIsTaken(c: Config, cobId: nat, d: Device, needed: nat)
    requires Conforming(d, needed) && SettingFits(c.transType, 8) && SettingFits(c.syncStart, 8)
    requires SettingFits(c.inhibitTime, 16) && SettingFits(c.eventTimer, 16) && cobId < Pow2(29)
    ensures var (d1, e) := Disable(c, cobId, d);
      e.None? && Conforming(d1, needed)
  {
    hide CobWord;
    hide SettingFits;
    CobWordFits(cobId, false, c.rtrAllowed);
    PutChanges(d, Com(1), CobWord(cobId, false, c.rtrAllowed));
    var d0 := Put(d, Com(1), CobWord(cobId, false, c.rtrAllowed)).0;
    ShapeKeepsConforming(d, d0, needed);
    SettingsAreTaken(c, d0, needed);
    DisableStores(c, cobId, d);
    ComStoredKeepsShape(c, cobId, d, Disable(c, cobId, d).0);
    ShapeKeepsConforming(d, Disable(c, cobId, d).0, needed);
  }

  lemma MappingIsTaken(c: Config, d: Device, swapped: bool)
    requires Conforming(d, |c.pdo.variables|) && |c.pdo.variables| < 256
    requires forall v :: v in c.pdo.variables ==> FitsEntry(v, swapped) && v.index < 65536
    ensures var (_, d1, e) := WriteMapping(c, d, swapped);
      e.None? && Conforming(d1, |c.pdo.variables|)
  {
    hide EntryWord;
    var variables := c.pdo.variables;
    MaskConstants();
    PutChanges(d, Mapping(0), 0);
    var d1 := Put(d, Mapping(0), 0).0;
    ShapeKeepsConforming(d, d1, |variables|);
    EntriesAreTaken(d1, variables, Visited(d1), 0, swapped);
    EntriesAreWritten(d1, variables, Visited(d1), 0, swapped);
    var d2 := WriteEntries(d1, variables, Visited(d1), 0, swapped).0;
    ShapeKeepsConforming(d1, d2, |variables|);
    PutChanges(d2, Mapping(0), |variables|);
    ShapeKeepsConforming(d2, SetCount(d2, |variables|).0, |variables|);
  }

  /** On a conforming device every configuration whose values fit is saved without an exception. */
  lemma SaveCompletes(c: Config, d: Device, types: Dictionary, swapped: bool)
    requires Saveable(c, types, swapped) && Conforming(d, |c.pdo.variables|)
    ensures Save(c, d, swapped).2.None?
  {
    hide Disable;
    hide WriteMapping;
    hide CobWord;
    var needed := |c.pdo.variables|;
    DisableIsTaken(c, c.cobId.value, d, needed);
    var d1 := Disable(c, c.cobId.value, d).0;
    MappingIsTaken(c, d1, swapped);
    CobWordFits(c.cobId.value, true, c.rtrAllowed);
  }

  // ----- Devices that refuse a count of zero -----

  /** The device refuses a count of zero, its entries are visited and writable, and there are enough for the variables. */
  ghost predicate FixedCount(d: Device, needed: nat) {
    && RefusesZero(d) && needed <= OldCount(d) && (d.isArray || OldCount(d) <= d.entries)
    && forall at :: at in d.registers && at.Mapping? && at.sub > 0 ==> d.registers[at].writable
  }

  /** On such a device every completed save reads back whole: the surplus entries are overwritten by dummies. */
  lemma FixedCountRoundTrip(c: Config, c0: Config, d: Device, types: Dictionary, swapped: bool)
    requires WellFormed(c.pdo, types, swapped) && c.cobId.Some? && Com(2) in d.registers
    requires FixedCount(d, |c.pdo.variables|)
    ensures var (_, d1, e) := Save(c, d, swapped);
      e.None? ==>
        var (read, ok) := Read(c0, d1, types, swapped);
        ok && read.pdo.variables == c.pdo.variables && read.pdo.length == c.pdo.length
  {
    hide Save;
    hide Read;
    hide FillMap;
    hide Counts;
    MappingRoundTrip(c, c0, d, types, swapped);
    SaveStores(c, d, swapped);
    FilledUp(c.pdo, OldCount(d));
  }
}
