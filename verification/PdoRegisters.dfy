/** What a save writes to the registers of a device, and what a read takes from them. */
module PdoRegisters {
  import opened Bits
  import opened PdoConfig
  import opened PdoLayout
  import opened PdoMapping
  import opened PdoRoundTrip
  import opened PdoWords
  import opened Wrappers

  // ----- The writes of a save -----

  /** These writes one after another, up to the first that raises. */
  function PutAll(d: Device, writes: seq<Event>): (Device, Option<SaveError>)
    decreases |writes|
  {
    if writes == [] then (d, None)
    else
      var (d1, e) := Put(d, writes[0].at, writes[0].value);
      if e.Some? then (d1, e) else PutAll(d1, writes[1..])
  }

  /** The writes of communication parameters: none without a value, or if the parameter is not writable. */
  function SettingWrites(d: Device, settings: seq<(nat, Option<nat>)>): seq<Event>
    decreases |settings|
  {
    if settings == [] then []
    else
      var (sub, value) := settings[0];
      (if value.None? || (Com(sub) in d.registers && !d.registers[Com(sub)].writable) then []
       else [Event(Com(sub), value.value)]) +
      SettingWrites(d, settings[1..])
  }

  /** The writes of the mapping entries from number i on, up to number n. */
  function EntryWrites(d: Device, variables: seq<Variable>, n: nat, i: nat, swapped: bool): seq<Event>
    requires n <= |variables|
    decreases n - i
  {
    if i >= n then []
    else
      (if Mapping(i + 1) in d.registers && !d.registers[Mapping(i + 1)].writable then []
       else [Event(Mapping(i + 1), EntryWord(variables[i], swapped))]) +
      EntryWrites(d, variables, n, i + 1, swapped)
  }

  /** The device refuses this count as read-only. */
  predicate CountIsReadOnly(d: Device, n: nat) {
    && Mapping(0) in d.registers && n < Pow2(d.registers[Mapping(0)].width)
    && d.registers[Mapping(0)].refusal(n) == Some(0x0601_0002)
  }

  /** Everything a save writes: by the configuration, and by what the device is like before. */
  function SaveWrites(c: Config, d: Device, swapped: bool): seq<Event>
    requires c.cobId.Some?
  {
    ComWrites(c, c.cobId.value, d) + MappingWrites(c.pdo, d, swapped) +
    (if c.enabled then [Event(Com(1), CobWord(c.cobId.value, true, c.rtrAllowed))] else [])
  }

  /** The not-valid COB-ID first, then transmission type, inhibit time, event timer and SYNC start value. */
  function ComWrites(c: Config, cobId: nat, d: Device): seq<Event> {
    [Event(Com(1), CobWord(cobId, false, c.rtrAllowed))] +
    SettingWrites(d, [(2, c.transType), (3, c.inhibitTime), (5, c.eventTimer), (6, c.syncStart)])
  }

  /** A count of zero, unless that is refused; the entries; the count of entries. */
  function MappingWrites(p: Pdo, d: Device, swapped: bool): seq<Event> {
    var variables := Written(p, d);
    (if RefusesZero(d) then [] else [Event(Mapping(0), 0)]) +
    (EntryWrites(d, variables, Min(|variables|, Reached(d)), 0, swapped) +
     (if CountIsReadOnly(d, |variables|) then [] else [Event(Mapping(0), |variables|)]))
  }

  // ----- A save is its writes -----

  lemma {:induction false} PutAllSplits(d: Device, first: seq<Event>, rest: seq<Event>)
    ensures PutAll(d, first + rest) ==
      var (d1, e) := PutAll(d, first);
      if e.Some? then (d1, e) else PutAll(d1, rest)
    decreases |first|
  {
    hide Put;
    if first == [] {
      assert first + rest == rest;
    } else {
      assert (first + rest)[1..] == first[1..] + rest;
      PutAllSplits(Put(d, first[0].at, first[0].value).0, first[1..], rest);
    }
  }

  lemma {:induction false} PutAllKeepsShape(d: Device, writes: seq<Event>)
    ensures SameShape(d, PutAll(d, writes).0)
    decreases |writes|
  {
    if writes != [] {
      PutAllKeepsShape(Put(d, writes[0].at, writes[0].value).0, writes[1..]);
    }
  }

  lemma OneWrite(d: Device, at: Address, value: nat)
    ensures PutAll(d, [Event(at, value)]) == Put(d, at, value)
  {
    assert PutAll(Put(d, at, value).0, []) == (Put(d, at, value).0, None);
    assert [Event(at, value)][1..] == [];
  }

  lemma {:induction false} SettingsAreWrites(start: Device, d: Device, settings: seq<(nat, Option<nat>)>)
    requires SameShape(start, d)
    ensures SetComRecords(d, settings) == PutAll(d, SettingWrites(start, settings))
    decreases |settings|
  {
    hide Put;
    if settings != [] {
      var (sub, value) := settings[0];
      var rest := SettingWrites(start, settings[1..]);
      if value.None? || (Com(sub) in start.registers && !start.registers[Com(sub)].writable) {
        SettingsAreWrites(start, d, settings[1..]);
        assert [] + rest == rest;
      } else {
        var write := [Event(Com(sub), value.value)];
        PutAllSplits(d, write, rest);
        OneWrite(d, Com(sub), value.value);
        MissingRaises(d, Com(sub), value.value);
        PutAllKeepsShape(d, write);
        SettingsAreWrites(start, PutAll(d, write).0, settings[1..]);
      }
    }
  }

  lemma MissingRaises(d: Device, at: Address, value: nat)
    ensures at !in d.registers ==> Put(d, at, value) == (d, Some(KeyError))
  {
  }

  lemma {:induction false} EntriesAreWrites(start: Device, d: Device, variables: seq<Variable>, visited: nat, i: nat,
                                            swapped: bool)
    requires SameShape(start, d)
    ensures WriteEntries(d, variables, visited, i, swapped) ==
      PutAll(d, EntryWrites(start, variables, Min(|variables|, visited), i, swapped))
    decreases |variables| - i
  {
    hide Put;
    hide EntryWord;
    if i < Min(|variables|, visited) {
      var at, word := Mapping(i + 1), EntryWord(variables[i], swapped);
      var rest := EntryWrites(start, variables, Min(|variables|, visited), i + 1, swapped);
      if at in start.registers && !start.registers[at].writable {
        EntriesAreWrites(start, d, variables, visited, i + 1, swapped);
        assert [] + rest == rest;
      } else {
        PutAllSplits(d, [Event(at, word)], rest);
        OneWrite(d, at, word);
        MissingRaises(d, at, word);
        PutAllKeepsShape(d, [Event(at, word)]);
        EntriesAreWrites(start, Put(d, at, word).0, variables, visited, i + 1, swapped);
      }
    }
  }

  lemma DisableIsWrites(c: Config, cobId: nat, d: Device)
    ensures Disable(c, cobId, d) == PutAll(d, ComWrites(c, cobId, d))
  {
    hide Put;
    hide CobWord;
    var word := CobWord(cobId, false, c.rtrAllowed);
    OneWrite(d, Com(1), word);
    PutAllKeepsShape(d, [Event(Com(1), word)]);
    var d1 := Put(d, Com(1), word).0;
    PutAllSplits(d, [Event(Com(1), word)], SettingWrites(d, Settings(c)));
    SettingsAreWrites(d, d1, Settings(c));
  }

  lemma {:induction false} FillingAddsVariables(p: Pdo, needed: nat)
    ensures FillMap(p, needed) == p.(variables := FillMap(p, needed).variables)
    decreases needed - |p.variables|
  {
    if |p.variables| < needed {
      FillingAddsVariables(p.(variables := p.variables + [Variable(0, 0, p.length, 0, Bytes(1))]), needed);
    }
  }

  /** The count of zero: where it is refused, nothing is written and the map is filled up. */
  lemma ClearIsWrite(c: Config, d: Device)
    ensures ClearCount(c, d) ==
      if RefusesZero(d) then (c.(pdo := c.pdo.(variables := Written(c.pdo, d))), d, None)
      else (c, Put(d, Mapping(0), 0).0, Put(d, Mapping(0), 0).1)
    ensures RefusesZero(d) ==> Put(d, Mapping(0), 0) == (d, Some(Aborted(d.registers[Mapping(0)].refusal(0).value)))
  {
    hide FillMap;
    FillingAddsVariables(c.pdo, OldCount(d));
  }

  lemma CountIsWrite(start: Device, d: Device, n: nat)
    requires SameShape(start, d)
    ensures SetCount(d, n) == PutAll(d, if CountIsReadOnly(start, n) then [] else [Event(Mapping(0), n)])
  {
    OneWrite(d, Mapping(0), n);
  }

  lemma MappingIsWrites(c: Config, d: Device, swapped: bool)
    ensures var (c1, d1, e) := WriteMapping(c, d, swapped);
      (d1, e) == PutAll(d, MappingWrites(c.pdo, d, swapped)) &&
      (e.None? ==> c1 == c.(pdo := c.pdo.(variables := Written(c.pdo, d))))
  {
    hide Put;
    hide ClearCount;
    hide WriteEntries;
    hide SetCount;
    hide Written;
    hide Reached;
    hide RefusesZero;
    hide EntryWrites;
    hide CountIsReadOnly;
    hide SameShape;
    var zero := if RefusesZero(d) then [] else [Event(Mapping(0), 0)];
    var variables := Written(c.pdo, d);
    var entries := EntryWrites(d, variables, Min(|variables|, Reached(d)), 0, swapped);
    var count := if CountIsReadOnly(d, |variables|) then [] else [Event(Mapping(0), |variables|)];
    ClearIsWrite(c, d);
    ZeroIsWritten(c, d);
    OneWrite(d, Mapping(0), 0);
    PutAllSplits(d, zero, entries + count);
    var d1 := PutAll(d, zero).0;
    if PutAll(d, zero).1.None? {
      PutAllKeepsShape(d, zero);
      EntriesAreWrites(d, d1, variables, Reached(d), 0, swapped);
      PutAllSplits(d1, entries, count);
      PutAllKeepsShape(d, zero + entries);
      PutAllSplits(d, zero, entries);
      CountIsWrite(d, PutAll(d1, entries).0, |variables|);
    }
  }

  /** Writes to other registers than those of the mapping do not change what is written to it. */
  lemma {:induction false} SameEntryWrites(d: Device, d1: Device, variables: seq<Variable>, n: nat, i: nat, swapped: bool)
    requires SameShape(d, d1) && n <= |variables|
    ensures EntryWrites(d1, variables, n, i, swapped) == EntryWrites(d, variables, n, i, swapped)
    decreases n - i
  {
    hide EntryWord;
    if i < n {
      SameEntryWrites(d, d1, variables, n, i + 1, swapped);
    }
  }

  lemma SameMappingWrites(p: Pdo, d: Device, d1: Device, swapped: bool)
    requires SameShape(d, d1) && forall at :: at in d.registers && at.Mapping? ==> d1.registers[at] == d.registers[at]
    ensures MappingWrites(p, d1, swapped) == MappingWrites(p, d, swapped)
  {
    hide EntryWrites;
    hide Written;
    hide Reached;
    SameMapping(p, d, d1);
    SameEntryWrites(d, d1, Written(p, d), Min(|Written(p, d)|, Reached(d)), 0, swapped);
  }

  lemma SaveIsPutAll(c: Config, d: Device, swapped: bool)
    requires c.cobId.Some?
    ensures var (c1, d1, e) := Save(c, d, swapped);
      (d1, e) == PutAll(d, SaveWrites(c, d, swapped)) &&
      (e.None? ==>
        c1 == c.(pdo := Pdo(Written(c.pdo, d), c.pdo.length, seq((c.pdo.length + 7) / 8, _ => 0))))
  {
    hide Put;
    hide Disable;
    hide WriteMapping;
    hide ComWrites;
    hide MappingWrites;
    hide Written;
    hide CobWord;
    hide SameShape;
    var cobId := c.cobId.value;
    var com, mapping := ComWrites(c, cobId, d), MappingWrites(c.pdo, d, swapped);
    var enable := if c.enabled then [Event(Com(1), CobWord(cobId, true, c.rtrAllowed))] else [];
    DisableIsWrites(c, cobId, d);
    PutAllSplits(d, com + mapping, enable);
    PutAllSplits(d, com, mapping);
    var (d1, e1) := PutAll(d, com);
    if e1.None? {
      PutAllKeepsShape(d, com);
      DisableStores(c, cobId, d);
      SameMappingWrites(c.pdo, d, d1, swapped);
      SameMapping(c.pdo, d, d1);
      MappingIsWrites(c, d1, swapped);
      OneWrite(PutAll(d1, mapping).0, Com(1), CobWord(cobId, true, c.rtrAllowed));
    }
  }

  // ----- Which writes are made, and which one raises -----

  /** The exception a write raises, which does not depend on the values of the registers. */
  function Raises(d: Device, w: Event): Option<SaveError> {
    if w.at !in d.registers then Some(KeyError)
    else if w.value >= Pow2(d.registers[w.at].width) then Some(EncodingError)
    else
      match d.registers[w.at].refusal(w.value)
      case Some(code) => Some(Aborted(code))
      case None => None
  }

  lemma {:induction false} PutAllStopsAtFirst(start: Device, d: Device, writes: seq<Event>) returns (k: nat)
    requires SameShape(start, d)
    ensures k <= |writes| && (forall i :: 0 <= i < k ==> Raises(start, writes[i]) == None)
    ensures PutAll(d, writes).0.log == d.log + writes[..k]
    ensures PutAll(d, writes).1 == if k == |writes| then None else Raises(start, writes[k])
    ensures k < |writes| ==> Raises(start, writes[k]).Some?
    decreases |writes|
  {
    hide Put;
    hide Raises;
    hide SameShape;
    if writes == [] {
      return 0;
    }
    FirstPut(start, d, writes[0]);
    if Raises(start, writes[0]).Some? {
      return 0;
    }
    var d1 := Put(d, writes[0].at, writes[0].value).0;
    var k1 := PutAllStopsAtFirst(start, d1, writes[1..]);
    k := k1 + 1;
    assert writes[..k] == [writes[0]] + writes[1..][..k1];
    assert forall i :: 0 < i < k ==> writes[i] == writes[1..][i - 1];
  }

  lemma FirstPut(start: Device, d: Device, w: Event)
    requires SameShape(start, d)
    ensures var (d1, e) := Put(d, w.at, w.value);
      e == Raises(start, w) && SameShape(start, d1) && d1.log == if e.Some? then d.log else d.log + [w]
  {
  }

  /**
   A save makes exactly these writes, in this order, up to the first that the device does not take, and
   raises what that one raises; so it completes if and only if the device takes them all.
   */
  lemma SaveIsItsWrites(c: Config, d: Device, swapped: bool) returns (k: nat)
    requires c.cobId.Some? && d.log == []
    ensures var writes := SaveWrites(c, d, swapped);
      var (c1, d1, e) := Save(c, d, swapped);
      && k <= |writes| && d1.log == writes[..k]
      && (forall i :: 0 <= i < k ==> Raises(d, writes[i]) == None)
      && (if k < |writes| then e == Raises(d, writes[k]) && e.Some?
          else e == None && c1.pdo == Pdo(Written(c.pdo, d), c.pdo.length, seq((c.pdo.length + 7) / 8, _ => 0)))
  {
    hide Save;
    hide SaveWrites;
    hide Raises;
    hide Written;
    hide PutAll;
    SaveIsPutAll(c, d, swapped);
    k := PutAllStopsAtFirst(d, d, SaveWrites(c, d, swapped));
  }

  lemma {:induction false} SettingsAreOthers(d: Device, settings: seq<(nat, Option<nat>)>)
    requires forall s :: s in settings ==> s.0 != 1
    ensures forall w :: w in SettingWrites(d, settings) ==> w.at != Com(1)
    decreases |settings|
  {
    if settings != [] {
      SettingsAreOthers(d, settings[1..]);
    }
  }

  lemma {:induction false} EntriesAreOthers(d: Device, variables: seq<Variable>, n: nat, i: nat, swapped: bool)
    requires n <= |variables|
    ensures forall w :: w in EntryWrites(d, variables, n, i, swapped) ==> w.at.Mapping?
    decreases n - i
  {
    if i < n {
      EntriesAreOthers(d, variables, n, i + 1, swapped);
    }
  }

  /** Only the first and the last write of a save go to the COB-ID. */
  lemma CobIdComesFirstAndLast(c: Config, d: Device, swapped: bool)
    requires c.cobId.Some?
    ensures var writes := SaveWrites(c, d, swapped);
      && writes != [] && writes[0] == Event(Com(1), CobWord(c.cobId.value, false, c.rtrAllowed))
      && (forall i :: 0 < i < |writes| && writes[i].at == Com(1) ==>
            i == |writes| - 1 && c.enabled && writes[i].value == CobWord(c.cobId.value, true, c.rtrAllowed))
      && (c.enabled ==> |writes| > 1 && writes[|writes| - 1] == Event(Com(1), CobWord(c.cobId.value, true, c.rtrAllowed)))
  {
    hide CobWord;
    hide SettingWrites;
    hide EntryWrites;
    hide Written;
    var com, mapping := ComWrites(c, c.cobId.value, d), MappingWrites(c.pdo, d, swapped);
    SettingsAreOthers(d, [(2, c.transType), (3, c.inhibitTime), (5, c.eventTimer), (6, c.syncStart)]);
    var variables := Written(c.pdo, d);
    EntriesAreOthers(d, variables, Min(|variables|, Reached(d)), 0, swapped);
    assert forall i :: 0 < i < |com| ==> com[i] == com[1..][i - 1] && com[i].at != Com(1);
    assert forall w :: w in mapping ==> w.at.Mapping?;
    var front := com + mapping;
    assert forall i :: 0 < i < |front| ==> front[i].at != Com(1);
  }

  /** In bits: the first write sets bit 31 of the COB-ID, and only the last one clears it again. */
  lemma SaveMarksInvalidFirst(c: Config, d: Device, swapped: bool)
    requires c.cobId.Some? && c.cobId.value < 0x2000_0000 && d.log == []
    ensures var (_, d1, e) := Save(c, d, swapped);
      var word := c.cobId.value + if c.rtrAllowed then 0 else 0x4000_0000;
      && (d1.log != [] ==> d1.log[0] == Event(Com(1), 0x8000_0000 + word))
      && (forall i :: 0 < i < |d1.log| && d1.log[i].at == Com(1) ==>
            i == |d1.log| - 1 && e == None && c.enabled && d1.log[i].value == word)
      && (e == None && c.enabled ==> |d1.log| > 1 && d1.log[|d1.log| - 1] == Event(Com(1), word))
  {
    hide Save;
    hide CobWord;
    hide SaveWrites;
    var k := SaveIsItsWrites(c, d, swapped);
    CobIdComesFirstAndLast(c, d, swapped);
    CobWordIsSum(c.cobId.value, false, c.rtrAllowed);
    CobWordIsSum(c.cobId.value, true, c.rtrAllowed);
  }

  // ----- Reading -----

  /**
   A read takes the identifier from the low 29 bits of the COB-ID and the flags from bits 31 and 30; the timers
   only when the transmission is event-driven; and one variable for each entry that maps a known object.
   */
  lemma ReadTakesRegisters(c: Config, d: Device, types: PdoMapping.Dictionary, swapped: bool)
    ensures var (r, ok) := Read(c, d, types, swapped);
      && (ok <==>
            Com(1) in d.registers && Com(2) in d.registers && Mapping(0) in d.registers &&
            forall sub :: 0 < sub <= d.registers[Mapping(0)].value ==> Mapping(sub) in d.registers)
      && (Com(1) in d.registers ==>
            var word := d.registers[Com(1)].value;
            r.cobId == Some(word % 0x2000_0000) && r.enabled == !Bit(word, 31) && r.rtrAllowed == !Bit(word, 30))
      && (Com(1) in d.registers && Com(2) in d.registers ==>
            var kind := d.registers[Com(2)].value;
            && r.transType == Some(kind)
            && r.inhibitTime ==
               (if kind >= 254 && Com(3) in d.registers then Some(d.registers[Com(3)].value) else c.inhibitTime)
            && r.eventTimer ==
               (if kind >= 254 && Com(5) in d.registers then Some(d.registers[Com(5)].value) else c.eventTimer)
            && r.syncStart ==
               (if kind >= 254 && Com(6) in d.registers then Some(d.registers[Com(6)].value) else c.syncStart))
      && (ok ==>
            && BackToBack(r.pdo)
            && (d.registers[Mapping(0)].value == 0 ==> r.pdo == Pdo([], 0, c.pdo.data))
            && Mapped(r.pdo.variables) == Added(d, 0, d.registers[Mapping(0)].value, types, swapped))
  {
    hide ReadEntries;
    hide AddAll;
    hide And;
    hide Shl;
    hide Bit;
    hide Added;
    hide BackToBack;
    if Com(1) in d.registers {
      var word := d.registers[Com(1)].value;
      WordSizes();
      MaskIsRemainder(word, 29);
      ZeroHasNoBits(word, 31);
      ZeroHasNoBits(word, 30);
      if Com(2) in d.registers && Mapping(0) in d.registers {
        var count := d.registers[Mapping(0)].value;
        ReadingAdds(d, 0, count, types, swapped);
        ClearIsEmpty(c.pdo, types);
        assert count == 0 ==> ReadEntries(d, 0, count, swapped) == ([], true) by { NoEntries(d, swapped); }
        AddingExtendsLayout(Clear(c.pdo), types, ReadEntries(d, 0, count, swapped).0);
      }
    }
  }

  lemma ClearIsEmpty(p: Pdo, types: PdoMapping.Dictionary)
    ensures BackToBack(Clear(p)) && Clear(p) == Pdo([], 0, p.data) && AddAll(Clear(p), types, []) == Clear(p)
  {
  }

  lemma NoEntries(d: Device, swapped: bool)
    ensures ReadEntries(d, 0, 0, swapped) == ([], true)
  {
  }
}
