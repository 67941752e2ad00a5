/**
 The CiA 402 power-state walker: decoding the statusword, choosing the next state and the
 controlword, and the state setter running against a drive that answers after arbitrary delays.
 */
module P402 {
  import opened Wrappers

  /**
   Start appears only in the tables, DisableVoltage only as a command name, and Unknown is a
   statusword no table entry matches.
   */
  datatype State =
    | Start | NotReadyToSwitchOn | SwitchOnDisabled | ReadyToSwitchOn | SwitchedOn
    | OperationEnabled | QuickStopActive | FaultReactionActive | Fault | DisableVoltage | Unknown

  const CW_OPERATION_ENABLED: bv16 := 0x000F
  const CW_SHUTDOWN: bv16 := 0x0006
  const CW_SWITCH_ON: bv16 := 0x0007
  const CW_QUICK_STOP: bv16 := 0x0002
  const CW_DISABLE_VOLTAGE: bv16 := 0x0000
  const CW_SWITCH_ON_DISABLED: bv16 := 0x0080

  /** A statusword decodes to the state when its masked bits have this value. */
  datatype Entry = Entry(state: State, mask: bv16, bits: bv16) {
    predicate Matches(statusword: bv16) {
      statusword & mask == bits
    }
  }

  const SW_MASK: seq<Entry> := [
    Entry(NotReadyToSwitchOn, 0x4F, 0x00),
    Entry(SwitchOnDisabled, 0x4F, 0x40),
    Entry(ReadyToSwitchOn, 0x6F, 0x21),
    Entry(SwitchedOn, 0x6F, 0x23),
    Entry(OperationEnabled, 0x6F, 0x27),
    Entry(Fault, 0x4F, 0x08),
    Entry(FaultReactionActive, 0x4F, 0x0F),
    Entry(QuickStopActive, 0x6F, 0x07)]

  /** First matching entry of a table. */
  function Decode(table: seq<Entry>, statusword: bv16): State {
    if table == [] then Unknown
    else if table[0].Matches(statusword) then table[0].state
    else Decode(table[1..], statusword)
  }

  lemma EntriesAreDisjoint(i: nat, j: nat, statusword: bv16)
    requires i < |SW_MASK| && j < |SW_MASK|
    requires SW_MASK[i].Matches(statusword) && SW_MASK[j].Matches(statusword)
    ensures i == j
  {
  }

  lemma {:induction false} DecodeFindsMatch(table: seq<Entry>, statusword: bv16)
    ensures if exists e :: e in table && e.Matches(statusword)
            then exists e :: e in table && e.Matches(statusword) && e.state == Decode(table, statusword)
            else Decode(table, statusword) == Unknown
  {
    if table != [] && !table[0].Matches(statusword) {
      DecodeFindsMatch(table[1..], statusword);
      assert forall e :: e in table <==> e == table[0] || e in table[1..];
    }
  }

  /** Decoding does not depend on the order of the table. */
  lemma DecodeIgnoresOrder(table: seq<Entry>, statusword: bv16)
    requires forall e :: e in table <==> e in SW_MASK
    ensures Decode(table, statusword) == Decode(SW_MASK, statusword)
  {
    hide Decode;
    hide Entry.Matches;
    DecodeFindsMatch(table, statusword);
    DecodeFindsMatch(SW_MASK, statusword);
    if exists e :: e in table && e.Matches(statusword) {
      var e :| e in table && e.Matches(statusword) && e.state == Decode(table, statusword);
      var f :| f in SW_MASK && f.Matches(statusword) && f.state == Decode(SW_MASK, statusword);
      var i :| 0 <= i < |SW_MASK| && SW_MASK[i] == e;
      var j :| 0 <= j < |SW_MASK| && SW_MASK[j] == f;
      EntriesAreDisjoint(i, j, statusword);
    }
  }

  // ----- The master's tables -----

  function Transition(from: State, to: State): Option<bv16> {
    match (from, to)
    case (ReadyToSwitchOn, SwitchOnDisabled) => Some(CW_DISABLE_VOLTAGE)
    case (OperationEnabled, SwitchOnDisabled) => Some(CW_DISABLE_VOLTAGE)
    case (SwitchedOn, SwitchOnDisabled) => Some(CW_DISABLE_VOLTAGE)
    case (QuickStopActive, SwitchOnDisabled) => Some(CW_DISABLE_VOLTAGE)
    case (NotReadyToSwitchOn, SwitchOnDisabled) => Some(0x00)
    case (Start, NotReadyToSwitchOn) => Some(0x00)
    case (FaultReactionActive, Fault) => Some(0x00)
    case (SwitchOnDisabled, ReadyToSwitchOn) => Some(CW_SHUTDOWN)
    case (SwitchedOn, ReadyToSwitchOn) => Some(CW_SHUTDOWN)
    case (OperationEnabled, ReadyToSwitchOn) => Some(CW_SHUTDOWN)
    case (ReadyToSwitchOn, SwitchedOn) => Some(CW_SWITCH_ON)
    case (OperationEnabled, SwitchedOn) => Some(CW_SWITCH_ON)
    case (SwitchedOn, OperationEnabled) => Some(CW_OPERATION_ENABLED)
    case (QuickStopActive, OperationEnabled) => Some(CW_OPERATION_ENABLED)
    case (OperationEnabled, QuickStopActive) => Some(CW_QUICK_STOP)
    case (Fault, SwitchOnDisabled) => Some(CW_SWITCH_ON_DISABLED)
    case _ => None
  }

  /** A table key: a real tuple of names, or one parenthesised name, which Python takes as a string. */
  datatype Condition = Names(names: set<State>) | Text(name: State) {
    /** Membership in a tuple, but substring search in a string. */
    predicate Contains(from: State) {
      match this
      case Names(names) => from in names
      case Text(name) => NameOccursIn(from, name)
    }
  }

  /** The name of x is a substring of the name of y. */
  predicate NameOccursIn(x: State, y: State) {
    x == y || (x == Fault && y == FaultReactionActive) || (x == ReadyToSwitchOn && y == NotReadyToSwitchOn)
  }

  const NEXTSTATE2ANY: seq<(Condition, State)> := [
    (Text(Start), NotReadyToSwitchOn),
    (Names({Fault, NotReadyToSwitchOn, QuickStopActive}), SwitchOnDisabled),
    (Text(SwitchOnDisabled), ReadyToSwitchOn),
    (Text(ReadyToSwitchOn), SwitchedOn),
    (Text(SwitchedOn), OperationEnabled),
    (Text(FaultReactionActive), Fault)]

  function FirstMatch(table: seq<(Condition, State)>, from: State): Option<State> {
    if table == [] then None
    else if table[0].0.Contains(from) then Some(table[0].1)
    else FirstMatch(table[1..], from)
  }

  function NextStateIndirect(from: State): Option<State> {
    FirstMatch(NEXTSTATE2ANY, from)
  }

  /** The intermediate state chosen for a target, from the state just read. */
  function NextState(from: State, target: State): Option<State> {
    if Transition(from, target).Some? then Some(target) else NextStateIndirect(from)
  }

  predicate IsCommandable(s: State) {
    s in {SwitchOnDisabled, ReadyToSwitchOn, SwitchedOn, OperationEnabled, QuickStopActive}
  }

  predicate IsAutomatic(s: State) {
    s == NotReadyToSwitchOn || s == FaultReactionActive
  }

  predicate IsDriveState(s: State) {
    s != Start && s != DisableVoltage && s != Unknown
  }

  // ----- The drive, after CiA 402 -----

  /** The state a controlword commands a drive to leave for, if any. */
  function Commanded(s: State, cw: bv16): Option<State> {
    var disableVoltage := cw & 0x02 == 0;
    var quickStop := cw & 0x06 == 0x02;
    var shutdown := cw & 0x07 == 0x06;
    var switchOn := cw & 0x0F == 0x07;
    var enableOperation := cw & 0x0F == 0x0F;
    match s
    case SwitchOnDisabled => if shutdown then Some(ReadyToSwitchOn) else None
    case ReadyToSwitchOn =>
      if switchOn then Some(SwitchedOn) else if disableVoltage || quickStop then Some(SwitchOnDisabled) else None
    case SwitchedOn =>
      if enableOperation then Some(OperationEnabled) else if shutdown then Some(ReadyToSwitchOn)
      else if disableVoltage || quickStop then Some(SwitchOnDisabled) else None
    case OperationEnabled =>
      if switchOn then Some(SwitchedOn) else if shutdown then Some(ReadyToSwitchOn)
      else if disableVoltage then Some(SwitchOnDisabled) else if quickStop then Some(QuickStopActive) else None
    case QuickStopActive =>
      if disableVoltage then Some(SwitchOnDisabled) else if enableOperation then Some(OperationEnabled) else None
    case Fault => if cw & 0x80 != 0 then Some(SwitchOnDisabled) else None
    case _ => None
  }

  /**
   The bits a drive in this state sets in its statusword. Bit 5 means no quick stop and is defined only where
   the power stage may be on; bits 4 and 7 to 15 say nothing about the state.
   */
  predicate Shows(s: State, statusword: bv16) {
    && (statusword & 0x01 != 0 <==>
          s in {ReadyToSwitchOn, SwitchedOn, OperationEnabled, QuickStopActive, FaultReactionActive})
    && (statusword & 0x02 != 0 <==> s in {SwitchedOn, OperationEnabled, QuickStopActive, FaultReactionActive})
    && (statusword & 0x04 != 0 <==> s in {OperationEnabled, QuickStopActive, FaultReactionActive})
    && (statusword & 0x08 != 0 <==> s in {Fault, FaultReactionActive})
    && (s in {ReadyToSwitchOn, SwitchedOn, OperationEnabled} ==> statusword & 0x20 != 0)
    && (s == QuickStopActive ==> statusword & 0x20 == 0)
    && (statusword & 0x40 != 0 <==> s == SwitchOnDisabled)
  }

  /** The statusword table, row by row. */
  lemma DecodeRows(statusword: bv16)
    ensures Decode(SW_MASK, statusword) ==
      if statusword & 0x4F == 0x00 then NotReadyToSwitchOn
      else if statusword & 0x4F == 0x40 then SwitchOnDisabled
      else if statusword & 0x6F == 0x21 then ReadyToSwitchOn
      else if statusword & 0x6F == 0x23 then SwitchedOn
      else if statusword & 0x6F == 0x27 then OperationEnabled
      else if statusword & 0x4F == 0x08 then Fault
      else if statusword & 0x4F == 0x0F then FaultReactionActive
      else if statusword & 0x6F == 0x07 then QuickStopActive
      else Unknown
  {
    assert Decode(SW_MASK[8..], statusword) == Unknown;
    RowDecodes(7, statusword);
    RowDecodes(6, statusword);
    RowDecodes(5, statusword);
    RowDecodes(4, statusword);
    RowDecodes(3, statusword);
    RowDecodes(2, statusword);
    RowDecodes(1, statusword);
    RowDecodes(0, statusword);
    assert SW_MASK[0..] == SW_MASK;
  }

  lemma RowDecodes(i: nat, statusword: bv16)
    requires i < |SW_MASK|
    ensures Decode(SW_MASK[i..], statusword) ==
      if SW_MASK[i].Matches(statusword) then SW_MASK[i].state else Decode(SW_MASK[i + 1..], statusword)
  {
    assert SW_MASK[i..][1..] == SW_MASK[i + 1..];
  }

  /** The table decodes exactly what drives show; a statusword no drive shows is unknown. */
  lemma DecodesWhatIsShown(statusword: bv16)
    ensures forall s :: IsDriveState(s) ==> (Shows(s, statusword) <==> Decode(SW_MASK, statusword) == s)
    ensures (forall s :: IsDriveState(s) ==> !Shows(s, statusword)) <==> Decode(SW_MASK, statusword) == Unknown
  {
    DecodeRows(statusword);
    hide Decode;
    var shown := Decode(SW_MASK, statusword);
    assert shown != Unknown ==> IsDriveState(shown) && Shows(shown, statusword);
  }

  /** Where a drive goes by itself. */
  function Automatic(s: State): Option<State> {
    match s
    case NotReadyToSwitchOn => Some(SwitchOnDisabled)
    case FaultReactionActive => Some(Fault)
    case _ => None
  }

  /** A transition a drive makes, by itself or on some controlword. */
  ghost predicate Legal(from: State, to: State) {
    Automatic(from) == Some(to) || exists cw: bv16 :: Commanded(from, cw) == Some(to)
  }

  /**
   Every entry of the master's table makes the drive do exactly that transition, and no transition is missing.
   The controlwords carry no other bits than their commands, and the fault reset only in FAULT.
   */
  lemma TableMatchesDrive(from: State, to: State)
    requires IsDriveState(from) && IsDriveState(to)
    ensures Transition(from, to).Some? <==> Legal(from, to)
    ensures Transition(from, to).Some? ==>
      var cw := Transition(from, to).value;
      && (if IsAutomatic(from) then Automatic(from) == Some(to) && cw == 0x00 else Commanded(from, cw) == Some(to))
      && cw in {0x00, 0x02, 0x06, 0x07, 0x0F, 0x80} && (cw == 0x80 <==> from == Fault)
    ensures Transition(Start, NotReadyToSwitchOn) == Some(0x00)
  {
    if Transition(from, to).Some? && !IsAutomatic(from) {
      assert Commanded(from, Transition(from, to).value) == Some(to);
    } else if exists cw: bv16 :: Commanded(from, cw) == Some(to) {
      var cw: bv16 :| Commanded(from, cw) == Some(to);
    }
  }

  /** The path table, worked out: everything points towards OPERATION ENABLED, which has no successor. */
  lemma IndirectPath(from: State)
    requires IsDriveState(from)
    ensures NextStateIndirect(from) ==
      if from == SwitchOnDisabled then Some(ReadyToSwitchOn)
      else if from == ReadyToSwitchOn then Some(SwitchedOn)
      else if from == SwitchedOn then Some(OperationEnabled)
      else if from == OperationEnabled then None
      else if from == FaultReactionActive then Some(Fault)
      else Some(SwitchOnDisabled)
  {
    var t := NEXTSTATE2ANY;
    assert FirstMatch(t[6..], from) == None;
    assert t[5..][1..] == t[6..] && t[4..][1..] == t[5..] && t[3..][1..] == t[4..];
    assert t[2..][1..] == t[3..] && t[1..][1..] == t[2..];
  }

  function Rank(s: State): nat {
    match s
    case FaultReactionActive => 5
    case OperationEnabled => 0
    case SwitchedOn => 1
    case ReadyToSwitchOn => 2
    case SwitchOnDisabled => 3
    case _ => 4
  }

  /** Targets the setter does not refuse outright. */
  predicate IsTarget(s: State) {
    IsCommandable(s) || s == DisableVoltage
  }

  /** Where the walk towards a target ends. */
  function End(target: State): State {
    if target == DisableVoltage then OperationEnabled else target
  }

  /** Before the end, the chosen state exists, is commanded legally, and is the end or one rank lower. */
  lemma NextStateAdvances(s: State, target: State)
    requires IsDriveState(s) && IsTarget(target) && s != End(target)
    ensures NextState(s, target).Some?
    ensures var next := NextState(s, target).value;
      && IsDriveState(next) && !IsAutomatic(next) && Transition(s, next).Some?
      && (next == End(target) || Rank(next) < Rank(s))
  {
    IndirectPath(s);
  }

  /** Number of transitions the walk needs. */
  function Distance(s: State, target: State): (d: nat)
    requires IsDriveState(s) && IsTarget(target)
    ensures d <= Rank(s) + 1
    ensures d == 0 <==> s == End(target)
    decreases s != End(target), Rank(s)
  {
    if s == End(target) then 0
    else
      NextStateAdvances(s, target);
      1 + Distance(NextState(s, target).value, target)
  }

  // ----- The length of the walk -----

  /** The drive can get there in so many transitions. */
  ghost predicate CanReach(s: State, target: State, n: nat)
    decreases n
  {
    if n == 0 then s == target else exists next :: Legal(s, next) && CanReach(next, target, n - 1)
  }

  /** The least number of transitions from one state to another. */
  function Least(s: State, target: State): nat
    requires IsDriveState(s) && IsCommandable(target)
  {
    if s == QuickStopActive then
      if target == QuickStopActive then 0
      else if target == SwitchOnDisabled || target == OperationEnabled then 1 else 2
    else if s == FaultReactionActive then 2 + Ahead(3, Rank(target), target)
    else if s == Fault || s == NotReadyToSwitchOn then 1 + Ahead(3, Rank(target), target)
    else Ahead(Rank(s), Rank(target), target)
  }

  /** Upwards one step at a time, downwards in one, and to quick stop through OPERATION ENABLED. */
  function Ahead(rank: nat, end: nat, target: State): nat {
    if target == QuickStopActive then rank + 1
    else if end < rank then rank - end
    else if end > rank then 1
    else 0
  }

  lemma LegalIsOneLess(s: State, next: State, target: State)
    requires IsDriveState(s) && IsDriveState(next) && IsCommandable(target) && Legal(s, next)
    ensures Least(s, target) <= 1 + Least(next, target)
  {
    TableMatchesDrive(s, next);
  }

  lemma LegalIsDriveState(s: State, next: State)
    requires Legal(s, next)
    ensures IsDriveState(s) && IsDriveState(next)
  {
  }

  lemma {:induction false} ReachTakesLeast(s: State, target: State, n: nat)
    requires IsDriveState(s) && IsCommandable(target) && CanReach(s, target, n)
    ensures Least(s, target) <= n
    decreases n
  {
    hide Legal;
    if n > 0 {
      var next :| Legal(s, next) && CanReach(next, target, n - 1);
      LegalIsDriveState(s, next);
      ReachTakesLeast(next, target, n - 1);
      hide Least;
      LegalIsOneLess(s, next, target);
    }
  }

  lemma {:induction false} WalkReaches(s: State, target: State)
    requires IsDriveState(s) && IsCommandable(target)
    ensures CanReach(s, target, Distance(s, target))
    decreases s != End(target), Rank(s)
  {
    hide NextState;
    hide Transition;
    hide Legal;
    if s != target {
      NextStateAdvances(s, target);
      var next := NextState(s, target).value;
      TableMatchesDrive(s, next);
      WalkReaches(next, target);
    }
  }

  lemma ChoiceIsLeast(s: State, target: State)
    requires IsDriveState(s) && IsCommandable(target) && s != target
    ensures var next := NextState(s, target).value;
      if s == QuickStopActive && target == SwitchedOn then next == SwitchOnDisabled
      else Least(s, target) == 1 + Least(next, target) && (next == QuickStopActive ==> target == QuickStopActive)
  {
    NextStateAdvances(s, target);
    IndirectPath(s);
  }

  lemma {:induction false} DistanceIsLeast(s: State, target: State)
    requires IsDriveState(s) && IsCommandable(target)
    ensures Distance(s, target) == if s == QuickStopActive && target == SwitchedOn then 3 else Least(s, target)
    decreases s != End(target), Rank(s)
  {
    hide NextState;
    if s != target {
      NextStateAdvances(s, target);
      ChoiceIsLeast(s, target);
      DistanceIsLeast(NextState(s, target).value, target);
    }
  }

  /**
   The walk takes the shortest way the drive has, except from QUICK STOP ACTIVE to SWITCHED ON: there it
   starts again from SWITCH ON DISABLED.
   */
  lemma WalkIsShortestIff(s: State, target: State)
    requires IsDriveState(s) && IsCommandable(target)
    ensures CanReach(s, target, Distance(s, target))
    ensures (forall n: nat :: CanReach(s, target, n) ==> Distance(s, target) <= n) <==>
      !(s == QuickStopActive && target == SwitchedOn)
  {
    hide Legal;
    hide CanReach;
    WalkReaches(s, target);
    DistanceIsLeast(s, target);
    forall n: nat | CanReach(s, target, n) ensures Least(s, target) <= n {
      ReachTakesLeast(s, target, n);
    }
    QuickStopToSwitchedOn();
    if s == QuickStopActive && target == SwitchedOn {
      assert CanReach(s, target, 2) && Distance(s, target) == 3;
    } else {
      assert Distance(s, target) == Least(s, target);
    }
  }

  lemma QuickStopToSwitchedOn()
    ensures CanReach(QuickStopActive, SwitchedOn, 2)
  {
    TableMatchesDrive(QuickStopActive, OperationEnabled);
    TableMatchesDrive(OperationEnabled, SwitchedOn);
    assert CanReach(SwitchedOn, SwitchedOn, 0);
    assert CanReach(OperationEnabled, SwitchedOn, 1);
  }

  // ----- The walk -----

  /** The statusword of a drive that sets no other bits. */
  function PlainStatusword(s: State): (statusword: bv16)
    requires IsDriveState(s)
    ensures Shows(s, statusword)
  {
    match s
    case SwitchOnDisabled => 0x40
    case ReadyToSwitchOn => 0x21
    case SwitchedOn => 0x23
    case OperationEnabled => 0x27
    case QuickStopActive => 0x07
    case FaultReactionActive => 0x0F
    case Fault => 0x08
    case _ => 0x00
  }

  /** A fault-free drive: it leaves its state by itself or on command, after any number of observations. */
  class Drive {
    var state: State
    var next: Option<State>
    var delay: nat        // observations that still show the old state
    var transitions: nat  // state changes so far

    /** Automatic states have a pending exit, the others none. */
    ghost predicate Settled()
      reads this
    {
      IsDriveState(state) && next == Automatic(state)
    }

    constructor (state: State, delay: nat)
      requires IsDriveState(state)
      ensures Settled() && this.state == state && this.delay == delay && transitions == 0
    {
      this.state := state;
      this.next := Automatic(state);
      this.delay := delay;
      this.transitions := 0;
    }

    /** Time passes, then a statusword with arbitrary unrelated bits is read. */
    method Observe() returns (statusword: bv16)
      requires IsDriveState(state) && (next.Some? ==> IsDriveState(next.value))
      modifies this
      ensures Shows(state, statusword)
      ensures if old(next).Some? && old(delay) == 0
              then state == old(next).value && next == None && transitions == old(transitions) + 1
              else state == old(state) && next == old(next) && transitions == old(transitions)
      ensures delay == if old(next).Some? && old(delay) > 0 then old(delay) - 1 else old(delay)
    {
      if next.Some? {
        if delay == 0 {
          state, next, transitions := next.value, None, transitions + 1;
        } else {
          delay := delay - 1;
        }
      }
      statusword := *;
      if !Shows(state, statusword) {
        statusword := PlainStatusword(state);
      }
    }

    /** A controlword arrives. A drive on its way out of an automatic state ignores it. */
    method Receive(cw: bv16)
      requires Settled()
      modifies this`next, this`delay
      ensures if IsAutomatic(state) then next == old(next) && delay == old(delay)
              else next == Commanded(state, cw)
    {
      if !IsAutomatic(state) {
        next := Commanded(state, cw);
        delay := *;
      }
    }
  }

  /**
   State changes the drive makes until the setter is done. One more round trip is made when the
   drive powers up into the target between the setter's first two readings of the state.
   */
  function Walk(start: State, delay: nat, target: State): (n: nat)
    requires IsDriveState(start) && IsTarget(target)
    ensures n <= 6
  {
    if start == NotReadyToSwitchOn && delay == 1 && target == SwitchOnDisabled then 3
    else Distance(start, target)
  }

  /** An automatic transition becomes visible between choosing the next state and looking up its controlword. */
  predicate Race(start: State, delay: nat) {
    IsAutomatic(start) && delay == 2
  }

  /** The setter's loop: the state read last, observations left before an automatic exit, transitions made. */
  ghost predicate OnWalk(start: State, delay: nat, target: State, state: State, left: nat, made: nat)
    requires IsDriveState(start) && IsTarget(target)
  {
    IsDriveState(state) &&
    if IsAutomatic(state) then state == start && delay == left + 1 && made == 0
    else !Race(start, delay) && made + Distance(state, target) == Walk(start, delay, target)
  }

  /** The state one more reading shows. */
  function Reread(state: State, left: nat): State {
    if IsAutomatic(state) && left == 0 then Automatic(state).value else state
  }

  /** The walk never chooses an automatic state, and only DISABLE VOLTAGE leaves it without a choice. */
  lemma ChoiceIsLegal(s: State, target: State)
    requires IsDriveState(s) && IsTarget(target) && (s == target ==> s == SwitchOnDisabled)
    ensures NextState(s, target).None? <==> target == DisableVoltage && s == OperationEnabled
    ensures NextState(s, target).Some? ==>
      var next := NextState(s, target).value;
      && IsDriveState(next) && !IsAutomatic(next) && Transition(s, next).Some?
      && (IsAutomatic(s) ==> Automatic(s) == Some(next))
  {
    IndirectPath(s);
    if s != End(target) {
      NextStateAdvances(s, target);
    }
  }

  /** After the setter's first reading. */
  lemma WalkBegins(start: State, delay: nat, target: State)
    requires IsDriveState(start) && IsTarget(target)
    ensures OnWalk(start, delay, target, Reread(start, delay), if delay > 0 then delay - 1 else 0,
                   if Reread(start, delay) == start then 0 else 1)
  {
    if IsAutomatic(start) {
      NextStateAdvances(start, target);
      IndirectPath(start);
    }
  }

  /** An ordinary round of the loop. */
  lemma OrdinaryRound(start: State, delay: nat, target: State, state: State, left: nat, made: nat)
    requires IsDriveState(start) && IsTarget(target) && !IsAutomatic(state) && state != End(target)
    requires OnWalk(start, delay, target, state, left, made)
    ensures NextState(state, target).Some?
    ensures var next := NextState(state, target).value;
      OnWalk(start, delay, target, next, left, made + 1) && Distance(next, target) < Distance(state, target)
  {
    NextStateAdvances(state, target);
  }

  /** The first round, entered in a state the drive leaves by itself, without a race. */
  lemma AutomaticRound(start: State, delay: nat, target: State, state: State, left: nat, made: nat)
    requires IsDriveState(start) && IsTarget(target) && IsAutomatic(state) && left != 1
    requires OnWalk(start, delay, target, state, left, made)
    ensures var next := NextState(Reread(state, left), target);
      next.Some? && OnWalk(start, delay, target, next.value, left, if left == 0 then 2 else 1)
  {
    hide NextState;
    hide NextStateIndirect;
    hide Transition;
    hide Rank;
    hide Distance;
    EarlyRound(state, target);
    if left == 0 {
      LateRound(state, target);
    }
  }

  /** The drive has not left the state yet: the setter chooses the exit. */
  lemma EarlyRound(state: State, target: State)
    requires IsAutomatic(state) && IsTarget(target)
    ensures NextState(state, target) == Automatic(state)
    ensures Distance(state, target) == 1 + Distance(Automatic(state).value, target)
  {
    IndirectPath(state);
  }

  /** The drive has just left the state: the setter chooses from the exit. */
  lemma LateRound(state: State, target: State)
    requires IsAutomatic(state) && IsTarget(target)
    ensures var exit := Automatic(state).value;
      var next := NextState(exit, target);
      && next.Some? && IsDriveState(next.value) && !IsAutomatic(next.value)
      && 1 + Distance(next.value, target) == if exit == End(target) then 2 else Distance(exit, target)
  {
    IndirectPath(Automatic(state).value);
  }

  /** Any round of the loop, by what the setter reads next and chooses from it. */
  lemma Round(start: State, delay: nat, target: State, state: State, left: nat, made: nat)
    requires IsDriveState(start) && IsTarget(target) && state != target
    requires OnWalk(start, delay, target, state, left, made)
    ensures var read := Reread(state, left);
      var next := NextState(read, target);
      if next.None? then target == DisableVoltage && read == OperationEnabled && !Race(start, delay)
      else if IsAutomatic(read) && left == 1 then Race(start, delay)
      else
        && IsDriveState(next.value) && !IsAutomatic(next.value)
        && OnWalk(start, delay, target, next.value, left, made + 1 + if read == state then 0 else 1)
        && (IsAutomatic(state) || Distance(next.value, target) < Distance(state, target))
  {
    ChoiceIsLegal(Reread(state, left), target);
    if !IsAutomatic(state) && state != End(target) {
      OrdinaryRound(start, delay, target, state, left, made);
    } else if IsAutomatic(state) && left != 1 {
      AutomaticRound(start, delay, target, state, left, made);
    }
  }

  class BaseNode402 {
    const drive: Drive

    constructor (drive: Drive)
      ensures this.drive == drive
    {
      this.drive := drive;
    }

    /** The state getter: one reading of the statusword, looked up in the table. */
    method GetState() returns (state: State)
      requires IsDriveState(drive.state) && (drive.next.Some? ==> IsDriveState(drive.next.value))
      modifies drive
      ensures state == drive.state
      ensures if old(drive.next).Some? && old(drive.delay) == 0
              then drive.state == old(drive.next).value && drive.next == None &&
                   drive.transitions == old(drive.transitions) + 1
              else drive.state == old(drive.state) && drive.next == old(drive.next) &&
                   drive.transitions == old(drive.transitions)
      ensures drive.delay == if old(drive.next).Some? && old(drive.delay) > 0 then old(drive.delay) - 1 else old(drive.delay)
    {
      var statusword := drive.Observe();
      DecodesWhatIsShown(statusword);
      for i := 0 to |SW_MASK|
        invariant Decode(SW_MASK[i..], statusword) == drive.state
      {
        if SW_MASK[i].Matches(statusword) {
          return SW_MASK[i].state;
        }
        assert SW_MASK[i..][1..] == SW_MASK[i + 1..];
      }
      return Unknown;
    }

    /** Command one transition and wait for it. Raises when the table has no entry for the state read here. */
    method ChangeState(target: Option<State>) returns (raised: bool)
      requires drive.Settled() && (target.Some? ==> IsDriveState(target.value) && !IsAutomatic(target.value))
      requires target.Some? && IsAutomatic(drive.state) ==> Automatic(drive.state) == target
      requires target.Some? && !IsAutomatic(drive.state) ==> Transition(drive.state, target.value).Some?
      modifies drive
      ensures raised <==> target.None? || (IsAutomatic(old(drive.state)) && old(drive.delay) == 0)
      ensures !IsAutomatic(old(drive.state)) && raised ==> drive.state == old(drive.state)
      ensures !raised ==>
        && drive.Settled() && drive.state == target.value
        && drive.transitions == old(drive.transitions) + 1
    {
      var state := GetState();
      if target.None? || Transition(state, target.value).None? {
        return true;
      }
      TableMatchesDrive(state, target.value);
      drive.Receive(Transition(state, target.value).value);
      state := GetState();
      while state != target.value
        invariant IsDriveState(drive.state) && state == drive.state
        invariant if state == target.value then drive.next == None && drive.transitions == old(drive.transitions) + 1
                  else drive.next == target && drive.transitions == old(drive.transitions)
        decreases state != target.value, drive.delay
      {
        var _ := drive.Observe();
        state := GetState();
      }
      return false;
    }

    /** One round of the setter's loop. */
    method Advance(target: State) returns (raised: bool)
      requires drive.Settled() && IsTarget(target) && drive.state != target
      modifies drive
      ensures var read := Reread(old(drive.state), old(drive.delay));
        var next := NextState(read, target);
        && (raised <==> next.None? || (IsAutomatic(read) && old(drive.delay) == 1))
        && (next.None? ==> drive.state == read)
        && (!raised ==>
              && drive.Settled() && drive.state == next.value && !IsAutomatic(next.value)
              && drive.transitions == old(drive.transitions) + 1 + (if read == old(drive.state) then 0 else 1))
    {
      var state := GetState();
      ChoiceIsLegal(state, target);
      raised := ChangeState(NextState(state, target));
    }

    /**
     The state setter. A commandable target is reached in at most six transitions, unless an
     automatic transition becomes visible between the reading that chose the next state and the
     reading that looks up its controlword: exactly then an illegal transition is raised.
     The command name DISABLE VOLTAGE is never reached: the walk ends in OPERATION ENABLED and raises.
     */
    method SetState(target: State) returns (raised: bool)
      requires drive.Settled() && (IsDriveState(target) || target == DisableVoltage)
      modifies drive
      ensures IsCommandable(target) ==> (raised <==> Race(old(drive.state), old(drive.delay)))
      ensures IsCommandable(target) && !raised ==>
        && drive.Settled() && drive.state == target
        && drive.transitions == old(drive.transitions) + Walk(old(drive.state), old(drive.delay), target)
      ensures target == DisableVoltage ==> raised
      ensures target == DisableVoltage && !Race(old(drive.state), old(drive.delay)) ==> drive.state == OperationEnabled
      ensures !IsTarget(target) ==> (raised <==> drive.state != target)
    {
      ghost var start, delay := drive.state, drive.delay;
      var state := GetState();
      if !IsTarget(target) {
        return state != target;
      }
      WalkBegins(start, delay, target);
      raised := WalkTo(target, state, start, delay, old(drive.transitions));
    }

    /** The setter's loop, from the first reading on. */
    method WalkTo(target: State, first: State, ghost start: State, ghost delay: nat, ghost before: nat)
      returns (raised: bool)
      requires drive.Settled() && first == drive.state && drive.transitions >= before
      requires IsDriveState(start) && IsTarget(target)
      requires OnWalk(start, delay, target, first, drive.delay, drive.transitions - before)
      modifies drive
      ensures !raised ==> drive.Settled() && drive.state == target && !Race(start, delay)
      ensures !raised ==> drive.transitions == before + Walk(start, delay, target)
      ensures raised ==> Race(start, delay) || (target == DisableVoltage && drive.state == OperationEnabled)
    {
      hide NextState;
      hide Distance;
      hide Transition;
      hide Decode;
      hide Walk;
      var state := first;
      while state != target
        invariant drive.Settled() && state == drive.state && drive.transitions >= before
        invariant OnWalk(start, delay, target, state, drive.delay, drive.transitions - before)
        decreases IsAutomatic(state), Distance(state, target)
      {
        Round(start, delay, target, state, drive.delay, drive.transitions - before);
        raised := Advance(target);
        if raised {
          return;
        }
        state := GetState();
      }
      return false;
    }
  }
}
