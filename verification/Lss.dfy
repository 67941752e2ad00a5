/**
 The LSS Fastscan service: the master's bit-by-bit search (LssMaster.fast_scan) over an
 arbitrary collection of slaves that follow the Fastscan rules of CiA 305.
 */
module Lss {
  import opened Bits

  type Word = w: int | 0 <= w < 0x1_0000_0000

  /** Vendor, product, revision and serial number. */
  type Identity = s: seq<Word> | |s| == 4 witness [0, 0, 0, 0]

  datatype Slave = Slave(id: Identity, pos: nat, configuration: bool)

  /** The fields of a Fastscan request. */
  datatype Request = Request(idNumber: Word, bitCheck: nat, sub: nat, next: nat)

  const CS_IDENTIFY_SLAVE := 0x4F
  const CS_FAST_SCAN := 0x51

  /** The eight bytes of a message on the bus. */
  type Message = m: seq<Byte> | |m| == 8 witness [0, 0, 0, 0, 0, 0, 0, 0]

  /** The request in a message: the identity number least significant byte first, bit check, sub and next. */
  function RequestIn(m: Message): Request {
    var a: int, b: int, c: int, d: int := m[1], m[2], m[3], m[4];
    Request(a + 0x100 * b + 0x1_0000 * c + 0x100_0000 * d, m[5], m[6], m[7])
  }

  /** Bits 31 down to b of the two words agree. */
  predicate Agree(x: Word, y: Word, b: nat) {
    Shr(x, b) == Shr(y, b)
  }

  predicate Answers(s: Slave, q: Request) {
    !s.configuration &&
    (q.bitCheck == 128 || (q.bitCheck < 32 && q.sub < 4 && s.pos == q.sub && Agree(s.id[q.sub], q.idNumber, q.bitCheck)))
  }

  /** What a slave does on a request it receives. */
  function Reaction(s: Slave, q: Request): Slave {
    if !Answers(s, q) then s
    else if q.bitCheck == 128 then s.(pos := 0)
    else if q.bitCheck == 0 then s.(pos := q.next, configuration := q.next < q.sub)
    else s
  }

  predicate SomeoneAnswers(slaves: seq<Slave>, q: Request) {
    exists i :: 0 <= i < |slaves| && Answers(slaves[i], q)
  }

  /** The message of a request, as struct.pack('<BIBBB', ..) lays it out. */
  function Packed(q: Request): Message
    requires q.bitCheck < 256 && q.sub < 256 && q.next < 256
  {
    [CS_FAST_SCAN] + ToBytes(q.idNumber, 4) + [q.bitCheck, q.sub, q.next]
  }

  /** Slaves understand the message as the request it was made from. */
  lemma PackedIsUnderstood(q: Request)
    requires q.bitCheck < 256 && q.sub < 256 && q.next < 256
    ensures Packed(q)[0] == 0x51 && RequestIn(Packed(q)) == q
  {
    FourBytes(q.idNumber);
  }

  /**
   The bus with its slaves. A bus that is not reliable may lose any request or response at any slave, and
   bring in messages from elsewhere, though no answers to a Fastscan.
   */
  class Bus {
    const reliable: bool
    var slaves: seq<Slave>
    var sent: nat  // Fastscan requests transmitted so far

    constructor (slaves: seq<Slave>, reliable: bool)
      ensures this.slaves == slaves && this.reliable == reliable && sent == 0
    {
      this.slaves := slaves;
      this.reliable := reliable;
      sent := 0;
    }

    /** Deliver a Fastscan message; the first bytes of the responses that make it back to the master. */
    method Transmit(message: Message) returns (responses: seq<int>)
      requires message[0] == 0x51
      modifies this
      ensures sent == old(sent) + 1
      ensures |slaves| == |old(slaves)|
      ensures forall i :: 0 <= i < |slaves| ==>
        slaves[i] == old(slaves)[i] || slaves[i] == Reaction(old(slaves)[i], RequestIn(message))
      ensures 0x4F in responses ==> SomeoneAnswers(old(slaves), RequestIn(message))
      ensures reliable ==> forall r :: r in responses ==> r == 0x4F
      ensures reliable ==>
        forall i :: 0 <= i < |slaves| ==> slaves[i] == Reaction(old(slaves)[i], RequestIn(message))
      ensures reliable ==> (responses != [] <==> SomeoneAnswers(old(slaves), RequestIn(message)))
    {
      var q := RequestIn(message);
      responses := [];
      var after := [];
      for i := 0 to |slaves|
        invariant slaves == old(slaves)
        invariant |after| == i
        invariant forall j :: 0 <= j < i ==> after[j] == slaves[j] || after[j] == Reaction(slaves[j], q)
        invariant 0x4F in responses ==> exists j :: 0 <= j < i && Answers(slaves[j], q)
        invariant reliable ==> forall r :: r in responses ==> r == 0x4F
        invariant reliable ==> forall j :: 0 <= j < i ==> after[j] == Reaction(slaves[j], q)
        invariant reliable ==> (responses != [] <==> exists j :: 0 <= j < i && Answers(slaves[j], q))
      {
        var received: bool := *;
        var heard: bool := *;
        var stray: int := *;
        if stray != 0x4F && !reliable {
          responses := responses + [stray];
        }
        if received || reliable {
          if Answers(slaves[i], q) && (heard || reliable) {
            responses := responses + [0x4F];
          }
          after := after + [Reaction(slaves[i], q)];
        } else {
          after := after + [slaves[i]];
        }
      }
      slaves := after;
      sent := sent + 1;
    }
  }

  // ----- The order the search minimises -----

  predicate LexLess(a: seq<Word>, b: seq<Word>) {
    exists k :: 0 <= k < |a| && k < |b| && a[..k] == b[..k] && a[k] < b[k]
  }

  predicate LexAtMost(a: seq<Word>, b: seq<Word>) {
    a == b || LexLess(a, b)
  }

  predicate IsWaiting(slaves: seq<Slave>, i: int) {
    0 <= i < |slaves| && !slaves[i].configuration
  }

  /** id is the smallest identity among the slaves waiting for configuration. */
  ghost predicate IsMinimum(slaves: seq<Slave>, id: Identity) {
    (exists i :: IsWaiting(slaves, i) && slaves[i].id == id) &&
    forall i :: IsWaiting(slaves, i) ==> LexAtMost(id, slaves[i].id)
  }

  /** At most one identity is the minimum. */
  lemma MinimumIsUnique(slaves: seq<Slave>, x: Identity, y: Identity)
    requires IsMinimum(slaves, x) && IsMinimum(slaves, y)
    ensures x == y
  {
    assert LexAtMost(x, y) && LexAtMost(y, x);
    if x != y {
      var j :| 0 <= j < |x| && j < |y| && x[..j] == y[..j] && x[j] < y[j];
      var k :| 0 <= k < |y| && k < |x| && y[..k] == x[..k] && y[k] < x[k];
    }
  }

  // ----- Arithmetic of the bit loop -----

  lemma {:induction false} ShrMonotone(x: int, y: int, n: nat)
    requires x <= y
    ensures Shr(x, n) <= Shr(y, n)
    decreases n
  {
    if n > 0 {
      ShrMonotone(x / 2, y / 2, n - 1);
    }
  }

  lemma {:induction false} ShrStep(x: int, n: nat)
    ensures Shr(x, n) == 2 * Shr(x, n + 1) + (if Bit(x, n) then 1 else 0)
    decreases n
  {
    if n > 0 {
      ShrStep(x / 2, n - 1);
    }
  }

  lemma WordHas32Bits(w: Word)
    ensures Shr(w, 32) == 0
  {
    Pow2Is32();
    forall k: nat ensures Bit(Shr(w, 32), k) == Bit(0, k) {
      BitOfShr(w, 32, k);
      SmallHasNoHighBits(w, 32, 32 + k);
      BitOfConstant(k);
    }
    SameBits(Shr(w, 32), 0);
  }

  /** Setting bit b of a number that has no bit set at or below b. */
  lemma SetBit(x: Word, b: nat)
    requires b < 32 && forall k: nat :: k <= b ==> !Bit(x, k)
    ensures var y := Or(x, Shl(1, b));
      0 <= y < 0x1_0000_0000 && Shr(y, b) == Shr(x, b) + 1 && forall k: nat :: k < b ==> !Bit(y, k)
  {
    var y := Or(x, Shl(1, b));
    ShrStep(x, b);
    forall k: nat ensures Bit(y, k) == (Bit(x, k) || k == b) {
      BitOfOr(x, Shl(1, b), k);
      BitOfShl(1, b, k);
      if k > b {
        BitOfConstant(k - b - 1);
      }
    }
    forall k: nat ensures Bit(Shr(y, b), k) == Bit(Shr(x, b) + 1, k) {
      BitOfShr(y, b, k);
      BitOfShr(x, b, k);
      assert (Shr(x, b) + 1) / 2 == Shr(x, b) / 2;
    }
    SameBits(Shr(y, b), Shr(x, b) + 1);
    WordBits(x, y);
  }

  lemma WordBits(x: Word, y: int)
    requires forall k: nat :: k >= 32 ==> Bit(y, k) == Bit(x, k)
    ensures 0 <= y < 0x1_0000_0000
  {
    Pow2Is32();
    forall k: nat | k >= 32 ensures !Bit(y, k) {
      SmallHasNoHighBits(x, 32, k);
    }
    NoHighBitsIsSmall(y, 32);
  }

  // ----- Invariants of the search -----

  /** Every waiting slave has confirmed a prefix of the words found so far: the position it claims. */
  ghost predicate PositionsAreHonest(slaves: seq<Slave>, lssId: Identity, sub: nat)
    requires sub <= 4
  {
    forall i :: IsWaiting(slaves, i) ==>
      slaves[i].pos <= sub && slaves[i].id[..slaves[i].pos] == lssId[..slaves[i].pos]
  }

  /** Same slaves, in the same states, at possibly different positions. */
  ghost predicate OnlyPositionsMoved(start: seq<Slave>, slaves: seq<Slave>) {
    |slaves| == |start| &&
    forall i :: 0 <= i < |start| ==>
      slaves[i].id == start[i].id && slaves[i].configuration == start[i].configuration
  }

  /**
   Reliable search before word sub: the waiting slaves at position sub are those whose first
   sub words are the ones found, there is one, and every other waiting slave is larger.
   */
  ghost predicate Narrowed(slaves: seq<Slave>, lssId: Identity, sub: nat)
    requires sub <= 4
  {
    (exists i :: IsWaiting(slaves, i) && slaves[i].pos == sub) &&
    forall i :: IsWaiting(slaves, i) ==>
      if slaves[i].pos == sub then slaves[i].id[..sub] == lssId[..sub]
      else slaves[i].pos < sub && LexLess(lssId[..sub], slaves[i].id[..sub])
  }

  /** m is the smallest word number sub among the candidates. */
  ghost predicate IsSmallestWord(slaves: seq<Slave>, sub: nat, m: Word)
    requires sub < 4
  {
    (exists i :: IsWaiting(slaves, i) && slaves[i].pos == sub && slaves[i].id[sub] == m) &&
    forall i :: IsWaiting(slaves, i) && slaves[i].pos == sub ==> m <= slaves[i].id[sub]
  }

  lemma {:induction false} SmallestWord(slaves: seq<Slave>, sub: nat) returns (m: Word)
    requires sub < 4 && exists i :: IsWaiting(slaves, i) && slaves[i].pos == sub
    ensures IsSmallestWord(slaves, sub, m)
  {
    var i :| IsWaiting(slaves, i) && slaves[i].pos == sub;
    m := slaves[i].id[sub];
    while exists j :: IsWaiting(slaves, j) && slaves[j].pos == sub && slaves[j].id[sub] < m
      invariant exists j :: IsWaiting(slaves, j) && slaves[j].pos == sub && slaves[j].id[sub] == m
      decreases m
    {
      var j :| IsWaiting(slaves, j) && slaves[j].pos == sub && slaves[j].id[sub] < m;
      m := slaves[j].id[sub];
    }
  }

  /** One answered or unanswered question of the bit loop decides bit b of the smallest word. */
  lemma BitIsDecided(slaves: seq<Slave>, sub: nat, m: Word, x: Word, b: nat, next: nat)
    requires sub < 4 && b < 32 && IsSmallestWord(slaves, sub, m)
    requires Shr(x, b + 1) == Shr(m, b + 1) && !Bit(x, b)
    ensures SomeoneAnswers(slaves, Request(x, b, sub, next)) <==> !Bit(m, b)
    ensures Shr(m, b) == Shr(x, b) + if Bit(m, b) then 1 else 0
  {
    var q := Request(x, b, sub, next);
    ShrStep(x, b);
    ShrStep(m, b);
    var i :| IsWaiting(slaves, i) && slaves[i].pos == sub && slaves[i].id[sub] == m;
    if !Bit(m, b) {
      assert Answers(slaves[i], q);
    }
    forall j | 0 <= j < |slaves| && Answers(slaves[j], q) ensures !Bit(m, b) {
      assert IsWaiting(slaves, j);
      ShrMonotone(m, slaves[j].id[sub], b);
    }
  }

  /** While the bits of a word are scanned, lss_next equals lss_sub, so no slave moves. */
  lemma BitLoopMovesNobody(before: seq<Slave>, after: seq<Slave>, q: Request)
    requires q.bitCheck < 32 && q.next == q.sub && |after| == |before|
    requires forall i :: 0 <= i < |after| ==> after[i] == before[i] || after[i] == Reaction(before[i], q)
    ensures after == before
  {
  }

  /** The confirming message of a word other than the last. */
  lemma ConfirmedWord(start: seq<Slave>, before: seq<Slave>, after: seq<Slave>, lssId: Identity, sub: nat)
    requires sub < 3 && OnlyPositionsMoved(start, before) && |after| == |before|
    requires Narrowed(before, lssId, sub) && IsSmallestWord(before, sub, lssId[sub])
    requires forall i :: 0 <= i < |after| ==> after[i] == Reaction(before[i], Request(lssId[sub], 0, sub, sub + 1))
    ensures OnlyPositionsMoved(start, after) && Narrowed(after, lssId, sub + 1)
    ensures SomeoneAnswers(before, Request(lssId[sub], 0, sub, sub + 1))
  {
    var q := Request(lssId[sub], 0, sub, sub + 1);
    var c :| IsWaiting(before, c) && before[c].pos == sub && before[c].id[sub] == lssId[sub];
    assert Answers(before[c], q);
    assert IsWaiting(after, c) && after[c].pos == sub + 1;
    forall i | IsWaiting(after, i)
      ensures if after[i].pos == sub + 1 then after[i].id[..sub + 1] == lssId[..sub + 1]
              else after[i].pos < sub + 1 && LexLess(lssId[..sub + 1], after[i].id[..sub + 1])
    {
      assert IsWaiting(before, i);
      PrefixGrows(lssId, before[i].id, sub);
    }
  }

  lemma PrefixGrows(a: Identity, b: Identity, sub: nat)
    requires sub < 4
    ensures a[..sub] == b[..sub] && a[sub] == b[sub] ==> a[..sub + 1] == b[..sub + 1]
    ensures a[..sub] == b[..sub] && a[sub] < b[sub] ==> LexLess(a[..sub + 1], b[..sub + 1])
    ensures LexLess(a[..sub], b[..sub]) ==> LexLess(a[..sub + 1], b[..sub + 1])
  {
    if LexLess(a[..sub], b[..sub]) {
      var k :| 0 <= k < sub && a[..sub][..k] == b[..sub][..k] && a[..sub][k] < b[..sub][k];
      assert a[..sub + 1][..k] == a[..sub][..k] && b[..sub + 1][..k] == b[..sub][..k];
    } else if a[..sub] == b[..sub] {
      assert a[..sub + 1][..sub] == a[..sub] && b[..sub + 1][..sub] == b[..sub];
    }
  }

  /** Exactly the waiting slaves with this identity are put into configuration state. */
  ghost predicate Selected(start: seq<Slave>, after: seq<Slave>, id: Identity) {
    |after| == |start| &&
    forall i :: 0 <= i < |start| ==>
      after[i].id == start[i].id &&
      (after[i].configuration <==> start[i].configuration || start[i].id == id)
  }

  /** The confirming message of the last word. */
  lemma ConfirmedLastWord(start: seq<Slave>, before: seq<Slave>, after: seq<Slave>, lssId: Identity)
    requires OnlyPositionsMoved(start, before) && |after| == |before|
    requires Narrowed(before, lssId, 3) && IsSmallestWord(before, 3, lssId[3])
    requires forall i :: 0 <= i < |after| ==> after[i] == Reaction(before[i], Request(lssId[3], 0, 3, 0))
    ensures SomeoneAnswers(before, Request(lssId[3], 0, 3, 0))
    ensures IsMinimum(start, lssId) && Selected(start, after, lssId)
  {
    var q := Request(lssId[3], 0, 3, 0);
    var c :| IsWaiting(before, c) && before[c].pos == 3 && before[c].id[3] == lssId[3];
    PrefixGrows(before[c].id, lssId, 3);
    WholeIdentity(before[c].id, lssId);
    assert IsWaiting(start, c) && start[c].id == lssId && Answers(before[c], q);
    forall i | IsWaiting(start, i)
      ensures LexAtMost(lssId, start[i].id) && (Answers(before[i], q) <==> start[i].id == lssId)
    {
      assert IsWaiting(before, i);
      PrefixGrows(lssId, before[i].id, 3);
      WholeIdentity(lssId, before[i].id);
      LexLessIsStrict(lssId[..3]);
    }
  }

  lemma WholeIdentity(a: Identity, b: Identity)
    ensures a[..4] == a && b[..4] == b
  {
  }

  lemma LexLessIsStrict(a: seq<Word>)
    ensures !LexLess(a, a)
  {
  }

  /** Whatever is lost, a confirming message keeps the claimed positions honest. */
  lemma ConfirmationIsHonest(before: seq<Slave>, after: seq<Slave>, lssId: Identity, sub: nat)
    requires sub < 4 && |after| == |before| && PositionsAreHonest(before, lssId, sub)
    requires var q := Request(lssId[sub], 0, sub, (sub + 1) % 4);
      forall i :: 0 <= i < |after| ==> after[i] == before[i] || after[i] == Reaction(before[i], q)
    ensures PositionsAreHonest(after, lssId, sub + 1)
    ensures sub == 3 && SomeoneAnswers(before, Request(lssId[3], 0, 3, 0)) ==>
      exists i :: IsWaiting(before, i) && before[i].id == lssId
  {
    forall i | IsWaiting(after, i)
      ensures after[i].pos <= sub + 1 && after[i].id[..after[i].pos] == lssId[..after[i].pos]
    {
      assert IsWaiting(before, i);
      PrefixGrows(before[i].id, lssId, sub);
    }
    var q := Request(lssId[sub], 0, sub, (sub + 1) % 4);
    if sub == 3 && SomeoneAnswers(before, q) {
      var i :| 0 <= i < |before| && Answers(before[i], q);
      assert IsWaiting(before, i);
      PrefixGrows(before[i].id, lssId, 3);
      WholeIdentity(before[i].id, lssId);
    }
  }

  ghost predicate FromZero(slaves: seq<Slave>) {
    forall i :: IsWaiting(slaves, i) ==> slaves[i].pos == 0
  }

  /** The search with sub words found. */
  ghost predicate SearchState(start: seq<Slave>, slaves: seq<Slave>, lssId: Identity, sub: nat, reliable: bool) {
    sub <= 4 && (forall j :: sub <= j < 4 ==> lssId[j] == 0) &&
    if sub < 4 then
      OnlyPositionsMoved(start, slaves) &&
      (reliable ==> Narrowed(slaves, lssId, sub)) &&
      (FromZero(start) ==> PositionsAreHonest(slaves, lssId, sub))
    else
      (reliable ==> IsMinimum(start, lssId) && Selected(start, slaves, lssId)) &&
      (FromZero(start) ==> exists i :: IsWaiting(start, i) && start[i].id == lssId)
  }

  lemma SearchBegins(start: seq<Slave>, after: seq<Slave>, reliable: bool)
    requires |after| == |start| && SomeoneAnswers(start, Request(0, 128, 0, 0))
    requires forall i :: 0 <= i < |after| ==>
      after[i] == Reaction(start[i], Request(0, 128, 0, 0)) || (!reliable && after[i] == start[i])
    ensures SearchState(start, after, [0, 0, 0, 0], 0, reliable)
  {
    var i :| 0 <= i < |start| && Answers(start[i], Request(0, 128, 0, 0));
    assert reliable ==> IsWaiting(after, i) && after[i].pos == 0;
    forall j | IsWaiting(after, j) ensures IsWaiting(start, j) {}
  }

  /** One round of the outer loop. */
  lemma WordIsFound(start: seq<Slave>, before: seq<Slave>, after: seq<Slave>, prefix: Identity, word: Word,
                    sub: nat, reliable: bool, answered: bool)
    requires sub < 4 && SearchState(start, before, prefix, sub, reliable) && |after| == |before|
    requires reliable ==> IsSmallestWord(before, sub, word)
    requires var q := Request(word, 0, sub, (sub + 1) % 4);
      && (forall i :: 0 <= i < |after| ==> after[i] == Reaction(before[i], q) || (!reliable && after[i] == before[i]))
      && (answered ==> SomeoneAnswers(before, q))
      && (reliable && SomeoneAnswers(before, q) ==> answered)
    ensures reliable ==> answered
    ensures answered ==> SearchState(start, after, prefix[sub := word], sub + 1, reliable)
  {
    var lssId: Identity := prefix[sub := word];
    assert forall k :: 0 <= k <= sub ==> lssId[..k] == prefix[..k];
    if reliable {
      if sub < 3 {
        ConfirmedWord(start, before, after, lssId, sub);
      } else {
        ConfirmedLastWord(start, before, after, lssId);
      }
    }
    if FromZero(start) {
      ConfirmationIsHonest(before, after, lssId, sub);
      if sub == 3 && answered {
        var i :| IsWaiting(before, i) && before[i].id == lssId;
        assert IsWaiting(start, i) && start[i].id == lssId;
      }
    }
  }

  // ----- One search after another -----

  /** The bus before, between and after successful searches on a reliable bus, and what they found. */
  ghost predicate Searches(states: seq<seq<Slave>>, found: seq<Identity>) {
    |states| == |found| + 1 &&
    forall n :: 0 <= n < |found| ==> IsMinimum(states[n], found[n]) && Selected(states[n], states[n + 1], found[n])
  }

  /** Some slave with this identity is waiting for configuration. */
  ghost predicate Waits(slaves: seq<Slave>, id: Identity) {
    exists i :: IsWaiting(slaves, i) && slaves[i].id == id
  }

  ghost predicate NobodyWaits(slaves: seq<Slave>) {
    forall i :: !IsWaiting(slaves, i)
  }

  function CountWaiting(slaves: seq<Slave>): (n: nat)
    ensures n <= |slaves|
  {
    if slaves == [] then 0 else (if slaves[0].configuration then 0 else 1) + CountWaiting(slaves[1..])
  }

  /** A selection takes slaves out of the race. */
  lemma {:induction false} SelectedCounts(before: seq<Slave>, after: seq<Slave>, id: Identity)
    requires Selected(before, after, id)
    ensures CountWaiting(after) <= CountWaiting(before)
    ensures Waits(before, id) ==> CountWaiting(after) < CountWaiting(before)
    decreases |before|
  {
    if before != [] {
      assert forall i :: 0 <= i < |before| - 1 ==> before[1..][i] == before[i + 1] && after[1..][i] == after[i + 1];
      SelectedCounts(before[1..], after[1..], id);
      forall i | IsWaiting(before, i) && before[i].id == id && i > 0
        ensures Waits(before[1..], id)
      {
        assert IsWaiting(before[1..], i - 1);
      }
    }
  }

  /** Who waits behind a search waited before it, and is not the one found, which was smaller. */
  lemma WaitsOn(before: seq<Slave>, after: seq<Slave>, id: Identity, other: Identity)
    requires IsMinimum(before, id) && Selected(before, after, id)
    ensures Waits(after, other) <==> Waits(before, other) && other != id
    ensures Waits(before, id) && (Waits(after, other) ==> LexLess(id, other))
  {
    if Waits(after, other) {
      var i :| IsWaiting(after, i) && after[i].id == other;
      assert IsWaiting(before, i) && LexAtMost(id, before[i].id);
    }
    if Waits(before, other) && other != id {
      var i :| IsWaiting(before, i) && before[i].id == other;
      assert IsWaiting(after, i);
    }
  }

  /**
   Repeated searches enumerate the bus: until nobody waits, they find the identities of the waiting
   slaves in strictly increasing order, all of them and no others, in at most one search for each slave.
   */
  lemma {:induction false} SearchesEnumerate(states: seq<seq<Slave>>, found: seq<Identity>)
    requires Searches(states, found) && NobodyWaits(states[|states| - 1])
    ensures forall m, n :: 0 <= m < n < |found| ==> LexLess(found[m], found[n])
    ensures forall id :: id in found <==> Waits(states[0], id)
    ensures |found| <= CountWaiting(states[0])
    decreases |found|
  {
    hide Searches;
    hide IsMinimum;
    hide Selected;
    hide Waits;
    hide LexLess;
    SearchesLength(states, found);
    if found != [] {
      var id, rest := found[0], found[1..];
      FirstSearch(states, found);
      SearchesEnumerate(states[1..], rest);
      SelectedCounts(states[0], states[1], id);
      forall other: Identity
        ensures (other in rest <==> Waits(states[0], other) && other != id) && (other in rest ==> LexLess(id, other))
      {
        WaitsOn(states[0], states[1], id, other);
      }
      WaitsOn(states[0], states[1], id, id);
      InFront(id, rest);
      assert found == [id] + rest;
    } else {
      NobodyIsFound(states[0]);
    }
  }

  lemma NobodyIsFound(slaves: seq<Slave>)
    requires NobodyWaits(slaves)
    ensures forall id :: !Waits(slaves, id)
  {
  }

  lemma SearchesLength(states: seq<seq<Slave>>, found: seq<Identity>)
    requires Searches(states, found)
    ensures |states| == |found| + 1
  {
  }

  lemma FirstSearch(states: seq<seq<Slave>>, found: seq<Identity>)
    requires Searches(states, found) && found != []
    ensures IsMinimum(states[0], found[0]) && Selected(states[0], states[1], found[0])
    ensures Searches(states[1..], found[1..])
  {
    hide IsMinimum;
    hide Selected;
  }

  lemma InFront(id: Identity, rest: seq<Identity>)
    requires forall other :: other in rest ==> LexLess(id, other)
    requires forall m, n :: 0 <= m < n < |rest| ==> LexLess(rest[m], rest[n])
    ensures var found := [id] + rest;
      forall m, n :: 0 <= m < n < |found| ==> LexLess(found[m], found[n])
  {
    hide LexLess;
  }

  class LssMaster {
    const bus: Bus
    var responses: seq<int>

    constructor (bus: Bus)
      ensures this.bus == bus && responses == []
    {
      this.bus := bus;
      responses := [];
    }

    /** Drop stale responses, send, and wait for one response. None is the LssError of a timeout. */
    method SendCommand(message: Message) returns (response: int, timedOut: bool)
      requires message[0] == 0x51
      modifies this`responses, bus
      ensures bus.sent == old(bus.sent) + 1
      ensures |bus.slaves| == |old(bus.slaves)|
      ensures forall i :: 0 <= i < |bus.slaves| ==>
        bus.slaves[i] == old(bus.slaves)[i] || bus.slaves[i] == Reaction(old(bus.slaves)[i], RequestIn(message))
      ensures !timedOut && response == 0x4F ==> SomeoneAnswers(old(bus.slaves), RequestIn(message))
      ensures bus.reliable && !timedOut ==> response == 0x4F
      ensures bus.reliable ==>
        forall i :: 0 <= i < |bus.slaves| ==> bus.slaves[i] == Reaction(old(bus.slaves)[i], RequestIn(message))
      ensures bus.reliable ==> (!timedOut <==> SomeoneAnswers(old(bus.slaves), RequestIn(message)))
    {
      response, timedOut := 0, false;
      if responses != [] {
        responses := [];
      }
      var arrived := bus.Transmit(message);
      responses := responses + arrived;
      if responses == [] {
        timedOut := true;
      } else {
        response := responses[0];
        assert response in arrived;
        responses := responses[1..];
      }
    }

    method SendFastScanMessage(idNumber: Word, bitCheck: nat, sub: nat, next: nat) returns (answered: bool)
      requires bitCheck < 256 && sub < 256 && next < 256
      modifies this`responses, bus
      ensures bus.sent == old(bus.sent) + 1
      ensures var q := Request(idNumber, bitCheck, sub, next);
        && |bus.slaves| == |old(bus.slaves)|
        && (forall i :: 0 <= i < |bus.slaves| ==>
              bus.slaves[i] == old(bus.slaves)[i] || bus.slaves[i] == Reaction(old(bus.slaves)[i], q))
        && (answered ==> SomeoneAnswers(old(bus.slaves), q))
        && (bus.reliable ==> forall i :: 0 <= i < |bus.slaves| ==> bus.slaves[i] == Reaction(old(bus.slaves)[i], q))
        && (bus.reliable ==> (answered <==> SomeoneAnswers(old(bus.slaves), q)))
    {
      var q := Request(idNumber, bitCheck, sub, next);
      PackedIsUnderstood(q);
      var response, timedOut := SendCommand(Packed(q));
      if timedOut {
        return false;
      }
      return response == CS_IDENTIFY_SLAVE;
    }

    /** The inner loop: the 32 bits of one word, most significant first. No bit of the word is set before. */
    method ScanWord(sub: nat, next: nat) returns (word: Word)
      requires sub == next < 4
      modifies this`responses, bus
      ensures bus.slaves == old(bus.slaves) && bus.sent == old(bus.sent) + 32
      ensures bus.reliable && (exists i :: IsWaiting(bus.slaves, i) && bus.slaves[i].pos == sub) ==>
        IsSmallestWord(bus.slaves, sub, word)
    {
      ghost var slaves := bus.slaves;
      ghost var searching := bus.reliable && exists i :: IsWaiting(slaves, i) && slaves[i].pos == sub;
      ghost var m: Word := 0;
      if searching {
        m := SmallestWord(slaves, sub);
      }
      word := 0;
      var bitCheck: nat := 32;
      WordHas32Bits(0);
      WordHas32Bits(m);
      forall k: nat ensures !Bit(word, k) {
        BitOfConstant(k);
      }
      while bitCheck > 0
        invariant 0 <= bitCheck <= 32
        invariant bus.slaves == slaves && bus.sent == old(bus.sent) + (32 - bitCheck)
        invariant forall k: nat :: k < bitCheck ==> !Bit(word, k)
        invariant searching ==> Shr(word, bitCheck) == Shr(m, bitCheck)
      {
        bitCheck := bitCheck - 1;
        if searching {
          BitIsDecided(slaves, sub, m, word, bitCheck, next);
        }
        ShrStep(word, bitCheck);
        var answered := SendFastScanMessage(word, bitCheck, sub, next);
        BitLoopMovesNobody(slaves, bus.slaves, Request(word, bitCheck, sub, next));
        if !answered {
          SetBit(word, bitCheck);
          word := Or(word, Shl(1, bitCheck));
        }
      }
    }

    /**
     Search for an unconfigured slave.
     On a reliable bus: found exactly when a slave waits, and then the smallest identity of all
     waiting slaves, which alone end up in configuration state, after 1 + 4 * 33 messages.
     On any bus, from position 0: what is found is the identity of some waiting slave.
     */
    method FastScan() returns (found: bool, lssId: Identity)
      modifies this`responses, bus
      ensures bus.reliable ==> (found <==> exists i :: IsWaiting(old(bus.slaves), i))
      ensures bus.reliable && found ==>
        IsMinimum(old(bus.slaves), lssId) && Selected(old(bus.slaves), bus.slaves, lssId)
      ensures bus.reliable && !found ==> bus.slaves == old(bus.slaves) && bus.sent == old(bus.sent) + 1
      ensures found ==> bus.sent == old(bus.sent) + 1 + 4 * 33
      ensures FromZero(old(bus.slaves)) && found ==>
        exists i :: IsWaiting(old(bus.slaves), i) && old(bus.slaves)[i].id == lssId
    {
      ghost var start := bus.slaves;
      lssId := [0, 0, 0, 0];
      var sub, next := 0, 0;
      var answered := SendFastScanMessage(lssId[0], 128, sub, next);
      if answered {
        SearchBegins(start, bus.slaves, bus.reliable);
        while sub < 4
          invariant sub <= 4 && next == sub % 4
          invariant bus.sent == old(bus.sent) + 1 + 33 * sub
          invariant SearchState(start, bus.slaves, lssId, sub, bus.reliable)
        {
          ghost var slaves, prefix := bus.slaves, lssId;
          var word := ScanWord(sub, next);
          lssId := lssId[sub := word];
          next := (sub + 1) % 4;
          answered := SendFastScanMessage(lssId[sub], 0, sub, next);
          WordIsFound(start, slaves, bus.slaves, prefix, word, sub, bus.reliable, answered);
          if !answered {
            return false, lssId;
          }
          sub := sub + 1;
        }
        return true, lssId;
      }
      return false, lssId;
    }
  }
}
