/** What the emitted code does when it runs: packing, unpacking, checking and clamping. */
module NetHandler {
  import opened NetSchema
  import opened Wrappers

  /** The struct being filled, the integers still to be unpacked, and the handler's fields. */
  datatype Machine = Machine(
    memory: map<LValue, int>,
    tokens: seq<int>,
    error: bool,
    failedOn: Option<LValue>,
    corrections: nat,
    correctedOn: Option<LValue>)

  /** The buffer is never cleared, so a member that was not assigned holds anything; here it reads as 0. */
  function Load(memory: map<LValue, int>, lv: LValue): int {
    if lv in memory then memory[lv] else 0
  }

  /**
    * An unpacker that has failed keeps failing and gives 0; at the end of the data only a default can still be given.
    */
  function Unpack(m: Machine, lv: LValue, default: Option<int>): Machine {
    if m.error then m.(memory := m.memory[lv := 0])
    else if m.tokens != [] then m.(memory := m.memory[lv := m.tokens[0]], tokens := m.tokens[1..])
    else if default.Some? then m.(memory := m.memory[lv := default.value])
    else m.(memory := m.memory[lv := 0], error := true)
  }

  function Correct(m: Machine, lv: LValue, value: int): Machine {
    m.(memory := m.memory[lv := value], corrections := m.corrections + 1, correctedOn := Some(lv))
  }

  function Step(line: Line, m: Machine): Machine {
    match line
    case AddInt(lv) => m.(tokens := m.tokens + [Load(m.memory, lv)])
    case GetInt(lv) => Unpack(m, lv, None)
    case GetIntOrDefault(lv, d) => Unpack(m, lv, Some(d))
    case GetUncompressedInt(lv) => Unpack(m, lv, None)
    case GetUncompressedIntOrDefault(lv, d) => Unpack(m, lv, Some(d))
    case FailUnless(lv, min, max) =>
      if Load(m.memory, lv) < min || Load(m.memory, lv) > max then m.(failedOn := Some(lv)) else m
    case ClampInt(lv, min, max) =>
      if Load(m.memory, lv) < min then Correct(m, lv, min)
      else if Load(m.memory, lv) > max then Correct(m, lv, max)
      else m
  }

  /** A failed check breaks out of the rest. */
  function Run(lines: seq<Line>, m: Machine): Machine {
    if lines == [] || m.failedOn.Some? then m else Run(lines[1..], Step(lines[0], m))
  }

  lemma {:induction false} RunAppend(a: seq<Line>, b: seq<Line>, m: Machine)
    ensures Run(a + b, m) == Run(b, Run(a, m))
  {
    if a == [] || m.failedOn.Some? {
      assert a == [] ==> a + b == b;
    } else {
      assert (a + b)[0] == a[0] && (a + b)[1..] == a[1..] + b;
      RunAppend(a[1..], b, Step(a[0], m));
    }
  }

  /** What one slot's code does, before the rest of the slots. */
  lemma RunSlots(e: Emission, slots: seq<Slot>, m: Machine)
    requires slots != []
    ensures Run(Lines(e, slots), m) == Run(Lines(e, slots[1..]), Run(LineOf(e, slots[0]), m))
  {
    RunAppend(LineOf(e, slots[0]), Lines(e, slots[1..]), m);
  }

  lemma RunLine(line: Line, m: Machine)
    requires m.failedOn == None
    ensures Run([line], m) == Step(line, m)
  {
    assert Run([line], m) == Run([line][1..], Step(line, m));
  }

  predicate Holds(kind: Kind, value: int) {
    kind.IntAny? || kind.min <= value <= kind.max
  }

  /** The integer that slot `i` of a message of these tokens is given. */
  function Given(slots: seq<Slot>, tokens: seq<int>, i: nat): int
    requires i < |slots|
  {
    if i < |tokens| then tokens[i] else if slots[i].default.Some? then slots[i].default.value else 0
  }

  /** A slot without default lies beyond the end of the data. */
  predicate Starved(slots: seq<Slot>, n: nat) {
    exists i :: n <= i < |slots| && slots[i].default == None
  }

  function Rest(slots: seq<Slot>, tokens: seq<int>): seq<int> {
    if |tokens| <= |slots| then [] else tokens[|slots|..]
  }

  // ----- Packing

  /** Packing writes one integer per slot, in order, and changes nothing else. */
  lemma {:induction false} PackPhase(slots: seq<Slot>, m: Machine)
    requires m.failedOn == None
    ensures Run(Lines(Pack, slots), m) ==
      m.(tokens := m.tokens + seq(|slots|, i requires 0 <= i < |slots| => Load(m.memory, slots[i].lv)))
  {
    if slots == [] {
      assert m.tokens + [] == m.tokens;
    } else {
      RunSlots(Pack, slots, m);
      RunLine(AddInt(slots[0].lv), m);
      PackPhase(slots[1..], Step(AddInt(slots[0].lv), m));
    }
  }

  // ----- Unpacking

  predicate Unpacking(e: Emission) { e == UnpackMsg || e == UnpackObj }

  lemma UnpackSlot(e: Emission, s: Slot, m: Machine)
    requires Unpacking(e) && m.failedOn == None
    ensures Run(LineOf(e, s), m) == Unpack(m, s.lv, s.default)
  {
    RunLine(LineOf(e, s)[0], m);
    assert LineOf(e, s) == [LineOf(e, s)[0]];
  }

  predicate Untouched(slots: seq<Slot>, lv: LValue) {
    forall i :: 0 <= i < |slots| ==> slots[i].lv != lv
  }

  /** No code of a slot writes anything but its own slot. */
  lemma SlotWritesItself(e: Emission, s: Slot, m: Machine, lv: LValue)
    requires m.failedOn == None && s.lv != lv
    ensures Load(Run(LineOf(e, s), m).memory, lv) == Load(m.memory, lv)
  {
    if LineOf(e, s) != [] {
      RunLine(LineOf(e, s)[0], m);
    }
  }

  /** Neither does the code of a whole schema, whichever kind it is. */
  lemma {:induction false} Frame(e: Emission, slots: seq<Slot>, m: Machine, lv: LValue)
    requires Untouched(slots, lv)
    ensures Load(Run(Lines(e, slots), m).memory, lv) == Load(m.memory, lv)
  {
    if slots != [] && m.failedOn == None {
      RunSlots(e, slots, m);
      SlotWritesItself(e, slots[0], m, lv);
      assert slots[0].lv != lv;
      Frame(e, slots[1..], Run(LineOf(e, slots[0]), m), lv);
    }
  }

  /** Nothing is checked yet. */
  lemma {:induction false} UnpackPhase(e: Emission, slots: seq<Slot>, m: Machine)
    requires Unpacking(e) && m.failedOn == None && Distinct(slots)
    ensures var after := Run(Lines(e, slots), m);
            && after.failedOn == None && after.corrections == m.corrections && after.correctedOn == m.correctedOn
            && (after.error <==> m.error || Starved(slots, |m.tokens|))
            && (!after.error ==> after.tokens == Rest(slots, m.tokens) && AsGiven(slots, m.tokens, after.memory))
  {
    if slots == [] {
    } else {
      var s, rest := slots[0], slots[1..];
      RunSlots(e, slots, m);
      UnpackSlot(e, s, m);
      hide LineOf, Lines, Run;
      var next := Unpack(m, s.lv, s.default);
      UnpackPhase(e, rest, next);
      Frame(e, rest, next, s.lv);
      StarvedTail(slots, |m.tokens|);
      var after := Run(Lines(e, rest), next);
      if !after.error {
        GivenTail(slots, m, after.memory);
      }
    }
  }

  predicate AsGiven(slots: seq<Slot>, tokens: seq<int>, memory: map<LValue, int>) {
    forall i :: 0 <= i < |slots| ==> Load(memory, slots[i].lv) == Given(slots, tokens, i)
  }

  lemma GivenTail(slots: seq<Slot>, m: Machine, memory: map<LValue, int>)
    requires slots != [] && !m.error
    requires var next := Unpack(m, slots[0].lv, slots[0].default);
             && !next.error && AsGiven(slots[1..], next.tokens, memory)
             && Load(memory, slots[0].lv) == Load(next.memory, slots[0].lv)
    ensures AsGiven(slots, m.tokens, memory)
  {
    var rest, next := slots[1..], Unpack(m, slots[0].lv, slots[0].default);
    forall i | 0 <= i < |slots|
      ensures Load(memory, slots[i].lv) == Given(slots, m.tokens, i)
    {
      if i > 0 {
        assert Load(memory, rest[i - 1].lv) == Given(rest, next.tokens, i - 1);
      }
    }
  }

  lemma StarvedTail(slots: seq<Slot>, n: nat)
    requires slots != []
    ensures Starved(slots, n) <==>
      (n == 0 && slots[0].default == None) || Starved(slots[1..], if n == 0 then 0 else n - 1)
  {
    var n' := if n == 0 then 0 else n - 1;
    if i :| n <= i < |slots| && slots[i].default == None {
      if i > 0 {
        assert slots[1..][i - 1] == slots[i];
      }
    }
    if i :| n' <= i < |slots[1..]| && slots[1..][i].default == None {
      assert slots[i + 1].default == None;
    }
  }

  // ----- Checking a message

  predicate AllHold(slots: seq<Slot>, memory: map<LValue, int>) {
    forall i :: 0 <= i < |slots| ==> Holds(slots[i].kind, Load(memory, slots[i].lv))
  }

  predicate FirstFailure(slots: seq<Slot>, memory: map<LValue, int>, i: nat) {
    i < |slots| && !Holds(slots[i].kind, Load(memory, slots[i].lv)) && AllHold(slots[..i], memory)
  }

  lemma CheckSlot(s: Slot, m: Machine)
    requires m.failedOn == None
    ensures Run(LineOf(CheckMsg, s), m) == if Holds(s.kind, Load(m.memory, s.lv)) then m else m.(failedOn := Some(s.lv))
  {
    if s.kind.IntRange? {
      RunLine(FailUnless(s.lv, s.kind.min, s.kind.max), m);
    }
  }

  lemma RunFailed(lines: seq<Line>, m: Machine)
    requires m.failedOn.Some?
    ensures Run(lines, m) == m
  {
  }

  /** The checks change no value, and stop at the first slot out of range. */
  lemma {:induction false} CheckPhase(slots: seq<Slot>, m: Machine) returns (i: nat)
    requires m.failedOn == None
    ensures AllHold(slots, m.memory) ==> Run(Lines(CheckMsg, slots), m) == m
    ensures !AllHold(slots, m.memory) ==>
              FirstFailure(slots, m.memory, i) && Run(Lines(CheckMsg, slots), m) == m.(failedOn := Some(slots[i].lv))
  {
    i := 0;
    if slots != [] {
      var s, rest := slots[0], slots[1..];
      RunSlots(CheckMsg, slots, m);
      CheckSlot(s, m);
      hide Run, Lines, LineOf, Holds, Load;
      if Holds(s.kind, Load(m.memory, s.lv)) {
        var j := CheckPhase(rest, m);
        i := j + 1;
        FailureTail(slots, m.memory, j);
      } else {
        RunFailed(Lines(CheckMsg, rest), m.(failedOn := Some(s.lv)));
      }
    }
  }

  lemma FailureTail(slots: seq<Slot>, memory: map<LValue, int>, j: nat)
    requires slots != [] && Holds(slots[0].kind, Load(memory, slots[0].lv))
    ensures AllHold(slots, memory) <==> AllHold(slots[1..], memory)
    ensures FirstFailure(slots[1..], memory, j) ==> FirstFailure(slots, memory, j + 1)
  {
    hide Holds, Load;
    if AllHold(slots[1..], memory) {
      assert forall i :: 0 < i < |slots| ==> slots[i] == slots[1..][i - 1];
    }
    if FirstFailure(slots[1..], memory, j) {
      assert slots[..j + 1] == [slots[0]] + slots[1..][..j];
    }
  }

  // ----- Messages

  function Start(memory: map<LValue, int>, tokens: seq<int>): Machine {
    Machine(memory, tokens, false, None, 0, None)
  }

  /** The emitted case of a message. */
  function UnpackMessage(slots: seq<Slot>, m: Machine): Machine {
    Run(Lines(UnpackMsg, slots) + Lines(CheckMsg, slots), m)
  }

  predicate Accepted(m: Machine) { m.failedOn == None && !m.error }

  /**
    * A message is accepted exactly when it does not end before a slot without default and every integer it gives is
    * in range; then those are the values.
    */
  lemma AcceptedIff(slots: seq<Slot>, memory: map<LValue, int>, tokens: seq<int>)
    requires Distinct(slots)
    ensures var after := UnpackMessage(slots, Start(memory, tokens));
            && (Accepted(after) <==>
                 !Starved(slots, |tokens|) &&
                 forall i :: 0 <= i < |slots| ==> Holds(slots[i].kind, Given(slots, tokens, i)))
            && (!Starved(slots, |tokens|) ==>
                 && after.tokens == Rest(slots, tokens)
                 && forall i :: 0 <= i < |slots| ==> Load(after.memory, slots[i].lv) == Given(slots, tokens, i))
  {
    var m := Start(memory, tokens);
    RunAppend(Lines(UnpackMsg, slots), Lines(CheckMsg, slots), m);
    UnpackPhase(UnpackMsg, slots, m);
    var i := CheckPhase(slots, Run(Lines(UnpackMsg, slots), m));
  }

  /** A message that fails its checks names the first slot out of range. */
  lemma FailedOnFirst(slots: seq<Slot>, memory: map<LValue, int>, tokens: seq<int>, i: nat)
    requires Distinct(slots) && !Starved(slots, |tokens|) && i < |slots|
    requires !Holds(slots[i].kind, Given(slots, tokens, i))
    requires forall j :: 0 <= j < i ==> Holds(slots[j].kind, Given(slots, tokens, j))
    ensures UnpackMessage(slots, Start(memory, tokens)).failedOn == Some(slots[i].lv)
  {
    var m := Start(memory, tokens);
    RunAppend(Lines(UnpackMsg, slots), Lines(CheckMsg, slots), m);
    UnpackPhase(UnpackMsg, slots, m);
    var unpacked := Run(Lines(UnpackMsg, slots), m);
    var k := CheckPhase(slots, unpacked);
    hide Lines, Run;
    assert !Holds(slots[i].kind, Load(unpacked.memory, slots[i].lv));
    assert forall j :: 0 <= j < k ==> slots[..k][j] == slots[j];
  }

  /**
    * What is packed is unpacked: whatever the receiver's struct held and whatever follows, the values come back, and
    * they are accepted exactly when they are in range.
    */
  lemma PackUnpack(slots: seq<Slot>, source: map<LValue, int>, memory: map<LValue, int>, rest: seq<int>)
    requires Distinct(slots)
    ensures var packed := Run(Lines(Pack, slots), Start(source, [])).tokens;
            var after := UnpackMessage(slots, Start(memory, packed + rest));
            && (Accepted(after) <==> AllHold(slots, source))
            && after.tokens == rest
            && forall i :: 0 <= i < |slots| ==> Load(after.memory, slots[i].lv) == Load(source, slots[i].lv)
  {
    hide Lines, Run, UnpackMessage;
    PackPhase(slots, Start(source, []));
    var packed := Run(Lines(Pack, slots), Start(source, [])).tokens;
    UnpackPacked(slots, source, memory, packed, rest);
  }

  lemma UnpackPacked(slots: seq<Slot>, source: map<LValue, int>, memory: map<LValue, int>,
                     packed: seq<int>, rest: seq<int>)
    requires Distinct(slots)
    requires |packed| == |slots| && forall i :: 0 <= i < |slots| ==> packed[i] == Load(source, slots[i].lv)
    ensures var after := UnpackMessage(slots, Start(memory, packed + rest));
            && (Accepted(after) <==> AllHold(slots, source))
            && after.tokens == rest
            && forall i :: 0 <= i < |slots| ==> Load(after.memory, slots[i].lv) == Load(source, slots[i].lv)
  {
    hide UnpackMessage, Distinct, Holds, Load;
    var tokens := packed + rest;
    AcceptedIff(slots, memory, tokens);
    forall i | 0 <= i < |slots|
      ensures Given(slots, tokens, i) == Load(source, slots[i].lv)
    {
      assert tokens[i] == packed[i];
    }
    assert Rest(slots, tokens) == rest;
  }

  // ----- Objects

  function Clamped(kind: Kind, value: int): int {
    if kind.IntAny? then value
    else if value < kind.min then kind.min
    else if value > kind.max then kind.max
    else value
  }

  /** The slots hold the clamped integers, and as many corrections were made as integers were out of range. */
  predicate Corrected(slots: seq<Slot>, tokens: seq<int>, after: Machine) {
    && Accepted(after)
    && (forall i :: 0 <= i < |slots| ==>
          Load(after.memory, slots[i].lv) == Clamped(slots[i].kind, Given(slots, tokens, i)))
    && (forall i :: 0 <= i < |slots| && !Holds(slots[i].kind, Given(slots, tokens, i)) &&
          (forall j :: i < j < |slots| ==> Holds(slots[j].kind, Given(slots, tokens, j)))
          ==> after.correctedOn == Some(slots[i].lv))
    && after.corrections == |set i | 0 <= i < |slots| && !Holds(slots[i].kind, Given(slots, tokens, i))|
  }

  /** Slot `i` holds the clamped integer number `from + i`, or its clamped default beyond the end of the data. */
  predicate Filled(slots: seq<Slot>, tokens: seq<int>, from: nat, memory: map<LValue, int>) {
    forall i :: 0 <= i < |slots| ==>
      Load(memory, slots[i].lv) == Clamped(slots[i].kind,
        if from + i < |tokens| then tokens[from + i]
        else if slots[i].default.Some? then slots[i].default.value else 0)
  }

  lemma FilledInTurn(a: seq<Slot>, b: seq<Slot>, tokens: seq<int>, after: Machine)
    requires Corrected(a + b, tokens, after)
    ensures Filled(a, tokens, 0, after.memory) && Filled(b, tokens, |a|, after.memory)
  {
    hide Clamped, Load, Holds;
    forall i | 0 <= i < |a + b|
      ensures Load(after.memory, (a + b)[i].lv) == Clamped((a + b)[i].kind, Given(a + b, tokens, i))
    {
    }
    assert forall i :: 0 <= i < |a| ==> (a + b)[i] == a[i];
    assert forall i :: 0 <= i < |b| ==> (a + b)[|a| + i] == b[i];
  }

  /** Clamping gives the nearest value of the range. */
  lemma ClampedIsNearest(kind: Kind, value: int, other: int)
    requires Holds(kind, other)
    ensures Holds(kind, Clamped(kind, value))
    ensures value <= Clamped(kind, value) <= other || other <= Clamped(kind, value) <= value
      || Clamped(kind, value) == value
  {
  }

  /** How many slots hold a value out of range. */
  function Violations(slots: seq<Slot>, memory: map<LValue, int>): nat {
    if slots == [] then 0
    else (if Holds(slots[0].kind, Load(memory, slots[0].lv)) then 0 else 1) + Violations(slots[1..], memory)
  }

  /** The slots among the first `n` that hold a value out of range. */
  function OutOfRange(slots: seq<Slot>, memory: map<LValue, int>, n: nat): set<nat>
    requires n <= |slots|
  {
    set i | 0 <= i < n && !Holds(slots[i].kind, Load(memory, slots[i].lv))
  }

  lemma {:induction false} ViolationsLast(slots: seq<Slot>, last: Slot, memory: map<LValue, int>)
    ensures Violations(slots + [last], memory) ==
      Violations(slots, memory) + (if Holds(last.kind, Load(memory, last.lv)) then 0 else 1)
  {
    if slots == [] {
      assert [last][1..] == [];
      assert slots + [last] == [last];
    } else {
      assert (slots + [last])[1..] == slots[1..] + [last];
      ViolationsLast(slots[1..], last, memory);
    }
  }

  lemma {:induction false} ViolationsCounted(slots: seq<Slot>, memory: map<LValue, int>, n: nat)
    requires n <= |slots|
    ensures Violations(slots[..n], memory) == |OutOfRange(slots, memory, n)|
  {
    hide Violations, Holds, Load, OutOfRange;
    if n == 0 {
      NoViolations(slots, memory);
    } else {
      ViolationsCounted(slots, memory, n - 1);
      assert slots[..n] == slots[..n - 1] + [slots[n - 1]];
      ViolationsLast(slots[..n - 1], slots[n - 1], memory);
      OutOfRangeNext(slots, memory, n - 1);
    }
  }

  lemma NoViolations(slots: seq<Slot>, memory: map<LValue, int>)
    ensures Violations(slots[..0], memory) == 0 && OutOfRange(slots, memory, 0) == {}
  {
  }

  lemma OutOfRangeNext(slots: seq<Slot>, memory: map<LValue, int>, n: nat)
    requires n < |slots|
    ensures |OutOfRange(slots, memory, n + 1)|
      == |OutOfRange(slots, memory, n)| + (if Holds(slots[n].kind, Load(memory, slots[n].lv)) then 0 else 1)
  {
    hide Holds, Load;
    var before := OutOfRange(slots, memory, n);
    assert OutOfRange(slots, memory, n + 1) ==
      if Holds(slots[n].kind, Load(memory, slots[n].lv)) then before else before + {n};
  }

  lemma {:induction false} ViolationsFrame(slots: seq<Slot>, a: map<LValue, int>, b: map<LValue, int>)
    requires forall i :: 0 <= i < |slots| ==> Load(a, slots[i].lv) == Load(b, slots[i].lv)
    ensures Violations(slots, a) == Violations(slots, b)
  {
    if slots == [] {
    } else {
      ViolationsFrame(slots[1..], a, b);
    }
  }

  lemma ClampSlot(s: Slot, m: Machine)
    requires m.failedOn == None
    ensures var next, value := Run(LineOf(ValidateObj, s), m), Load(m.memory, s.lv);
            && next.tokens == m.tokens && next.error == m.error && next.failedOn == None
            && next.corrections == m.corrections + (if Holds(s.kind, value) then 0 else 1)
            && next.correctedOn == (if Holds(s.kind, value) then m.correctedOn else Some(s.lv))
            && Load(next.memory, s.lv) == Clamped(s.kind, value)
            && forall lv :: lv != s.lv ==> Load(next.memory, lv) == Load(m.memory, lv)
  {
    if s.kind.IntRange? {
      RunLine(ClampInt(s.lv, s.kind.min, s.kind.max), m);
    }
  }

  /** Slot `i` is the last that holds a value out of range. */
  predicate LastFailure(slots: seq<Slot>, memory: map<LValue, int>, i: int) {
    && 0 <= i < |slots| && !Holds(slots[i].kind, Load(memory, slots[i].lv))
    && forall j :: i < j < |slots| ==> Holds(slots[j].kind, Load(memory, slots[j].lv))
  }

  lemma LastFailureTail(slots: seq<Slot>, a: map<LValue, int>, b: map<LValue, int>)
    requires slots != [] && forall i :: 0 < i < |slots| ==> Load(a, slots[i].lv) == Load(b, slots[i].lv)
    ensures AllHold(slots, a) <==> Holds(slots[0].kind, Load(a, slots[0].lv)) && AllHold(slots[1..], b)
    ensures forall i :: LastFailure(slots, a, i) ==>
      if i == 0 then !Holds(slots[0].kind, Load(a, slots[0].lv)) && AllHold(slots[1..], b)
      else LastFailure(slots[1..], b, i - 1) && slots[i] == slots[1..][i - 1]
  {
    hide Holds, Load;
    assert forall i :: 0 < i < |slots| ==> slots[i] == slots[1..][i - 1];
    assert forall i :: 0 <= i < |slots[1..]| ==> slots[1..][i] == slots[i + 1];
  }

  /** Every value is clamped into its range, and every value out of range is counted once. */
  lemma {:induction false} ValidatePhase(slots: seq<Slot>, m: Machine)
    requires m.failedOn == None && Distinct(slots)
    ensures var after := Run(Lines(ValidateObj, slots), m);
            && after.tokens == m.tokens && after.error == m.error && after.failedOn == None
            && after.corrections == m.corrections + Violations(slots, m.memory)
            && (AllHold(slots, m.memory) ==> after.correctedOn == m.correctedOn)
            && (forall i :: LastFailure(slots, m.memory, i) ==> after.correctedOn == Some(slots[i].lv))
            && forall i :: 0 <= i < |slots| ==>
                 Load(after.memory, slots[i].lv) == Clamped(slots[i].kind, Load(m.memory, slots[i].lv))
  {
    if slots == [] {
    } else {
      var s, rest := slots[0], slots[1..];
      RunSlots(ValidateObj, slots, m);
      ClampSlot(s, m);
      var next := Run(LineOf(ValidateObj, s), m);
      hide Lines, Run, LineOf, Clamped, Holds, Load;
      ValidatePhase(rest, next);
      ViolationsFrame(rest, m.memory, next.memory);
      Frame(ValidateObj, rest, next, s.lv);
      var after := Run(Lines(ValidateObj, rest), next);
      LastFailureTail(slots, m.memory, next.memory);
      forall i | 0 <= i < |slots|
        ensures Load(after.memory, slots[i].lv) == Clamped(slots[i].kind, Load(m.memory, slots[i].lv))
      {
        if i > 0 {
          assert slots[i] == rest[i - 1];
        }
      }
    }
  }

  /** The emitted case of an object. */
  function UnpackObject(slots: seq<Slot>, m: Machine): Machine {
    Run(Lines(UnpackObj, slots) + Lines(ValidateObj, slots), m)
  }

  /** Whatever arrives, a validated value is in its declared range exactly when that range is not empty. */
  lemma ObjectValidated(slots: seq<Slot>, memory: map<LValue, int>, tokens: seq<int>)
    requires Distinct(slots)
    ensures var after := UnpackObject(slots, Start(memory, tokens));
            && (after.error <==> Starved(slots, |tokens|))
            && forall i :: 0 <= i < |slots| ==>
                 (Holds(slots[i].kind, Load(after.memory, slots[i].lv)) <==>
                    slots[i].kind.IntAny? || slots[i].kind.min <= slots[i].kind.max)
  {
    var m := Start(memory, tokens);
    RunAppend(Lines(UnpackObj, slots), Lines(ValidateObj, slots), m);
    UnpackPhase(UnpackObj, slots, m);
    ValidatePhase(slots, Run(Lines(UnpackObj, slots), m));
  }

  /**
    * An object that does not end early gets each integer clamped, and as many corrections as integers were out of
    * range.
    */
  lemma ObjectCorrected(slots: seq<Slot>, memory: map<LValue, int>, tokens: seq<int>)
    requires Distinct(slots) && !Starved(slots, |tokens|)
    ensures Corrected(slots, tokens, UnpackObject(slots, Start(memory, tokens)))
  {
    var m := Start(memory, tokens);
    RunAppend(Lines(UnpackObj, slots), Lines(ValidateObj, slots), m);
    UnpackPhase(UnpackObj, slots, m);
    var unpacked := Run(Lines(UnpackObj, slots), m);
    ValidatePhase(slots, unpacked);
    hide Lines, Run, Distinct, Starved, Violations, Holds, Clamped, Given, AsGiven, Load, Corrected, LastFailure;
    CorrectedFrom(slots, tokens, unpacked.memory, UnpackObject(slots, m));
  }

  lemma CorrectedFrom(slots: seq<Slot>, tokens: seq<int>, memory: map<LValue, int>, after: Machine)
    requires AsGiven(slots, tokens, memory) && Accepted(after) && after.corrections == Violations(slots, memory)
    requires forall i :: LastFailure(slots, memory, i) ==> after.correctedOn == Some(slots[i].lv)
    requires forall i :: 0 <= i < |slots| ==>
      Load(after.memory, slots[i].lv) == Clamped(slots[i].kind, Load(memory, slots[i].lv))
    ensures Corrected(slots, tokens, after)
  {
    hide Violations, Holds, Clamped, Given, Load;
    ViolationsCounted(slots, memory, |slots|);
    assert slots[..|slots|] == slots;
    forall i | 0 <= i < |slots| && !Holds(slots[i].kind, Given(slots, tokens, i)) &&
               (forall j :: i < j < |slots| ==> Holds(slots[j].kind, Given(slots, tokens, j)))
      ensures LastFailure(slots, memory, i)
    {
      assert forall j :: i < j < |slots| ==> Load(memory, slots[j].lv) == Given(slots, tokens, j);
    }
    assert OutOfRange(slots, memory, |slots|) ==
      set i | 0 <= i < |slots| && !Holds(slots[i].kind, Given(slots, tokens, i));
  }

  /**
    * An object whose size is not checked is only emitted with a default for every member, so it can be cut off
    * anywhere.
    */
  lemma {:induction false} DefaultsNeverStarve(members: seq<Member>, n: nat)
    requires forall m :: m in members ==> HasDefault(m)
    ensures !Starved(SlotsOf(members), n)
  {
    if members == [] {
    } else {
      var k := |members| - 1;
      DefaultsNeverStarve(members[..k], 0);
      var front: seq<Slot>, last: seq<Slot> := SlotsOf(members[..k]), MemberSlots(members[k]);
      assert HasDefault(members[k]);
      forall i | 0 <= i < |front + last|
        ensures (front + last)[i].default != None
      {
      }
    }
  }

  // ----- from schema to result

  /**
    * The code a message emits, run: packing the members of one struct and unpacking the result into another gives the
    * same values, accepted exactly when they are in range.
    */
  method PackAndUnpack(msg: NetMessage, source: map<LValue, int>, memory: map<LValue, int>) returns (after: Machine)
    requires Separate(msg.variables) && ProperNames(msg.variables)
    modifies Repeated(msg.variables)`name
    ensures var slots := SlotsOf(msg.variables);
            && slots == old(SlotsOf(msg.variables))
            && (Accepted(after) <==> AllHold(slots, source)) && after.tokens == []
            && forall i :: 0 <= i < |slots| ==> Load(after.memory, slots[i].lv) == Load(source, slots[i].lv)
  {
    hide Lines, Run, SlotsOf, Distinct, Separate, Scalars, Repeated, ProperNames, AllHold;
    NamesGiveDistinct(msg.variables);
    var pack := msg.EmitPack();
    var unpack := msg.EmitUnpackMsg();
    var packed := Run(pack, Start(source, [])).tokens;
    PackUnpack(SlotsOf(msg.variables), source, memory, []);
    assert packed + [] == packed;
    after := Run(unpack, Start(memory, packed));
  }

  /**
    * The code an object emits, run on anything: every value ends up in its range unless that is empty, and without a
    * size check nothing is an error. If the data does not end early each value is the clamped integer, and there are as
    * many corrections as integers out of range.
    */
  method UnpackAndValidate(obj: NetObject, base: Option<NetObject>, memory: map<LValue, int>, tokens: seq<int>)
    returns (r: Option<Machine>)
    requires Separate(obj.AllVariables(base)) && ProperNames(obj.AllVariables(base))
    modifies Repeated(obj.AllVariables(base))`name
    ensures r == None <==> !obj.validateSize && exists m :: m in obj.AllVariables(base) && !HasDefault(m)
    ensures r.Some? ==>
      var slots := SlotsOf(obj.AllVariables(base));
      && slots == old(SlotsOf(obj.AllVariables(base)))
      && (!obj.validateSize ==> !r.value.error)
      && forall i :: 0 <= i < |slots| && (slots[i].kind.IntRange? ==> slots[i].kind.min <= slots[i].kind.max) ==>
           Holds(slots[i].kind, Load(r.value.memory, slots[i].lv))
    ensures r.Some? && !Starved(SlotsOf(obj.AllVariables(base)), |tokens|) ==>
      Corrected(SlotsOf(obj.AllVariables(base)), tokens, r.value)
    ensures SlotsOf(obj.AllVariables(base)) == NetObject.BaseSlots(base) + SlotsOf(obj.variables)
    ensures r.Some? && !Starved(NetObject.BaseSlots(base) + SlotsOf(obj.variables), |tokens|) ==>
      && Filled(NetObject.BaseSlots(base), tokens, 0, r.value.memory)
      && Filled(SlotsOf(obj.variables), tokens, |NetObject.BaseSlots(base)|, r.value.memory)
  {
    hide Filled;
    hide Lines, Run, SlotsOf, Distinct, Separate, Scalars, Repeated, ProperNames, Holds, HasDefault, Starved, Corrected;
    NamesGiveDistinct(obj.AllVariables(base));
    obj.BaseFirst(base);
    var lines := obj.EmitUncompressedUnpackAndValidate(base);
    if lines == None {
      return None;
    }
    ObjectValidated(SlotsOf(obj.AllVariables(base)), memory, tokens);
    if !Starved(SlotsOf(obj.AllVariables(base)), |tokens|) {
      ObjectCorrected(SlotsOf(obj.AllVariables(base)), memory, tokens);
    }
    if !obj.validateSize {
      DefaultsNeverStarve(obj.AllVariables(base), |tokens|);
    }
    r := Some(Run(lines.value, Start(memory, tokens)));
    if !Starved(SlotsOf(obj.AllVariables(base)), |tokens|) {
      FilledInTurn(NetObject.BaseSlots(base), SlotsOf(obj.variables), tokens, r.value);
    }
  }
}
