/** The compiler from message schemas to packing, unpacking and checking code, and what the emitted code does. */
module NetSchema {
  import opened Wrappers

  /** A member of the generated struct, or an element of an array member. */
  datatype LValue = Plain(base: string) | Element(base: string, index: nat)

  datatype Kind = IntAny | IntRange(min: int, max: int)

  /** One integer of a message: where it is kept, what it may be, and what it is when the message ends early. */
  datatype Slot = Slot(lv: LValue, kind: Kind, default: Option<int>)

  /** A line of emitted code. */
  datatype Line =
    | AddInt(lv: LValue)
    | GetInt(lv: LValue)
    | GetIntOrDefault(lv: LValue, default: int)
    | GetUncompressedInt(lv: LValue)
    | GetUncompressedIntOrDefault(lv: LValue, default: int)
    | FailUnless(lv: LValue, min: int, max: int)
    | ClampInt(lv: LValue, min: int, max: int)

  /** The five kinds of code that every variable emits. */
  datatype Emission = Pack | UnpackMsg | CheckMsg | UnpackObj | ValidateObj

  function LineOf(e: Emission, s: Slot): seq<Line> {
    match e
    case Pack => [AddInt(s.lv)]
    case UnpackMsg => [match s.default case None => GetInt(s.lv) case Some(d) => GetIntOrDefault(s.lv, d)]
    case UnpackObj =>
      [match s.default case None => GetUncompressedInt(s.lv) case Some(d) => GetUncompressedIntOrDefault(s.lv, d)]
    case CheckMsg => if s.kind.IntAny? then [] else [FailUnless(s.lv, s.kind.min, s.kind.max)]
    case ValidateObj => if s.kind.IntAny? then [] else [ClampInt(s.lv, s.kind.min, s.kind.max)]
  }

  function Lines(e: Emission, slots: seq<Slot>): seq<Line> {
    if slots == [] then [] else LineOf(e, slots[0]) + Lines(e, slots[1..])
  }

  lemma {:induction false} LinesAppend(e: Emission, a: seq<Slot>, b: seq<Slot>)
    ensures Lines(e, a + b) == Lines(e, a) + Lines(e, b)
  {
    hide LineOf;
    if a == [] {
      assert a + b == b;
    } else {
      assert (a + b)[0] == a[0] && (a + b)[1..] == a[1..] + b;
      LinesAppend(e, a[1..], b);
    }
  }

  lemma LinesOfOne(e: Emission, s: Slot)
    ensures Lines(e, [s]) == LineOf(e, s)
  {
    assert Lines(e, [s]) == LineOf(e, s) + Lines(e, []);
  }

  // ----- The compiler

  class NetVariable {
    /** Overwritten by the array that repeats this variable. */
    var name: LValue
    const kind: Kind
    const default: Option<int>

    constructor (name: string, kind: Kind, default: Option<int>)
      ensures this.name == Plain(name) && this.kind == kind && this.default == default
    {
      this.name, this.kind, this.default := Plain(name), kind, default;
    }

    function AsSlot(): Slot
      reads this
    {
      Slot(name, kind, default)
    }

    method Emit(e: Emission) returns (lines: seq<Line>)
      ensures lines == Lines(e, [AsSlot()])
    {
      LinesOfOne(e, AsSlot());
      match e {
        case Pack => lines := [AddInt(name)];
        case UnpackMsg =>
          if default == None {
            lines := [GetInt(name)];
          } else {
            lines := [GetIntOrDefault(name, default.value)];
          }
        case UnpackObj =>
          if default == None {
            lines := [GetUncompressedInt(name)];
          } else {
            lines := [GetUncompressedIntOrDefault(name, default.value)];
          }
        case CheckMsg =>
          match kind {
            case IntAny => lines := [];
            case IntRange(min, max) => lines := [FailUnless(name, min, max)];
          }
        case ValidateObj =>
          match kind {
            case IntAny => lines := [];
            case IntRange(min, max) => lines := [ClampInt(name, min, max)];
          }
      }
    }
  }

  class NetArray {
    const baseName: string
    const variable: NetVariable
    const size: nat

    constructor (variable: NetVariable, size: nat)
      requires variable.name.Plain?
      ensures this.baseName == variable.name.base && this.variable == variable && this.size == size
    {
      this.baseName, this.variable, this.size := variable.name.base, variable, size;
    }

    ghost function Slots(): seq<Slot> {
      seq(size, i requires 0 <= i < size => Slot(Element(baseName, i), variable.kind, variable.default))
    }

    /**
      * One copy of the variable's code for every element, in order; whatever name an earlier call left behind does
      * not matter.
      */
    method Emit(e: Emission) returns (lines: seq<Line>)
      modifies variable`name
      ensures lines == Lines(e, Slots())
    {
      lines := [];
      assert Slots()[..0] == [];
      for i := 0 to size
        invariant lines == Lines(e, Slots()[..i])
      {
        variable.name := Element(baseName, i);
        var more := variable.Emit(e);
        LinesAppend(e, Slots()[..i], [variable.AsSlot()]);
        assert Slots()[..i + 1] == Slots()[..i] + [variable.AsSlot()];
        lines := lines + more;
      }
      assert Slots()[..size] == Slots();
    }
  }

  datatype Member = One(variable: NetVariable) | Many(repeated: NetArray)

  ghost function Scalars(members: seq<Member>): set<NetVariable> {
    set m <- members | m.One? :: m.variable
  }

  ghost function Repeated(members: seq<Member>): set<NetVariable> {
    set m <- members | m.Many? :: m.repeated.variable
  }

  ghost function MemberSlots(m: Member): seq<Slot>
    reads if m.One? then {m.variable} else {}
  {
    match m case One(v) => [v.AsSlot()] case Many(a) => a.Slots()
  }

  /** The integers of a schema, in wire order. */
  ghost function SlotsOf(members: seq<Member>): seq<Slot>
    reads Scalars(members)
  {
    if members == [] then []
    else
      var n := |members| - 1;
      assert Scalars(members[..n]) <= Scalars(members);
      assert members[n].One? ==> members[n] in members && members[n].variable in Scalars(members);
      SlotsOf(members[..n]) + MemberSlots(members[n])
  }

  /** One member after the other, in the order of the schema. */
  lemma {:induction false} SlotsAppend(a: seq<Member>, b: seq<Member>)
    ensures SlotsOf(a + b) == SlotsOf(a) + SlotsOf(b)
    decreases |b|
  {
    hide MemberSlots;
    if b == [] {
      assert a + b == a;
    } else {
      var n := |b| - 1;
      assert (a + b)[..|a| + n] == a + b[..n] && (a + b)[|a| + n] == b[n];
      SlotsAppend(a, b[..n]);
    }
  }

  /** A variable is one integer under its name, an array one integer for every element from the first to the last. */
  lemma SlotsOfMember(m: Member)
    ensures m.One? ==> SlotsOf([m]) == [Slot(m.variable.name, m.variable.kind, m.variable.default)]
    ensures m.Many? ==> |SlotsOf([m])| == m.repeated.size && forall i :: 0 <= i < m.repeated.size ==>
      SlotsOf([m])[i] == Slot(Element(m.repeated.baseName, i), m.repeated.variable.kind, m.repeated.variable.default)
  {
    assert [m][..0] == [];
    assert SlotsOf([m]) == SlotsOf([]) + MemberSlots(m) == MemberSlots(m);
  }

  /** The name of a member of the struct. */
  ghost function BaseName(m: Member): string
    reads if m.One? then {m.variable} else {}
  {
    match m case One(v) => v.name.base case Many(a) => a.baseName
  }

  /** What a C++ struct demands: no two members with one name, and variables that stand alone have plain names. */
  ghost predicate ProperNames(members: seq<Member>)
    reads Scalars(members)
  {
    && (forall v :: v in Scalars(members) ==> v.name.Plain?)
    && (forall i, j :: 0 <= i < j < |members| ==>
          assert members[i] in members && members[j] in members; BaseName(members[i]) != BaseName(members[j]))
  }

  predicate Distinct(slots: seq<Slot>) {
    forall i, j :: 0 <= i < j < |slots| ==> slots[i].lv != slots[j].lv
  }

  /** Every integer of a schema belongs to one of its members. */
  lemma {:induction false} SlotHasMember(members: seq<Member>, i: nat) returns (k: nat)
    requires i < |SlotsOf(members)|
    ensures k < |members| && SlotsOf(members)[i] in MemberSlots(members[k])
  {
    var n := |members| - 1;
    var front := SlotsOf(members[..n]);
    if i < |front| {
      k := SlotHasMember(members[..n], i);
    } else {
      k := n;
    }
  }

  /** Members with different names share no integer. */
  lemma {:induction false} NamesGiveDistinct(members: seq<Member>)
    requires ProperNames(members)
    ensures Distinct(SlotsOf(members))
  {
    if members != [] {
      var n := |members| - 1;
      var front, last := SlotsOf(members[..n]), MemberSlots(members[n]);
      assert forall i :: 0 <= i < n ==> members[..n][i] == members[i];
      assert Scalars(members[..n]) <= Scalars(members);
      NamesGiveDistinct(members[..n]);
      forall i, j | 0 <= i < |front| && 0 <= j < |last| ensures front[i].lv != last[j].lv {
        OtherName(members, n, i, j);
      }
      DistinctAppend(front, last);
    }
  }

  lemma DistinctAppend(a: seq<Slot>, b: seq<Slot>)
    requires Distinct(a) && Distinct(b) && forall i, j :: 0 <= i < |a| && 0 <= j < |b| ==> a[i].lv != b[j].lv
    ensures Distinct(a + b)
  {
  }

  lemma MemberDistinct(m: Member)
    ensures Distinct(MemberSlots(m))
    ensures forall s :: s in MemberSlots(m) && (m.One? ==> m.variable.name.Plain?) ==> s.lv.base == BaseName(m)
  {
  }

  lemma OtherName(members: seq<Member>, n: nat, i: nat, j: nat)
    requires n + 1 == |members| && ProperNames(members)
    requires i < |SlotsOf(members[..n])| && j < |MemberSlots(members[n])|
    ensures SlotsOf(members[..n])[i].lv != MemberSlots(members[n])[j].lv
  {
    hide SlotsOf, MemberSlots, BaseName;
    var k := SlotHasMember(members[..n], i);
    assert members[..n][k] == members[k] && members[k] in members && members[n] in members;
    MemberDistinct(members[k]);
    MemberDistinct(members[n]);
  }

  /** No array repeats a variable that also stands alone. */
  ghost predicate Separate(members: seq<Member>) {
    Scalars(members) !! Repeated(members)
  }

  /** The code of the next member, and no change to what the schema says. */
  method EmitNext(e: Emission, members: seq<Member>, k: nat) returns (lines: seq<Line>)
    requires Separate(members) && k < |members|
    modifies Repeated(members)`name
    ensures SlotsOf(members) == old(SlotsOf(members))
    ensures Lines(e, SlotsOf(members[..k + 1])) == Lines(e, old(SlotsOf(members[..k]))) + lines
  {
    hide Lines, LineOf;
    assert members[..k + 1][..k] == members[..k];
    assert Scalars(members[..k]) <= Scalars(members);
    match members[k] {
      case One(v) =>
        lines := v.Emit(e);
      case Many(a) =>
        assert members[k] in members && a.variable in Repeated(members);
        lines := a.Emit(e);
    }
    LinesAppend(e, SlotsOf(members[..k]), MemberSlots(members[k]));
  }

  method EmitAll(e: Emission, members: seq<Member>) returns (lines: seq<Line>)
    requires Separate(members)
    modifies Repeated(members)`name
    ensures SlotsOf(members) == old(SlotsOf(members))
    ensures lines == Lines(e, SlotsOf(members))
  {
    hide Separate, SlotsOf, Scalars, Repeated, Lines;
    lines := [];
    NoLines(e, members);
    for k := 0 to |members|
      invariant SlotsOf(members) == old(SlotsOf(members))
      invariant lines == Lines(e, SlotsOf(members[..k]))
    {
      var more := EmitNext(e, members, k);
      lines := lines + more;
    }
    assert members[..|members|] == members;
  }

  lemma NoLines(e: Emission, members: seq<Member>)
    ensures Lines(e, SlotsOf(members[..0])) == []
  {
    assert SlotsOf([]) == [];
  }

  class NetMessage {
    const variables: seq<Member>

    constructor (variables: seq<Member>)
      ensures this.variables == variables
    {
      this.variables := variables;
    }

    method EmitPack() returns (lines: seq<Line>)
      requires Separate(variables)
      modifies Repeated(variables)`name
      ensures SlotsOf(variables) == old(SlotsOf(variables))
      ensures lines == Lines(Pack, SlotsOf(variables))
    {
      lines := EmitAll(Pack, variables);
    }

    /** Everything is unpacked before anything is checked. */
    method EmitUnpackMsg() returns (lines: seq<Line>)
      requires Separate(variables)
      modifies Repeated(variables)`name
      ensures SlotsOf(variables) == old(SlotsOf(variables))
      ensures lines == Lines(UnpackMsg, SlotsOf(variables)) + Lines(CheckMsg, SlotsOf(variables))
    {
      lines := EmitAll(UnpackMsg, variables);
      var checks := EmitAll(CheckMsg, variables);
      lines := lines + checks;
    }
  }

  predicate HasDefault(m: Member) {
    match m case One(v) => v.default.Some? case Many(a) => a.variable.default.Some?
  }

  class NetObject {
    const variables: seq<Member>
    const validateSize: bool

    constructor (variables: seq<Member>, validateSize: bool)
      ensures this.variables == variables && this.validateSize == validateSize
    {
      this.variables, this.validateSize := variables, validateSize;
    }

    ghost function AllVariables(base: Option<NetObject>): seq<Member> {
      (if base.Some? then base.value.variables else []) + variables
    }

    /** The integers of the base, if there is one. */
    static ghost function BaseSlots(base: Option<NetObject>): seq<Slot>
      reads if base.Some? then Scalars(base.value.variables) else {}
    {
      if base.Some? then SlotsOf(base.value.variables) else []
    }

    lemma BaseFirst(base: Option<NetObject>)
      ensures SlotsOf(AllVariables(base)) == BaseSlots(base) + SlotsOf(variables)
    {
      if base.Some? {
        SlotsAppend(base.value.variables, variables);
      } else {
        assert AllVariables(base) == variables;
      }
    }

    /** The base object's variables come first; an object of unchecked size may not have a variable without default. */
    method EmitUncompressedUnpackAndValidate(base: Option<NetObject>) returns (r: Option<seq<Line>>)
      requires Separate(AllVariables(base))
      modifies Repeated(AllVariables(base))`name
      ensures SlotsOf(AllVariables(base)) == old(SlotsOf(AllVariables(base)))
      ensures r == None <==> !validateSize && exists m :: m in AllVariables(base) && !HasDefault(m)
      ensures r.Some? ==> var slots := SlotsOf(AllVariables(base));
              r.value == Lines(UnpackObj, slots) + Lines(ValidateObj, slots)
      ensures SlotsOf(AllVariables(base)) == BaseSlots(base) + SlotsOf(variables)
    {
      hide Separate, SlotsOf, Repeated, Scalars, Lines, LineOf, MemberSlots, HasDefault, NetObject.BaseSlots;
      var all := [];
      if base.Some? {
        all := all + base.value.variables;
      }
      all := all + variables;
      assert all == AllVariables(base);
      var lines := [];
      NoLines(UnpackObj, all);
      for k := 0 to |all|
        invariant SlotsOf(all) == old(SlotsOf(all))
        invariant lines == Lines(UnpackObj, SlotsOf(all[..k]))
        invariant validateSize || forall m :: m in all[..k] ==> HasDefault(m)
      {
        if !validateSize && !HasDefault(all[k]) {
          BaseFirst(base);
          return None;
        }
        var more := EmitNext(UnpackObj, all, k);
        assert all[..k + 1] == all[..k] + [all[k]];
        lines := lines + more;
      }
      var checks := EmitAll(ValidateObj, all);
      assert all[..|all|] == all;
      BaseFirst(base);
      return Some(lines + checks);
    }
  }
}
