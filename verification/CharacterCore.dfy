/**
  * The hook and jump state of a character, and the bookkeeping between characters that hook each other.
  *
  * Collision results, team predicates, distances and positions are inputs of a tick.
  */
module CharacterCore {

  const MAX_CLIENTS := 64
  const SERVER_TICK_SPEED := 50

  const HOOK_RETRACTED := -1
  const HOOK_IDLE := 0
  const HOOK_RETRACT_START := 1
  const HOOK_RETRACT_END := 3
  const HOOK_FLYING := 4
  const HOOK_GRABBED := 5

  datatype Event = GroundJump | AirJump | HookLaunch | HookAttachPlayer | HookAttachGround | HookHitNoHook | HookRetract

  /** What IntersectLineTeleHook reports. */
  datatype Hit = NoHit | GroundHit | NoHookHit | TeleHit

  /** Everything a tick reads that is not part of the modelled state. */
  datatype TickInput = TickInput(
    useInput: bool,
    jump: bool,
    hook: bool,
    grounded: bool,
    launchTick: int,          // m_HookTick at launch, from the tuned hook duration
    tooFar: bool,             // the hook has reached its length
    hit: Hit,
    mayHook: bool,            // hooking players is enabled for this character
    catches: seq<bool>,       // the hook's line passes close to the player in the slot, and teams allow it
    distances: seq<real>,     // from the hook to the player in the slot
    teleOut: bool,            // the teleporter that was hit leads somewhere
    keeps: seq<bool>          // teams let the hook on the player in the slot be kept
  )

  predicate InputOk(inp: TickInput) {
    |inp.catches| == MAX_CLIENTS && |inp.distances| == MAX_CLIENTS && |inp.keeps| == MAX_CLIENTS
  }

  // ----- the specification of a tick, on values

  datatype Jump = Jump(
    held: bool,               // bit 1 of m_Jumped
    used: bool,               // bit 2 of m_Jumped
    total: int
  )

  datatype Hook = Hook(state: int, tick: int, player: int, newHook: bool)

  /** The jump key; `jumps` is m_Jumps. */
  function JumpKey(j: Jump, jumps: int, inp: TickInput): (Jump, set<Event>) {
    if !inp.jump then (j.(held := false), {})
    else if j.held then (j, {})
    else if inp.grounded && (!j.used || jumps != 0) then
      (Jump(true, if jumps > 1 then j.used else true, 0), {GroundJump})
    else if !j.used then (Jump(true, true, j.total + 1), {AirJump})
    else (j, {})
  }

  /** The jump part of a tick: standing on the ground gives the air jump back. */
  function JumpTick(j: Jump, jumps: int, inp: TickInput): (Jump, set<Event>) {
    var (k, events) := if inp.useInput then JumpKey(j, jumps, inp) else (j, {});
    (if inp.grounded then k.(used := false, total := 0) else k, events)
  }

  predicate Launches(h: Hook, inp: TickInput) {
    inp.useInput && inp.hook && h.state == HOOK_IDLE
  }

  predicate Releases(inp: TickInput) {
    inp.useInput && !inp.hook
  }

  /** The hook part of handling the input. */
  function HookInput(h: Hook, inp: TickInput): Hook {
    if Launches(h, inp) then h.(state := HOOK_FLYING, player := -1, tick := inp.launchTick)
    else if Releases(inp) then h.(state := HOOK_IDLE, player := -1)
    else h
  }

  /** A player the hook can attach to in this tick. */
  predicate Candidate(inp: TickInput, id: int, present: seq<bool>, i: nat)
    requires InputOk(inp) && |present| == MAX_CLIENTS && i < MAX_CLIENTS
  {
    inp.mayHook && present[i] && i != id && inp.catches[i]
  }

  /** The hooked player and its distance after looking at the first `n` slots. */
  function Caught(start: int, inp: TickInput, id: int, present: seq<bool>, n: nat): (int, real)
    requires InputOk(inp) && |present| == MAX_CLIENTS && n <= MAX_CLIENTS
  {
    if n == 0 then (start, 0.0)
    else
      var (p, d) := Caught(start, inp, id, present, n - 1);
      if Candidate(inp, id, present, n - 1) && (p == -1 || inp.distances[n - 1] < d) then (n - 1, inp.distances[n - 1])
      else (p, d)
  }

  /** The branch for a flying hook. */
  function Fly(h: Hook, inp: TickInput, id: int, present: seq<bool>): (Hook, set<Event>, bool)
    requires InputOk(inp) && |present| == MAX_CLIENTS
  {
    var far := if inp.tooFar then h.(state := HOOK_RETRACT_START) else h;
    var p := Caught(h.player, inp, id, present, MAX_CLIENTS).0;
    if p != h.player then (far.(state := HOOK_GRABBED, player := p), {HookAttachPlayer}, false)
    else if far.state != HOOK_FLYING then (far, {}, false)
    else
      var (s, events) :=
        if inp.hit == GroundHit then (HOOK_GRABBED, {HookAttachGround})
        else if inp.hit == NoHookHit then (HOOK_RETRACT_START, {HookHitNoHook})
        else (HOOK_FLYING, {});
      if inp.hit == TeleHit && inp.teleOut then (Hook(s, h.tick, -1, true), {}, true)
      else (far.(state := s), events, false)
  }

  /** The branch chosen by the hook state; the last component tells whether all events of the tick are dropped. */
  function Advance(h: Hook, inp: TickInput, id: int, present: seq<bool>): (Hook, set<Event>, bool)
    requires InputOk(inp) && |present| == MAX_CLIENTS
  {
    if h.state == HOOK_IDLE then (h.(player := -1), {}, false)
    else if HOOK_RETRACT_START <= h.state < HOOK_RETRACT_END then (h.(state := h.state + 1), {}, false)
    else if h.state == HOOK_RETRACT_END then (h.(state := HOOK_RETRACTED), {HookRetract}, false)
    else if h.state == HOOK_FLYING then Fly(h, inp, id, present)
    else (h, {}, false)
  }

  /** The branch for a hook that has grabbed something. */
  function Hold(h: Hook, inp: TickInput, present: seq<bool>): Hook
    requires InputOk(inp) && |present| == MAX_CLIENTS && -1 <= h.player < MAX_CLIENTS
  {
    if h.state != HOOK_GRABBED then h
    else
      var kept := if h.player != -1 && !(present[h.player] && inp.keeps[h.player])
                  then h.(player := -1, state := HOOK_RETRACTED) else h;
      var aged := kept.(tick := kept.tick + 1);
      if aged.player != -1 && aged.tick > SERVER_TICK_SPEED + SERVER_TICK_SPEED / 5
      then aged.(player := -1, state := HOOK_RETRACTED) else aged
  }

  /** The hook part of TickDeferred. */
  function Defer(h: Hook): Hook {
    if h.state != HOOK_FLYING then h.(newHook := false) else h
  }

  predicate HookInv(h: Hook) {
    && HOOK_RETRACTED <= h.state <= HOOK_GRABBED
    && -1 <= h.player < MAX_CLIENTS
    && (h.player != -1 ==> h.state == HOOK_GRABBED)
  }

  lemma {:induction false} CaughtRange(start: int, inp: TickInput, id: int, present: seq<bool>, n: nat)
    requires InputOk(inp) && |present| == MAX_CLIENTS && n <= MAX_CLIENTS
    ensures var p := Caught(start, inp, id, present, n).0; p == start || 0 <= p < n
  {
    if n > 0 {
      CaughtRange(start, inp, id, present, n - 1);
    }
  }

  /** A hook that flies free attaches to the nearest candidate, the lowest slot among equals, if there is any. */
  lemma {:induction false} CaughtIsNearest(inp: TickInput, id: int, present: seq<bool>, n: nat)
    requires InputOk(inp) && |present| == MAX_CLIENTS && n <= MAX_CLIENTS
    ensures var (p, d) := Caught(-1, inp, id, present, n);
            if p == -1 then forall i :: 0 <= i < n ==> !Candidate(inp, id, present, i)
            else
              && 0 <= p < n && Candidate(inp, id, present, p) && d == inp.distances[p]
              && forall i :: 0 <= i < n && Candidate(inp, id, present, i) ==>
                   inp.distances[p] < inp.distances[i] || (inp.distances[p] == inp.distances[i] && p <= i)
  {
    if n > 0 {
      CaughtIsNearest(inp, id, present, n - 1);
    }
  }

  lemma {:induction false} NothingCaught(inp: TickInput, id: int, present: seq<bool>, n: nat)
    requires InputOk(inp) && |present| == MAX_CLIENTS && n <= MAX_CLIENTS && !inp.mayHook
    ensures Caught(-1, inp, id, present, n) == (-1, 0.0)
  {
    if n > 0 {
      NothingCaught(inp, id, present, n - 1);
    }
  }

  /** Hook state after one whole tick. */
  function HookTick(h: Hook, inp: TickInput, id: int, present: seq<bool>): (r: Hook)
    requires InputOk(inp) && |present| == MAX_CLIENTS && HookInv(h)
  {
    AdvanceInRange(HookInput(h, inp), inp, id, present);
    Hold(Advance(HookInput(h, inp), inp, id, present).0, inp, present)
  }

  lemma AdvanceInRange(h: Hook, inp: TickInput, id: int, present: seq<bool>)
    requires InputOk(inp) && |present| == MAX_CLIENTS && HookInv(h)
    ensures HookInv(Advance(h, inp, id, present).0)
  {
    CaughtRange(h.player, inp, id, present, MAX_CLIENTS);
    hide Caught;
  }

  lemma HookTickInv(h: Hook, inp: TickInput, id: int, present: seq<bool>)
    requires InputOk(inp) && |present| == MAX_CLIENTS && HookInv(h)
    ensures HookInv(HookTick(h, inp, id, present)) && HookInv(Defer(h))
  {
    AdvanceInRange(HookInput(h, inp), inp, id, present);
    hide Advance;
  }

  /** All events of a tick. */
  function TickEvents(j: Jump, jumps: int, h: Hook, inp: TickInput, id: int, present: seq<bool>): set<Event>
    requires InputOk(inp) && |present| == MAX_CLIENTS
  {
    var (_, events, dropped) := Advance(HookInput(h, inp), inp, id, present);
    if dropped then events
    else JumpTick(j, jumps, inp).1 + (if Launches(h, inp) then {HookLaunch} else {}) + events
  }

  /** A tick handles the input, moves the hook and then holds it; the events come from the first two. */
  lemma TickParts(j: Jump, jumps: int, h: Hook, inp: TickInput, id: int, present: seq<bool>)
    requires InputOk(inp) && |present| == MAX_CLIENTS && HookInv(h)
    ensures var (moved, events, dropped) := Advance(HookInput(h, inp), inp, id, present);
            && HookInv(moved) && HookTick(h, inp, id, present) == Hold(moved, inp, present)
            && TickEvents(j, jumps, h, inp, id, present) ==
               if dropped then events
               else JumpTick(j, jumps, inp).1 + (if Launches(h, inp) then {HookLaunch} else {}) + events
  {
    AdvanceInRange(HookInput(h, inp), inp, id, present);
    hide Advance, Hold, JumpTick;
  }

  // ----- what a tick does, by cases

  /** The hook is on its way in this tick, thrown now or before. */
  predicate InFlight(h: Hook, inp: TickInput) {
    if h.state == HOOK_IDLE then inp.useInput && inp.hook
    else h.state == HOOK_FLYING && !(inp.useInput && !inp.hook)
  }

  /** The candidate closest to the hook, the lowest slot among equals. */
  ghost predicate Nearest(inp: TickInput, id: int, present: seq<bool>, p: int)
    requires InputOk(inp) && |present| == MAX_CLIENTS
  {
    && 0 <= p < MAX_CLIENTS && Candidate(inp, id, present, p)
    && forall i :: 0 <= i < MAX_CLIENTS && Candidate(inp, id, present, i) ==>
         inp.distances[p] < inp.distances[i] || (inp.distances[p] == inp.distances[i] && p <= i)
  }

  ghost predicate NobodyNear(inp: TickInput, id: int, present: seq<bool>)
    requires InputOk(inp) && |present| == MAX_CLIENTS
  {
    forall i :: 0 <= i < MAX_CLIENTS ==> !Candidate(inp, id, present, i)
  }

  /** The hook reaches what it flies into: neither a player nor its length comes first. */
  ghost predicate Reaches(h: Hook, inp: TickInput, id: int, present: seq<bool>, hit: Hit)
    requires InputOk(inp) && |present| == MAX_CLIENTS
  {
    InFlight(h, inp) && NobodyNear(inp, id, present) && !inp.tooFar && inp.hit == hit
  }

  ghost predicate Teleports(h: Hook, inp: TickInput, id: int, present: seq<bool>)
    requires InputOk(inp) && |present| == MAX_CLIENTS
  {
    Reaches(h, inp, id, present, TeleHit) && inp.teleOut
  }

  /** A hook on player `p` is still on it after the tick, which is number `tick` of the hook. */
  predicate Keeps(inp: TickInput, present: seq<bool>, p: int, tick: int)
    requires InputOk(inp) && |present| == MAX_CLIENTS && 0 <= p < MAX_CLIENTS
  {
    present[p] && inp.keeps[p] && tick <= 60
  }

  predicate Holding(r: Hook, p: int, tick: int) {
    r.state == HOOK_GRABBED && r.player == p && r.tick == tick
  }

  predicate Free(r: Hook, state: int) {
    r.state == state && r.player == -1
  }

  /** The hook after a flight: on a player, on the ground, on its way back, or flying on. */
  ghost predicate Flown(h: Hook, inp: TickInput, id: int, present: seq<bool>, tick: int, r: Hook)
    requires InputOk(inp) && |present| == MAX_CLIENTS
  {
    if NobodyNear(inp, id, present) then
      if inp.tooFar then Free(r, HOOK_RETRACT_START)
      else if inp.hit == GroundHit then Holding(r, -1, tick + 1)
      else if inp.hit == NoHookHit then Free(r, HOOK_RETRACT_START)
      else Free(r, HOOK_FLYING) && r.tick == tick
    else
      exists p :: OnNearest(inp, id, present, tick, r, p)
  }

  ghost predicate OnNearest(inp: TickInput, id: int, present: seq<bool>, tick: int, r: Hook, p: int)
    requires InputOk(inp) && |present| == MAX_CLIENTS
  {
    Nearest(inp, id, present, p) &&
    if Keeps(inp, present, p, tick + 1) then Holding(r, p, tick + 1) else Free(r, HOOK_RETRACTED)
  }

  /** Where one tick takes a hook from each of its states. */
  ghost predicate HookTable(h: Hook, inp: TickInput, id: int, present: seq<bool>, r: Hook)
    requires InputOk(inp) && |present| == MAX_CLIENTS && HookInv(h)
  {
    if inp.useInput && !inp.hook then Free(r, HOOK_IDLE)
    else if InFlight(h, inp) then
      Flown(h, inp, id, present, if h.state == HOOK_IDLE then inp.launchTick else h.tick, r)
    else if h.state == HOOK_IDLE || h.state == HOOK_RETRACTED then Free(r, h.state)
    else if h.state == HOOK_RETRACT_END then Free(r, HOOK_RETRACTED)
    else if h.state == HOOK_GRABBED && h.player == -1 then Holding(r, -1, h.tick + 1)
    else if h.state == HOOK_GRABBED then
      if Keeps(inp, present, h.player, h.tick + 1) then Holding(r, h.player, h.tick + 1) else Free(r, HOOK_RETRACTED)
    else Free(r, h.state + 1)
  }

  lemma CaughtOrNobody(inp: TickInput, id: int, present: seq<bool>)
    requires InputOk(inp) && |present| == MAX_CLIENTS
    ensures var p := Caught(-1, inp, id, present, MAX_CLIENTS).0;
            if NobodyNear(inp, id, present) then p == -1 else p != -1 && Nearest(inp, id, present, p)
  {
    hide Caught, Candidate;
    CaughtIsNearest(inp, id, present, MAX_CLIENTS);
  }

  /** Where a flight leads before the hold on a player is checked. */
  ghost predicate FlownTo(inp: TickInput, id: int, present: seq<bool>, r: Hook)
    requires InputOk(inp) && |present| == MAX_CLIENTS
  {
    if NobodyNear(inp, id, present) then
      Free(r, if inp.tooFar || inp.hit == NoHookHit then HOOK_RETRACT_START
              else if inp.hit == GroundHit then HOOK_GRABBED
              else HOOK_FLYING)
    else r.state == HOOK_GRABBED && Nearest(inp, id, present, r.player)
  }

  lemma FlyLeads(h: Hook, inp: TickInput, id: int, present: seq<bool>)
    requires InputOk(inp) && |present| == MAX_CLIENTS && h.player == -1 && h.state == HOOK_FLYING
    ensures FlownTo(inp, id, present, Fly(h, inp, id, present).0)
  {
    hide Caught, Candidate, NobodyNear, Nearest;
    CaughtOrNobody(inp, id, present);
  }

  lemma HookTickTable(h: Hook, inp: TickInput, id: int, present: seq<bool>)
    requires InputOk(inp) && |present| == MAX_CLIENTS && HookInv(h)
    ensures HookTable(h, inp, id, present, HookTick(h, inp, id, present))
    ensures HookTick(h, inp, id, present).newHook <==> h.newHook || Teleports(h, inp, id, present)
  {
    hide Caught, Candidate, NobodyNear, Nearest;
    CaughtOrNobody(inp, id, present);
    var p := Caught(-1, inp, id, present, MAX_CLIENTS).0;
    CaughtRange(-1, inp, id, present, MAX_CLIENTS);
    var tick := if h.state == HOOK_IDLE then inp.launchTick else h.tick;
    assert p != -1 && InFlight(h, inp) ==> OnNearest(inp, id, present, tick, HookTick(h, inp, id, present), p);
  }

  lemma TableDeferred(h: Hook, inp: TickInput, id: int, present: seq<bool>, r: Hook)
    requires InputOk(inp) && |present| == MAX_CLIENTS && HookInv(h) && HookTable(h, inp, id, present, r)
    ensures HookTable(h, inp, id, present, Defer(r))
  {
    hide Nearest, NobodyNear;
    if !NobodyNear(inp, id, present) && InFlight(h, inp) {
      var tick := if h.state == HOOK_IDLE then inp.launchTick else h.tick;
      var p :| OnNearest(inp, id, present, tick, r, p);
      assert OnNearest(inp, id, present, tick, Defer(r), p);
    }
  }

  /** All that a tick leaves of the hook, with or without the deferred part. */
  lemma HookAfterTick(h: Hook, inp: TickInput, id: int, present: seq<bool>, deferred: bool)
    requires InputOk(inp) && |present| == MAX_CLIENTS && HookInv(h)
    ensures var t := HookTick(h, inp, id, present);
            var r := if deferred then Defer(t) else t;
            && HookTable(h, inp, id, present, r)
            && (r.newHook <==>
                (h.newHook || Teleports(h, inp, id, present)) && (deferred ==> r.state == HOOK_FLYING))
  {
    hide HookTick, HookTable, Teleports;
    HookTickTable(h, inp, id, present);
    TableDeferred(h, inp, id, present, HookTick(h, inp, id, present));
  }

  /** The jump key has just been pressed, and the ground is there to jump from. */
  predicate JumpsFromGround(j: Jump, jumps: int, inp: TickInput) {
    inp.useInput && inp.jump && !j.held && inp.grounded && (!j.used || jumps != 0)
  }

  /** The jump key has just been pressed with the air jump left, and no jump from the ground to be had. */
  predicate JumpsInAir(j: Jump, jumps: int, inp: TickInput) {
    inp.useInput && inp.jump && !j.held && !inp.grounded && !j.used
  }

  /** When a tick sets each of its events; a teleported hook loses them all. */
  ghost predicate EventTable(j: Jump, jumps: int, h: Hook, inp: TickInput, id: int, present: seq<bool>, e: set<Event>)
    requires InputOk(inp) && |present| == MAX_CLIENTS
  {
    var teleported := Teleports(h, inp, id, present);
    && (GroundJump in e <==> JumpsFromGround(j, jumps, inp) && !teleported)
    && (AirJump in e <==> JumpsInAir(j, jumps, inp) && !teleported)
    && (HookLaunch in e <==> h.state == HOOK_IDLE && inp.useInput && inp.hook && !teleported)
    && (HookAttachPlayer in e <==> InFlight(h, inp) && !NobodyNear(inp, id, present))
    && (HookAttachGround in e <==> Reaches(h, inp, id, present, GroundHit))
    && (HookHitNoHook in e <==> Reaches(h, inp, id, present, NoHookHit))
    && (HookRetract in e <==> h.state == HOOK_RETRACT_END && !(inp.useInput && !inp.hook))
  }

  lemma TickEventsTable(j: Jump, jumps: int, h: Hook, inp: TickInput, id: int, present: seq<bool>)
    requires InputOk(inp) && |present| == MAX_CLIENTS && HookInv(h)
    ensures EventTable(j, jumps, h, inp, id, present, TickEvents(j, jumps, h, inp, id, present))
  {
    hide JumpTick, Advance, HookInput, Teleports, Reaches, NobodyNear, InFlight, JumpsFromGround, JumpsInAir;
    HookEvents(h, inp, id, present);
    JumpEvents(j, jumps, inp);
  }

  lemma HookEvents(h: Hook, inp: TickInput, id: int, present: seq<bool>)
    requires InputOk(inp) && |present| == MAX_CLIENTS && HookInv(h)
    ensures var (_, e, dropped) := Advance(HookInput(h, inp), inp, id, present);
            && (dropped <==> Teleports(h, inp, id, present)) && (dropped ==> e == {})
            && (dropped ==> !Reaches(h, inp, id, present, GroundHit) && !Reaches(h, inp, id, present, NoHookHit))
            && (dropped ==> NobodyNear(inp, id, present) && h.state != HOOK_RETRACT_END)
            && (HookAttachPlayer in e <==> InFlight(h, inp) && !NobodyNear(inp, id, present))
            && (HookAttachGround in e <==> Reaches(h, inp, id, present, GroundHit))
            && (HookHitNoHook in e <==> Reaches(h, inp, id, present, NoHookHit))
            && (HookRetract in e <==> h.state == HOOK_RETRACT_END && !(inp.useInput && !inp.hook))
            && HookLaunch !in e && GroundJump !in e && AirJump !in e
  {
    hide Caught, Candidate, NobodyNear, Nearest;
    CaughtOrNobody(inp, id, present);
  }

  lemma NearestIsSlot(inp: TickInput, id: int, present: seq<bool>, p: int)
    requires InputOk(inp) && |present| == MAX_CLIENTS
    ensures Nearest(inp, id, present, p) ==> p != -1
  {
  }

  lemma JumpEvents(j: Jump, jumps: int, inp: TickInput)
    ensures var e := JumpTick(j, jumps, inp).1;
            && (GroundJump in e <==> JumpsFromGround(j, jumps, inp)) && (AirJump in e <==> JumpsInAir(j, jumps, inp))
            && HookLaunch !in e && HookRetract !in e
            && HookAttachPlayer !in e && HookAttachGround !in e && HookHitNoHook !in e
  {
  }

  /** The jump bits and the counter after a tick. */
  predicate JumpTable(j: Jump, jumps: int, inp: TickInput, r: Jump) {
    var ground, air := JumpsFromGround(j, jumps, inp), JumpsInAir(j, jumps, inp);
    && r.held == (if inp.useInput then inp.jump && (j.held || ground || air) else j.held)
    && r.used == (!inp.grounded && (j.used || air))
    && r.total == (if inp.grounded then 0 else if air then j.total + 1 else j.total)
  }

  lemma JumpTickTable(j: Jump, jumps: int, inp: TickInput)
    ensures JumpTable(j, jumps, inp, JumpTick(j, jumps, inp).0)
  {
  }

  // ----- characters and their world

  class World {
    var characters: seq<Character?>

    /** Slot k holds a character with id k, or nobody. */
    ghost predicate Ok()
      reads this
    {
      && |characters| == MAX_CLIENTS
      && forall k :: 0 <= k < MAX_CLIENTS && characters[k] != null ==>
           characters[k].id == k && characters[k].world == this
    }

    /** i's attached players contain j exactly when j's hooked player is i. */
    ghost predicate Linked()
      requires Ok()
      reads this, characters`attached, characters`hookedPlayer
    {
      forall i, j :: 0 <= i < MAX_CLIENTS && 0 <= j < MAX_CLIENTS && characters[i] != null && characters[j] != null ==>
        (j in characters[i].attached <==> characters[j].hookedPlayer == i)
    }

    ghost function Present(): (p: seq<bool>)
      requires |characters| == MAX_CLIENTS
      reads this
      ensures |p| == MAX_CLIENTS
      ensures forall i :: 0 <= i < MAX_CLIENTS ==> p[i] == (characters[i] != null)
    {
      seq(MAX_CLIENTS, i requires 0 <= i < MAX_CLIENTS reads this =>
          |characters| == MAX_CLIENTS && characters[i] != null)
    }

    constructor ()
      ensures Ok() && Linked()
    {
      characters := seq(MAX_CLIENTS, _ => null);
    }
  }

  class Character {
    const id: int
    const world: World
    var hookState: int
    var hookTick: int
    var hookedPlayer: int
    var newHook: bool
    var attached: set<int>
    var jumpHeld: bool
    var jumpUsed: bool
    var jumpedTotal: int
    var jumps: int
    var events: set<Event>

    constructor (id: int, world: World)
      ensures this.id == id && this.world == world && hookedPlayer == -1 && attached == {} && HookInv(HookOf())
    {
      this.id, this.world := id, world;
      hookState, hookTick, hookedPlayer, newHook, attached := HOOK_IDLE, 0, -1, false, {};
      jumpHeld, jumpUsed, jumpedTotal, jumps, events := false, false, 0, 2, {};
    }

    function HookOf(): Hook
      reads this
    {
      Hook(hookState, hookTick, hookedPlayer, newHook)
    }

    function JumpOf(): Jump
      reads this
    {
      Jump(jumpHeld, jumpUsed, jumpedTotal)
    }

    /** This character occupies its slot. */
    ghost predicate InWorld()
      reads world
    {
      world.Ok() && 0 <= id < MAX_CLIENTS && world.characters[id] == this
    }

    method SetHookedPlayer(player: int)
      requires InWorld() && world.Linked() && -1 <= player < MAX_CLIENTS && -1 <= hookedPlayer < MAX_CLIENTS
      modifies this`hookedPlayer, world.characters`attached
      ensures InWorld() && world.Linked() && hookedPlayer == player
      ensures forall c :: c in world.characters && c != null ==> c.attached - {id} == old(c.attached) - {id}
    {
      if player != hookedPlayer {
        if hookedPlayer != -1 && id != -1 {
          var core := world.characters[hookedPlayer];
          if core != null {
            core.attached := core.attached - {id};
          }
        }
        if player != -1 && id != -1 {
          var core := world.characters[player];
          if core != null {
            core.attached := core.attached + {id};
          }
        }
        hookedPlayer := player;
      }
    }

    /** The jump part of Tick. */
    method HandleJump(inp: TickInput)
      modifies this`jumpHeld, this`jumpUsed, this`jumpedTotal, this`events
      ensures var (j, e) := JumpKey(old(JumpOf()), jumps, inp); JumpOf() == j && events == old(events) + e
    {
      if inp.jump {
        if !jumpHeld {
          if inp.grounded && (!jumpUsed || jumps != 0) {
            events := events + {GroundJump};
            if jumps > 1 {
              jumpHeld := true;
            } else {
              jumpHeld, jumpUsed := true, true;
            }
            jumpedTotal := 0;
          } else if !jumpUsed {
            events := events + {AirJump};
            jumpHeld, jumpUsed := true, true;
            jumpedTotal := jumpedTotal + 1;
          }
        }
      } else {
        jumpHeld := false;
      }
    }

    /** The hook key. */
    method HandleHook(inp: TickInput)
      requires inp.useInput && InWorld() && world.Linked() && HookInv(HookOf())
      modifies this`hookState, this`hookTick, this`hookedPlayer, this`events, world.characters`attached
      ensures InWorld() && world.Linked() && HookInv(HookOf())
      ensures HookOf() == HookInput(old(HookOf()), inp)
      ensures events == old(events) + (if Launches(old(HookOf()), inp) then {HookLaunch} else {})
      ensures forall c :: c in world.characters && c != null ==> c.attached - {id} == old(c.attached) - {id}
    {
      if inp.hook {
        if hookState == HOOK_IDLE {
          hookState := HOOK_FLYING;
          SetHookedPlayer(-1);
          hookTick := inp.launchTick;
          events := events + {HookLaunch};
        }
      } else {
        SetHookedPlayer(-1);
        hookState := HOOK_IDLE;
      }
    }

    method AttachTo(i: int)
      requires InWorld() && world.Linked() && 0 <= i < MAX_CLIENTS && -1 <= hookedPlayer < MAX_CLIENTS
      modifies this`hookState, this`hookedPlayer, this`events, world.characters`attached
      ensures InWorld() && world.Linked()
      ensures hookedPlayer == i && hookState == HOOK_GRABBED && events == old(events) + {HookAttachPlayer}
      ensures forall c :: c in world.characters && c != null ==> c.attached - {id} == old(c.attached) - {id}
    {
      events := events + {HookAttachPlayer};
      hookState := HOOK_GRABBED;
      SetHookedPlayer(i);
    }

    /** The check against other players: the hook may switch to a nearer one while the slots are searched. */
    method CatchPlayer(inp: TickInput)
      requires InputOk(inp) && InWorld() && world.Linked() && HookInv(HookOf()) && hookedPlayer == -1
      modifies this`hookState, this`hookedPlayer, this`events, world.characters`attached
      ensures InWorld() && world.Linked()
      ensures hookedPlayer == Caught(-1, inp, id, world.Present(), MAX_CLIENTS).0
      ensures hookState == if hookedPlayer != -1 then HOOK_GRABBED else old(hookState)
      ensures events == old(events) + (if hookedPlayer != -1 then {HookAttachPlayer} else {})
      ensures forall c :: c in world.characters && c != null ==> c.attached - {id} == old(c.attached) - {id}
    {
      if inp.mayHook {
        hide World.Linked;
        var distance := 0.0;
        ghost var present := world.Present();
        for i := 0 to MAX_CLIENTS
          invariant InWorld() && world.Linked() && -1 <= hookedPlayer < MAX_CLIENTS
          invariant (hookedPlayer, distance) == Caught(-1, inp, id, present, i)
          invariant hookState == if hookedPlayer != -1 then HOOK_GRABBED else old(hookState)
          invariant events == old(events) + (if hookedPlayer != -1 then {HookAttachPlayer} else {})
          invariant forall c :: c in world.characters && c != null ==> c.attached - {id} == old(c.attached) - {id}
        {
          var core := world.characters[i];
          if core == null || core == this {
            continue;
          }
          if inp.catches[i] {
            if hookedPlayer == -1 || inp.distances[i] < distance {
              AttachTo(i);
              distance := inp.distances[i];
            }
          }
        }
      } else {
        NothingCaught(inp, id, world.Present(), MAX_CLIENTS);
      }
    }

    /** The branch for a flying hook. */
    method FlyHook(inp: TickInput)
      requires InputOk(inp) && InWorld() && world.Linked() && HookInv(HookOf()) && hookState == HOOK_FLYING
      modifies this`hookState, this`hookedPlayer, this`newHook, this`events, world.characters`attached
      ensures InWorld() && world.Linked() && jumps == old(jumps)
      ensures var (h, e, dropped) := Fly(old(HookOf()), inp, id, world.Present());
              HookOf() == h && events == if dropped then e else old(events) + e
      ensures FlownTo(inp, id, world.Present(), HookOf())
      ensures forall c :: c in world.characters && c != null ==> c.attached - {id} == old(c.attached) - {id}
    {
      hide Caught, World.Linked, FlownTo;
      FlyLeads(HookOf(), inp, id, world.Present());
      if inp.tooFar {
        hookState := HOOK_RETRACT_START;
      }
      CatchPlayer(inp);
      if hookState == HOOK_FLYING {
        if inp.hit == GroundHit {
          events := events + {HookAttachGround};
          hookState := HOOK_GRABBED;
        } else if inp.hit == NoHookHit {
          events := events + {HookHitNoHook};
          hookState := HOOK_RETRACT_START;
        }
        if inp.hit == TeleHit && inp.teleOut {
          events := {};
          SetHookedPlayer(-1);
          newHook := true;
        }
      }
    }

    /** The chain of branches on the hook state. */
    method DoHook(inp: TickInput)
      requires InputOk(inp) && InWorld() && world.Linked() && HookInv(HookOf())
      modifies this`hookState, this`hookedPlayer, this`newHook, this`events, world.characters`attached
      ensures InWorld() && world.Linked()
      ensures var (h, e, dropped) := Advance(old(HookOf()), inp, id, world.Present());
              HookOf() == h && events == if dropped then e else old(events) + e
      ensures forall c :: c in world.characters && c != null ==> c.attached - {id} == old(c.attached) - {id}
    {
      hide Fly;
      if hookState == HOOK_IDLE {
        SetHookedPlayer(-1);
      } else if hookState >= HOOK_RETRACT_START && hookState < HOOK_RETRACT_END {
        hookState := hookState + 1;
      } else if hookState == HOOK_RETRACT_END {
        events := events + {HookRetract};
        hookState := HOOK_RETRACTED;
      } else if hookState == HOOK_FLYING {
        FlyHook(inp);
      }
    }

    /** The block for a hook that has grabbed something. */
    method HoldHook(inp: TickInput)
      requires InputOk(inp) && InWorld() && world.Linked() && HookInv(HookOf())
      modifies this`hookState, this`hookTick, this`hookedPlayer, world.characters`attached
      ensures InWorld() && world.Linked()
      ensures HookOf() == Hold(old(HookOf()), inp, world.Present())
      ensures forall c :: c in world.characters && c != null ==> c.attached - {id} == old(c.attached) - {id}
    {
      if hookState == HOOK_GRABBED {
        if hookedPlayer != -1 {
          var core := world.characters[hookedPlayer];
          if !(core != null && id != -1 && inp.keeps[hookedPlayer]) {
            SetHookedPlayer(-1);
            hookState := HOOK_RETRACTED;
          }
        }
        hookTick := hookTick + 1;
        if hookedPlayer != -1 &&
           (hookTick > SERVER_TICK_SPEED + SERVER_TICK_SPEED / 5 || world.characters[hookedPlayer] == null) {
          SetHookedPlayer(-1);
          hookState := HOOK_RETRACTED;
        }
      }
    }

    /** CCharacterCore::TickDeferred, as far as it touches the hook. */
    method TickDeferred()
      requires InWorld() && world.Linked() && HookInv(HookOf())
      modifies this`newHook
      ensures InWorld() && world.Linked() && HookOf() == Defer(old(HookOf()))
    {
      if hookState != HOOK_FLYING {
        newHook := false;
      }
    }

    /** The part of Tick before the hook moves. */
    method HandleInput(inp: TickInput)
      requires InWorld() && world.Linked() && HookInv(HookOf())
      modifies this`jumpHeld, this`jumpUsed, this`jumpedTotal, this`hookState, this`hookTick
      modifies this`hookedPlayer, this`events
      modifies world.characters`attached
      ensures InWorld() && world.Linked() && HookInv(HookOf())
      ensures HookOf() == HookInput(old(HookOf()), inp)
      ensures JumpOf() == JumpTick(old(JumpOf()), jumps, inp).0
      ensures events == JumpTick(old(JumpOf()), jumps, inp).1 +
        (if Launches(old(HookOf()), inp) then {HookLaunch} else {})
      ensures forall c :: c in world.characters && c != null ==> c.attached - {id} == old(c.attached) - {id}
    {
      hide World.Linked, JumpKey;
      events := {};
      if inp.useInput {
        HandleJump(inp);
        HandleHook(inp);
      }
      if inp.grounded {
        jumpUsed := false;
        jumpedTotal := 0;
      }
    }

    /** CCharacterCore::Tick: its effect on this character, and the links between characters it keeps. */
    method Tick(inp: TickInput, doDeferredTick: bool)
      requires InputOk(inp) && InWorld() && world.Linked() && HookInv(HookOf())
      modifies this, world.characters`attached
      ensures InWorld() && world.Linked() && HookInv(HookOf())
      ensures var h := HookTick(old(HookOf()), inp, id, world.Present());
              HookOf() == if doDeferredTick then Defer(h) else h
      ensures JumpOf() == JumpTick(old(JumpOf()), jumps, inp).0 && jumps == old(jumps)
      ensures events == TickEvents(old(JumpOf()), jumps, old(HookOf()), inp, id, world.Present())
      ensures HookTable(old(HookOf()), inp, id, world.Present(), HookOf())
      ensures newHook <==> (old(newHook) || Teleports(old(HookOf()), inp, id, world.Present())) &&
                           (doDeferredTick ==> hookState == HOOK_FLYING)
      ensures EventTable(old(JumpOf()), jumps, old(HookOf()), inp, id, world.Present(), events)
      ensures JumpTable(old(JumpOf()), jumps, inp, JumpOf())
      ensures forall c :: c in world.characters && c != null ==> c.attached - {id} == old(c.attached) - {id}
    {
      hide Advance, Hold, HookInput, JumpTick, Launches, World.Linked, HookTick, TickEvents;
      hide HookTable, EventTable, JumpTable, Teleports;
      HookAfterTick(HookOf(), inp, id, world.Present(), doDeferredTick);
      TickEventsTable(JumpOf(), jumps, HookOf(), inp, id, world.Present());
      JumpTickTable(JumpOf(), jumps, inp);
      TickParts(JumpOf(), jumps, HookOf(), inp, id, world.Present());
      HookTickInv(HookOf(), inp, id, world.Present());
      HandleInput(inp);
      AdvanceInRange(HookOf(), inp, id, world.Present());
      DoHook(inp);
      HoldHook(inp);
      if doDeferredTick {
        TickDeferred();
      }
    }

    /** CCharacterCore::Move, as far as it touches the jump: `grounded` is what MoveBox reports. */
    method Move(grounded: bool)
      requires InWorld() && world.Linked()
      modifies this`jumpUsed, this`jumpedTotal
      ensures InWorld() && world.Linked()
      ensures JumpOf() == if grounded then old(JumpOf()).(used := false, total := 0) else old(JumpOf())
    {
      if grounded {
        jumpUsed := false;
        jumpedTotal := 0;
      }
    }

    /** CCharacterCore::Write. */
    method Write() returns (obj: NetCore)
      ensures obj == NetCore(hookState, hookTick, hookedPlayer, JumpedBits(jumpHeld, jumpUsed))
    {
      obj := NetCore(hookState, hookTick, hookedPlayer, JumpedBits(jumpHeld, jumpUsed));
    }

    /** CCharacterCore::Read; the ranges are those the message validation enforces. */
    method Read(obj: NetCore)
      requires InWorld() && world.Linked() && -1 <= hookedPlayer < MAX_CLIENTS
      requires -1 <= obj.hookedPlayer < MAX_CLIENTS && 0 <= obj.jumped <= 3
      modifies this`hookState, this`hookTick, this`hookedPlayer, this`jumpHeld, this`jumpUsed, world.characters`attached
      ensures InWorld() && world.Linked()
      ensures NetCore(hookState, hookTick, hookedPlayer, JumpedBits(jumpHeld, jumpUsed)) == obj
      ensures newHook == old(newHook) && jumpedTotal == old(jumpedTotal)
    {
      hookState := obj.hookState;
      hookTick := obj.hookTick;
      SetHookedPlayer(obj.hookedPlayer);
      jumpHeld, jumpUsed := obj.jumped % 2 == 1, obj.jumped / 2 == 1;
    }

    /** CCharacterCore::Quantize leaves hook, jump and links as they are. */
    method Quantize()
      requires InWorld() && world.Linked() && HookInv(HookOf())
      modifies this`hookState, this`hookTick, this`hookedPlayer, this`jumpHeld, this`jumpUsed, world.characters`attached
      ensures InWorld() && world.Linked()
      ensures HookOf() == old(HookOf()) && JumpOf() == old(JumpOf())
    {
      var core := Write();
      Read(core);
    }
  }

  /** The part of CNetObj_CharacterCore that is modelled. */
  datatype NetCore = NetCore(hookState: int, hookTick: int, hookedPlayer: int, jumped: int)

  /** The two bits of m_Jumped. */
  function JumpedBits(held: bool, used: bool): (bits: int)
    ensures 0 <= bits <= 3 && (held <==> bits in {1, 3}) && (used <==> bits in {2, 3})
  {
    (if held then 1 else 0) + (if used then 2 else 0)
  }

  // ----- runs over the whole world

  datatype Step =
    | TickStep(id: nat, inp: TickInput, deferred: bool)
    | DeferStep(id: nat)
    | MoveStep(id: nat, grounded: bool)
    | QuantizeStep(id: nat)

  predicate StepOk(s: Step) {
    s.id < MAX_CLIENTS && (s.TickStep? ==> InputOk(s.inp))
  }

  /** What every run keeps: the links between characters, and every character's hook. */
  ghost predicate WorldInv(w: World)
    reads w, w.characters
  {
    && w.Ok() && w.Linked()
    && forall c :: c in w.characters && c != null ==> HookInv(c.HookOf())
  }

  /** Any characters taking any steps in any order. */
  method Run(w: World, steps: seq<Step>)
    requires WorldInv(w) && forall i :: 0 <= i < |steps| ==> StepOk(steps[i])
    modifies w.characters
    ensures WorldInv(w)
  {
    hide HookTable, EventTable, JumpTable, Teleports, JumpTick, TickEvents, HookTick;
    for k := 0 to |steps|
      invariant WorldInv(w)
    {
      var s := steps[k];
      var c := w.characters[s.id];
      if c != null {
        match s
        case TickStep(_, inp, deferred) => c.Tick(inp, deferred);
        case DeferStep(_) => c.TickDeferred();
        case MoveStep(_, grounded) => c.Move(grounded);
        case QuantizeStep(_) => c.Quantize();
      }
    }
  }

  // ----- runs of one character

  /** The hook after a run of ticks; `present` gives the occupied slots in each of them. */
  function HookAfter(h: Hook, ins: seq<TickInput>, id: int, present: seq<seq<bool>>): (r: Hook)
    requires RunOk(ins, present) && HookInv(h)
    ensures HookInv(r)
    decreases |ins|
  {
    if ins == [] then h
    else
      var m := |ins| - 1;
      var before := HookAfter(h, ins[..m], id, present[..m]);
      HookTickInv(before, ins[m], id, present[m]);
      Defer(HookTick(before, ins[m], id, present[m]))
  }

  predicate RunOk(ins: seq<TickInput>, present: seq<seq<bool>>) {
    && |ins| == |present|
    && forall i :: 0 <= i < |ins| ==> InputOk(ins[i]) && |present[i]| == MAX_CLIENTS
  }

  lemma StaysActive(h: Hook, inp: TickInput, id: int, present: seq<bool>)
    requires InputOk(inp) && |present| == MAX_CLIENTS && HookInv(h) && !Releases(inp)
    requires h.state != HOOK_IDLE || Launches(h, inp)
    ensures HookTick(h, inp, id, present).state != HOOK_IDLE
  {
    hide Caught;
  }

  /** Two launches are always separated by a tick with the hook key released. */
  lemma LaunchesSeparated(h: Hook, ins: seq<TickInput>, id: int, present: seq<seq<bool>>, i: nat, j: nat)
    requires RunOk(ins, present) && HookInv(h) && i < j < |ins|
    requires Launches(HookAfter(h, ins[..i], id, present[..i]), ins[i])
    requires Launches(HookAfter(h, ins[..j], id, present[..j]), ins[j])
    ensures exists k :: i < k < j && Releases(ins[k])
  {
    hide HookTick, Defer, Launches;
    if forall k :: i < k < j ==> !Releases(ins[k]) {
      AfterLaunch(h, ins, id, present, i);
      StillActive(h, ins, id, present, i + 1, j);
      LaunchNeedsIdle(HookAfter(h, ins[..j], id, present[..j]), ins[j]);
    }
  }

  lemma LaunchNeedsIdle(h: Hook, inp: TickInput)
    requires Launches(h, inp)
    ensures h.state == HOOK_IDLE && !Releases(inp)
  {
  }

  lemma AfterLaunch(h: Hook, ins: seq<TickInput>, id: int, present: seq<seq<bool>>, i: nat)
    requires RunOk(ins, present) && HookInv(h) && i < |ins|
    requires Launches(HookAfter(h, ins[..i], id, present[..i]), ins[i])
    ensures HookAfter(h, ins[..i + 1], id, present[..i + 1]).state != HOOK_IDLE
  {
    hide HookTick;
    var before := HookAfter(h, ins[..i], id, present[..i]);
    assert ins[..i + 1][..i] == ins[..i] && present[..i + 1][..i] == present[..i];
    LaunchNeedsIdle(before, ins[i]);
    StaysActive(before, ins[i], id, present[i]);
  }

  lemma {:induction false} StillActive(h: Hook, ins: seq<TickInput>, id: int, present: seq<seq<bool>>, i: nat, j: nat)
    requires RunOk(ins, present) && HookInv(h) && i <= j <= |ins|
    requires HookAfter(h, ins[..i], id, present[..i]).state != HOOK_IDLE
    requires forall k :: i <= k < j ==> !Releases(ins[k])
    ensures HookAfter(h, ins[..j], id, present[..j]).state != HOOK_IDLE
    decreases j
  {
    hide HookTick;
    if i < j {
      StillActive(h, ins, id, present, i, j - 1);
      assert ins[..j][..j - 1] == ins[..j - 1] && present[..j][..j - 1] == present[..j - 1];
      StaysActive(HookAfter(h, ins[..j - 1], id, present[..j - 1]), ins[j - 1], id, present[j - 1]);
    }
  }

  /** Without a tick that releases the hook key, a hook that has left the idle state does not return to it. */
  lemma NoRelaunch(h: Hook, ins: seq<TickInput>, id: int, present: seq<seq<bool>>)
    requires RunOk(ins, present) && HookInv(h) && h.state != HOOK_IDLE
    requires forall i :: 0 <= i < |ins| ==> !Releases(ins[i])
    ensures HookAfter(h, ins, id, present).state != HOOK_IDLE
  {
    hide HookTick;
    StillActive(h, ins, id, present, 0, |ins|);
    assert ins[..|ins|] == ins && present[..|ins|] == present;
  }

  /** There is a launch event exactly for a launch, unless the hook is teleported in the same tick. */
  lemma LaunchEvent(j: Jump, jumps: int, h: Hook, inp: TickInput, id: int, present: seq<bool>)
    requires InputOk(inp) && |present| == MAX_CLIENTS && HookInv(h)
    ensures HookLaunch in TickEvents(j, jumps, h, inp, id, present)
      <==> Launches(h, inp) && !Teleports(h, inp, id, present)
  {
    hide TickEvents, Teleports;
    TickEventsTable(j, jumps, h, inp, id, present);
  }

  // ----- what a hook without a player holds on to

  /** Tick `k` of a run fixes the hook to the ground. */
  ghost predicate FixedAt(h: Hook, ins: seq<TickInput>, id: int, present: seq<seq<bool>>, k: nat)
    requires RunOk(ins, present) && HookInv(h) && k < |ins|
  {
    Reaches(HookAfter(h, ins[..k], id, present[..k]), ins[k], id, present[k], GroundHit)
  }

  ghost predicate LaunchedAt(h: Hook, ins: seq<TickInput>, id: int, present: seq<seq<bool>>, k: nat)
    requires RunOk(ins, present) && HookInv(h) && k < |ins|
  {
    HookAfter(h, ins[..k], id, present[..k]).state == HOOK_IDLE && ins[k].useInput && ins[k].hook
  }

  /** Tick `k` fixes the hook to the ground, and the hook has not been thrown again after it. */
  ghost predicate FixedSince(h: Hook, ins: seq<TickInput>, id: int, present: seq<seq<bool>>, k: nat)
    requires RunOk(ins, present) && HookInv(h)
  {
    k < |ins| && FixedAt(h, ins, id, present, k) &&
    forall i :: k < i < |ins| ==> !LaunchedAt(h, ins, id, present, i)
  }

  /** A hook that holds on to no player holds on to ground it has hit since it was thrown. */
  lemma {:induction false} GrabbedMeansGround(h: Hook, ins: seq<TickInput>, id: int, present: seq<seq<bool>>)
    requires RunOk(ins, present) && HookInv(h) && !Free(h, HOOK_GRABBED)
    requires Free(HookAfter(h, ins, id, present), HOOK_GRABBED)
    ensures exists k: nat :: FixedSince(h, ins, id, present, k)
    decreases |ins|
  {
    hide HookTick, FixedAt, LaunchedAt;
    var m := |ins| - 1;
    var before := HookAfter(h, ins[..m], id, present[..m]);
    GrabbedStep(before, ins[m], id, present[m]);
    if Free(before, HOOK_GRABBED) {
      GrabbedMeansGround(h, ins[..m], id, present[..m]);
      var k: nat :| FixedSince(h, ins[..m], id, present[..m], k);
      NoLaunchFrom(h, ins, id, present, m);
      forall i | k <= i < m
        ensures FixedAt(h, ins[..m], id, present[..m], i) <==> FixedAt(h, ins, id, present, i)
        ensures LaunchedAt(h, ins[..m], id, present[..m], i) <==> LaunchedAt(h, ins, id, present, i)
      {
        SameTick(h, ins, id, present, m, i);
      }
      assert FixedSince(h, ins, id, present, k);
    } else {
      FixedNow(h, ins, id, present, m);
      assert FixedSince(h, ins, id, present, m);
    }
  }

  lemma GrabbedStep(h: Hook, inp: TickInput, id: int, present: seq<bool>)
    requires InputOk(inp) && |present| == MAX_CLIENTS && HookInv(h)
    requires Free(Defer(HookTick(h, inp, id, present)), HOOK_GRABBED)
    ensures Free(h, HOOK_GRABBED) || Reaches(h, inp, id, present, GroundHit)
  {
    hide HookTick, Nearest;
    HookTickTable(h, inp, id, present);
    NearestIsSlot(inp, id, present, -1);
  }

  lemma NoLaunchFrom(h: Hook, ins: seq<TickInput>, id: int, present: seq<seq<bool>>, m: nat)
    requires RunOk(ins, present) && HookInv(h) && m < |ins|
    requires Free(HookAfter(h, ins[..m], id, present[..m]), HOOK_GRABBED)
    ensures !LaunchedAt(h, ins, id, present, m)
  {
    hide HookAfter;
  }

  lemma FixedNow(h: Hook, ins: seq<TickInput>, id: int, present: seq<seq<bool>>, m: nat)
    requires RunOk(ins, present) && HookInv(h) && m < |ins|
    requires Reaches(HookAfter(h, ins[..m], id, present[..m]), ins[m], id, present[m], GroundHit)
    ensures FixedAt(h, ins, id, present, m)
  {
    hide HookAfter, Reaches;
  }

  /** A tick of a part of a run is that tick of the run. */
  lemma SameTick(h: Hook, ins: seq<TickInput>, id: int, present: seq<seq<bool>>, m: nat, k: nat)
    requires RunOk(ins, present) && HookInv(h) && k < m <= |ins|
    ensures FixedAt(h, ins[..m], id, present[..m], k) <==> FixedAt(h, ins, id, present, k)
    ensures LaunchedAt(h, ins[..m], id, present[..m], k) <==> LaunchedAt(h, ins, id, present, k)
  {
    hide HookAfter, Reaches;
    assert ins[..m][..k] == ins[..k] && present[..m][..k] == present[..k];
  }

  // ----- how long a player stays hooked

  const MAX_HOOK_TICK := SERVER_TICK_SPEED + SERVER_TICK_SPEED / 5

  /**
    * A tick that ends with a player hooked has counted up, within the limit; the player is the one hooked before, if
    * any.
    */
  lemma HookedTick(h: Hook, inp: TickInput, id: int, present: seq<bool>)
    requires InputOk(inp) && |present| == MAX_CLIENTS && HookInv(h)
    ensures var r := HookTick(h, inp, id, present);
            r.player != -1 ==>
              && 0 <= r.player < MAX_CLIENTS && r.tick <= MAX_HOOK_TICK
              && (h.player != -1 ==> r.player == h.player && r.tick == h.tick + 1)
              && present[r.player] && inp.keeps[r.player]
  {
    hide Caught;
    CaughtRange(HookInput(h, inp).player, inp, id, present, MAX_CLIENTS);
  }

  /**
    * A player hooked throughout a run is one and the same, and the run is no longer than what is left of the hook
    * time.
    */
  lemma {:induction false} HookTimeBound(h: Hook, ins: seq<TickInput>, id: int, present: seq<seq<bool>>)
    requires RunOk(ins, present) && HookInv(h) && h.player != -1
    requires forall k :: 0 <= k <= |ins| ==> HookAfter(h, ins[..k], id, present[..k]).player != -1
    ensures var r := HookAfter(h, ins, id, present);
            r.player == h.player && r.tick == h.tick + |ins| && (ins != [] ==> |ins| <= MAX_HOOK_TICK - h.tick)
    decreases |ins|
  {
    hide HookTick;
    if ins != [] {
      var m := |ins| - 1;
      forall k | 0 <= k <= m ensures HookAfter(h, ins[..m][..k], id, present[..m][..k]).player != -1 {
        assert ins[..m][..k] == ins[..k] && present[..m][..k] == present[..k];
      }
      HookTimeBound(h, ins[..m], id, present[..m]);
      assert ins[..|ins|] == ins && present[..|ins|] == present;
      HookedTick(HookAfter(h, ins[..m], id, present[..m]), ins[m], id, present[m]);
    }
  }

  // ----- jumping

  /** A tick or a move, as far as jumping is concerned. */
  datatype JumpStep = JumpingTick(inp: TickInput, jumps: int) | Moving(grounded: bool)

  predicate Grounded(s: JumpStep) {
    if s.Moving? then s.grounded else s.inp.grounded
  }

  function JumpAfter(j: Jump, steps: seq<JumpStep>): Jump
    decreases |steps|
  {
    if steps == [] then j
    else
      var m := |steps| - 1;
      var before := JumpAfter(j, steps[..m]);
      match steps[m]
      case JumpingTick(inp, jumps) => JumpTick(before, jumps, inp).0
      case Moving(grounded) => if grounded then before.(used := false, total := 0) else before
  }

  function AirJumps(j: Jump, steps: seq<JumpStep>): nat
    decreases |steps|
  {
    if steps == [] then 0
    else
      var m := |steps| - 1;
      AirJumps(j, steps[..m])
      + (if steps[m].JumpingTick? && AirJump in JumpTick(JumpAfter(j, steps[..m]), steps[m].jumps, steps[m].inp).1
         then 1 else 0)
  }

  /**
    * While never grounded a character jumps in the air once at most, not at all if its air jump is used up, and
    * m_JumpedTotal counts it.
    */
  lemma {:induction false} OneAirJump(j: Jump, steps: seq<JumpStep>)
    requires forall i :: 0 <= i < |steps| ==> !Grounded(steps[i])
    ensures AirJumps(j, steps) <= if j.used then 0 else 1
    ensures JumpAfter(j, steps).used == (j.used || AirJumps(j, steps) == 1)
    ensures JumpAfter(j, steps).total == j.total + AirJumps(j, steps)
    decreases |steps|
  {
    if steps != [] {
      OneAirJump(j, steps[..|steps| - 1]);
    }
  }
}
