/**
  * The asynchronous log writer as a step machine: any number of client threads and one writer thread share the queue
  * through a lock, a counting semaphore, a finish flag and a reference count.
  */
module AsyncProtocol {
  import opened Arith
  import opened Bytes
  import AsyncRing
  import opened Wrappers

  datatype Finish = Running | Close | Exit

  datatype Owner = NoOne | TheWriter | Client(id: nat)

  /** Where the writer thread stands. */
  datatype WriterPc =
    | Locking                       // in lock_wait, about to enter the loop
    | Looping                       // at the top of the loop, owning the lock
    | Waiting                       // lock released, in sphore_wait
    | Writing(chunk: seq<Byte>)     // lock released, about to pass the chunk to io_write
    | Relocking                     // chunk written, in lock_wait to store the error
    | Freeing(last: bool)           // reference dropped and lock released
    | Exited

  datatype Call = WriteCall | CloseCall | WaitCall | ErrorCall | FreeCall

  /**
    * Where a client thread stands inside a call; WriteCall is aio_lock, any number of aio_write_unlocked, aio_unlock.
    */
  datatype ClientPc =
    | Idle
    | Entering(call: Call)          // in lock_wait
    | Holding(call: Call)           // owning the lock
    | Signalling(joins: bool)       // lock released, before sphore_signal
    | Joining                       // in thread_wait
    | Dropping(last: bool)          // reference dropped and lock released

  datatype State = State(
    lock: Owner,
    sem: nat,
    queue: seq<Byte>,
    file: seq<Byte>,                // everything passed to io_write so far
    ioClosed: bool,
    finish: Finish,
    refcount: int,
    error: int,
    writer: WriterPc,
    clients: seq<ClientPc>,
    waited: bool,                   // aio_wait has been called
    freer: int,                     // the client that called aio_free, or -1
    userDropped: bool,              // that client has given up its reference
    frees: nat                      // how often the struct has been freed
  )

  datatype Label =
    | WriterAcquire
    | WriterExit
    | WriterSleep
    | WriterWake
    | WriterTake
    | WriterIo
    | WriterReacquire(result: int)
    | WriterFree
    | Begin(id: nat, call: Call)
    | Acquire(id: nat)
    | Append(id: nat, data: seq<Byte>)
    | Release(id: nat)
    | Signal(id: nat)
    | Join(id: nat)
    | Free(id: nat)

  function Init(n: nat): State {
    State(NoOne, 0, [], [], false, Running, 2, 0, Locking, seq(n, _ => Idle), false, -1, false, 0)
  }

  // ----- steps

  /** What callers may do: no call overlaps or follows aio_free, and aio_wait is called once. */
  predicate MayBegin(s: State, id: nat, call: Call) {
    && id < |s.clients| && s.clients[id] == Idle
    && s.freer == -1
    && (call == WaitCall ==> !s.waited)
    && (call == FreeCall ==> forall j :: 0 <= j < |s.clients| ==> s.clients[j] == Idle)
  }

  predicate Enabled(s: State, l: Label) {
    match l
    case WriterAcquire => s.writer == Locking && s.lock == NoOne
    case WriterExit => s.writer == Looping && s.queue == [] && s.finish != Running
    case WriterSleep => s.writer == Looping && s.queue == [] && s.finish == Running
    case WriterWake => s.writer == Waiting && s.sem > 0
    case WriterTake => s.writer == Looping && s.queue != []
    case WriterIo => s.writer.Writing?
    case WriterReacquire(_) => s.writer == Relocking && s.lock == NoOne
    case WriterFree => s.writer.Freeing?
    case Begin(id, call) => MayBegin(s, id, call)
    case Acquire(id) => id < |s.clients| && s.clients[id].Entering? && s.lock == NoOne
    case Append(id, _) => id < |s.clients| && s.clients[id] == Holding(WriteCall)
    case Release(id) => id < |s.clients| && s.clients[id].Holding?
    case Signal(id) => id < |s.clients| && s.clients[id].Signalling?
    case Join(id) => id < |s.clients| && s.clients[id] == Joining && s.writer == Exited
    case Free(id) => id < |s.clients| && s.clients[id].Dropping?
  }

  function Apply(s: State, l: Label): State
    requires Enabled(s, l)
  {
    match l
    case WriterAcquire => s.(lock := TheWriter, writer := Looping)
    case WriterExit =>
      s.(lock := NoOne, ioClosed := s.finish == Close, refcount := s.refcount - 1, writer := Freeing(s.refcount == 1))
    case WriterSleep => s.(lock := NoOne, writer := Waiting)
    case WriterWake => s.(sem := s.sem - 1, writer := Locking)
    case WriterTake =>
      var n := Min(|s.queue|, AsyncRing.ASYNC_LOCAL_BUFSIZE);
      s.(lock := NoOne, queue := s.queue[n..], writer := Writing(s.queue[..n]))
    case WriterIo => s.(file := s.file + s.writer.chunk, writer := Relocking)
    case WriterReacquire(result) => s.(lock := TheWriter, error := result, writer := Looping)
    case WriterFree => s.(frees := if s.writer.last then s.frees + 1 else s.frees, writer := Exited)
    case Begin(id, call) =>
      s.(clients := s.clients[id := Entering(call)],
         waited := s.waited || call == WaitCall,
         freer := if call == FreeCall then id else s.freer)
    case Acquire(id) => s.(lock := Client(id), clients := s.clients[id := Holding(s.clients[id].call)])
    case Append(id, data) => s.(queue := s.queue + data)
    case Release(id) => ApplyRelease(s, id)
    case Signal(id) =>
      s.(sem := s.sem + 1, clients := s.clients[id := if s.clients[id].joins then Joining else Idle])
    case Join(id) => s.(clients := s.clients[id := Idle])
    case Free(id) =>
      s.(frees := if s.clients[id].last then s.frees + 1 else s.frees, clients := s.clients[id := Idle])
  }

  /** The end of a critical section: what each call does under the lock, then the unlock. */
  function ApplyRelease(s: State, id: nat): State
    requires Enabled(s, Release(id))
  {
    var free := s.(lock := NoOne);
    match s.clients[id].call
    case WriteCall => free.(clients := s.clients[id := Signalling(false)])
    case CloseCall => free.(finish := Close, clients := s.clients[id := Signalling(false)])
    case WaitCall =>
      free.(finish := if s.finish == Running then Exit else s.finish, clients := s.clients[id := Signalling(true)])
    case ErrorCall => free.(clients := s.clients[id := Idle])
    case FreeCall =>
      free.(refcount := s.refcount - 1, userDropped := true, clients := s.clients[id := Dropping(s.refcount == 1)])
  }

  /** The state after a whole run, when every label of it is enabled in turn. */
  ghost predicate Run(s: State, ls: seq<Label>, t: State)
    decreases |ls|
  {
    if ls == [] then s == t
    else var m := |ls| - 1; exists u :: Run(s, ls[..m], u) && Enabled(u, ls[m]) && Apply(u, ls[m]) == t
  }

  /** All bytes handed to aio_write_unlocked during a run, in lock order. */
  function Written(ls: seq<Label>): seq<Byte> {
    if ls == [] then []
    else Written(ls[..|ls| - 1]) + Appended(ls[|ls| - 1])
  }

  function InFlight(s: State): seq<Byte> {
    if s.writer.Writing? then s.writer.chunk else []
  }

  // ----- the invariant

  predicate WriterGone(s: State) {
    s.writer.Freeing? || s.writer.Exited?
  }

  predicate LockInv(s: State) {
    && (s.lock == TheWriter <==> s.writer == Looping)
    && (forall i :: 0 <= i < |s.clients| ==> (s.clients[i].Holding? <==> s.lock == Client(i)))
    && (s.lock.Client? ==> s.lock.id < |s.clients|)
  }

  /** The client that called aio_free is alone in the library until it is done. */
  predicate FreerInv(s: State) {
    && -1 <= s.freer < |s.clients|
    && (s.userDropped ==> s.freer != -1)
    && (forall i :: 0 <= i < |s.clients| && s.freer != -1 && i != s.freer ==> s.clients[i] == Idle)
    && (forall i :: 0 <= i < |s.clients| && i != s.freer ==>
          !s.clients[i].Dropping? && s.clients[i] != Entering(FreeCall) && s.clients[i] != Holding(FreeCall))
    && (s.freer != -1 ==>
          if s.userDropped then s.clients[s.freer] == Idle || s.clients[s.freer].Dropping?
          else s.clients[s.freer] == Entering(FreeCall) || s.clients[s.freer] == Holding(FreeCall))
  }

  function PendingFrees(s: State): nat {
    (if s.writer == Freeing(true) then 1 else 0)
    + (if 0 <= s.freer < |s.clients| && s.clients[s.freer] == Dropping(true) then 1 else 0)
  }

  predicate RefInv(s: State) {
    && s.refcount == (if WriterGone(s) then 0 else 1) + (if s.userDropped then 0 else 1)
    && s.frees + PendingFrees(s) == if s.refcount == 0 then 1 else 0
  }

  predicate FinishInv(s: State) {
    && (WriterGone(s) ==> s.finish != Running)
    && (s.ioClosed ==> WriterGone(s) && s.finish == Close)
    && (forall i :: 0 <= i < |s.clients| && (s.clients[i] == Joining || s.clients[i] == Signalling(true)) ==>
          s.finish != Running)
  }

  /** A client between its lock and its signal: it will wake the writer. */
  predicate WillSignal(c: ClientPc) {
    c.Signalling? || (c.Holding? && (c.call == WriteCall || c.call == CloseCall || c.call == WaitCall))
  }

  predicate WorkPending(s: State) {
    s.queue != [] || s.finish != Running
  }

  predicate WakeInv(s: State) {
    s.writer == Waiting && s.sem == 0 && WorkPending(s) ==>
      exists i :: 0 <= i < |s.clients| && WillSignal(s.clients[i])
  }

  predicate Inv(s: State) {
    LockInv(s) && FreerInv(s) && RefInv(s) && FinishInv(s) && WakeInv(s)
  }

  lemma InitInv(n: nat)
    ensures Inv(Init(n))
  {
  }

  predicate OfWriter(l: Label) {
    || l.WriterAcquire? || l.WriterExit? || l.WriterSleep? || l.WriterWake?
    || l.WriterTake? || l.WriterIo? || l.WriterReacquire? || l.WriterFree?
  }

  lemma LockStep(s: State, l: Label)
    requires LockInv(s) && Enabled(s, l)
    ensures LockInv(Apply(s, l))
  {
    hide Apply, Enabled, LockInv, FreerInv, RefInv, FinishInv;
    if OfWriter(l) {
      LockWriterStep(s, l);
    } else if l.Release? {
      LockReleaseStep(s, l);
    } else {
      LockClientStep(s, l);
    }
  }

  lemma LockWriterStep(s: State, l: Label)
    requires LockInv(s) && Enabled(s, l) && OfWriter(l)
    ensures LockInv(Apply(s, l))
  {
    hide ApplyRelease;
  }

  lemma LockClientStep(s: State, l: Label)
    requires LockInv(s) && Enabled(s, l) && !OfWriter(l) && !l.Release?
    ensures LockInv(Apply(s, l))
  {
    hide ApplyRelease;
  }

  lemma LockReleaseStep(s: State, l: Label)
    requires LockInv(s) && Enabled(s, l) && l.Release?
    ensures LockInv(Apply(s, l))
  {
  }

  lemma FreerStep(s: State, l: Label)
    requires LockInv(s) && FreerInv(s) && Enabled(s, l)
    ensures FreerInv(Apply(s, l))
  {
    hide Apply, Enabled, LockInv, FreerInv, RefInv, FinishInv;
    if OfWriter(l) {
      FreerWriterStep(s, l);
    } else if l.Release? {
      FreerReleaseStep(s, l);
    } else {
      FreerClientStep(s, l);
    }
  }

  lemma FreerWriterStep(s: State, l: Label)
    requires LockInv(s) && FreerInv(s) && Enabled(s, l) && OfWriter(l)
    ensures FreerInv(Apply(s, l))
  {
    hide ApplyRelease;
  }

  lemma FreerClientStep(s: State, l: Label)
    requires LockInv(s) && FreerInv(s) && Enabled(s, l) && !OfWriter(l) && !l.Release?
    ensures FreerInv(Apply(s, l))
  {
    hide ApplyRelease;
  }

  lemma FreerReleaseStep(s: State, l: Label)
    requires LockInv(s) && FreerInv(s) && Enabled(s, l) && l.Release?
    ensures FreerInv(Apply(s, l))
  {
  }

  lemma RefStep(s: State, l: Label)
    requires LockInv(s) && FreerInv(s) && RefInv(s) && Enabled(s, l)
    ensures RefInv(Apply(s, l))
  {
    hide Apply, Enabled, LockInv, FreerInv, RefInv, FinishInv;
    if OfWriter(l) {
      RefWriterStep(s, l);
    } else if l.Release? {
      RefReleaseStep(s, l);
    } else {
      RefClientStep(s, l);
    }
  }

  lemma RefWriterStep(s: State, l: Label)
    requires LockInv(s) && FreerInv(s) && RefInv(s) && Enabled(s, l) && OfWriter(l)
    ensures RefInv(Apply(s, l))
  {
    hide ApplyRelease;
  }

  lemma RefClientStep(s: State, l: Label)
    requires LockInv(s) && FreerInv(s) && RefInv(s) && Enabled(s, l) && !OfWriter(l) && !l.Release?
    ensures RefInv(Apply(s, l))
  {
    hide ApplyRelease;
  }

  lemma RefReleaseStep(s: State, l: Label)
    requires LockInv(s) && FreerInv(s) && RefInv(s) && Enabled(s, l) && l.Release?
    ensures RefInv(Apply(s, l))
  {
  }

  lemma FinishStep(s: State, l: Label)
    requires FinishInv(s) && Enabled(s, l)
    ensures FinishInv(Apply(s, l))
  {
    hide Apply, Enabled, LockInv, FreerInv, RefInv, FinishInv;
    if OfWriter(l) {
      FinishWriterStep(s, l);
    } else if l.Release? {
      FinishReleaseStep(s, l);
    } else {
      FinishClientStep(s, l);
    }
  }

  lemma FinishWriterStep(s: State, l: Label)
    requires FinishInv(s) && Enabled(s, l) && OfWriter(l)
    ensures FinishInv(Apply(s, l))
  {
    hide ApplyRelease;
  }

  lemma FinishClientStep(s: State, l: Label)
    requires FinishInv(s) && Enabled(s, l) && !OfWriter(l) && !l.Release?
    ensures FinishInv(Apply(s, l))
  {
    hide ApplyRelease;
  }

  lemma FinishReleaseStep(s: State, l: Label)
    requires FinishInv(s) && Enabled(s, l) && l.Release?
    ensures FinishInv(Apply(s, l))
  {
  }

  lemma WakeStep(s: State, l: Label)
    requires Inv(s) && Enabled(s, l)
    ensures WakeInv(Apply(s, l))
  {
    hide Apply, Enabled, Inv;
    if OfWriter(l) {
      WakeWriterStep(s, l);
    } else if l.Release? {
      WakeReleaseStep(s, l);
    } else {
      WakeClientStep(s, l);
    }
  }

  lemma WakeWriterStep(s: State, l: Label)
    requires Inv(s) && Enabled(s, l) && OfWriter(l)
    ensures WakeInv(Apply(s, l))
  {
    hide ApplyRelease, LockInv, FreerInv, RefInv, FinishInv;
  }

  /** A client that leaves its critical section with something for the writer to do is on the way to its signal. */
  lemma WakeReleaseStep(s: State, l: Label)
    requires Inv(s) && Enabled(s, l) && l.Release?
    ensures WakeInv(Apply(s, l))
  {
    hide LockInv, FreerInv, RefInv, FinishInv;
    var t := Apply(s, l);
    if t.writer == Waiting && t.sem == 0 && WorkPending(t) {
      if WillSignal(t.clients[l.id]) {
      } else {
        var i :| 0 <= i < |s.clients| && WillSignal(s.clients[i]);
        assert WillSignal(t.clients[i]);
      }
    }
  }

  /** Whoever is on the way to a signal stays on it until it signals, and whoever brings data is on it. */
  lemma WakeClientStep(s: State, l: Label)
    requires Inv(s) && Enabled(s, l) && !OfWriter(l) && !l.Release?
    ensures WakeInv(Apply(s, l))
  {
    hide LockInv, FreerInv, RefInv, FinishInv, ApplyRelease;
    var t := Apply(s, l);
    if t.writer == Waiting && t.sem == 0 && WorkPending(t) {
      if l.Append? {
        assert WillSignal(t.clients[l.id]);
      } else {
        var i :| 0 <= i < |s.clients| && WillSignal(s.clients[i]);
        assert WillSignal(t.clients[i]);
      }
    }
  }

  lemma StepInv(s: State, l: Label)
    requires Inv(s) && Enabled(s, l)
    ensures Inv(Apply(s, l))
  {
    LockStep(s, l);
    FreerStep(s, l);
    RefStep(s, l);
    FinishStep(s, l);
    WakeStep(s, l);
  }

  lemma {:induction false} RunInv(s: State, ls: seq<Label>, t: State)
    requires Inv(s) && Run(s, ls, t)
    ensures Inv(t)
    decreases |ls|
  {
    if ls != [] {
      var m := |ls| - 1;
      var u :| Run(s, ls[..m], u) && Enabled(u, ls[m]) && Apply(u, ls[m]) == t;
      RunInv(s, ls[..m], u);
      StepInv(u, ls[m]);
    }
  }

  // ----- what every interleaving keeps

  /** Bytes written, bytes in flight and bytes queued are exactly the bytes handed in, in lock order. */
  lemma {:induction false} BytesConserved(n: nat, ls: seq<Label>, t: State)
    requires Run(Init(n), ls, t)
    ensures t.file + InFlight(t) + t.queue == Written(ls)
    decreases |ls|
  {
    if ls != [] {
      var m := |ls| - 1;
      var u :| Run(Init(n), ls[..m], u) && Enabled(u, ls[m]) && Apply(u, ls[m]) == t;
      BytesConserved(n, ls[..m], u);
      StepConserves(u, ls[m]);
    }
  }

  /** The bytes a label hands in. */
  function Appended(l: Label): seq<Byte> {
    if l.Append? then l.data else []
  }

  lemma StepConserves(s: State, l: Label)
    requires Enabled(s, l)
    ensures var t := Apply(s, l); t.file + InFlight(t) + t.queue == s.file + InFlight(s) + s.queue + Appended(l)
  {
    var t := Apply(s, l);
    match l
    case WriterTake =>
      var n := Min(|s.queue|, AsyncRing.ASYNC_LOCAL_BUFSIZE);
      assert s.queue == s.queue[..n] + s.queue[n..];
    case WriterIo =>
    case Append(_, data) =>
    case _ => OtherStepsLeaveBytes(s, l);
  }

  lemma OtherStepsLeaveBytes(s: State, l: Label)
    requires Enabled(s, l) && !l.WriterTake? && !l.WriterIo? && !l.Append?
    ensures var t := Apply(s, l); t.file == s.file && InFlight(t) == InFlight(s) && t.queue == s.queue
  {
  }

  /**
    * No wake-up is lost: whenever the writer blocks on an empty semaphore while there is work and nobody is inside a
    * critical section, some client still stands between its unlock and its signal.
    */
  lemma NoLostWakeup(n: nat, ls: seq<Label>, t: State)
    requires Run(Init(n), ls, t)
    requires t.writer == Waiting && t.sem == 0 && WorkPending(t) && t.lock == NoOne
    ensures exists i :: 0 <= i < |t.clients| && t.clients[i].Signalling?
  {
    InitInv(n);
    RunInv(Init(n), ls, t);
    var i :| 0 <= i < |t.clients| && WillSignal(t.clients[i]);
    assert t.clients[i].Signalling?;
  }

  /** A step that reads or writes the shared struct. */
  predicate Touches(s: State, l: Label)
    requires Enabled(s, l)
  {
    match l
    case WriterFree => s.writer.last
    case Free(id) => s.clients[id].last
    case Join(_) => false
    case _ => true
  }

  /**
    * The struct is freed at most once and never used afterwards, and once both sides are through it has been freed.
    */
  lemma FreedExactlyOnce(n: nat, ls: seq<Label>, t: State)
    requires Run(Init(n), ls, t)
    ensures t.frees <= 1
    ensures forall l :: Enabled(t, l) && Touches(t, l) ==> t.frees == 0
    ensures t.writer == Exited && t.userDropped && 0 <= t.freer < |t.clients| && t.clients[t.freer] == Idle
      ==> t.frees == 1
    ensures t.frees == 1 ==> WriterGone(t) && t.userDropped
  {
    hide Inv, Run, Enabled, Touches, Init, PendingFrees;
    InitInv(n);
    RunInv(Init(n), ls, t);
    FreesCounted(t);
    forall l | Enabled(t, l) && Touches(t, l) ensures t.frees == 0 {
      UsedBeforeFree(t, l);
    }
  }

  lemma FreesCounted(t: State)
    requires Inv(t)
    ensures t.frees <= 1
    ensures t.writer == Exited && t.userDropped && 0 <= t.freer < |t.clients| && t.clients[t.freer] == Idle
      ==> t.frees == 1
    ensures t.frees == 1 ==> WriterGone(t) && t.userDropped
  {
    hide LockInv, FreerInv, FinishInv, WakeInv;
  }

  /** Whoever can still touch the struct holds a reference, or is the one about to free it. */
  lemma UsedBeforeFree(t: State, l: Label)
    requires Inv(t) && Enabled(t, l) && Touches(t, l)
    ensures t.frees == 0
  {
    hide FinishInv, WakeInv, Apply;
    if l.Begin? || l.Acquire? || l.Append? || l.Release? || l.Signal? {
      assert t.clients[l.id] == Idle || !t.userDropped;
    }
  }

  /** Once the writer has left, nothing reaches the file any more: what it holds is what was handed in before. */
  ghost predicate SettledAt(ls: seq<Label>, t: State, k: nat) {
    k < |ls| && ls[k] == WriterExit && t.file == Written(ls[..k]) && t.queue == WrittenFrom(ls, k)
  }

  /** The bytes handed in by the labels from `k` on. */
  function WrittenFrom(ls: seq<Label>, k: nat): seq<Byte>
    requires k <= |ls|
  {
    if |ls| == k then []
    else WrittenFrom(ls[..|ls| - 1], k) + Appended(ls[|ls| - 1])
  }

  lemma NothingSince(ls: seq<Label>)
    ensures WrittenFrom(ls, |ls|) == []
  {
  }

  lemma WrittenMore(ls: seq<Label>, k: nat)
    requires k < |ls|
    ensures WrittenFrom(ls, k) == WrittenFrom(ls[..|ls| - 1], k) + Appended(ls[|ls| - 1])
  {
  }

  /** The writer leaves only when everything handed in so far is in the file, and nothing is written after that. */
  lemma {:induction false} WriterLeavesSettled(n: nat, ls: seq<Label>, t: State)
    requires Run(Init(n), ls, t) && WriterGone(t)
    ensures exists k: nat :: SettledAt(ls, t, k)
    decreases |ls|
  {
    hide Enabled, Apply, LockInv, FreerInv, RefInv, FinishInv, WakeInv, WrittenFrom, Written;
    var m := |ls| - 1;
    var u := LastStep(Init(n), ls, t);
    if WriterGone(u) {
      WriterLeavesSettled(n, ls[..m], u);
      InitInv(n);
      RunInv(Init(n), ls[..m], u);
      GoneStep(u, ls[m]);
      var k: nat :| SettledAt(ls[..m], u, k);
      assert ls[..m][..k] == ls[..k];
      WrittenMore(ls, k);
      assert SettledAt(ls, t, k);
    } else {
      LeavingStep(u, ls[m]);
      BytesConserved(n, ls[..m], u);
      NothingSince(ls[..m]);
      WrittenMore(ls, m);
      assert SettledAt(ls, t, m);
    }
  }

  lemma LastStep(s: State, ls: seq<Label>, t: State) returns (u: State)
    requires Run(s, ls, t) && ls != []
    ensures var m := |ls| - 1; Run(s, ls[..m], u) && Enabled(u, ls[m]) && Apply(u, ls[m]) == t
  {
    u :| Run(s, ls[..|ls| - 1], u) && Enabled(u, ls[|ls| - 1]) && Apply(u, ls[|ls| - 1]) == t;
  }

  // ----- the state read off the labels of a run

  /** The client that takes a step, or none. */
  function Mover(l: Label): Option<nat> {
    match l
    case Begin(id, _) => Some(id)
    case Acquire(id) => Some(id)
    case Append(id, _) => Some(id)
    case Release(id) => Some(id)
    case Signal(id) => Some(id)
    case Join(id) => Some(id)
    case Free(id) => Some(id)
    case _ => None
  }

  /** The last label of client `id`. */
  function LastOf(ls: seq<Label>, id: nat): Option<Label> {
    if ls == [] then None
    else if Mover(ls[|ls| - 1]) == Some(id) then Some(ls[|ls| - 1])
    else LastOf(ls[..|ls| - 1], id)
  }

  /** The call that client `id` has begun last. */
  function CallOf(ls: seq<Label>, id: nat): Option<Call> {
    if ls == [] then None
    else
      var l := ls[|ls| - 1];
      if l.Begin? && l.id == id then Some(l.call) else CallOf(ls[..|ls| - 1], id)
  }

  /** Label `k` is the end of the critical section of such a call. */
  predicate ReleaseOf(ls: seq<Label>, k: nat, call: Call) {
    k < |ls| && ls[k].Release? && CallOf(ls[..k], ls[k].id) == Some(call)
  }

  /** Where a client stands, by its last label and its last call. */
  predicate Stands(pc: ClientPc, last: Option<Label>, call: Option<Call>) {
    && (call.None? ==> pc == Idle)
    && (pc.Entering? || pc.Holding? ==> call == Some(pc.call))
    && (pc.Entering? <==> last.Some? && last.value.Begin?)
    && (pc.Holding? <==> last.Some? && (last.value.Acquire? || last.value.Append?))
    && (pc.Signalling? <==>
        last.Some? && last.value.Release? && call in {Some(WriteCall), Some(CloseCall), Some(WaitCall)})
    && (pc.Signalling? ==> (pc.joins <==> call == Some(WaitCall)))
    && (pc.Dropping? <==> last.Some? && last.value.Release? && call == Some(FreeCall))
    && (pc.Joining? <==> last.Some? && last.value.Signal? && call == Some(WaitCall))
  }

  ghost predicate ClientsStand(ls: seq<Label>, s: State) {
    forall i :: 0 <= i < |s.clients| ==> Stands(s.clients[i], LastOf(ls, i), CallOf(ls, i))
  }

  /** The labels of a client, together with its calls, say where it stands. */
  lemma {:induction false} ClientsFollow(n: nat, ls: seq<Label>, t: State)
    requires Run(Init(n), ls, t)
    ensures |t.clients| == n && ClientsStand(ls, t)
    decreases |ls|
  {
    hide Enabled, Apply, Stands, Init;
    if ls == [] {
      StartsIdle(n);
    } else {
      var m := |ls| - 1;
      var u := LastStep(Init(n), ls, t);
      ClientsFollow(n, ls[..m], u);
      OneClientMoves(u, ls[m]);
      forall i | 0 <= i < |t.clients| ensures Stands(t.clients[i], LastOf(ls, i), CallOf(ls, i)) {
        if Mover(ls[m]) == Some(i) {
          MoverStands(u, ls[m], i, LastOf(ls[..m], i), CallOf(ls[..m], i));
        }
      }
    }
  }

  lemma StartsIdle(n: nat)
    ensures |Init(n).clients| == n && ClientsStand([], Init(n))
  {
  }

  lemma OneClientMoves(s: State, l: Label)
    requires Enabled(s, l)
    ensures var t := Apply(s, l);
            && |t.clients| == |s.clients|
            && (Mover(l).Some? ==> Mover(l).value < |s.clients|)
            && forall i :: 0 <= i < |s.clients| && Mover(l) != Some(i) ==> t.clients[i] == s.clients[i]
  {
    if l.Release? {
      ReleaseMoves(s, l.id);
    }
    hide ApplyRelease;
  }

  lemma ReleaseMoves(s: State, id: nat)
    requires Enabled(s, Release(id))
    ensures var t := ApplyRelease(s, id);
            |t.clients| == |s.clients| && forall i :: 0 <= i < |s.clients| && i != id ==> t.clients[i] == s.clients[i]
  {
  }

  lemma MoverStands(s: State, l: Label, id: nat, last: Option<Label>, call: Option<Call>)
    requires Enabled(s, l) && Mover(l) == Some(id) && id < |s.clients| && Stands(s.clients[id], last, call)
    requires |Apply(s, l).clients| == |s.clients|
    ensures Stands(Apply(s, l).clients[id], Some(l), if l.Begin? then Some(l.call) else call)
  {
    if !l.Release? {
      hide ApplyRelease;
    }
  }

  /** What a client does next follows from its own labels, but for the lock, the writer's end and the other callers. */
  lemma ClientNext(n: nat, ls: seq<Label>, t: State, id: nat)
    requires Run(Init(n), ls, t) && id < n
    ensures Enabled(t, Signal(id)) <==>
            LastOf(ls, id) == Some(Release(id)) && CallOf(ls, id) in {Some(WriteCall), Some(CloseCall), Some(WaitCall)}
    ensures Enabled(t, Join(id)) <==>
            LastOf(ls, id) == Some(Signal(id)) && CallOf(ls, id) == Some(WaitCall) && WriterFree in ls
    ensures Enabled(t, Free(id)) <==> LastOf(ls, id) == Some(Release(id)) && CallOf(ls, id) == Some(FreeCall)
    ensures forall data :: Enabled(t, Append(id, data)) <==>
            && CallOf(ls, id) == Some(WriteCall)
            && LastOf(ls, id).Some? && (LastOf(ls, id).value.Acquire? || LastOf(ls, id).value.Append?)
  {
    hide Run, Init, LastOf, CallOf;
    ClientsFollow(n, ls, t);
    LastIsOwn(ls, id);
    WriterFollows(n, ls, t);
    assert Stands(t.clients[id], LastOf(ls, id), CallOf(ls, id));
  }

  lemma {:induction false} LastIsOwn(ls: seq<Label>, id: nat)
    ensures LastOf(ls, id).Some? ==> Mover(LastOf(ls, id).value) == Some(id)
    decreases |ls|
  {
    if ls != [] {
      LastIsOwn(ls[..|ls| - 1], id);
    }
  }

  /** The writer leaves once, and its last step follows. */
  lemma {:induction false} WriterFollows(n: nat, ls: seq<Label>, t: State)
    requires Run(Init(n), ls, t)
    ensures WriterGone(t) <==> WriterExit in ls
    ensures t.writer == Exited <==> WriterFree in ls
    decreases |ls|
  {
    if ls != [] {
      var m := |ls| - 1;
      var u := LastStep(Init(n), ls, t);
      WriterFollows(n, ls[..m], u);
      assert ls == ls[..m] + [ls[m]];
      WriterStep(u, ls[m]);
    }
  }

  lemma WriterStep(s: State, l: Label)
    requires Enabled(s, l)
    ensures WriterGone(Apply(s, l)) <==> WriterGone(s) || l == WriterExit
    ensures Apply(s, l).writer == Exited <==> s.writer == Exited || l == WriterFree
  {
  }

  ghost predicate Asked(ls: seq<Label>, call: Call) {
    exists k :: 0 <= k < |ls| && ReleaseOf(ls, k, call)
  }

  lemma AskedMore(ls: seq<Label>, call: Call)
    requires ls != []
    ensures Asked(ls, call) <==> Asked(ls[..|ls| - 1], call) || ReleaseOf(ls, |ls| - 1, call)
  {
    var m := |ls| - 1;
    forall k | 0 <= k < m ensures ReleaseOf(ls[..m], k, call) <==> ReleaseOf(ls, k, call) {
      assert ls[..m][..k] == ls[..k];
    }
  }

  /** A request to close is never taken back, and a wait asks for an end only while nobody has. */
  lemma {:induction false} FinishFollows(n: nat, ls: seq<Label>, t: State)
    requires Run(Init(n), ls, t)
    ensures t.finish == Close <==> Asked(ls, CloseCall)
    ensures t.finish == Running <==> !Asked(ls, CloseCall) && !Asked(ls, WaitCall)
    decreases |ls|
  {
    hide Enabled, Apply, ReleaseOf, Stands, CallOf, LastOf;
    if ls != [] {
      var m := |ls| - 1;
      var u := LastStep(Init(n), ls, t);
      FinishFollows(n, ls[..m], u);
      ClientsFollow(n, ls[..m], u);
      AskedMore(ls, CloseCall);
      AskedMore(ls, WaitCall);
      RequestStep(ls, u);
    }
  }

  lemma RequestStep(ls: seq<Label>, s: State)
    requires ls != [] && Enabled(s, ls[|ls| - 1]) && ClientsStand(ls[..|ls| - 1], s)
    ensures var m := |ls| - 1;
            Apply(s, ls[m]).finish == if ReleaseOf(ls, m, CloseCall) then Close
                                      else if ReleaseOf(ls, m, WaitCall) && s.finish == Running then Exit
                                      else s.finish
  {
    hide CallOf, LastOf;
    var l := ls[|ls| - 1];
    if l.Release? {
      assert Stands(s.clients[l.id], LastOf(ls[..|ls| - 1], l.id), CallOf(ls[..|ls| - 1], l.id));
    }
  }

  /** The writer leaves after the end of an aio_close or an aio_wait. */
  ghost predicate LeftAfter(ls: seq<Label>, call: Call) {
    exists j, k :: 0 <= j < k < |ls| && ReleaseOf(ls, j, call) && ls[k] == WriterExit
  }

  lemma LeftMore(ls: seq<Label>, call: Call)
    requires ls != []
    ensures var m := |ls| - 1;
            LeftAfter(ls, call) <==> LeftAfter(ls[..m], call) || (ls[m] == WriterExit && Asked(ls[..m], call))
  {
    hide ReleaseOf;
    var m := |ls| - 1;
    forall k | 0 <= k < m ensures ReleaseOf(ls[..m], k, call) <==> ReleaseOf(ls, k, call) {
      SameRelease(ls, k, call);
    }
    if LeftAfter(ls, call) {
      var j, k :| 0 <= j < k < |ls| && ReleaseOf(ls, j, call) && ls[k] == WriterExit;
      assert ReleaseOf(ls[..m], j, call);
      if k < m {
        assert ls[..m][k] == WriterExit;
      }
    }
    if LeftAfter(ls[..m], call) {
      var j, k :| 0 <= j < k < m && ReleaseOf(ls[..m], j, call) && ls[..m][k] == WriterExit;
      assert ReleaseOf(ls, j, call) && ls[k] == WriterExit;
    }
    if ls[m] == WriterExit && Asked(ls[..m], call) {
      var j :| 0 <= j < m && ReleaseOf(ls[..m], j, call);
      assert ReleaseOf(ls, j, call);
    }
  }

  lemma SameRelease(ls: seq<Label>, k: nat, call: Call)
    requires k < |ls| - 1
    ensures ReleaseOf(ls[..|ls| - 1], k, call) <==> ReleaseOf(ls, k, call)
  {
    assert ls[..|ls| - 1][..k] == ls[..k];
  }

  /**
    * It leaves after a request to finish, and the file is closed exactly when it leaves after an aio_close has ended
    * its critical section; an aio_wait alone leaves the file open.
    */
  lemma {:induction false} WriterLeavesWhenAsked(n: nat, ls: seq<Label>, t: State)
    requires Run(Init(n), ls, t)
    ensures WriterExit in ls ==> LeftAfter(ls, CloseCall) || LeftAfter(ls, WaitCall)
    ensures t.ioClosed <==> LeftAfter(ls, CloseCall)
    decreases |ls|
  {
    hide Enabled, Apply, ReleaseOf, Asked, LeftAfter, WriterGone;
    if ls != [] {
      var m := |ls| - 1;
      var u := LastStep(Init(n), ls, t);
      WriterLeavesWhenAsked(n, ls[..m], u);
      FinishFollows(n, ls[..m], u);
      WriterFollows(n, ls[..m], u);
      LeftMore(ls, CloseCall);
      LeftMore(ls, WaitCall);
      ClosingStep(u, ls[m]);
      assert ls == ls[..m] + [ls[m]];
      if ls[m] == WriterExit {
        NeverTwice(ls[..m], CloseCall);
      }
    } else {
      NotYet();
    }
  }

  lemma NotYet()
    ensures !LeftAfter([], CloseCall) && !LeftAfter([], WaitCall)
  {
  }

  lemma NeverTwice(ls: seq<Label>, call: Call)
    requires WriterExit !in ls
    ensures !LeftAfter(ls, call)
  {
  }

  lemma ClosingStep(s: State, l: Label)
    requires Enabled(s, l)
    ensures Apply(s, l).ioClosed == if l == WriterExit then s.finish == Close else s.ioClosed
    ensures l == WriterExit ==> s.finish != Running && !WriterGone(s)
  {
  }

  /**
    * A chunk is never empty and fits the 64 KiB on the writer's stack; less than that is taken only to empty the
    * queue.
    */
  lemma ChunkFits(s: State)
    requires Enabled(s, WriterTake)
    ensures var t := Apply(s, WriterTake);
            && t.writer.Writing? && t.writer.chunk + t.queue == s.queue
            && 0 < |t.writer.chunk| <= 65536 && (|t.writer.chunk| < 65536 ==> t.queue == [])
  {
    var n := Min(|s.queue|, AsyncRing.ASYNC_LOCAL_BUFSIZE);
    assert s.queue == s.queue[..n] + s.queue[n..];
  }

  function Count(ls: seq<Label>, signals: bool): nat {
    if ls == [] then 0
    else
      var l := ls[|ls| - 1];
      Count(ls[..|ls| - 1], signals) + if (if signals then l.Signal? else l.WriterWake?) then 1 else 0
  }

  /** The semaphore counts the signals not yet used up. */
  lemma {:induction false} SignalsCounted(n: nat, ls: seq<Label>, t: State)
    requires Run(Init(n), ls, t)
    ensures t.sem == Count(ls, true) - Count(ls, false)
    decreases |ls|
  {
    hide ApplyRelease;
    if ls != [] {
      var m := |ls| - 1;
      var u := LastStep(Init(n), ls, t);
      SignalsCounted(n, ls[..m], u);
      SemStep(u, ls[m]);
    }
  }

  lemma SemStep(s: State, l: Label)
    requires Enabled(s, l)
    ensures Apply(s, l).sem == s.sem + (if l.Signal? then 1 else 0) - (if l.WriterWake? then 1 else 0)
  {
  }

  /** Label `k` stores the result of a write, and no later one does. */
  ghost predicate LastReport(ls: seq<Label>, k: int) {
    0 <= k < |ls| && ls[k].WriterReacquire? && forall j :: k < j < |ls| ==> !ls[j].WriterReacquire?
  }

  /** The result that aio_error reads is that of the last write, or 0 before the first. */
  lemma {:induction false} ErrorFollows(n: nat, ls: seq<Label>, t: State)
    requires Run(Init(n), ls, t)
    ensures (forall k :: 0 <= k < |ls| ==> !ls[k].WriterReacquire?) ==> t.error == 0
    ensures forall k :: LastReport(ls, k) ==> t.error == ls[k].result
    decreases |ls|
  {
    hide Enabled, Apply;
    if ls != [] {
      var m := |ls| - 1;
      var u := LastStep(Init(n), ls, t);
      ErrorFollows(n, ls[..m], u);
      ErrorStep(u, ls[m]);
      if !ls[m].WriterReacquire? {
        forall k | LastReport(ls, k) ensures t.error == ls[k].result {
          assert LastReport(ls[..m], k);
        }
      }
    }
  }

  lemma ErrorStep(s: State, l: Label)
    requires Enabled(s, l)
    ensures Apply(s, l).error == if l.WriterReacquire? then l.result else s.error
  {
  }

  lemma GoneStep(s: State, l: Label)
    requires LockInv(s) && WriterGone(s) && Enabled(s, l)
    ensures var t := Apply(s, l); WriterGone(t) && t.file == s.file && t.queue == s.queue + Appended(l)
  {
  }

  lemma LeavingStep(s: State, l: Label)
    requires !WriterGone(s) && Enabled(s, l) && WriterGone(Apply(s, l))
    ensures l == WriterExit && s.queue == [] && InFlight(s) == []
    ensures var t := Apply(s, l); t.file == s.file && t.queue == []
  {
  }

  // ----- finishing

  /** A step inside a call that has begun, other than handing in more bytes. */
  predicate Internal(l: Label) {
    !l.Begin? && !l.Append?
  }

  function WriterWork(w: WriterPc): nat {
    match w
    case Waiting => 4
    case Writing(_) => 4
    case Locking => 3
    case Relocking => 3
    case Looping => 2
    case Freeing(_) => 1
    case Exited => 0
  }

  function ClientWork(c: ClientPc): nat {
    match c
    case Entering(_) => 4
    case Holding(_) => 3
    case Signalling(_) => 2
    case Joining => 1
    case Dropping(_) => 1
    case Idle => 0
  }

  function TotalWork(cs: seq<ClientPc>): nat {
    if cs == [] then 0 else ClientWork(cs[0]) + TotalWork(cs[1..])
  }

  /** An upper bound on the steps left. */
  function Remaining(s: State): nat {
    4 * |s.queue| + WriterWork(s.writer) + TotalWork(s.clients)
  }

  lemma {:induction false} TotalWorkUpdate(cs: seq<ClientPc>, i: nat, c: ClientPc)
    requires i < |cs|
    ensures TotalWork(cs[i := c]) == TotalWork(cs) - ClientWork(cs[i]) + ClientWork(c)
  {
    if i == 0 {
      assert cs[i := c][1..] == cs[1..];
    } else {
      assert cs[i := c][1..] == cs[1..][i - 1 := c];
      TotalWorkUpdate(cs[1..], i - 1, c);
    }
  }

  /** After a request to finish, every internal step brings the end closer. */
  lemma InternalStepProgress(s: State, l: Label)
    requires Enabled(s, l) && Internal(l) && s.finish != Running
    ensures var t := Apply(s, l); t.finish != Running && Remaining(t) < Remaining(s)
  {
    if l.Acquire? || l.Release? || l.Signal? || l.Join? || l.Free? {
      ClientStepProgress(s, l);
    } else {
      assert Apply(s, l).clients == s.clients;
    }
  }

  lemma ClientStepProgress(s: State, l: Label)
    requires Enabled(s, l) && s.finish != Running
    requires l.Acquire? || l.Release? || l.Signal? || l.Join? || l.Free?
    ensures var t := Apply(s, l); t.finish != Running && Remaining(t) < Remaining(s)
  {
    ClientStepEffect(s, l);
    TotalWorkUpdate(s.clients, l.id, Apply(s, l).clients[l.id]);
  }

  lemma ClientStepEffect(s: State, l: Label)
    requires Enabled(s, l) && s.finish != Running
    requires l.Acquire? || l.Release? || l.Signal? || l.Join? || l.Free?
    ensures var t := Apply(s, l);
            && t.finish != Running && t.queue == s.queue && t.writer == s.writer
            && |t.clients| == |s.clients|
            && t.clients == s.clients[l.id := t.clients[l.id]]
            && ClientWork(t.clients[l.id]) < ClientWork(s.clients[l.id])
  {
    if l.Release? {
      assert Apply(s, l).clients == s.clients[l.id := Apply(s, l).clients[l.id]];
    }
  }

  /** So every run of internal steps after a request to finish is short. */
  lemma {:induction false} FinishingIsBounded(s: State, ls: seq<Label>, t: State)
    requires Run(s, ls, t) && s.finish != Running
    requires forall i :: 0 <= i < |ls| ==> Internal(ls[i])
    ensures t.finish != Running && |ls| + Remaining(t) <= Remaining(s)
    decreases |ls|
  {
    if ls != [] {
      var m := |ls| - 1;
      var u :| Run(s, ls[..m], u) && Enabled(u, ls[m]) && Apply(u, ls[m]) == t;
      FinishingIsBounded(s, ls[..m], u);
      InternalStepProgress(u, ls[m]);
    }
  }

  /**
    * And it cannot get stuck before the end: when no internal step is left after a request to finish, the writer has
    * exited and every call, aio_wait included, has returned.
    */
  lemma FinishingNeverBlocks(n: nat, ls: seq<Label>, t: State)
    requires Run(Init(n), ls, t) && t.finish != Running
    requires forall l :: Internal(l) ==> !Enabled(t, l)
    ensures t.writer == Exited
    ensures forall i :: 0 <= i < |t.clients| ==> t.clients[i] == Idle
  {
    InitInv(n);
    RunInv(Init(n), ls, t);
    LockIsFree(t);
    OnlyJoinersLeft(t);
    WriterIsThrough(t);
    forall i | 0 <= i < |t.clients| ensures t.clients[i] == Idle {
      assert !Enabled(t, Join(i));
    }
  }

  /**
    * While no request to finish has come the writer does not fall asleep on data: when no internal step is left,
    * everything handed in is in the file.
    */
  lemma QuietMeansWritten(n: nat, ls: seq<Label>, t: State)
    requires Run(Init(n), ls, t) && !WriterGone(t)
    requires forall l :: Internal(l) ==> !Enabled(t, l)
    ensures t.writer == Waiting && t.queue == [] && t.file == Written(ls)
  {
    InitInv(n);
    RunInv(Init(n), ls, t);
    BytesConserved(n, ls, t);
    LockIsFree(t);
    OnlyJoinersLeft(t);
    WriterIsWaiting(t);
  }

  lemma WriterIsWaiting(t: State)
    requires LockInv(t) && WakeInv(t) && t.lock == NoOne && !WriterGone(t)
    requires forall i :: 0 <= i < |t.clients| ==> t.clients[i] == Idle || t.clients[i] == Joining
    requires forall l :: Internal(l) ==> !Enabled(t, l)
    ensures t.writer == Waiting && t.queue == []
  {
    assert !Enabled(t, WriterAcquire) && !Enabled(t, WriterReacquire(0));
    assert !Enabled(t, WriterWake) && !Enabled(t, WriterIo);
  }

  lemma OnlyJoinersLeft(t: State)
    requires t.lock == NoOne && forall l :: Internal(l) ==> !Enabled(t, l)
    ensures forall i :: 0 <= i < |t.clients| ==> t.clients[i] == Idle || t.clients[i] == Joining
  {
    forall i | 0 <= i < |t.clients| ensures t.clients[i] == Idle || t.clients[i] == Joining {
      assert !Enabled(t, Acquire(i)) && !Enabled(t, Release(i)) && !Enabled(t, Signal(i)) && !Enabled(t, Free(i));
    }
  }

  lemma WriterIsThrough(t: State)
    requires LockInv(t) && WakeInv(t) && t.finish != Running && t.lock == NoOne
    requires forall i :: 0 <= i < |t.clients| ==> t.clients[i] == Idle || t.clients[i] == Joining
    requires forall l :: Internal(l) ==> !Enabled(t, l)
    ensures t.writer == Exited
  {
    assert !Enabled(t, WriterAcquire) && !Enabled(t, WriterReacquire(0));
    assert !Enabled(t, WriterWake) && !Enabled(t, WriterIo) && !Enabled(t, WriterFree);
  }

  lemma LockIsFree(t: State)
    requires LockInv(t)
    requires forall l :: Internal(l) ==> !Enabled(t, l)
    ensures t.lock == NoOne
  {
    assert !Enabled(t, WriterExit) && !Enabled(t, WriterSleep) && !Enabled(t, WriterTake);
    assert t.lock.Client? ==> !Enabled(t, Release(t.lock.id));
  }
}
