/** The delayed packet queue of crapnet: a doubly linked list with removal from any position. */
module PacketQueue {
  import opened Bytes

  type Addr = nat

  /** What was accepted for sending: its number, where it goes and what it says. */
  datatype Record = Record(id: nat, to: Addr, data: seq<Byte>)

  /** A datagram handed over by the socket, and whether the loss lottery drops it. */
  datatype Arrival = Arrival(from: Addr, data: seq<Byte>, dropped: bool)

  class Packet {
    var prev: Packet?
    var next: Packet?
    const sendTo: Addr
    const id: nat
    const data: seq<Byte>

    constructor (sendTo: Addr, id: nat, data: seq<Byte>)
      ensures this.sendTo == sendTo && this.id == id && this.data == data
    {
      this.sendTo, this.id, this.data := sendTo, id, data;
      prev, next := null, null;
    }

    function View(): Record { Record(id, sendTo, data) }
  }

  function Views(q: seq<Packet>): seq<Record> {
    seq(|q|, i requires 0 <= i < |q| => q[i].View())
  }

  // ----- Specification

  /** The records whose number is due, in order, or those whose number is not. */
  function Select(rs: seq<Record>, due: nat -> bool, wanted: bool): seq<Record> {
    if rs == [] then []
    else
      var last := rs[|rs| - 1];
      Select(rs[..|rs| - 1], due, wanted) + if due(last.id) == wanted then [last] else []
  }

  lemma SelectNext(q: seq<Packet>, j: nat, due: nat -> bool)
    requires j < |q|
    ensures forall wanted :: Select(Views(q[..j + 1]), due, wanted)
                          == Select(Views(q[..j]), due, wanted) + if due(q[j].id) == wanted then [q[j].View()] else []
  {
    var rs := Views(q[..j + 1]);
    assert rs[..|rs| - 1] == Views(q[..j]);
  }

  /** The client is whoever spoke last and is not the server; the server's packets go to it, its own to the server. */
  function Route(arrivals: seq<Arrival>, source: Addr, server: Addr, id: nat): seq<Record> {
    if arrivals == [] then []
    else
      var a, rest := arrivals[0], arrivals[1..];
      if a.dropped then Route(rest, source, server, id)
      else if a.from == server then [Record(id, source, a.data)] + Route(rest, source, server, id + 1)
      else [Record(id, server, a.data)] + Route(rest, a.from, server, id + 1)
  }

  function SourceAfter(arrivals: seq<Arrival>, source: Addr, server: Addr): Addr {
    if arrivals == [] then source
    else
      var a, rest := arrivals[0], arrivals[1..];
      SourceAfter(rest, if a.dropped || a.from == server then source else a.from, server)
  }

  lemma RouteOne(a: Arrival, source: Addr, server: Addr, id: nat)
    ensures Route([a], source, server, id) ==
      if a.dropped then [] else [Record(id, if a.from == server then source else server, a.data)]
    ensures SourceAfter([a], source, server) == if a.dropped || a.from == server then source else a.from
  {
    assert [a][1..] == [];
  }

  lemma NoRoute(source: Addr, server: Addr, id: nat)
    ensures Route([], source, server, id) == [] && SourceAfter([], source, server) == source
  {
  }

  lemma RouteFirst(a: seq<Arrival>, source: Addr, server: Addr, id: nat)
    requires a != []
    ensures var head, source' := Route(a[..1], source, server, id), SourceAfter(a[..1], source, server);
            && Route(a, source, server, id) == head + Route(a[1..], source', server, id + |head|)
            && SourceAfter(a, source, server) == SourceAfter(a[1..], source', server)
  {
    assert a[..1] == [a[0]];
    RouteOne(a[0], source, server, id);
    assert Route(a, source, server, id) ==
      Route([a[0]], source, server, id) +
      if a[0].dropped then Route(a[1..], source, server, id)
         else Route(a[1..], if a[0].from == server then source else a[0].from, server, id + 1);
  }

  lemma {:induction false} RouteAppend(a: seq<Arrival>, b: seq<Arrival>, source: Addr, server: Addr, id: nat)
    ensures var first := Route(a, source, server, id);
            Route(a + b, source, server, id) == first + Route(b, SourceAfter(a, source, server), server, id + |first|)
    ensures SourceAfter(a + b, source, server) == SourceAfter(b, SourceAfter(a, source, server), server)
  {
    hide Route, SourceAfter;
    if a == [] {
      assert a + b == b;
      NoRoute(source, server, id);
    } else {
      var head := Route(a[..1], source, server, id);
      assert (a + b)[1..] == a[1..] + b && (a + b)[..1] == a[..1];
      RouteFirst(a, source, server, id);
      RouteFirst(a + b, source, server, id);
      RouteAppend(a[1..], b, SourceAfter(a[..1], source, server), server, id + |head|);
    }
  }

  predicate Numbered(rs: seq<Record>) {
    forall i :: 0 <= i < |rs| ==> rs[i].id == i
  }

  // ----- The queue

  ghost function Elements(q: seq<Packet>): set<Packet> {
    set p | p in q
  }

  function Nth(q: seq<Packet>, i: int): Packet? {
    if 0 <= i < |q| then q[i] else null
  }

  ghost predicate LinkedAt(q: seq<Packet>, i: nat)
    requires i < |q|
    reads q
  {
    q[i].prev == Nth(q, i - 1) && q[i].next == Nth(q, i + 1)
  }

  /** The two chains of pointers through `q`. */
  ghost predicate Linked(q: seq<Packet>)
    reads q
  {
    forall i :: 0 <= i < |q| ==> LinkedAt(q, i)
  }

  predicate NoRepeats(q: seq<Packet>) {
    forall i, j :: 0 <= i < j < |q| ==> q[i] != q[j]
  }

  function Without(q: seq<Packet>, k: nat): seq<Packet>
    requires k < |q|
  {
    q[..k] + q[k + 1..]
  }

  /** Each accepted packet has its own number, and was either sent once or is queued once; no queued packet is freed. */
  ghost predicate Accounted(q: seq<Packet>, accepted: seq<Record>, wire: seq<Record>, freed: set<Packet>) {
    && (forall p :: p in q ==> p !in freed)
    && Numbered(accepted)
    && multiset(accepted) == multiset(wire) + multiset(Views(q))
  }

  lemma AccountedNext(q: seq<Packet>, accepted: seq<Record>, wire: seq<Record>, freed: set<Packet>, p: Packet)
    requires Accounted(q, accepted, wire, freed) && p.id == |accepted| && p !in freed
    ensures Accounted(q + [p], accepted + [p.View()], wire, freed)
    ensures Views(q + [p]) == Views(q) + [p.View()]
  {
    assert Views(q + [p]) == Views(q) + [p.View()];
  }

  lemma AccountedSent(q: seq<Packet>, accepted: seq<Record>, wire: seq<Record>, freed: set<Packet>, k: nat)
    requires k < |q| && NoRepeats(q) && Accounted(q, accepted, wire, freed)
    ensures Accounted(Without(q, k), accepted, wire + [q[k].View()], freed + {q[k]})
  {
    WithoutKeeps(q, k);
  }

  lemma WithoutKeeps(q: seq<Packet>, k: nat)
    requires k < |q| && NoRepeats(q)
    ensures NoRepeats(Without(q, k)) && q[k] !in Without(q, k)
    ensures multiset(Views(q)) == multiset(Views(Without(q, k))) + multiset{q[k].View()}
  {
    assert Views(q) == Views(q)[..k] + [q[k].View()] + Views(q)[k + 1..];
    assert Views(Without(q, k)) == Views(q)[..k] + Views(q)[k + 1..];
  }

  /** What is left of the chains at packet `i` once packet `k` is jumped over. */
  ghost predicate BypassedAt(q: seq<Packet>, k: nat, i: nat)
    requires i < |q|
    reads q
  {
    && q[i].prev == (if i == k + 1 then Nth(q, k - 1) else Nth(q, i - 1))
    && q[i].next == (if i == k - 1 then Nth(q, k + 1) else Nth(q, i + 1))
  }

  lemma BypassedIsLinked(q: seq<Packet>, k: nat)
    requires k < |q| && forall i :: 0 <= i < |q| && i != k ==> BypassedAt(q, k, i)
    ensures Linked(Without(q, k))
  {
    var w := Without(q, k);
    forall i | 0 <= i < |w|
      ensures LinkedAt(w, i)
    {
      var j := if i < k then i else i + 1;
      NthWithout(q, k, i - 1);
      NthWithout(q, k, i);
      NthWithout(q, k, i + 1);
      assert BypassedAt(q, k, j);
    }
  }

  lemma NthWithout(q: seq<Packet>, k: nat, i: int)
    requires k < |q|
    ensures Nth(Without(q, k), i) == Nth(q, if i < k then i else i + 1)
  {
  }

  /** Half way through a pass: the first `j` packets have been looked at, `kept` are those that stayed. */
  ghost predicate Scanned(q0: seq<Packet>, j: nat, kept: seq<Packet>, q: seq<Packet>,
                          sent: seq<Record>, freed: set<Packet>, due: nat -> bool) {
    && j <= |q0| && q == kept + q0[j..]
    && sent == Select(Views(q0[..j]), due, true)
    && Views(kept) == Select(Views(q0[..j]), due, false)
    && (forall p :: p in q0[..j] ==> p in kept || p in freed)
    && (forall p :: p in kept ==> p in q0[..j])
  }

  lemma ScanStarts(q0: seq<Packet>, freed: set<Packet>, due: nat -> bool)
    ensures Scanned(q0, 0, [], q0, [], freed, due)
  {
    assert Views([]) == [];
  }

  lemma ScanNext(q0: seq<Packet>, j: nat, kept: seq<Packet>, q: seq<Packet>,
                 sent: seq<Record>, freed: set<Packet>, due: nat -> bool)
    requires Scanned(q0, j, kept, q, sent, freed, due) && |kept| < |q|
    ensures j < |q0| && q[|kept|] == q0[j]
    ensures var p := q0[j];
            if due(p.id) then Scanned(q0, j + 1, kept, Without(q, |kept|), sent + [p.View()], freed + {p}, due)
            else Scanned(q0, j + 1, kept + [p], q, sent, freed, due)
  {
    var p := q0[j];
    SelectNext(q0, j, due);
    hide Select;
    assert q0[..j + 1] == q0[..j] + [p];
    if due(p.id) {
      assert Without(q, |kept|) == kept + q0[j + 1..];
    } else {
      assert q == kept + [p] + q0[j + 1..];
      assert Views(kept + [p]) == Views(kept) + [p.View()];
    }
  }

  lemma ScanEnds(q0: seq<Packet>, j: nat, kept: seq<Packet>, q: seq<Packet>,
                 sent: seq<Record>, freed: set<Packet>, due: nat -> bool)
    requires Scanned(q0, j, kept, q, sent, freed, due) && |kept| <= |q| && Nth(q, |kept|) == null
    ensures sent == Select(Views(q0), due, true) && Views(q) == Select(Views(q0), due, false)
    ensures forall p :: p in q0 ==> p in q || p in freed
    ensures forall p :: p in q ==> p in q0
  {
    assert j == |q0|;
    assert q == kept && q0[..j] == q0;
  }

  class Crapnet {
    var first: Packet?
    var last: Packet?
    const server: Addr
    var source: Addr
    var nextId: nat
    /** Everything handed to the socket so far. */
    var wire: seq<Record>
    ghost var queue: seq<Packet>
    ghost var accepted: seq<Record>
    ghost var freed: set<Packet>

    ghost predicate Chained()
      reads this`queue, this`first, this`last, queue
    {
      NoRepeats(queue) && Linked(queue) && first == Nth(queue, 0) && last == Nth(queue, |queue| - 1)
    }

    ghost predicate Valid()
      reads this, queue
    {
      Chained() && nextId == |accepted| && Accounted(queue, accepted, wire, freed)
    }

    constructor (source: Addr, server: Addr)
      ensures Valid() && queue == [] && wire == [] && accepted == [] && freed == {}
      ensures this.source == source && this.server == server
    {
      this.source, this.server := source, server;
      first, last, nextId, wire, queue, accepted, freed := null, null, 0, [], [], [], {};
    }

    /** The packet reached by following `next` `n` times. */
    ghost function Walk(n: nat): Packet?
      requires Chained()
      reads this, queue
      ensures Walk(n) == Nth(queue, n)
    {
      if n == 0 then first
      else
        var p := Walk(n - 1);
        assert p != null ==> LinkedAt(queue, n - 1);
        if p == null then null else p.next
    }

    /** The packet reached from the last by following `prev` `n` times. */
    ghost function WalkBack(n: nat): Packet?
      requires Chained()
      reads this, queue
      ensures WalkBack(n) == Nth(queue, |queue| - 1 - n)
    {
      if n == 0 then last
      else
        var p := WalkBack(n - 1);
        assert p != null ==> LinkedAt(queue, |queue| - n);
        if p == null then null else p.prev
    }

    /** No chain of pointers leads to freed memory. */
    lemma FreedUnreachable(n: nat)
      requires Valid()
      ensures Walk(n) == null || Walk(n) !in freed
      ensures WalkBack(n) == null || WalkBack(n) !in freed
    {
      assert Walk(n) != null ==> Walk(n) == queue[n];
      assert WalkBack(n) != null ==> WalkBack(n) == queue[|queue| - 1 - n];
    }

    method Link(p: Packet)
      requires Chained() && p !in queue
      modifies this`first, this`last, this`queue, p, Elements(queue)
      ensures Chained() && queue == old(queue) + [p]
    {
      ghost var q := queue;
      p.prev := last;
      p.next := null;
      if last != null {
        last.next := p;
      } else {
        first := p;
        last := p;
      }
      last := p;
      queue := queue + [p];
      forall i | 0 <= i < |queue|
        ensures LinkedAt(queue, i)
      {
        if i < |q| {
          assert old(LinkedAt(q, i));
        }
      }
    }

    /** Takes packet `k` of the queue out of both chains. */
    method Unlink(p: Packet, ghost k: nat)
      requires Chained() && k < |queue| && queue[k] == p
      modifies this`first, this`last, this`queue, Elements(queue)
      ensures Chained() && queue == Without(old(queue), k)
    {
      ghost var q := queue;
      assert LinkedAt(q, k);
      if p.next != null {
        p.next.prev := p.prev;
      } else {
        last := p.prev;
      }
      if p.prev != null {
        p.prev.next := p.next;
      } else {
        first := p.next;
      }
      forall i | 0 <= i < |q| && i != k
        ensures BypassedAt(q, k, i)
      {
        assert old(LinkedAt(q, i));
      }
      WithoutKeeps(q, k);
      BypassedIsLinked(q, k);
      queue := Without(queue, k);
    }

    method Accept(p: Packet)
      requires Valid() && p.id == nextId && p !in queue && p !in freed
      modifies this`first, this`last, this`queue, this`accepted, this`nextId, p, Elements(queue)
      ensures Valid() && queue == old(queue) + [p] && accepted == old(accepted) + [p.View()]
      ensures Views(queue) == old(Views(queue)) + [p.View()]
    {
      AccountedNext(queue, accepted, wire, freed, p);
      hide Linked, NoRepeats, Nth, Accounted, Views;
      Link(p);
      nextId := nextId + 1;
      accepted := accepted + [p.View()];
    }

    method Receive(a: Arrival)
      requires Valid()
      modifies this`first, this`last, this`queue, this`accepted, this`nextId, this`source, Elements(queue)
      ensures Valid()
      ensures accepted == old(accepted) + Route([a], old(source), server, old(nextId))
      ensures Views(queue) == old(Views(queue)) + Route([a], old(source), server, old(nextId))
      ensures wire == old(wire)
      ensures source == SourceAfter([a], old(source), server)
      ensures forall p :: p in queue ==> p in old(queue) || fresh(p)
    {
      RouteOne(a, source, server, nextId);
      if a.dropped {
        return;
      }
      var to;
      if a.from == server {
        to := source;
      } else {
        source := a.from;
        to := server;
      }
      hide Crapnet.Chained, Route, SourceAfter, Accounted;
      var p := new Packet(to, nextId, a.data);
      Accept(p);
    }

    /** Takes packet `k` out of the queue, sends it to the destination stored in it and frees it. */
    method Deliver(p: Packet, ghost k: nat)
      requires Valid() && k < |queue| && queue[k] == p
      modifies this`first, this`last, this`queue, this`wire, this`freed, Elements(queue)
      ensures Valid() && queue == Without(old(queue), k)
      ensures wire == old(wire) + [Record(p.id, p.sendTo, p.data)]
      ensures freed == old(freed) + {p}
    {
      AccountedSent(queue, accepted, wire, freed, k);
      hide Accounted, Linked, NoRepeats;
      Unlink(p, k);
      wire := wire + [p.View()];
      freed := freed + {p};
    }

    /** One pass over the queue: the packets that are due leave in order, the others stay in order. */
    method Scan(due: nat -> bool)
      requires Valid()
      modifies this`first, this`last, this`queue, this`wire, this`freed, Elements(queue)
      ensures Valid()
      ensures wire == old(wire) + Select(Views(old(queue)), due, true)
      ensures Views(queue) == Select(Views(old(queue)), due, false)
      ensures forall p :: p in old(queue) ==> p in queue || p in freed
      ensures forall p :: p in queue ==> p in old(queue)
    {
      hide Crapnet.Chained, Accounted, Scanned, Select, Nth;
      ghost var q0 := queue;
      ghost var kept: seq<Packet> := [];
      ghost var j := 0;
      var pNext := first;
      ScanStarts(q0, freed, due);
      assert wire[|old(wire)|..] == [];
      FirstInQueue();
      while pNext != null
        invariant Valid() && |kept| <= |queue| && pNext == Nth(queue, |kept|)
        invariant Elements(queue) <= Elements(q0)
        invariant old(wire) <= wire && Scanned(q0, j, kept, queue, wire[|old(wire)|..], freed, due)
        decreases |q0| - j
      {
        label Round:
        var p := pNext;
        NextInQueue(|kept|);
        pNext := p.next;
        ScanNext(q0, j, kept, queue, wire[|old(wire)|..], freed, due);
        if due(p.id) {
          NthWithout(queue, |kept|, |kept|);
          Deliver(p, |kept|);
          assert wire[|old(wire)|..] == old@Round(wire)[|old(wire)|..] + [p.View()];
        } else {
          kept := kept + [p];
        }
        j := j + 1;
      }
      ScanEnds(q0, j, kept, queue, wire[|old(wire)|..], freed, due);
    }

    lemma FirstInQueue()
      requires Valid()
      ensures first == Nth(queue, 0)
    {
    }

    lemma NextInQueue(k: nat)
      requires Valid() && Nth(queue, k) != null
      ensures k < |queue| && queue[k] == Nth(queue, k) && queue[k].next == Nth(queue, k + 1)
    {
      assert LinkedAt(queue, k);
    }

    /** Takes every datagram that is waiting. */
    method ReceiveAll(arrivals: seq<Arrival>)
      requires Valid()
      modifies this`first, this`last, this`queue, this`accepted, this`nextId, this`source, Elements(queue)
      ensures Valid()
      ensures accepted == old(accepted) + Route(arrivals, old(source), server, old(nextId))
      ensures Views(queue) == old(Views(queue)) + Route(arrivals, old(source), server, old(nextId))
      ensures wire == old(wire)
      ensures source == SourceAfter(arrivals, old(source), server)
      ensures forall p :: p in queue ==> p in old(queue) || fresh(p)
    {
      hide Crapnet.Chained, Route, SourceAfter, Accounted;
      NoRoute(source, server, nextId);
      for k := 0 to |arrivals|
        invariant Valid()
        invariant accepted == old(accepted) + Route(arrivals[..k], old(source), server, old(nextId))
        invariant Views(queue) == old(Views(queue)) + Route(arrivals[..k], old(source), server, old(nextId))
        invariant wire == old(wire)
        invariant source == SourceAfter(arrivals[..k], old(source), server)
        invariant forall p :: p in queue ==> p in old(queue) || fresh(p)
      {
        RouteAppend(arrivals[..k], [arrivals[k]], old(source), server, old(nextId));
        assert arrivals[..k + 1] == arrivals[..k] + [arrivals[k]];
        Receive(arrivals[k]);
      }
      assert arrivals[..|arrivals|] == arrivals;
    }
  }

  /** One turn of the outer loop: the datagrams that have come in, and which queued packets have waited long enough. */
  datatype Round = Round(arrivals: seq<Arrival>, due: nat -> bool)

  function Arrivals(rounds: seq<Round>): seq<Arrival> {
    if rounds == [] then [] else Arrivals(rounds[..|rounds| - 1]) + rounds[|rounds| - 1].arrivals
  }

  /** What has been sent after these rounds: in each of them, whatever is due of the queue. */
  function WireAfter(rounds: seq<Round>, source: Addr, server: Addr): seq<Record>
    decreases |rounds|, 1
  {
    if rounds == [] then []
    else
      var m := |rounds| - 1;
      WireAfter(rounds[..m], source, server) + Select(Waiting(rounds, source, server), rounds[m].due, true)
  }

  /** What is still queued. */
  function QueueAfter(rounds: seq<Round>, source: Addr, server: Addr): seq<Record>
    decreases |rounds|, 1
  {
    if rounds == [] then []
    else Select(Waiting(rounds, source, server), rounds[|rounds| - 1].due, false)
  }

  /** The queue in the last of these rounds, when its datagrams are in and nothing has been sent. */
  function Waiting(rounds: seq<Round>, source: Addr, server: Addr): seq<Record>
    requires rounds != []
    decreases |rounds|, 0
  {
    var m := |rounds| - 1;
    var before := Arrivals(rounds[..m]);
    QueueAfter(rounds[..m], source, server) +
    Route(rounds[m].arrivals, SourceAfter(before, source, server), server, |Route(before, source, server, 0)|)
  }

  predicate Ascending(rs: seq<Record>) {
    forall i, j :: 0 <= i < j < |rs| ==> rs[i].id < rs[j].id
  }

  lemma {:induction false} SelectFilters(rs: seq<Record>, due: nat -> bool, wanted: bool)
    ensures forall x :: x in Select(rs, due, wanted) <==> x in rs && due(x.id) == wanted
    ensures Ascending(rs) ==> Ascending(Select(rs, due, wanted))
  {
    if rs != [] {
      var n := |rs| - 1;
      SelectFilters(rs[..n], due, wanted);
      SelectLast(rs[..n], rs[n], due, wanted);
      hide Select;
      assert rs == rs[..n] + [rs[n]];
      if Ascending(rs) {
        assert forall x :: x in Select(rs[..n], due, wanted) ==> x in rs[..n];
        AscendingNext(Select(rs[..n], due, wanted), rs[n]);
      }
    }
  }

  lemma SelectLast(rs: seq<Record>, last: Record, due: nat -> bool, wanted: bool)
    ensures Select(rs + [last], due, wanted) == Select(rs, due, wanted) + if due(last.id) == wanted then [last] else []
  {
    assert (rs + [last])[..|rs|] == rs;
  }

  lemma AscendingNext(rs: seq<Record>, last: Record)
    requires Ascending(rs) && forall x :: x in rs ==> x.id < last.id
    ensures Ascending(rs + [last])
  {
  }

  lemma {:induction false} RouteNumbers(arrivals: seq<Arrival>, source: Addr, server: Addr, id: nat)
    ensures var rs := Route(arrivals, source, server, id); forall i :: 0 <= i < |rs| ==> rs[i].id == id + i
  {
    hide Route, SourceAfter;
    if arrivals == [] {
      NoRoute(source, server, id);
    } else {
      var a, rest := arrivals[0], arrivals[1..];
      RouteFirst(arrivals, source, server, id);
      assert arrivals[..1] == [a];
      RouteOne(a, source, server, id);
      if a.dropped {
        RouteNumbers(rest, source, server, id);
      } else {
        var source' := if a.from == server then source else a.from;
        RouteNumbers(rest, source', server, id + 1);
        var r := Record(id, if a.from == server then source else server, a.data);
        assert Route(arrivals, source, server, id) == [r] + Route(rest, source', server, id + 1);
      }
    }
  }

  /** The queue holds what was accepted and has not been sent, in the order of arrival. */
  ghost predicate QueueIsRest(acc: seq<Record>, wire: seq<Record>, queue: seq<Record>) {
    && Numbered(acc) && Ascending(queue)
    && (forall x :: x in wire ==> x in acc)
    && (forall x :: x in queue <==> x in acc && x !in wire)
  }

  /** A pass sends, in the order of arrival, exactly what has been accepted, not yet sent, and is due. */
  ghost predicate SendsDue(acc: seq<Record>, before: seq<Record>, after: seq<Record>, due: nat -> bool) {
    && before <= after && Ascending(after[|before|..])
    && forall x :: x in after[|before|..] <==> x in acc && x !in before && due(x.id)
  }

  lemma PassSendsDue(acc: seq<Record>, wire: seq<Record>, queue: seq<Record>, due: nat -> bool)
    requires QueueIsRest(acc, wire, queue)
    ensures var after := wire + Select(queue, due, true);
            SendsDue(acc, wire, after, due) && QueueIsRest(acc, after, Select(queue, due, false))
  {
    hide Select;
    SelectFilters(queue, due, true);
    SelectFilters(queue, due, false);
    var sent := Select(queue, due, true);
    assert (wire + sent)[|wire|..] == sent;
  }

  lemma ArrivalsQueue(acc: seq<Record>, wire: seq<Record>, queue: seq<Record>, more: seq<Record>)
    requires QueueIsRest(acc, wire, queue) && forall i :: 0 <= i < |more| ==> more[i].id == |acc| + i
    ensures QueueIsRest(acc + more, wire, queue + more)
  {
    forall x | x in queue ensures x.id < |acc| {
      assert x in acc;
    }
    forall x | x in wire ensures x.id < |acc| {
      assert x in acc;
    }
  }

  lemma {:induction false} QueueFollows(rounds: seq<Round>, source: Addr, server: Addr)
    ensures var acc := Route(Arrivals(rounds), source, server, 0);
            QueueIsRest(acc, WireAfter(rounds, source, server), QueueAfter(rounds, source, server))
    ensures rounds != [] ==> var m := |rounds| - 1;
            SendsDue(Route(Arrivals(rounds), source, server, 0), WireAfter(rounds[..m], source, server),
                     WireAfter(rounds, source, server), rounds[m].due)
    decreases |rounds|
  {
    hide Route, SourceAfter, Select, QueueIsRest, SendsDue;
    if rounds == [] {
      NoRoute(source, server, 0);
      NothingYet();
    } else {
      var m := |rounds| - 1;
      var before := Arrivals(rounds[..m]);
      var acc, src := Route(before, source, server, 0), SourceAfter(before, source, server);
      QueueFollows(rounds[..m], source, server);
      RouteAppend(before, rounds[m].arrivals, source, server, 0);
      RouteNumbers(rounds[m].arrivals, src, server, |acc|);
      ArrivalsQueue(acc, WireAfter(rounds[..m], source, server), QueueAfter(rounds[..m], source, server),
                    Route(rounds[m].arrivals, src, server, |acc|));
      PassSendsDue(Route(Arrivals(rounds), source, server, 0), WireAfter(rounds[..m], source, server),
                   Waiting(rounds, source, server), rounds[m].due);
    }
  }

  lemma NothingYet()
    ensures QueueIsRest([], [], [])
  {
  }

  /** Every round sends, in the order of arrival, what is due of everything accepted so far and not yet sent. */
  lemma RoundSends(rounds: seq<Round>, source: Addr, server: Addr, k: nat)
    requires k < |rounds|
    ensures SendsDue(Route(Arrivals(rounds[..k + 1]), source, server, 0), WireAfter(rounds[..k], source, server),
                     WireAfter(rounds[..k + 1], source, server), rounds[k].due)
  {
    hide SendsDue;
    assert rounds[..k + 1][..k] == rounds[..k];
    QueueFollows(rounds[..k + 1], source, server);
  }

  /**
    * Whatever comes in and however long each packet waits, the packets accepted are exactly those sent and those
    * still queued, each sent at most once and to the destination it was given on arrival.
    */
  method Run(source: Addr, server: Addr, rounds: seq<Round>) returns (c: Crapnet)
    ensures c.Valid()
    ensures c.accepted == Route(Arrivals(rounds), source, server, 0)
    ensures c.wire == WireAfter(rounds, source, server) && Views(c.queue) == QueueAfter(rounds, source, server)
    ensures QueueIsRest(c.accepted, c.wire, Views(c.queue))
    ensures Numbered(c.accepted) && multiset(c.accepted) == multiset(c.wire) + multiset(Views(c.queue))
  {
    c := new Crapnet(source, server);
    hide Crapnet.Chained, Route, SourceAfter, Accounted, Select, QueueIsRest;
    NoRoute(source, server, 0);
    for k := 0 to |rounds|
      invariant fresh(c) && (forall p :: p in c.queue ==> fresh(p)) && c.server == server
      invariant c.Valid()
      invariant c.accepted == Route(Arrivals(rounds[..k]), source, server, 0)
      invariant c.source == SourceAfter(Arrivals(rounds[..k]), source, server)
      invariant c.wire == WireAfter(rounds[..k], source, server)
      invariant Views(c.queue) == QueueAfter(rounds[..k], source, server)
    {
      var r := rounds[k];
      RouteAppend(Arrivals(rounds[..k]), r.arrivals, source, server, 0);
      assert rounds[..k + 1][..k] == rounds[..k];
      c.ReceiveAll(r.arrivals);
      c.Scan(r.due);
    }
    assert rounds[..|rounds|] == rounds;
    QueueFollows(rounds, source, server);
    AccountedMeans(c.queue, c.accepted, c.wire, c.freed);
  }

  lemma AccountedMeans(q: seq<Packet>, accepted: seq<Record>, wire: seq<Record>, freed: set<Packet>)
    requires Accounted(q, accepted, wire, freed)
    ensures Numbered(accepted) && multiset(accepted) == multiset(wire) + multiset(Views(q))
  {
  }

  /** No packet is sent twice. */
  lemma SentOnce(accepted: seq<Record>, wire: seq<Record>, queued: multiset<Record>, i: nat, j: nat)
    requires Numbered(accepted) && multiset(accepted) == multiset(wire) + queued && i < j < |wire|
    ensures wire[i].id != wire[j].id && wire[i] in accepted && wire[i] !in queued
  {
    NumberedOnce(accepted, wire[i]);
    NumberedOnce(accepted, wire[j]);
    assert wire[i] in multiset(wire) && wire[j] in multiset(wire);
    assert wire[i] in multiset(accepted) && wire[j] in multiset(accepted);
    assert wire == wire[..j] + [wire[j]] + wire[j + 1..];
    assert wire[i] in multiset(wire[..j]);
  }

  lemma {:induction false} NumberedOnce(accepted: seq<Record>, r: Record)
    requires Numbered(accepted)
    ensures multiset(accepted)[r] <= 1
    ensures r in accepted ==> r.id < |accepted| && accepted[r.id] == r
  {
    if accepted == [] {
    } else {
      var n := |accepted| - 1;
      NumberedOnce(accepted[..n], r);
      assert accepted == accepted[..n] + [accepted[n]];
    }
  }
}
