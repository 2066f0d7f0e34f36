/** The forwarding switch of src/vswitch.cpp and its MAC table: frames are learned from, forwarded now or when
    they are due, and every copy is attempted once. The clock, what arrives and what the socket accepts are
    inputs. */
module VSwitchModel {
  import opened Arith
  import opened Durations
  import opened Words
  import opened Sequences
  import opened Results
  import opened Packets
  import opened PacketParser
  import opened FaultEngineModel

  const IDLE_BUDGET := 250

  datatype Endpoint = Endpoint(address: u32, port: u16)

  datatype ScheduledDelivery = ScheduledDelivery(due: int, frame: seq<u8>, destination: Endpoint)

  /** A copy handed to the socket, and when. */
  datatype Attempt = Attempt(copy: ScheduledDelivery, at: int)

  type MacTable = map<Mac, Endpoint>

  datatype Metrics = Metrics(
    receivedPackets: nat,
    receivedBytes: nat,
    forwardedPackets: nat,
    forwardedBytes: nat,
    broadcastPackets: nat,
    unknownUnicastPackets: nat,
    droppedPackets: nat,
    malformedPackets: nat,
    learnedMacs: nat)

  const NO_METRICS := Metrics(0, 0, 0, 0, 0, 0, 0, 0, 0)

  // ---- copies ----

  /** The copies of a frame for one destination, one for each delivery time. */
  function Copies(frame: seq<u8>, destination: Endpoint, times: seq<int>): (copies: seq<ScheduledDelivery>)
    ensures |copies| == |times|
  {
    seq(|times|, i requires 0 <= i < |times| => ScheduledDelivery(times[i], frame, destination))
  }

  function CopiesToAll(frame: seq<u8>, destinations: seq<Endpoint>, times: seq<int>): seq<ScheduledDelivery> {
    if destinations == [] then []
    else
      CopiesToAll(frame, destinations[..|destinations| - 1], times)
      + Copies(frame, destinations[|destinations| - 1], times)
  }

  /** Where copies go: those due are attempted at once, the others wait. */
  datatype Queue = Queue(pending: seq<ScheduledDelivery>, attempts: seq<Attempt>)

  function Placed(q: Queue, copy: ScheduledDelivery, now: int): Queue {
    if copy.due <= now then q.(attempts := q.attempts + [Attempt(copy, now)])
    else q.(pending := q.pending + [copy])
  }

  function PlacedAll(q: Queue, copies: seq<ScheduledDelivery>, now: int): Queue {
    if copies == [] then q else Placed(PlacedAll(q, copies[..|copies| - 1], now), copies[|copies| - 1], now)
  }

  /** The copies due, in order. */
  function Due(pending: seq<ScheduledDelivery>, now: int): seq<ScheduledDelivery> {
    if pending == [] then []
    else
      var last := pending[|pending| - 1];
      Due(pending[..|pending| - 1], now) + if last.due <= now then [last] else []
  }

  /** The copies still to come, in order. */
  function Later(pending: seq<ScheduledDelivery>, now: int): seq<ScheduledDelivery> {
    if pending == [] then []
    else
      var last := pending[|pending| - 1];
      Later(pending[..|pending| - 1], now) + if last.due <= now then [] else [last]
  }

  function Attempts(copies: seq<ScheduledDelivery>, now: int): (attempts: seq<Attempt>)
    ensures |attempts| == |copies|
  {
    seq(|copies|, i requires 0 <= i < |copies| => Attempt(copies[i], now))
  }

  function CopiesOf(attempts: seq<Attempt>): (copies: seq<ScheduledDelivery>)
    ensures |copies| == |attempts|
  {
    seq(|attempts|, i requires 0 <= i < |attempts| => attempts[i].copy)
  }

  // ---- what every run keeps ----

  /** Every copy ever scheduled is pending or was attempted, exactly once; none was attempted early. */
  ghost predicate Accounted(scheduled: seq<ScheduledDelivery>, q: Queue) {
    && multiset(scheduled) == multiset(q.pending) + multiset(CopiesOf(q.attempts))
    && forall i | 0 <= i < |q.attempts| :: q.attempts[i].copy.due <= q.attempts[i].at
  }

  lemma CopiesOfNext(attempts: seq<Attempt>, more: seq<Attempt>)
    ensures CopiesOf(attempts + more) == CopiesOf(attempts) + CopiesOf(more)
  {
  }

  lemma PlacedAccounted(scheduled: seq<ScheduledDelivery>, q: Queue, copy: ScheduledDelivery, now: int)
    requires Accounted(scheduled, q)
    ensures Accounted(scheduled + [copy], Placed(q, copy, now))
  {
    CopiesOfNext(q.attempts, [Attempt(copy, now)]);
    assert CopiesOf([Attempt(copy, now)]) == [copy];
  }

  lemma {:induction false} AllAccounted(scheduled: seq<ScheduledDelivery>, q: Queue, copies: seq<ScheduledDelivery>,
                                        now: int)
    requires Accounted(scheduled, q)
    ensures Accounted(scheduled + copies, PlacedAll(q, copies, now))
    decreases |copies|
  {
    hide Accounted, Placed;
    if copies == [] {
      assert scheduled + copies == scheduled;
    } else {
      var front, last := copies[..|copies| - 1], copies[|copies| - 1];
      AllAccounted(scheduled, q, front, now);
      PlacedAccounted(scheduled + front, PlacedAll(q, front, now), last, now);
      assert scheduled + front + [last] == scheduled + copies;
    }
  }

  lemma {:induction false} Partitioned(pending: seq<ScheduledDelivery>, now: int)
    ensures multiset(pending) == multiset(Due(pending, now)) + multiset(Later(pending, now))
    ensures forall i | 0 <= i < |Due(pending, now)| :: Due(pending, now)[i].due <= now
    ensures forall i | 0 <= i < |Later(pending, now)| :: Later(pending, now)[i].due > now
  {
    hide Due, Later;
    NothingPartitioned(now);
    if pending != [] {
      var front, last := pending[..|pending| - 1], pending[|pending| - 1];
      Partitioned(front, now);
      PartitionNext(front, last, now);
      assert pending == front + [last];
    }
  }

  lemma NothingPartitioned(now: int)
    ensures Due([], now) == [] && Later([], now) == []
  {
  }

  lemma PartitionNext(front: seq<ScheduledDelivery>, last: ScheduledDelivery, now: int)
    ensures Due(front + [last], now) == Due(front, now) + if last.due <= now then [last] else []
    ensures Later(front + [last], now) == Later(front, now) + if last.due <= now then [] else [last]
  {
    assert (front + [last])[..|front|] == front;
  }

  /** Draining attempts what is due, each once, and keeps the rest in order. */
  lemma DrainAccounted(scheduled: seq<ScheduledDelivery>, q: Queue, now: int)
    requires Accounted(scheduled, q)
    ensures Accounted(scheduled, Queue(Later(q.pending, now), q.attempts + Attempts(Due(q.pending, now), now)))
  {
    hide Due, Later;
    var due := Due(q.pending, now);
    Partitioned(q.pending, now);
    CopiesOfNext(q.attempts, Attempts(due, now));
    assert CopiesOf(Attempts(due, now)) == due;
  }

  /** What waits is in the order it was scheduled, whatever was drained in between. */
  ghost predicate InOrderOf(part: seq<ScheduledDelivery>, whole: seq<ScheduledDelivery>)
    decreases |whole|
  {
    if part == [] then true
    else if whole == [] then false
    else if part[|part| - 1] == whole[|whole| - 1] && InOrderOf(part[..|part| - 1], whole[..|whole| - 1]) then true
    else InOrderOf(part, whole[..|whole| - 1])
  }

  lemma {:induction false} OrderNext(part: seq<ScheduledDelivery>, whole: seq<ScheduledDelivery>,
                                     copy: ScheduledDelivery)
    requires InOrderOf(part, whole)
    ensures InOrderOf(part, whole + [copy]) && InOrderOf(part + [copy], whole + [copy])
  {
    var more, longer := whole + [copy], part + [copy];
    assert more[..|whole|] == whole && longer[..|part|] == part;
    assert more[|more| - 1] == copy == longer[|longer| - 1];
    assert InOrderOf(part, more);
    assert InOrderOf(longer, more);
  }

  lemma {:induction false} LaterInOrder(pending: seq<ScheduledDelivery>, whole: seq<ScheduledDelivery>, now: int)
    requires InOrderOf(pending, whole)
    ensures InOrderOf(Later(pending, now), whole)
    decreases |whole|
  {
    hide Later;
    NothingPartitioned(now);
    if pending != [] {
      var front, last := whole[..|whole| - 1], whole[|whole| - 1];
      var first, next := pending[..|pending| - 1], pending[|pending| - 1];
      assert whole == front + [last] && pending == first + [next];
      if next == last && InOrderOf(first, front) {
        LaterInOrder(first, front, now);
        OrderNext(Later(first, now), front, last);
        PartitionNext(first, next, now);
        assert Later(first, now) + [] == Later(first, now);
      } else {
        LaterInOrder(pending, front, now);
        OrderNext(Later(pending, now), front, last);
      }
    }
  }

  // ---- learning ----

  /** A frame that was neither malformed nor blocked: whose it was, and where it came from. */
  datatype Sighting = Sighting(mac: Mac, endpoint: Endpoint)

  function TableOf(sightings: seq<Sighting>): MacTable {
    if sightings == [] then map[]
    else
      var last := sightings[|sightings| - 1];
      TableOf(sightings[..|sightings| - 1])[last.mac := last.endpoint]
  }

  /** The table holds every address seen, where it was seen last, and no other. */
  lemma {:induction false} TableIsLatest(sightings: seq<Sighting>, mac: Mac)
    ensures mac in TableOf(sightings) <==> exists i :: 0 <= i < |sightings| && sightings[i].mac == mac
    ensures mac in TableOf(sightings) ==> exists i :: IsLatest(sightings, mac, TableOf(sightings)[mac], i)
  {
    if sightings != [] {
      var front, last := sightings[..|sightings| - 1], sightings[|sightings| - 1];
      TableIsLatest(front, mac);
      assert forall i | 0 <= i < |front| :: sightings[i] == front[i];
      assert sightings[|front|] == last;
      if last.mac == mac {
        assert IsLatest(sightings, mac, last.endpoint, |sightings| - 1);
      } else if mac in TableOf(front) {
        var i :| IsLatest(front, mac, TableOf(front)[mac], i);
        assert IsLatest(sightings, mac, TableOf(sightings)[mac], i);
        assert sightings[i].mac == mac;
      }
    }
  }

  /** Sighting `i` is the last one of an address. */
  predicate IsLatest(sightings: seq<Sighting>, mac: Mac, endpoint: Endpoint, i: int) {
    && 0 <= i < |sightings| && sightings[i] == Sighting(mac, endpoint)
    && forall j | i < j < |sightings| :: sightings[j].mac != mac
  }

  /** An order in which all the stations but one are served. */
  ghost predicate AllBut(order: seq<Mac>, table: MacTable, source: Mac)
    ensures AllBut(order, table, source) ==> forall i | 0 <= i < |order| :: order[i] in table
  {
    && (forall i, j | 0 <= i < j < |order| :: order[i] != order[j])
    && (forall mac :: mac in order <==> mac in table && mac != source)
  }

  function EndpointsOf(order: seq<Mac>, table: MacTable): (endpoints: seq<Endpoint>)
    requires forall i | 0 <= i < |order| :: order[i] in table
    ensures |endpoints| == |order| && forall i | 0 <= i < |order| :: endpoints[i] == table[order[i]]
  {
    seq(|order|, i requires 0 <= i < |order| => table[order[i]])
  }

  /** The copies a frame is forwarded as: to the station its destination was seen at, or to all the others in
      `order` if it is a broadcast. */
  ghost function Forwarded(table: MacTable, order: seq<Mac>, frame: seq<u8>, times: seq<int>): seq<ScheduledDelivery>
    requires |frame| >= ETHERNET_HEADER_SIZE
  {
    var source, destination := MacAt(frame, 6), MacAt(frame, 0);
    if destination in table then Copies(frame, table[destination], times)
    else if destination == BROADCAST_MAC && AllBut(order, table, source)
    then CopiesToAll(frame, EndpointsOf(order, table), times)
    else []
  }

  // ---- what the socket took ----

  function Taken(accepts: nat -> bool, calls: nat): nat {
    if calls == 0 then 0 else Taken(accepts, calls - 1) + if accepts(calls - 1) then 1 else 0
  }

  function TakenBytes(accepts: nat -> bool, attempts: seq<Attempt>): nat {
    if attempts == [] then 0
    else
      var n := |attempts| - 1;
      TakenBytes(accepts, attempts[..n]) + if accepts(n) then |attempts[n].copy.frame| else 0
  }

  // ---- sleeping ----

  function Budget(interval: int, pending: seq<ScheduledDelivery>, now: int): int {
    if pending == [] then interval
    else
      Min(Budget(interval, pending[..|pending| - 1], now), Milliseconds(pending[|pending| - 1].due - now))
  }

  /** The loop never sleeps past a copy that is due, nor past the gate's interval. */
  lemma {:induction false} NeverSleepsLate(interval: int, pending: seq<ScheduledDelivery>, now: int)
    ensures var budget := Max(0, Budget(interval, pending, now));
            && budget <= Max(0, interval)
            && forall i | 0 <= i < |pending| ::
                 budget * NANOSECONDS_PER_MILLISECOND <= Max(0, pending[i].due - now)
  {
    hide Milliseconds;
    if pending != [] {
      var front, last := pending[..|pending| - 1], pending[|pending| - 1];
      NeverSleepsLate(interval, front, now);
      WholeIsLess(last.due - now);
      var budget := Max(0, Budget(interval, pending, now));
      assert budget <= Max(0, Budget(interval, front, now)) && budget <= Max(0, Milliseconds(last.due - now));
      forall i | 0 <= i < |pending|
        ensures budget * NANOSECONDS_PER_MILLISECOND <= Max(0, pending[i].due - now)
      {
        assert i < |front| ==> pending[i] == front[i];
      }
    }
  }

  lemma WholeIsLess(duration: int)
    ensures Max(0, Milliseconds(duration)) * NANOSECONDS_PER_MILLISECOND <= Max(0, duration)
  {
  }

  class VSwitch {
    const accepts: nat -> bool    // whether the socket takes its n-th datagram
    const interval: int           // how long the loop may sleep, in milliseconds
    var macTable: MacTable
    var metrics: Metrics
    var pending: seq<ScheduledDelivery>
    var calls: nat                // datagrams handed to the socket

    ghost var scheduled: seq<ScheduledDelivery>
    ghost var attempts: seq<Attempt>
    ghost var sightings: seq<Sighting>
    ghost var blocked: nat        // frames the gate dropped
    ghost var known: nat          // frames for a known address
    ghost var refused: nat        // frames dropped before any copy was made

    ghost function State(): Queue
      reads this
    {
      Queue(pending, attempts)
    }

    /** The socket's books: every attempt is forwarded or dropped. */
    ghost predicate Books()
      reads this
    {
      && calls == |attempts|
      && metrics.forwardedPackets == Taken(accepts, calls) <= calls
      && metrics.forwardedBytes == TakenBytes(accepts, attempts)
      && metrics.droppedPackets == refused + (calls - metrics.forwardedPackets)
    }

    ghost predicate Valid()
      reads this
    {
      && Books()
      && Accounted(scheduled, State()) && InOrderOf(pending, scheduled)
      && macTable == TableOf(sightings) && metrics.learnedMacs == |macTable|
      && refused == metrics.malformedPackets + blocked + metrics.unknownUnicastPackets
      && metrics.receivedPackets
         == metrics.malformedPackets + blocked + known + metrics.broadcastPackets + metrics.unknownUnicastPackets
    }

    constructor (accepts: nat -> bool, gateInterval: Option<int>)
      ensures Valid() && this.accepts == accepts && interval == gateInterval.Or(IDLE_BUDGET)
      ensures pending == [] && scheduled == [] && attempts == [] && sightings == []
    {
      this.accepts := accepts;
      interval := gateInterval.Or(IDLE_BUDGET);
      macTable, metrics, pending, calls := map[], NO_METRICS, [], 0;
      scheduled, attempts, sightings, blocked, known, refused := [], [], [], 0, 0, 0;
    }

    method Deliver(copy: ScheduledDelivery, now: int)
      requires Books()
      modifies this`metrics, this`calls, this`attempts
      ensures Books() && attempts == old(attempts) + [Attempt(copy, now)]
      ensures SameButForwarding(old(metrics), metrics)
    {
      assert (attempts + [Attempt(copy, now)])[..|attempts|] == attempts;
      attempts := attempts + [Attempt(copy, now)];
      if accepts(calls) {
        metrics := metrics.(forwardedPackets := metrics.forwardedPackets + 1,
                            forwardedBytes := metrics.forwardedBytes + |copy.frame|);
      } else {
        metrics := metrics.(droppedPackets := metrics.droppedPackets + 1);
      }
      calls := calls + 1;
    }

    /** Each copy at its own time: now if it is due, else later. */
    method Schedule(frame: seq<u8>, destination: Endpoint, times: seq<int>, now: int)
      requires Books()
      modifies this`metrics, this`calls, this`attempts, this`pending, this`scheduled
      ensures Books() && SameButForwarding(old(metrics), metrics)
      ensures scheduled == old(scheduled) + Copies(frame, destination, times)
      ensures State() == PlacedAll(old(State()), Copies(frame, destination, times), now)
    {
      hide Taken, TakenBytes;
      ghost var copies := Copies(frame, destination, times);
      assert copies[..0] == [];
      for index := 0 to |times|
        invariant Books() && SameButForwarding(old(metrics), metrics)
        invariant scheduled == old(scheduled) + copies[..index]
        invariant State() == PlacedAll(old(State()), copies[..index], now)
      {
        assert copies[..index + 1][..index] == copies[..index];
        var copy := ScheduledDelivery(times[index], frame, destination);
        assert copy == copies[index];
        scheduled := scheduled + [copy];
        if copy.due <= now {
          Deliver(copy, now);
        } else {
          pending := pending + [copy];
        }
      }
      assert copies[..|times|] == copies;
    }

    /** Copies for every station but the sender, in whatever order the table is walked. */
    method ScheduleToOthers(frame: seq<u8>, source: Mac, times: seq<int>, now: int) returns (ghost order: seq<Mac>)
      requires Books()
      modifies this`metrics, this`calls, this`attempts, this`pending, this`scheduled
      ensures Books() && SameButForwarding(old(metrics), metrics)
      ensures AllBut(order, macTable, source)
      ensures var copies := CopiesToAll(frame, EndpointsOf(order, macTable), times);
              scheduled == old(scheduled) + copies && State() == PlacedAll(old(State()), copies, now)
    {
      hide PlacedAll, Taken, TakenBytes, Copies, CopiesToAll, SameButForwarding, Books;
      order := [];
      var left := macTable.Keys - {source};
      ghost var all := left;
      ghost var endpoints: seq<Endpoint> := [];
      NothingPlaced(old(State()), now);
      NoCopies(frame, times);
      Unforwarded(metrics);
      while left != {}
        invariant Books() && SameButForwarding(old(metrics), metrics) && left <= all <= macTable.Keys
        invariant forall i, j | 0 <= i < j < |order| :: order[i] != order[j]
        invariant forall mac :: mac in order <==> mac in all - left
        invariant |endpoints| == |order|
        invariant forall i | 0 <= i < |order| :: order[i] in macTable && endpoints[i] == macTable[order[i]]
        invariant scheduled == old(scheduled) + CopiesToAll(frame, endpoints, times)
        invariant State() == PlacedAll(old(State()), CopiesToAll(frame, endpoints, times), now)
      {
        var mac :| mac in left;
        assert mac !in order;
        ghost var before := metrics;
        Schedule(frame, macTable[mac], times, now);
        ForwardedTwice(old(metrics), before, metrics);
        ToOneMore(frame, endpoints, macTable[mac], times);
        PlacedConcat(old(State()), CopiesToAll(frame, endpoints, times), Copies(frame, macTable[mac], times), now);
        Assoc(old(scheduled), CopiesToAll(frame, endpoints, times), Copies(frame, macTable[mac], times));
        order, endpoints := order + [mac], endpoints + [macTable[mac]];
        left := left - {mac};
      }
      assert endpoints == EndpointsOf(order, macTable);
    }

    /** One frame: counted, and unless it is malformed or blocked, learned from and forwarded. */
    method ProcessFrame(frame: seq<u8>, sender: Endpoint, now: int, decision: FaultDecision)
      returns (ghost order: seq<Mac>)
      requires Valid()
      modifies this
      ensures Valid() && old(attempts) <= attempts && old(scheduled) <= scheduled
      ensures metrics.receivedPackets == old(metrics.receivedPackets) + 1
      ensures metrics.receivedBytes == old(metrics.receivedBytes) + |frame|
      ensures var stops := decision.dropped || decision.deliveries == [];
              if |frame| < ETHERNET_HEADER_SIZE then
                && metrics.malformedPackets == old(metrics.malformedPackets) + 1
                && State() == old(State()) && scheduled == old(scheduled) && sightings == old(sightings)
              else if stops then
                && blocked == old(blocked) + 1
                && State() == old(State()) && scheduled == old(scheduled) && sightings == old(sightings)
              else
                var source, destination := MacAt(frame, 6), MacAt(frame, 0);
                && sightings == old(sightings) + [Sighting(source, sender)]
                && macTable == old(macTable)[source := sender]
                && var copies := Forwarded(macTable, order, frame, decision.deliveries);
                && (destination !in macTable && destination == BROADCAST_MAC ==> AllBut(order, macTable, source))
                && scheduled == old(scheduled) + copies && State() == PlacedAll(old(State()), copies, now)
    {
      hide PlacedAll, Taken, TakenBytes, Forwarded, Accounted, AllBut, InOrderOf, TableOf, MacAt;
      order := [];
      metrics := metrics.(receivedPackets := metrics.receivedPackets + 1,
                          receivedBytes := metrics.receivedBytes + |frame|);
      if |frame| < ETHERNET_HEADER_SIZE {
        refused := refused + 1;
        metrics := metrics.(malformedPackets := metrics.malformedPackets + 1,
                            droppedPackets := metrics.droppedPackets + 1);
        return;
      }
      if decision.dropped || decision.deliveries == [] {
        blocked, refused := blocked + 1, refused + 1;
        metrics := metrics.(droppedPackets := metrics.droppedPackets + 1);
        return;
      }
      Learn(MacAt(frame, 6), sender);
      order := Forward(frame, decision.deliveries, now);
    }

    /** A frame that passed: to its destination if that is known, to all others if it is a broadcast. */
    method Forward(frame: seq<u8>, times: seq<int>, now: int) returns (ghost order: seq<Mac>)
      requires Books() && Accounted(scheduled, State()) && InOrderOf(pending, scheduled)
      requires |frame| >= ETHERNET_HEADER_SIZE
      requires refused == metrics.malformedPackets + blocked + metrics.unknownUnicastPackets
      requires metrics.receivedPackets
            == metrics.malformedPackets + blocked + known + metrics.broadcastPackets + metrics.unknownUnicastPackets + 1
      modifies this`metrics, this`calls, this`attempts, this`pending, this`scheduled, this`known, this`refused
      ensures Books() && Accounted(scheduled, State()) && InOrderOf(pending, scheduled)
      ensures refused == metrics.malformedPackets + blocked + metrics.unknownUnicastPackets
      ensures metrics.receivedPackets
           == metrics.malformedPackets + blocked + known + metrics.broadcastPackets + metrics.unknownUnicastPackets
      ensures metrics.learnedMacs == old(metrics.learnedMacs)
      ensures metrics.receivedPackets == old(metrics.receivedPackets)
      ensures metrics.receivedBytes == old(metrics.receivedBytes)
      ensures old(attempts) <= attempts && old(scheduled) <= scheduled
      ensures var source, destination := MacAt(frame, 6), MacAt(frame, 0);
              && var copies := Forwarded(macTable, order, frame, times);
              && (destination !in macTable && destination == BROADCAST_MAC ==> AllBut(order, macTable, source))
              && scheduled == old(scheduled) + copies && State() == PlacedAll(old(State()), copies, now)
    {
      hide PlacedAll, Taken, TakenBytes, Copies, Accounted, CopiesToAll, AllBut, InOrderOf;
      order := [];
      var source, destination := MacAt(frame, 6), MacAt(frame, 0);
      if destination in macTable {
        known := known + 1;
        Schedule(frame, macTable[destination], times, now);
        Kept(old(scheduled), old(State()), Copies(frame, macTable[destination], times), now);
      } else if destination == BROADCAST_MAC {
        metrics := metrics.(broadcastPackets := metrics.broadcastPackets + 1);
        order := ScheduleToOthers(frame, source, times, now);
        Kept(old(scheduled), old(State()), CopiesToAll(frame, EndpointsOf(order, macTable), times), now);
      } else {
        refused := refused + 1;
        metrics := metrics.(unknownUnicastPackets := metrics.unknownUnicastPackets + 1,
                            droppedPackets := metrics.droppedPackets + 1);
        NothingPlaced(old(State()), now);
      }
    }

    method Learn(source: Mac, sender: Endpoint)
      requires Books() && macTable == TableOf(sightings) && metrics.learnedMacs == |macTable|
      modifies this`macTable, this`metrics, this`sightings
      ensures Books() && macTable == TableOf(sightings) && metrics.learnedMacs == |macTable|
      ensures sightings == old(sightings) + [Sighting(source, sender)] && macTable == old(macTable)[source := sender]
      ensures metrics == old(metrics).(learnedMacs := metrics.learnedMacs)
    {
      hide Taken, TakenBytes;
      var isNew := source !in macTable;
      macTable := macTable[source := sender];
      sightings := sightings + [Sighting(source, sender)];
      if isNew {
        metrics := metrics.(learnedMacs := metrics.learnedMacs + 1);
        assert macTable.Keys == old(macTable).Keys + {source};
      } else {
        assert macTable.Keys == old(macTable).Keys;
      }
      assert |macTable| == |macTable.Keys| && |old(macTable)| == |old(macTable).Keys|;
    }

    /** Attempts the copies that are due, in order, and keeps the others, in order. */
    method DrainDue(now: int)
      requires Valid()
      modifies this`metrics, this`calls, this`attempts, this`pending
      ensures Valid() && SameButForwarding(old(metrics), metrics)
      ensures State() == Queue(Later(old(pending), now), old(attempts) + Attempts(Due(old(pending), now), now))
    {
      hide Due, Later, Accounted, InOrderOf, Taken, TakenBytes;
      var due, later := StablePartition(pending, now);
      for index := 0 to |due|
        invariant Books() && SameButForwarding(old(metrics), metrics)
        invariant attempts == old(attempts) + Attempts(due, now)[..index]
      {
        Deliver(due[index], now);
      }
      assert Attempts(due, now)[..|due|] == Attempts(due, now);
      pending := later;
      DrainAccounted(scheduled, old(State()), now);
      LaterInOrder(old(pending), scheduled, now);
    }

    method StablePartition(all: seq<ScheduledDelivery>, now: int)
      returns (due: seq<ScheduledDelivery>, later: seq<ScheduledDelivery>)
      ensures due == Due(all, now) && later == Later(all, now)
    {
      due, later := [], [];
      for index := 0 to |all|
        invariant due == Due(all[..index], now) && later == Later(all[..index], now)
      {
        assert all[..index + 1][..index] == all[..index];
        if all[index].due <= now {
          due := due + [all[index]];
        } else {
          later := later + [all[index]];
        }
      }
      assert all[..|all|] == all;
    }

    method WaitBudget(now: int) returns (budget: int)
      ensures budget == Max(0, Budget(interval, pending, now))
    {
      budget := interval;
      for index := 0 to |pending|
        invariant budget == Budget(interval, pending[..index], now)
      {
        assert pending[..index + 1][..index] == pending[..index];
        budget := Min(budget, Milliseconds(pending[index].due - now));
      }
      assert pending[..|pending|] == pending;
      budget := Max(0, budget);
    }

    /** One pass of the loop: what is due goes out, then a frame is handled if one came within the wait. */
    method Iterate(now: int, arrival: Option<Arrival>) returns (budget: int, ghost order: seq<Mac>)
      requires Valid()
      modifies this
      ensures Valid()
      ensures budget == Max(0, Budget(interval, Later(old(pending), now), now))
      ensures old(attempts) + Attempts(Due(old(pending), now), now) <= attempts && old(scheduled) <= scheduled
      ensures var drained := Queue(Later(old(pending), now), old(attempts) + Attempts(Due(old(pending), now), now));
              if arrival.None? || !arrival.value.Passes() then
                State() == drained && sightings == old(sightings) && scheduled == old(scheduled)
              else
                var a := arrival.value;
                var copies := Forwarded(macTable, order, a.frame, a.decision.deliveries);
                && sightings == old(sightings) + [Sighting(MacAt(a.frame, 6), a.sender)]
                && macTable == old(macTable)[MacAt(a.frame, 6) := a.sender]
                && (MacAt(a.frame, 0) !in macTable && MacAt(a.frame, 0) == BROADCAST_MAC ==>
                      AllBut(order, macTable, MacAt(a.frame, 6)))
                && scheduled == old(scheduled) + copies && State() == PlacedAll(drained, copies, a.at)
    {
      hide Due, Later, Accounted, InOrderOf, Taken, TakenBytes, PlacedAll, Forwarded, AllBut, Budget, TableOf, MacAt;
      order := [];
      DrainDue(now);
      budget := WaitBudget(now);
      if arrival.Some? {
        var a := arrival.value;
        order := ProcessFrame(a.frame, a.sender, a.at, a.decision);
      }
    }
  }

  /** A frame that arrived, when, and what the gate made of it. */
  datatype Arrival = Arrival(frame: seq<u8>, sender: Endpoint, at: int, decision: FaultDecision) {
    predicate Passes() {
      |frame| >= ETHERNET_HEADER_SIZE && !decision.dropped && decision.deliveries != []
    }
  }

  lemma NothingPlaced(q: Queue, now: int)
    ensures PlacedAll(q, [], now) == q
  {
  }

  lemma {:induction false} PlacedConcat(q: Queue, a: seq<ScheduledDelivery>, b: seq<ScheduledDelivery>, now: int)
    ensures PlacedAll(q, a + b, now) == PlacedAll(PlacedAll(q, a, now), b, now)
    decreases |b|
  {
    hide Placed;
    if b == [] {
      assert a + b == a;
    } else {
      PlacedConcat(q, a, b[..|b| - 1], now);
      assert (a + b)[..|a + b| - 1] == a + b[..|b| - 1];
    }
  }

  lemma NoCopies(frame: seq<u8>, times: seq<int>)
    ensures CopiesToAll(frame, [], times) == []
  {
  }

  lemma Unforwarded(m: Metrics)
    ensures SameButForwarding(m, m)
  {
  }

  lemma ForwardedTwice(a: Metrics, b: Metrics, c: Metrics)
    requires SameButForwarding(a, b) && SameButForwarding(b, c)
    ensures SameButForwarding(a, c)
  {
  }

  lemma ToOneMore(frame: seq<u8>, destinations: seq<Endpoint>, destination: Endpoint, times: seq<int>)
    ensures CopiesToAll(frame, destinations + [destination], times)
         == CopiesToAll(frame, destinations, times) + Copies(frame, destination, times)
  {
    hide Copies;
    assert (destinations + [destination])[..|destinations|] == destinations;
  }

  /** Placing new copies keeps the account and the order, and takes no attempt back. */
  lemma Kept(scheduled: seq<ScheduledDelivery>, q: Queue, copies: seq<ScheduledDelivery>, now: int)
    requires Accounted(scheduled, q) && InOrderOf(q.pending, scheduled)
    ensures var next := PlacedAll(q, copies, now);
            && Accounted(scheduled + copies, next) && InOrderOf(next.pending, scheduled + copies)
            && q.attempts <= next.attempts
  {
    hide Accounted, InOrderOf, PlacedAll;
    AllAccounted(scheduled, q, copies, now);
    OrderKept(scheduled, q, copies, now);
  }

  lemma {:induction false} OrderKept(scheduled: seq<ScheduledDelivery>, q: Queue, copies: seq<ScheduledDelivery>,
                                     now: int)
    requires InOrderOf(q.pending, scheduled)
    ensures InOrderOf(PlacedAll(q, copies, now).pending, scheduled + copies)
    ensures q.attempts <= PlacedAll(q, copies, now).attempts
    decreases |copies|
  {
    hide InOrderOf;
    if copies == [] {
      assert scheduled + copies == scheduled;
    } else {
      hide PlacedAll, Placed;
      var front, last := copies[..|copies| - 1], copies[|copies| - 1];
      OrderKept(scheduled, q, front, now);
      OnePlaced(scheduled + front, q, front, last, now);
      assert front + [last] == copies && scheduled + front + [last] == scheduled + copies;
    }
  }

  lemma OnePlaced(scheduled: seq<ScheduledDelivery>, q: Queue, front: seq<ScheduledDelivery>, last: ScheduledDelivery,
                  now: int)
    requires InOrderOf(PlacedAll(q, front, now).pending, scheduled)
    ensures InOrderOf(PlacedAll(q, front + [last], now).pending, scheduled + [last])
    ensures PlacedAll(q, front, now).attempts <= PlacedAll(q, front + [last], now).attempts
  {
    hide InOrderOf;
    assert (front + [last])[..|front|] == front;
    OrderNext(PlacedAll(q, front, now).pending, scheduled, last);
  }

  /** Only what delivering touches differs. */
  predicate SameButForwarding(before: Metrics, after: Metrics) {
    after == before.(forwardedPackets := after.forwardedPackets, forwardedBytes := after.forwardedBytes,
                     droppedPackets := after.droppedPackets)
  }

  // ---- broadcasts ----

  lemma {:induction false} CopiesCount(frame: seq<u8>, destinations: seq<Endpoint>, times: seq<int>)
    ensures |CopiesToAll(frame, destinations, times)| == |destinations| * |times|
    decreases |destinations|
  {
    hide Copies;
    if destinations != [] {
      CopiesCount(frame, destinations[..|destinations| - 1], times);
      assert (|destinations| - 1) * |times| + |times| == |destinations| * |times|;
    }
  }

  /** The address lookup comes before the broadcast test. A broadcast goes to every other station when nobody was
      seen sending from the broadcast address; and otherwise only if the one other station there is was seen where
      that sender was. */
  lemma BroadcastReachesAll(sightings: seq<Sighting>, order: seq<Mac>, frame: seq<u8>, times: seq<int>)
    requires |frame| >= ETHERNET_HEADER_SIZE && MacAt(frame, 0) == BROADCAST_MAC && times != []
    requires AllBut(order, TableOf(sightings), MacAt(frame, 6))
    ensures var table := TableOf(sightings);
            Forwarded(table, order, frame, times) == CopiesToAll(frame, EndpointsOf(order, table), times) <==>
            || (forall i | 0 <= i < |sightings| :: sightings[i].mac != BROADCAST_MAC)
            || (|order| == 1 && BROADCAST_MAC in table && table[order[0]] == table[BROADCAST_MAC])
  {
    var table := TableOf(sightings);
    TableIsLatest(sightings, BROADCAST_MAC);
    if BROADCAST_MAC in table {
      var endpoints, own := EndpointsOf(order, table), Copies(frame, table[BROADCAST_MAC], times);
      CopiesCount(frame, endpoints, times);
      if |order| == 1 {
        assert endpoints[..0] == [] && CopiesToAll(frame, [], times) == [];
        assert CopiesToAll(frame, endpoints, times) == Copies(frame, endpoints[0], times);
        assert own[0].destination == table[BROADCAST_MAC];
        assert Copies(frame, endpoints[0], times)[0].destination == endpoints[0];
      } else {
        OnlyOnce(|order|, |times|);
      }
    }
  }

  lemma OnlyOnce(m: nat, n: nat)
    requires n > 0 && m != 1
    ensures m * n != n
  {
    if m > 1 {
      assert m * n == n + (m - 1) * n;
    }
  }

  lemma TableNext(front: seq<Sighting>, last: Sighting)
    ensures TableOf(front + [last]) == TableOf(front)[last.mac := last.endpoint]
  {
    assert (front + [last])[..|front|] == front;
  }

  /** It does happen: once a frame came from the broadcast address, broadcasts go to its sender and nobody else. */
  lemma BroadcastToOne(frame: seq<u8>, times: seq<int>, first: Endpoint, second: Endpoint, third: Endpoint)
    requires |frame| >= ETHERNET_HEADER_SIZE && MacAt(frame, 0) == BROADCAST_MAC && MacAt(frame, 6) == 1
    requires times != [] && second != third
    ensures var table := TableOf([Sighting(2, second), Sighting(BROADCAST_MAC, third), Sighting(1, first)]);
            && AllBut([2, BROADCAST_MAC], table, 1)
            && Forwarded(table, [2, BROADCAST_MAC], frame, times) == Copies(frame, third, times)
            && forall i | 0 <= i < |times| ::
                 Forwarded(table, [2, BROADCAST_MAC], frame, times)[i].destination != second
  {
    var sightings := [Sighting(2, second), Sighting(BROADCAST_MAC, third), Sighting(1, first)];
    TableNext([], Sighting(2, second));
    TableNext([Sighting(2, second)], Sighting(BROADCAST_MAC, third));
    TableNext([Sighting(2, second), Sighting(BROADCAST_MAC, third)], Sighting(1, first));
    assert [] + [Sighting(2, second)] == [Sighting(2, second)];
    assert [Sighting(2, second)] + [Sighting(BROADCAST_MAC, third)]
        == [Sighting(2, second), Sighting(BROADCAST_MAC, third)];
    assert [Sighting(2, second), Sighting(BROADCAST_MAC, third)] + [Sighting(1, first)] == sightings;
    assert TableOf(sightings) == map[2 := second, BROADCAST_MAC := third, 1 := first];
  }

  /** After a drain nothing waits that was due, and after every pass the attempts so far stand. */
  lemma NothingOverdue(pending: seq<ScheduledDelivery>, now: int)
    ensures forall i | 0 <= i < |Later(pending, now)| :: Later(pending, now)[i].due > now
    ensures |Due(pending, now)| + |Later(pending, now)| == |pending|
  {
    hide Due, Later;
    Partitioned(pending, now);
    assert |multiset(pending)| == |pending|;
    assert |multiset(Due(pending, now))| == |Due(pending, now)|;
    assert |multiset(Later(pending, now))| == |Later(pending, now)|;
  }
}
