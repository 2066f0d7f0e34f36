/** What forwarding means copy by copy: which copies a frame becomes, which of them go at once, how long the loop may
    sleep, and what the socket has taken. */
module Forwarding {
  import opened Arith
  import opened Durations
  import opened Words
  import opened Packets
  import opened PacketParser
  import opened FrameBytes
  import opened VSwitchModel

  /** A frame for a known address becomes one copy for each delivery time, to where that address was seen; a broadcast
      becomes one for each time and each other station; a frame for any other address becomes none. */
  lemma ForwardedExactly(table: MacTable, order: seq<Mac>, frame: seq<u8>, times: seq<int>)
    requires |frame| >= 14 && AllBut(order, table, MacAt(frame, 6))
    ensures forall mac :: mac in order <==> mac in table && mac != Word48(frame, 6)
    ensures forall a, b | 0 <= a < b < |order| :: order[a] != order[b]
    ensures var copies, destination := Forwarded(table, order, frame, times), Word48(frame, 0);
            && (destination in table ==>
                  && |copies| == |times|
                  && forall k | 0 <= k < |times| ::
                       copies[k] == ScheduledDelivery(times[k], frame, table[destination]))
            && (destination !in table && destination == 0xffff_ffff_ffff ==>
                  && |copies| == |order| * |times|
                  && forall a, b | 0 <= a < |order| && 0 <= b < |times| ::
                       && 0 <= a * |times| + b < |copies|
                       && copies[a * |times| + b] == ScheduledDelivery(times[b], frame, table[order[a]]))
            && (destination !in table && destination != 0xffff_ffff_ffff ==> copies == [])
  {
    hide MacAt, Word48, CopiesToAll;
    MacBytes(frame, 0);
    MacBytes(frame, 6);
    var endpoints := EndpointsOf(order, table);
    CopiesCount(frame, endpoints, times);
    forall a, b | 0 <= a < |order| && 0 <= b < |times|
      ensures var copies := CopiesToAll(frame, endpoints, times);
              && 0 <= a * |times| + b < |copies|
              && copies[a * |times| + b] == ScheduledDelivery(times[b], frame, table[order[a]])
    {
      CopyAt(frame, endpoints, times, a, b);
    }
  }

  lemma {:induction false} CopyAt(frame: seq<u8>, destinations: seq<Endpoint>, times: seq<int>, a: nat, b: nat)
    requires a < |destinations| && b < |times|
    ensures a * |times| + b < |CopiesToAll(frame, destinations, times)|
    ensures CopiesToAll(frame, destinations, times)[a * |times| + b]
         == ScheduledDelivery(times[b], frame, destinations[a])
    decreases |destinations|
  {
    var front := destinations[..|destinations| - 1];
    CopiesCount(frame, front, times);
    if a < |front| {
      CopyAt(frame, front, times, a, b);
    }
  }

  // ---- now or later ----

  /** Placing copies attempts those that are due, now and in their order, and keeps the others in theirs: `due` and
      `later` are their places. */
  lemma PlacedExactly(q: Queue, copies: seq<ScheduledDelivery>, now: int) returns (due: seq<nat>, later: seq<nat>)
    ensures Splits(copies, now, due, later)
    ensures var next := PlacedAll(q, copies, now);
            && |next.attempts| == |q.attempts| + |due| && |next.pending| == |q.pending| + |later|
            && next.attempts[..|q.attempts|] == q.attempts && next.pending[..|q.pending|] == q.pending
            && (forall k | 0 <= k < |due| :: next.attempts[|q.attempts| + k] == Attempt(copies[due[k]], now))
            && (forall k | 0 <= k < |later| :: next.pending[|q.pending| + k] == copies[later[k]])
  {
    hide PlacedAll, Due, Later;
    due, later := SplitExactly(copies, now);
    PlacedIsSplit(q, copies, now);
  }

  /** The places of the copies due, and of the others, each in order. */
  ghost predicate Splits(copies: seq<ScheduledDelivery>, now: int, due: seq<nat>, later: seq<nat>)
  {
    && (forall k | 0 <= k < |due| :: due[k] < |copies|)
    && (forall k | 0 <= k < |later| :: later[k] < |copies|)
    && (forall i: nat :: i in due <==> i < |copies| && copies[i].due <= now)
    && (forall i: nat :: i in later <==> i < |copies| && copies[i].due > now)
    && (forall k, l | 0 <= k < l < |due| :: due[k] < due[l])
    && (forall k, l | 0 <= k < l < |later| :: later[k] < later[l])
  }

  /** Draining takes exactly the copies due and leaves exactly the others, in order. */
  lemma {:induction false} SplitExactly(copies: seq<ScheduledDelivery>, now: int)
    returns (due: seq<nat>, later: seq<nat>)
    ensures Splits(copies, now, due, later)
    ensures |Due(copies, now)| == |due| && forall k | 0 <= k < |due| :: Due(copies, now)[k] == copies[due[k]]
    ensures |Later(copies, now)| == |later| && forall k | 0 <= k < |later| :: Later(copies, now)[k] == copies[later[k]]
  {
    hide Due, Later;
    due, later := [], [];
    NothingPartitioned(now);
    if copies != [] {
      var last := |copies| - 1;
      var front := copies[..last];
      due, later := SplitExactly(front, now);
      PartitionNext(front, copies[last], now);
      assert copies == front + [copies[last]];
      SplitsNext(front, copies[last], now, due, later);
      if copies[last].due <= now {
        due := due + [last];
      } else {
        later := later + [last];
      }
    }
  }

  lemma SplitsNext(front: seq<ScheduledDelivery>, copy: ScheduledDelivery, now: int, due: seq<nat>, later: seq<nat>)
    requires Splits(front, now, due, later)
    ensures if copy.due <= now then Splits(front + [copy], now, due + [|front|], later)
            else Splits(front + [copy], now, due, later + [|front|])
    ensures forall k | 0 <= k < |due| :: front[due[k]] == (front + [copy])[due[k]]
    ensures forall k | 0 <= k < |later| :: front[later[k]] == (front + [copy])[later[k]]
  {
    var all := front + [copy];
    assert all[|front|] == copy && forall i | 0 <= i < |front| :: all[i] == front[i];
    assert |front| in due + [|front|] && |front| in later + [|front|];
  }

  lemma {:induction false} PlacedIsSplit(q: Queue, copies: seq<ScheduledDelivery>, now: int)
    ensures PlacedAll(q, copies, now)
         == Queue(q.pending + Later(copies, now), q.attempts + Attempts(Due(copies, now), now))
  {
    hide Due, Later;
    NothingPartitioned(now);
    if copies != [] {
      var front, last := copies[..|copies| - 1], copies[|copies| - 1];
      PlacedIsSplit(q, front, now);
      PartitionNext(front, last, now);
      assert copies == front + [last];
      if last.due <= now {
        assert Attempts(Due(copies, now), now) == Attempts(Due(front, now), now) + [Attempt(last, now)];
        assert Later(copies, now) == Later(front, now);
      } else {
        assert Due(copies, now) == Due(front, now);
      }
    }
  }

  // ---- sleeping ----

  /** The loop sleeps as long as it may: the whole interval, unless a copy is due less than a millisecond after. */
  lemma {:induction false} LongestSleep(interval: int, pending: seq<ScheduledDelivery>, now: int)
    ensures var budget := Max(0, Budget(interval, pending, now));
            budget == Max(0, interval)
            || exists i :: 0 <= i < |pending| && pending[i].due - now < (budget + 1) * 1_000_000
  {
    hide Milliseconds;
    if pending != [] {
      var front, last := pending[..|pending| - 1], pending[|pending| - 1];
      LongestSleep(interval, front, now);
      WholeIsNear(last.due - now);
      var budget, before := Max(0, Budget(interval, pending, now)), Max(0, Budget(interval, front, now));
      if budget == before != Max(0, interval) {
        var i :| 0 <= i < |front| && front[i].due - now < (before + 1) * 1_000_000;
        assert pending[i] == front[i];
      } else if budget != before {
        assert pending[|pending| - 1].due - now < (budget + 1) * 1_000_000;
      }
    }
  }

  lemma WholeIsNear(duration: int)
    ensures duration < (Max(0, Milliseconds(duration)) + 1) * 1_000_000
  {
  }

  // ---- the socket ----

  /** Forwarded is what the socket took, call by call. */
  lemma {:induction false} TakenExactly(accepts: nat -> bool, calls: nat)
    ensures Taken(accepts, calls) == |set n: nat | n < calls && accepts(n)|
  {
    if calls == 0 {
      assert (set n: nat | n < calls && accepts(n)) == {};
    } else {
      TakenExactly(accepts, calls - 1);
      assert (set n: nat | n < calls && accepts(n))
          == (set n: nat | n < calls - 1 && accepts(n)) + if accepts(calls - 1) then {calls - 1} else {};
    }
  }
}
