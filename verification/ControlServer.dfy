/** The control server of src/control_server.cpp beside its sockets: inboxes, outboxes, broadcasts. A socket is
    what it makes of a call: chunks that arrive, and how many bytes each send takes. */
module ControlServerModel {
  import opened Arith
  import opened Results
  import opened Framing

  datatype ServerConfig = ServerConfig(maxRequestBytes: nat, maxPendingBytes: nat)

  /** How many chunks are read before the inbox is over its cap, or all of them. */
  function Admitted(size: nat, chunks: seq<string>, cap: nat): (n: nat)
    ensures n <= |chunks|
  {
    if chunks == [] then 0
    else
      var before := Admitted(size, chunks[..|chunks| - 1], cap);
      if before < |chunks| - 1 || (before > 0 && size + |Joined(chunks[..before])| > cap) then before else |chunks|
  }

  /** How many of `size` bytes go out when the sends take `takes`, until one takes nothing. */
  function Accepted(size: nat, takes: seq<int>): (n: nat)
    ensures n <= size
    decreases |takes|
  {
    if size == 0 || takes == [] || takes[0] <= 0 then 0
    else Min(takes[0], size) + Accepted(size - Min(takes[0], size), takes[1..])
  }

  function Sum(takes: seq<int>): int {
    if takes == [] then 0 else takes[0] + Sum(takes[1..])
  }

  /** Sends go on while they take something and something is left: the first `calls` of them take all there is, or as
      much as they can before one takes nothing. */
  lemma {:induction false} AcceptedExactly(size: nat, takes: seq<int>) returns (calls: nat)
    ensures calls <= |takes| && forall k | 0 <= k < calls :: takes[k] > 0
    ensures Accepted(size, takes) == Min(size, Sum(takes[..calls]))
    ensures Accepted(size, takes) == size || calls == |takes| || takes[calls] <= 0
    decreases |takes|
  {
    calls := 0;
    if size > 0 && takes != [] && takes[0] > 0 {
      var taken := Min(takes[0], size);
      var rest := AcceptedExactly(size - taken, takes[1..]);
      calls := rest + 1;
      assert takes[..calls][1..] == takes[1..][..rest];
      assert forall k | 0 < k < calls :: takes[k] == takes[1..][k - 1];
      SumOfTakes(takes[1..][..rest]);
    }
  }

  lemma {:induction false} SumOfTakes(takes: seq<int>)
    requires forall k | 0 <= k < |takes| :: takes[k] > 0
    ensures Sum(takes) >= 0
  {
    if takes != [] {
      SumOfTakes(takes[1..]);
    }
  }

  /** Reading goes on while the inbox is within its cap: every chunk but the last read left it so, and if chunks remain
      the last did not. */
  lemma {:induction false} AdmittedExactly(size: nat, chunks: seq<string>, cap: nat)
    ensures var n := Admitted(size, chunks, cap);
            && (chunks != [] ==> n > 0)
            && (forall k | 0 < k < n :: size + |Joined(chunks[..k])| <= cap)
            && (n < |chunks| ==> size + |Joined(chunks[..n])| > cap)
  {
    if chunks != [] {
      var front := chunks[..|chunks| - 1];
      AdmittedExactly(size, front, cap);
      assert forall k | 0 <= k <= |front| :: chunks[..k] == front[..k];
    }
  }

  class Client {
    var inbox: string
    var outbox: string
    var congested: bool

    ghost var offered: seq<string>  // the messages given to Enqueue
    ghost var sent: string          // the bytes its socket took

    /** The bytes sent are a prefix of the messages offered; until the client is congested, the outbox is the
        rest of them. */
    ghost predicate Valid(cap: nat)
      reads this
    {
      && |outbox| <= cap
      && sent <= Framed(offered)
      && (if congested then outbox == "" else sent + outbox == Framed(offered))
    }

    constructor ()
      ensures Valid(0) && inbox == "" && offered == [] && sent == "" && !congested
    {
      inbox, outbox, congested, offered, sent := "", "", false, [], "";
    }

    /** Queues a message; a client over its cap loses what it had queued, and everything later. */
    method Enqueue(message: string, cap: nat)
      requires Valid(cap)
      modifies this`outbox, this`congested, this`offered
      ensures Valid(cap) && offered == old(offered) + [message]
      ensures congested == (old(congested) || |old(outbox)| + |message| + 1 > cap)
      ensures !congested ==> outbox == old(outbox) + (message + "\n")
    {
      assert (offered + [message])[..|offered|] == offered;
      assert Framed(offered + [message]) == Framed(offered) + (message + "\n");
      offered := offered + [message];
      if congested {
        return;
      }
      if |outbox| + |message| + 1 > cap {
        congested := true;
        outbox := "";
        return;
      }
      assert sent + (outbox + message + "\n") == sent + outbox + (message + "\n");
      outbox := outbox + message;
      outbox := outbox + "\n";
    }

    /** Sends until everything is gone or a send takes nothing. `takes` are the results of the sends; a socket takes
        no more than it is given, and `blocks` is whether the one that took nothing would have blocked. The client
        lives if nothing is left, or if that is all that stopped it. */
    method Flush(takes: seq<int>, blocks: bool, cap: nat) returns (alive: bool)
      requires Valid(cap)
      modifies this`outbox, this`sent
      ensures Valid(cap) && alive == (outbox == "" || blocks)
      ensures var n := Accepted(|old(outbox)|, takes);
              sent == old(sent) + old(outbox)[..n] && outbox == old(outbox)[n..]
    {
      var total, call := 0, 0;
      ghost var before := sent;
      while total < |outbox|
        invariant total <= |outbox| && outbox == old(outbox) && call <= |takes|
        invariant sent == before + outbox[..total]
        invariant Accepted(|outbox|, takes) == total + Accepted(|outbox| - total, takes[call..])
        decreases |outbox| - total
      {
        var taken := if call < |takes| then Min(takes[call], |outbox| - total) else 0;
        if taken <= 0 {
          outbox := outbox[total..];
          assert sent + outbox == before + old(outbox);
          return blocks;
        }
        assert takes[call..][1..] == takes[call + 1..];
        call := call + 1;
        assert outbox[..total + taken] == outbox[..total] + outbox[total..total + taken];
        sent := sent + outbox[total..total + taken];
        total := total + taken;
      }
      assert outbox[..total] == outbox;
      outbox := "";
      return true;
    }

    /** Queues a message and tries to send at once. */
    method Push(message: string, takes: seq<int>, cap: nat)
      requires Valid(cap)
      modifies this`outbox, this`sent, this`congested, this`offered
      ensures Valid(cap) && offered == old(offered) + [message]
      ensures congested == (old(congested) || |old(outbox)| + |message| + 1 > cap)
      ensures congested ==> outbox == "" && sent == old(sent)
      ensures !congested ==>
                var queued := old(outbox) + (message + "\n");
                var n := Accepted(|queued|, takes);
                sent == old(sent) + queued[..n] && outbox == queued[n..]
    {
      Enqueue(message, cap);
      if outbox != "" {
        var _ := Flush(takes, true, cap);
      }
    }

    /** Reads what has arrived, up to the cap, and takes the complete messages out of it. */
    method Serve(chunks: seq<string>, cap: nat) returns (within: bool, messages: seq<string>)
      modifies this`inbox
      ensures var n := Admitted(|old(inbox)|, chunks, cap);
              && (messages, inbox) == Extract(old(inbox) + Joined(chunks[..n]))
              && within == (|old(inbox)| + |Joined(chunks[..n])| <= cap || n == 0)
    {
      within := true;
      ghost var n := 0;
      assert chunks[..0] == [];
      for i := 0 to |chunks|
        invariant within && n == i == Admitted(|old(inbox)|, chunks[..i], cap)
        invariant inbox == old(inbox) + Joined(chunks[..i])
        invariant i > 0 ==> |inbox| <= cap
      {
        assert chunks[..i + 1][..i] == chunks[..i];
        ghost var before := inbox;
        inbox := inbox + chunks[i];
        n := i + 1;
        assert Joined(chunks[..n]) == Joined(chunks[..i]) + chunks[i];
        assert inbox == old(inbox) + Joined(chunks[..n]);
        if |inbox| > cap {
          within := false;
          AdmittedStops(|old(inbox)|, chunks, cap, n);
          break;
        }
      }
      assert chunks[..|chunks|] == chunks;
      assert within ==> n == |chunks|;
      var taken, rest := TakeMessages(inbox);
      inbox := rest;
      return within, taken;
    }
  }

  /** Once over the cap, nothing more is read. */
  lemma {:induction false} AdmittedStops(size: nat, chunks: seq<string>, cap: nat, n: nat)
    requires 0 < n <= |chunks| && Admitted(size, chunks[..n], cap) == n
    requires size + |Joined(chunks[..n])| > cap
    ensures Admitted(size, chunks, cap) == n
    decreases |chunks|
  {
    if n == |chunks| {
      assert chunks[..n] == chunks;
    } else {
      var front := chunks[..|chunks| - 1];
      assert front[..n] == chunks[..n];
      AdmittedStops(size, front, cap, n);
      if n == |front| {
        assert front == chunks[..n];
      }
    }
  }

  /** What the sends to client `i` take. */
  function TakesOf(takes: seq<seq<int>>, i: nat): seq<int> {
    if i < |takes| then takes[i] else []
  }

  class ControlServer {
    const config: ServerConfig
    var clients: seq<Client>

    ghost predicate Valid()
      reads this, clients
    {
      && (forall i, j | 0 <= i < j < |clients| :: clients[i] != clients[j])
      && (forall i | 0 <= i < |clients| :: clients[i].Valid(config.maxPendingBytes))
    }

    constructor (config: ServerConfig)
      ensures Valid() && this.config == config && clients == []
    {
      this.config := config;
      clients := [];
    }

    /** A client was given one more message, behind what was queued: it is congested if it was or if it had no room,
        and otherwise it was sent as much of the queue as its socket took and keeps the rest. */
    twostate predicate Given(client: Client, message: string, takes: seq<int>)
      reads client
    {
      && client.offered == old(client.offered) + [message] && client.inbox == old(client.inbox)
      && client.congested
         == (old(client.congested) || |old(client.outbox)| + |message| + 1 > config.maxPendingBytes)
      && var queued := old(client.outbox) + (message + "\n");
         var n := Accepted(|queued|, takes);
         if client.congested then client.outbox == "" && client.sent == old(client.sent)
         else client.sent == old(client.sent) + queued[..n] && client.outbox == queued[n..]
    }

    /** An event goes to every client once, behind everything it was given before. */
    method Broadcast(message: string, takes: seq<seq<int>>)
      requires Valid()
      modifies clients
      ensures Valid() && clients == old(clients)
      ensures forall i | 0 <= i < |clients| :: Given(clients[i], message, TakesOf(takes, i))
    {
      hide Accepted, Client.Valid, TakesOf;
      for index := 0 to |clients|
        invariant clients == old(clients)
        invariant forall i | 0 <= i < |clients| :: clients[i].Valid(config.maxPendingBytes)
        invariant forall i | 0 <= i < index :: Given(clients[i], message, TakesOf(takes, i))
        invariant forall i | index <= i < |clients| :: unchanged(clients[i])
      {
        clients[index].Push(message, TakesOf(takes, index), config.maxPendingBytes);
      }
    }
  }

  /** What a peer makes of the bytes it got: the first messages its client was offered, whole and in order; and all
      of them once nothing is queued, unless the client is congested. */
  lemma PeerSeesPrefix(client: Client, cap: nat)
    requires client.Valid(cap) && AllFrameable(client.offered)
    ensures Extract(client.sent).0 <= client.offered
    ensures client.outbox == "" && !client.congested ==> Extract(client.sent).0 == client.offered
  {
    hide Extract, Framed, AllFrameable;
    PartialIsPrefix(client.offered, client.sent);
    RecoveredExactly(client.offered);
    assert client.sent + "" == client.sent;
  }
}
