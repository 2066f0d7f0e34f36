/** The control channel end to end: requests printed and framed by one side are, in any chunks, the requests
    the other side parses. */
module ControlChannel {
  import opened Results
  import opened Durations
  import opened JsonText
  import opened ControlJson
  import opened ControlProtocolModel
  import opened Framing

  function Lines(requests: seq<ControlRequest>): (lines: seq<string>)
    ensures |lines| == |requests| && forall i | 0 <= i < |requests| :: lines[i] == RequestJson(requests[i])
  {
    seq(|requests|, i requires 0 <= i < |requests| => RequestJson(requests[i]))
  }

  /** A printed object is one line that framing preserves. */
  lemma ObjectFrameable(members: seq<Member>)
    ensures Frameable(Print(Object(members)))
  {
    var s := Print(Object(members));
    assert s == "{" + PrintMembers(members) + "}";
    PrintIsPrintable(Object(members));
    assert forall i | 0 <= i < |s| :: s[i] != '\n';
  }

  lemma RequestFrameable(r: ControlRequest)
    ensures Frameable(RequestJson(r))
  {
    ObjectFrameable(RequestMembers(r));
  }

  lemma ReplyFrameable(r: ControlReply)
    ensures Frameable(ReplyJson(r))
  {
    ObjectFrameable(ReplyMembers(r));
  }

  /** Whatever requests are sent, with whatever strings in them, and however their bytes arrive, the switch
      parses each one, in order, to what it carries. */
  lemma RequestsArrive(requests: seq<ControlRequest>, chunks: seq<string>)
    requires Joined(chunks) == Framed(Lines(requests))
    ensures |Received(chunks).0| == |requests| && Received(chunks).1 == ""
    ensures forall i | 0 <= i < |requests| ::
              RequestFrom(Received(chunks).0[i]) ==
              if SetsFault(requests[i].command)
                 && (Milliseconds(requests[i].fault.configuration.latency) < 0
                     || Milliseconds(requests[i].fault.configuration.jitter) < 0)
              then Err(InvalidField) else Ok(Carried(Rounded(requests[i])))
  {
    hide RequestJson, RequestFrom, Carried, Rounded, Received, Joined, Framed, Milliseconds, Frameable, SetsFault;
    forall i | 0 <= i < |requests|
      ensures Frameable(Lines(requests)[i])
    {
      RequestFrameable(requests[i]);
    }
    ReceivedInOrder(Lines(requests), chunks);
    forall i | 0 <= i < |requests|
      ensures RequestFrom(Received(chunks).0[i]) ==
              if SetsFault(requests[i].command)
                 && (Milliseconds(requests[i].fault.configuration.latency) < 0
                     || Milliseconds(requests[i].fault.configuration.jitter) < 0)
              then Err(InvalidField) else Ok(Carried(Rounded(requests[i])))
    {
      ParsesPrinted(requests[i]);
    }
  }

  /** The replies a client can read from what has arrived are the first ones sent to it: each parses to the reply,
      with its operation or its error. */
  lemma RepliesArrive(replies: seq<ControlReply>, arrived: string)
    requires var lines := seq(|replies|, i requires 0 <= i < |replies| => ReplyJson(replies[i]));
             arrived <= Framed(lines)
    ensures var seen := Extract(arrived).0;
            && |seen| <= |replies|
            && forall i | 0 <= i < |seen| :: ReplyFrom(seen[i]) == Ok(Answered(replies[i]))
  {
    hide ReplyJson, ReplyFrom, Extract, Framed, Frameable;
    var lines := seq(|replies|, i requires 0 <= i < |replies| => ReplyJson(replies[i]));
    forall i | 0 <= i < |lines|
      ensures Frameable(lines[i])
    {
      ReplyFrameable(replies[i]);
    }
    PartialIsPrefix(lines, arrived);
    forall i | 0 <= i < |Extract(arrived).0|
      ensures ReplyFrom(Extract(arrived).0[i]) == Ok(Answered(replies[i]))
    {
      assert Extract(arrived).0[i] == lines[i];
      ReplyRoundTrip(replies[i]);
    }
  }
}
