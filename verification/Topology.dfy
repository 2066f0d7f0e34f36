/** Topology validation of src/topology.cpp: one switch, hosts around it, each linked at most once. */
module TopologyModel {
  import opened Results
  import opened Text

  datatype NodeKind = Host | Switch

  datatype Node = Node(id: string, kind: NodeKind)

  /** Latency in whole milliseconds. */
  datatype Link = Link(from: string, to: string, latency: int)

  datatype Configuration = Configuration(name: string, nodes: seq<Node>, links: seq<Link>)

  datatype TopologyError =
    | MissingName
    | MissingNodes
    | MissingNodeId
    | DuplicateNodeId
    | MissingSwitch
    | MultipleSwitches
    | UnknownLinkEndpoint
    | SelfLink
    | DuplicateLink
    | InvalidLinkShape
    | NegativeLatency

  datatype Topology = Topology(configuration: Configuration, switchIndex: nat)

  // ---- what a topology must be ----

  predicate DistinctIds(nodes: seq<Node>) {
    forall i, j | 0 <= i < j < |nodes| :: nodes[i].id != nodes[j].id
  }

  function Ids(nodes: seq<Node>): set<string> {
    set i | 0 <= i < |nodes| :: nodes[i].id
  }

  predicate OneSwitch(nodes: seq<Node>, at: nat) {
    at < |nodes| && forall i | 0 <= i < |nodes| :: nodes[i].kind == Switch <==> i == at
  }

  predicate SameEnds(a: Link, b: Link) {
    (a.from == b.from && a.to == b.to) || (a.from == b.to && a.to == b.from)
  }

  predicate NodesSound(nodes: seq<Node>) {
    (forall i | 0 <= i < |nodes| :: nodes[i].id != "") && DistinctIds(nodes)
  }

  /** A link joins the switch to another node, with a latency a clock can wait for. */
  predicate LinkSound(link: Link, nodes: seq<Node>, hub: string) {
    && link.from != link.to
    && link.from in Ids(nodes) && link.to in Ids(nodes)
    && link.latency >= 0
    && (link.from == hub) != (link.to == hub)
  }

  predicate Star(c: Configuration, at: nat) {
    && c.name != "" && NodesSound(c.nodes) && OneSwitch(c.nodes, at)
    && (forall i | 0 <= i < |c.links| :: LinkSound(c.links[i], c.nodes, c.nodes[at].id))
    && (forall i, j | 0 <= i < j < |c.links| :: !SameEnds(c.links[i], c.links[j]))
  }

  // ---- what the source checks ----

  const NUL: char := 0 as char

  /** The key a link is looked up by: its endpoints in order, joined by a NUL. */
  function LinkKey(first: string, second: string): string {
    if Less(first, second) then first + [NUL] + second else second + [NUL] + first
  }

  predicate DistinctKeys(links: seq<Link>) {
    forall i, j | 0 <= i < j < |links| ::
      LinkKey(links[i].from, links[i].to) != LinkKey(links[j].from, links[j].to)
  }

  predicate Accepts(c: Configuration, at: nat) {
    && c.name != "" && NodesSound(c.nodes) && OneSwitch(c.nodes, at)
    && (forall i | 0 <= i < |c.links| :: LinkSound(c.links[i], c.nodes, c.nodes[at].id))
    && DistinctKeys(c.links)
  }

  /** The fault an error names is there. */
  ghost predicate Explains(error: TopologyError, c: Configuration) {
    match error
    case MissingName => c.name == ""
    case MissingNodes => c.nodes == []
    case MissingNodeId => exists i :: 0 <= i < |c.nodes| && c.nodes[i].id == ""
    case DuplicateNodeId => !DistinctIds(c.nodes)
    case MissingSwitch => forall i | 0 <= i < |c.nodes| :: c.nodes[i].kind != Switch
    case MultipleSwitches =>
      exists i, j :: 0 <= i < j < |c.nodes| && c.nodes[i].kind == Switch && c.nodes[j].kind == Switch
    case UnknownLinkEndpoint =>
      exists i :: 0 <= i < |c.links| && !({c.links[i].from, c.links[i].to} <= Ids(c.nodes))
    case SelfLink => exists i :: 0 <= i < |c.links| && c.links[i].from == c.links[i].to
    case DuplicateLink => !DistinctKeys(c.links)
    case InvalidLinkShape =>
      exists i: nat, at: nat :: i < |c.links| && OneSwitch(c.nodes, at)
                      && (c.links[i].from == c.nodes[at].id) == (c.links[i].to == c.nodes[at].id)
    case NegativeLatency => exists i :: 0 <= i < |c.links| && c.links[i].latency < 0
  }

  lemma IdsOfNext(nodes: seq<Node>, node: Node)
    ensures Ids(nodes + [node]) == Ids(nodes) + {node.id}
  {
    var more := nodes + [node];
    assert forall i | 0 <= i < |nodes| :: more[i] == nodes[i];
    assert more[|nodes|] == node;
  }

  lemma DistinctNext(nodes: seq<Node>, node: Node)
    requires NodesSound(nodes) && node.id != "" && node.id !in Ids(nodes)
    ensures NodesSound(nodes + [node])
  {
  }

  /** How many switches there are among the nodes, up to two, and where the last one is. */
  predicate Switches(nodes: seq<Node>, count: nat, last: nat) {
    && (count == 0 ==> forall i | 0 <= i < |nodes| :: nodes[i].kind != Switch)
    && (count == 1 ==> OneSwitch(nodes, last))
    && (count > 1 ==> exists i, j :: 0 <= i < j < |nodes| && nodes[i].kind == Switch && nodes[j].kind == Switch)
    && (count > 0 ==> last < |nodes| && nodes[last].kind == Switch)
  }

  lemma SwitchesNext(nodes: seq<Node>, node: Node, count: nat, last: nat)
    requires Switches(nodes, count, last)
    ensures if node.kind == Switch then Switches(nodes + [node], count + 1, |nodes|)
            else Switches(nodes + [node], count, last)
  {
    var more := nodes + [node];
    assert more[|nodes|] == node;
    if count > 1 {
      var i, j :| 0 <= i < j < |nodes| && nodes[i].kind == Switch && nodes[j].kind == Switch;
      assert more[i].kind == Switch && more[j].kind == Switch;
    } else if count == 1 {
      assert more[last].kind == Switch;
    }
  }

  method CollectNodes(c: Configuration) returns (r: Result<(set<string>, nat), TopologyError>)
    requires c.nodes != []
    ensures r.Ok? ==> NodesSound(c.nodes) && OneSwitch(c.nodes, r.value.1) && r.value.0 == Ids(c.nodes)
    ensures r.Err? ==> Explains(r.error, c)
  {
    var nodes := c.nodes;
    var ids: set<string> := {};
    var count, switchIndex := 0, 0;
    for index := 0 to |nodes|
      invariant NodesSound(nodes[..index]) && ids == Ids(nodes[..index])
      invariant Switches(nodes[..index], count, switchIndex)
    {
      var node := nodes[index];
      if node.id == "" {
        return Err(MissingNodeId);
      }
      if node.id in ids {
        return Err(DuplicateNodeId);
      }
      IdsOfNext(nodes[..index], node);
      DistinctNext(nodes[..index], node);
      SwitchesNext(nodes[..index], node, count, switchIndex);
      assert nodes[..index + 1] == nodes[..index] + [node];
      ids := ids + {node.id};
      if node.kind == Switch {
        count := count + 1;
        switchIndex := index;
      }
    }
    assert nodes[..|nodes|] == nodes;
    if count == 0 {
      return Err(MissingSwitch);
    }
    if count > 1 {
      return Err(MultipleSwitches);
    }
    return Ok((ids, switchIndex));
  }

  function Keys(links: seq<Link>): set<string> {
    set i | 0 <= i < |links| :: LinkKey(links[i].from, links[i].to)
  }

  lemma KeysOfNext(links: seq<Link>, link: Link)
    requires DistinctKeys(links)
    ensures Keys(links + [link]) == Keys(links) + {LinkKey(link.from, link.to)}
    ensures LinkKey(link.from, link.to) !in Keys(links) ==> DistinctKeys(links + [link])
    ensures LinkKey(link.from, link.to) in Keys(links) ==> !DistinctKeys(links + [link])
  {
    hide LinkKey;
    var more := links + [link];
    assert forall i | 0 <= i < |links| :: more[i] == links[i];
    assert more[|links|] == link;
  }

  /** Accepts a configuration exactly when `Accepts` holds, and otherwise names a fault it has. */
  method Create(c: Configuration) returns (r: Result<Topology, TopologyError>)
    ensures r.Ok? ==> r.value.configuration == c && Accepts(c, r.value.switchIndex)
    ensures r.Err? ==> Explains(r.error, c)
  {
    hide LinkKey, Less, DistinctIds;
    if c.name == "" {
      return Err(MissingName);
    }
    if c.nodes == [] {
      return Err(MissingNodes);
    }
    var collected := CollectNodes(c);
    if collected.Err? {
      return Err(collected.error);
    }
    var (ids, at) := collected.value;
    var hub := c.nodes[at].id;
    var keys: set<string> := {};
    for index := 0 to |c.links|
      invariant forall i | 0 <= i < index :: LinkSound(c.links[i], c.nodes, hub)
      invariant DistinctKeys(c.links[..index]) && keys == Keys(c.links[..index])
    {
      var link := c.links[index];
      if link.from == link.to {
        return Err(SelfLink);
      }
      if link.from !in ids || link.to !in ids {
        return Err(UnknownLinkEndpoint);
      }
      var key := LinkKey(link.from, link.to);
      KeysOfNext(c.links[..index], link);
      assert c.links[..index + 1] == c.links[..index] + [link];
      if key in keys {
        return Err(DuplicateLink);
      }
      keys := keys + {key};
      if link.latency < 0 {
        return Err(NegativeLatency);
      }
      if (link.from == hub) == (link.to == hub) {
        return Err(InvalidLinkShape);
      }
    }
    assert c.links[..|c.links|] == c.links;
    return Ok(Topology(c, at));
  }

  /** No error can be explained of a configuration that is acceptable, so `Create` decides acceptance. */
  lemma AcceptedHasNoFault(c: Configuration, error: TopologyError, at: nat)
    requires Accepts(c, at)
    ensures !Explains(error, c)
  {
    hide LinkKey;
    assert c.nodes[at].kind == Switch;
    forall i: nat, other: nat | i < |c.links| && OneSwitch(c.nodes, other)
      ensures (c.links[i].from == c.nodes[other].id) != (c.links[i].to == c.nodes[other].id)
    {
      assert c.nodes[other].kind == Switch;
      assert LinkSound(c.links[i], c.nodes, c.nodes[at].id);
    }
  }

  // ---- when the check is the requirement ----

  /** The end of a link that is not the switch. */
  function Spoke(link: Link, hub: string): string {
    if link.from == hub then link.to else link.from
  }

  /** Two different hosts, one after the switch and one before it, whose joined names are the same text. */
  predicate Clash(hub: string, after: string, before: string) {
    Less(hub, after) && Less(before, hub) && hub + [NUL] + after == before + [NUL] + hub
  }

  predicate NoClash(c: Configuration, hub: string) {
    forall i, j | 0 <= i < |c.links| && 0 <= j < |c.links| ::
      !Clash(hub, Spoke(c.links[i], hub), Spoke(c.links[j], hub))
  }

  /** Two links of the switch share a key when they are the same link, or when their hosts clash. */
  lemma SharedKey(a: Link, b: Link, hub: string)
    requires (a.from == hub) != (a.to == hub) && (b.from == hub) != (b.to == hub)
    ensures LinkKey(a.from, a.to) == LinkKey(b.from, b.to) <==>
            SameEnds(a, b) || Clash(hub, Spoke(a, hub), Spoke(b, hub)) || Clash(hub, Spoke(b, hub), Spoke(a, hub))
  {
    var x, y := Spoke(a, hub), Spoke(b, hub);
    LessTotal(hub, x);
    LessTotal(hub, y);
    var (keyA, keyB) := (LinkKey(a.from, a.to), LinkKey(b.from, b.to));
    assert keyA == if Less(hub, x) then hub + [NUL] + x else x + [NUL] + hub;
    assert keyB == if Less(hub, y) then hub + [NUL] + y else y + [NUL] + hub;
    if keyA == keyB && Less(hub, x) == Less(hub, y) {
      assert |x| == |y|;
      assert x == if Less(hub, x) then keyA[|hub| + 1..] else keyA[..|x|];
      assert y == if Less(hub, y) then keyB[|hub| + 1..] else keyB[..|y|];
    }
  }

  /** The accepted configurations are exactly the stars in which no two hosts clash. */
  lemma AcceptsExactly(c: Configuration, at: nat)
    ensures Accepts(c, at) <==> Star(c, at) && NoClash(c, c.nodes[at].id)
  {
    hide LinkKey, Less;
    if c.name != "" && NodesSound(c.nodes) && OneSwitch(c.nodes, at)
       && forall i | 0 <= i < |c.links| :: LinkSound(c.links[i], c.nodes, c.nodes[at].id) {
      var hub := c.nodes[at].id;
      forall i, j | 0 <= i < |c.links| && 0 <= j < |c.links|
        ensures LinkKey(c.links[i].from, c.links[i].to) == LinkKey(c.links[j].from, c.links[j].to) <==>
                || SameEnds(c.links[i], c.links[j])
                || Clash(hub, Spoke(c.links[i], hub), Spoke(c.links[j], hub))
                || Clash(hub, Spoke(c.links[j], hub), Spoke(c.links[i], hub))
      {
        SharedKey(c.links[i], c.links[j], hub);
      }
      forall i | 0 <= i < |c.links|
        ensures !Clash(hub, Spoke(c.links[i], hub), Spoke(c.links[i], hub))
      {
        LessTotal(hub, Spoke(c.links[i], hub));
      }
    }
  }

  predicate NoNul(c: Configuration) {
    forall i | 0 <= i < |c.links| :: NUL !in c.links[i].from && NUL !in c.links[i].to
  }

  /** So names without NUL characters never clash: there the accepted configurations are the stars. */
  lemma AcceptsStars(c: Configuration, at: nat)
    requires NoNul(c)
    ensures Accepts(c, at) <==> Star(c, at)
  {
    hide LinkKey, Less;
    AcceptsExactly(c, at);
    if Star(c, at) {
      var hub := c.nodes[at].id;
      forall i, j | 0 <= i < |c.links| && 0 <= j < |c.links|
        ensures !Clash(hub, Spoke(c.links[i], hub), Spoke(c.links[j], hub))
      {
        assert LinkSound(c.links[i], c.nodes, hub) && LinkSound(c.links[j], c.nodes, hub);
        NoClashWithoutNul(hub, Spoke(c.links[i], hub), Spoke(c.links[j], hub));
      }
    }
  }

  lemma NoClashWithoutNul(hub: string, after: string, before: string)
    requires NUL !in hub && NUL !in before
    ensures !Clash(hub, after, before)
  {
    if Clash(hub, after, before) {
      SplitAtFirst(hub, after, before, hub, NUL);
      LessTotal(hub, before);
    }
  }

  /** With NUL characters the key is ambiguous: this star is refused. */
  lemma NulCollides(hub: string, h1: string, h2: string, c: Configuration)
    requires hub == ['a', NUL, 'b', NUL, 'a'] && h1 == ['a', NUL, 'b'] && h2 == ['b', NUL, 'a']
    requires c == Configuration("n", [Node(hub, Switch), Node(h1, Host), Node(h2, Host)],
                                [Link(hub, h1, 0), Link(hub, h2, 0)])
    ensures Star(c, 0) && !Accepts(c, 0)
  {
    assert c.nodes[0].id == hub && c.nodes[1].id == h1 && c.nodes[2].id == h2;
    assert LinkSound(c.links[0], c.nodes, hub) && LinkSound(c.links[1], c.nodes, hub);
    assert hub[0] != h2[0] && h1[0] != h2[0] && |hub| != |h1|;
    assert |c.links| == 2 && !SameEnds(c.links[0], c.links[1]);
    assert DistinctIds(c.nodes) && OneSwitch(c.nodes, 0);
    assert Less(hub, h2);
    PrefixNotAfter(hub, h1);
    assert LinkKey(hub, h1) == LinkKey(hub, h2);
  }
}
