/** The connection monitor of the agent backend. It remembers the set of node
    numbers it has seen connected. On every poll it compares that set with the
    controller's current listing, emits one "connected" event per new node and
    one "disconnected" event per vanished node, and forwards each event to the
    webhook receiver when webhooks are on.

    Python iterates a set in an order the language leaves open; the model
    takes the nodes of each difference in ascending order. */
module EventHandler {
  import opened Results
  import opened Lists
  import opened Text
  import opened StringOrder
  import opened AmiClient

  /** A change the monitor reports. */
  datatype Event = NodeConnected(node: string, info: string) | NodeDisconnected(node: string)

  /** The monitor's memory: the node numbers it last saw connected. */
  datatype Handler = Handler(known: set<string>)

  /** The monitor's new memory and the events, in the order they were raised. */
  datatype Step = Step(handler: Handler, events: seq<Event>)

  // ---------------------------------------------------------------------------
  // Webhook sink

  /** What the webhook sender needs: whether webhooks are enabled, whether an
      HTTP session was opened at start-up, and this node's identity. */
  datatype WebhookConfig = WebhookConfig(enabled: bool, sessionOpen: bool, nodeNumber: string, callsign: string)

  /** One notification posted to the receiver, without its timestamp. */
  datatype Post = Post(eventType: string, node: string, callsign: string, data: seq<(string, string)>)

  function EventType(e: Event): string {
    match e
    case NodeConnected(_, _) => "node_connected"
    case NodeDisconnected(_) => "node_disconnected"
  }

  function EventData(e: Event): seq<(string, string)> {
    match e
    case NodeConnected(n, info) => [("connected_node", n), ("info", info)]
    case NodeDisconnected(n) => [("disconnected_node", n)]
  }

  /** `send_webhook`: nothing is posted unless webhooks are enabled and the
      session exists; otherwise one post carries the event's type and data
      under this node's number and callsign. Delivery failures are only
      logged, so they change nothing the model tracks. */
  function SendWebhook(w: WebhookConfig, e: Event): (r: seq<Post>)
    ensures |r| <= 1
    ensures r != [] <==> w.enabled && w.sessionOpen
    ensures forall p | p in r :: p.node == w.nodeNumber && p.callsign == w.callsign
  {
    if !w.enabled || !w.sessionOpen then []
    else [Post(EventType(e), w.nodeNumber, w.callsign, EventData(e))]
  }

  /** Every post sent for a run of events, in order. */
  function Deliveries(w: WebhookConfig, events: seq<Event>): seq<Post> {
    FlatMap((e: Event) => SendWebhook(w, e), events)
  }

  /** With webhooks on, each event is posted once, in order; with them off,
      nothing is posted. */
  lemma {:induction false} DeliveriesFollowEvents(w: WebhookConfig, events: seq<Event>)
    ensures var d := Deliveries(w, events);
      && (w.enabled && w.sessionOpen ==>
            && |d| == |events|
            && forall i :: 0 <= i < |events| ==> d[i].eventType == EventType(events[i]) && d[i].data == EventData(events[i]))
      && (!(w.enabled && w.sessionOpen) ==> d == [])
    decreases |events|
  {
    if events != [] {
      DeliveriesFollowEvents(w, events[1..]);
      var d := Deliveries(w, events);
      var rest := Deliveries(w, events[1..]);
      assert d == SendWebhook(w, events[0]) + rest;
      if w.enabled && w.sessionOpen {
        forall i | 0 <= i < |events|
          ensures d[i].eventType == EventType(events[i]) && d[i].data == EventData(events[i])
        {
          if i > 0 {
            assert d[i] == rest[i - 1];
            assert events[i] == events[1..][i - 1];
          }
        }
      }
    }
  }

  // ---------------------------------------------------------------------------
  // Single events

  /** `on_node_connect`: a node not yet known is remembered and announced; a
      known node changes nothing. */
  function OnNodeConnect(h: Handler, node: string, info: string): (r: Step)
    ensures r.handler.known == h.known + {node}
    ensures r.events == if node in h.known then [] else [NodeConnected(node, info)]
  {
    if node !in h.known then Step(Handler(h.known + {node}), [NodeConnected(node, info)])
    else Step(h, [])
  }

  /** `on_node_disconnect`: a known node is forgotten and announced; an
      unknown node changes nothing. */
  function OnNodeDisconnect(h: Handler, node: string): (r: Step)
    ensures r.handler.known == h.known - {node}
    ensures r.events == if node in h.known then [NodeDisconnected(node)] else []
  {
    if node in h.known then Step(Handler(h.known - {node}), [NodeDisconnected(node)])
    else Step(h, [])
  }

  /** Announcing a node twice raises one event only. */
  lemma ConnectIdempotent(h: Handler, node: string, info: string, info': string)
    ensures var s1 := OnNodeConnect(h, node, info);
      var s2 := OnNodeConnect(s1.handler, node, info');
      s2.handler == s1.handler && s2.events == []
  {
  }

  /** Connecting a new node and then disconnecting it restores the memory and
      raises exactly the two events. */
  lemma ConnectThenDisconnect(h: Handler, node: string, info: string)
    requires node !in h.known
    ensures var s1 := OnNodeConnect(h, node, info);
      var s2 := OnNodeDisconnect(s1.handler, node);
      s2.handler == h && s1.events + s2.events == [NodeConnected(node, info), NodeDisconnected(node)]
  {
  }

  // ---------------------------------------------------------------------------
  // Polling

  /** The node numbers of a listing. */
  function NodeIds(entries: seq<NodeEntry>): set<string> {
    set e | e in entries :: e.node
  }

  /** The info of the first listed entry for `node`, or empty when none is
      listed (Python's `next(..., "")`). */
  function FirstInfo(entries: seq<NodeEntry>, node: string): string
    decreases |entries|
  {
    if entries == [] then []
    else if entries[0].node == node then entries[0].info
    else FirstInfo(entries[1..], node)
  }

  /** `FirstInfo` is the info of the earliest entry listing the node, and
      empty when the node is not listed. */
  lemma {:induction false} FirstInfoSpec(entries: seq<NodeEntry>, node: string)
    ensures var r := FirstInfo(entries, node);
      && (node !in NodeIds(entries) ==> r == [])
      && (node in NodeIds(entries) ==>
            exists i :: 0 <= i < |entries| && entries[i].node == node && r == entries[i].info &&
              forall j :: 0 <= j < i ==> entries[j].node != node)
    decreases |entries|
  {
    if entries != [] && entries[0].node != node {
      var tail := entries[1..];
      assert NodeIds(entries) == {entries[0].node} + NodeIds(tail);
      FirstInfoSpec(tail, node);
      var r := FirstInfo(tail, node);
      if node in NodeIds(entries) {
        var i :| 0 <= i < |tail| && tail[i].node == node && r == tail[i].info &&
          forall j :: 0 <= j < i ==> tail[j].node != node;
        assert entries[i + 1] == tail[i];
        assert forall j :: 0 <= j < i + 1 ==> entries[j].node != node by {
          forall j | 0 < j < i + 1
            ensures entries[j].node != node
          {
            assert entries[j] == tail[j - 1];
          }
        }
      }
    } else if entries != [] {
      assert entries[0] in entries;
    }
  }

  /** The new-connection loop: announces each node in turn. */
  function ConnectEach(h: Handler, nodes: seq<string>, entries: seq<NodeEntry>): (r: Step)
    ensures r.handler.known == h.known + set n | n in nodes
    decreases |nodes|
  {
    if nodes == [] then Step(h, [])
    else
      var s1 := OnNodeConnect(h, nodes[0], FirstInfo(entries, nodes[0]));
      var s2 := ConnectEach(s1.handler, nodes[1..], entries);
      assert (set n | n in nodes) == {nodes[0]} + set n | n in nodes[1..];
      Step(s2.handler, s1.events + s2.events)
  }

  /** The disconnection loop: retires each node in turn. */
  function DisconnectEach(h: Handler, nodes: seq<string>): (r: Step)
    ensures r.handler.known == h.known - set n | n in nodes
    decreases |nodes|
  {
    if nodes == [] then Step(h, [])
    else
      var s1 := OnNodeDisconnect(h, nodes[0]);
      var s2 := DisconnectEach(s1.handler, nodes[1..]);
      assert (set n | n in nodes) == {nodes[0]} + set n | n in nodes[1..];
      Step(s2.handler, s1.events + s2.events)
  }

  /** One "connected" event per node, in order, with the node's first listed info. */
  function Announcements(nodes: seq<string>, entries: seq<NodeEntry>): (r: seq<Event>)
    ensures |r| == |nodes|
    decreases |nodes|
  {
    if nodes == [] then [] else [NodeConnected(nodes[0], FirstInfo(entries, nodes[0]))] + Announcements(nodes[1..], entries)
  }

  /** One "disconnected" event per node, in order. */
  function Retirements(nodes: seq<string>): (r: seq<Event>)
    ensures |r| == |nodes|
    decreases |nodes|
  {
    if nodes == [] then [] else [NodeDisconnected(nodes[0])] + Retirements(nodes[1..])
  }

  /** Announcing distinct new nodes raises one event per node, in order. */
  lemma {:induction false} ConnectEachFresh(h: Handler, nodes: seq<string>, entries: seq<NodeEntry>)
    requires Distinct(nodes)
    requires forall i :: 0 <= i < |nodes| ==> nodes[i] !in h.known
    ensures ConnectEach(h, nodes, entries).events == Announcements(nodes, entries)
    decreases |nodes|
  {
    if nodes != [] {
      var s1 := OnNodeConnect(h, nodes[0], FirstInfo(entries, nodes[0]));
      var tail := nodes[1..];
      forall i | 0 <= i < |tail|
        ensures tail[i] !in s1.handler.known
      {
        assert tail[i] == nodes[i + 1];
      }
      ConnectEachFresh(s1.handler, tail, entries);
    }
  }

  /** Retiring distinct known nodes raises one event per node, in order. */
  lemma {:induction false} DisconnectEachKnown(h: Handler, nodes: seq<string>)
    requires Distinct(nodes)
    requires forall i :: 0 <= i < |nodes| ==> nodes[i] in h.known
    ensures DisconnectEach(h, nodes).events == Retirements(nodes)
    decreases |nodes|
  {
    if nodes != [] {
      var s1 := OnNodeDisconnect(h, nodes[0]);
      var tail := nodes[1..];
      forall i | 0 <= i < |tail|
        ensures tail[i] in s1.handler.known
      {
        assert tail[i] == nodes[i + 1];
      }
      DisconnectEachKnown(s1.handler, tail);
    }
  }

  /** A strictly ascending sequence has no repeats. */
  lemma SortedDistinct(xs: seq<string>)
    requires StrictlySorted(xs)
    ensures Distinct(xs)
  {
    forall i, j | 0 <= i < j < |xs|
      ensures xs[i] != xs[j]
    {
      BelowAsymmetric(xs[i], xs[j]);
    }
  }

  /** `check_node_changes`: one poll. When the listing cannot be fetched the
      error is logged and nothing changes. Otherwise the new nodes are
      announced first, then the vanished ones, each group in ascending
      order; the vanished ones are computed after the new ones were added. */
  function CheckNodeChanges(h: Handler, fetch: Result<seq<NodeEntry>, ChannelError>): (r: Step)
    ensures fetch.Err? ==> r == Step(h, [])
    ensures fetch.Ok? ==> r.handler.known == NodeIds(fetch.value)
  {
    match fetch
    case Err(_) => Step(h, [])
    case Ok(entries) =>
      var current := NodeIds(entries);
      var s1 := ConnectEach(h, Sorted(current - h.known), entries);
      var s2 := DisconnectEach(s1.handler, Sorted(s1.handler.known - current));
      Step(s2.handler, s1.events + s2.events)
  }

  /** Adding the new nodes does not change which known nodes have vanished. */
  lemma VanishedAfterJoin(known: set<string>, current: set<string>)
    ensures (known + set n | n in Sorted(current - known)) - current == known - current
  {
    var added := set n | n in Sorted(current - known);
    assert added == current - known;
  }

  /** A poll with a listing is the connection loop followed by the
      disconnection loop over the known nodes that are not listed. */
  lemma CheckNodeChangesUnfold(h: Handler, entries: seq<NodeEntry>)
    ensures var current := NodeIds(entries);
      var s1 := ConnectEach(h, Sorted(current - h.known), entries);
      var s2 := DisconnectEach(s1.handler, Sorted(h.known - current));
      CheckNodeChanges(h, Ok(entries)) == Step(s2.handler, s1.events + s2.events)
  {
    VanishedAfterJoin(h.known, NodeIds(entries));
  }

  /** The events of one poll: a "connected" event, carrying the first listed
      info, for each listed node that was not known, then a "disconnected"
      event for each known node that is no longer listed. */
  lemma CheckNodeChangesEvents(h: Handler, entries: seq<NodeEntry>)
    ensures var current := NodeIds(entries);
      CheckNodeChanges(h, Ok(entries)).events ==
        Announcements(Sorted(current - h.known), entries) + Retirements(Sorted(h.known - current))
  {
    var current := NodeIds(entries);
    var joined := Sorted(current - h.known);
    var left := Sorted(h.known - current);
    SortedDistinct(joined);
    ConnectEachFresh(h, joined, entries);
    var s1 := ConnectEach(h, joined, entries);
    SortedDistinct(left);
    forall i | 0 <= i < |left|
      ensures left[i] in s1.handler.known
    {
      assert left[i] in left;
    }
    DisconnectEachKnown(s1.handler, left);
    CheckNodeChangesUnfold(h, entries);
  }

  /** Each poll raises exactly as many events as nodes came and went. */
  lemma CheckNodeChangesCount(h: Handler, entries: seq<NodeEntry>)
    ensures var current := NodeIds(entries);
      |CheckNodeChanges(h, Ok(entries)).events| == |current - h.known| + |h.known - current|
  {
    CheckNodeChangesEvents(h, entries);
  }

  /** Polling twice with the same listing: the second poll is silent and
      leaves the memory as the first left it. */
  lemma CheckNodeChangesIdempotent(h: Handler, fetch: Result<seq<NodeEntry>, ChannelError>)
    ensures var s1 := CheckNodeChanges(h, fetch);
      var s2 := CheckNodeChanges(s1.handler, fetch);
      s2.handler == s1.handler && s2.events == []
  {
    var s1 := CheckNodeChanges(h, fetch);
    if fetch.Ok? {
      var current := NodeIds(fetch.value);
      assert current - s1.handler.known == {};
      assert s1.handler.known - current == {};
      assert Sorted({}) == [];
    }
  }

  /** `monitoring_loop`, one poll per fetch result (the 30-second pause is not
      modelled). */
  function Monitor(h: Handler, fetches: seq<Result<seq<NodeEntry>, ChannelError>>): (r: Step)
    decreases |fetches|
  {
    if fetches == [] then Step(h, [])
    else
      var s1 := CheckNodeChanges(h, fetches[0]);
      var s2 := Monitor(s1.handler, fetches[1..]);
      Step(s2.handler, s1.events + s2.events)
  }

  /** The node numbers of the last listing that was fetched, if any. */
  function LastListing(fetches: seq<Result<seq<NodeEntry>, ChannelError>>): Option<set<string>>
    decreases |fetches|
  {
    if fetches == [] then None
    else if Last(fetches).Ok? then Some(NodeIds(Last(fetches).value))
    else LastListing(fetches[..|fetches| - 1])
  }

  /** After any run of polls the monitor remembers exactly the nodes of the
      last listing it managed to fetch; failed polls are forgotten. */
  lemma {:induction false} MonitorTracksLastListing(h: Handler, fetches: seq<Result<seq<NodeEntry>, ChannelError>>)
    ensures Monitor(h, fetches).handler.known == LastListing(fetches).GetOr(h.known)
    decreases |fetches|
  {
    if fetches != [] {
      var s1 := CheckNodeChanges(h, fetches[0]);
      MonitorTracksLastListing(s1.handler, fetches[1..]);
      LastListingFront(fetches);
    }
  }

  /** Reading the last listing from the front: the tail's answer, or else the
      first fetch's. */
  lemma {:induction false} LastListingFront(fetches: seq<Result<seq<NodeEntry>, ChannelError>>)
    requires fetches != []
    ensures LastListing(fetches) ==
      if LastListing(fetches[1..]).Some? then LastListing(fetches[1..])
      else if fetches[0].Ok? then Some(NodeIds(fetches[0].value)) else None
    decreases |fetches|
  {
    if |fetches| > 1 {
      var init := fetches[..|fetches| - 1];
      assert Last(fetches[1..]) == Last(fetches);
      assert fetches[1..][..|fetches| - 2] == init[1..];
      assert init[0] == fetches[0];
      LastListingFront(init);
    } else {
      assert fetches[1..] == [];
    }
  }
}
