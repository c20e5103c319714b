/** The client's `watch` command: poll `/nodes` repeatedly, compare each
    signature with the previous one and report who joined and who left.
    The replies the loop receives before it stops are a parameter; the
    clock, the sleep between polls and the `max_seconds` test are not
    modelled. */
module AslWatch {
  import opened Results
  import opened StringOrder
  import opened AslTool
  import opened Lists

  /** A line the command writes to its output. */
  datatype WatchEvent =
    | Initial(nodes: seq<string>)
    | Change(joined: seq<string>, left: seq<string>, nodes: seq<string>)

  /** The previous signature (none before the first poll) and the number of
      change events so far. */
  datatype WatchState = WatchState(prev: Option<seq<string>>, changes: nat)

  const Fresh := WatchState(None, 0)

  /** The state after some polls and the events they wrote. */
  datatype Polled = Polled(state: WatchState, events: seq<WatchEvent>)

  /** `set(xs)`. */
  function Members(xs: seq<string>): set<string> {
    set x | x in xs
  }

  /** The change event from `prev` to `sig`: the sorted items only `sig`
      has, the sorted items only `prev` has, and the new signature. */
  function ChangeEvent(prev: seq<string>, sig: seq<string>): (e: WatchEvent)
    ensures e.Change? && e.nodes == sig
    ensures StrictlySorted(e.joined) && StrictlySorted(e.left)
    ensures forall x :: x in e.joined <==> x in sig && x !in prev
    ensures forall x :: x in e.left <==> x in prev && x !in sig
  {
    Change(Sorted(Members(sig) - Members(prev)), Sorted(Members(prev) - Members(sig)), sig)
  }

  /** One poll of the loop: the first one only records the signature (and
      writes it when asked to); later ones write a change event and count it
      exactly when the signature differs from the previous one. */
  function WatchStep(st: WatchState, sig: seq<string>, emitInitial: bool): (r: Polled)
    ensures r.state.prev == Some(sig)
    ensures st.prev.None? ==> r.state.changes == st.changes && r.events == (if emitInitial then [Initial(sig)] else [])
    ensures st.prev == Some(sig) ==> r == Polled(st, [])
    ensures st.prev.Some? && st.prev != Some(sig) ==>
      r.state.changes == st.changes + 1 && r.events == [ChangeEvent(st.prev.value, sig)]
  {
    match st.prev
    case None => Polled(WatchState(Some(sig), st.changes), if emitInitial then [Initial(sig)] else [])
    case Some(prev) =>
      if sig != prev then Polled(WatchState(Some(sig), st.changes + 1), [ChangeEvent(prev, sig)])
      else Polled(st, [])
  }

  /** The loop over the signatures of successive polls. */
  function Run(st: WatchState, sigs: seq<seq<string>>, emitInitial: bool): Polled
    decreases |sigs|
  {
    if sigs == [] then Polled(st, [])
    else
      var p := WatchStep(st, sigs[0], emitInitial);
      var q := Run(p.state, sigs[1..], emitInitial);
      Polled(q.state, p.events + q.events)
  }

  /** The number of change events among `events`. */
  function CountChanges(events: seq<WatchEvent>): nat
    decreases |events|
  {
    if events == [] then 0 else (if events[0].Change? then 1 else 0) + CountChanges(events[1..])
  }

  lemma {:induction false} CountChangesAppend(a: seq<WatchEvent>, b: seq<WatchEvent>)
    ensures CountChanges(a + b) == CountChanges(a) + CountChanges(b)
    decreases |a|
  {
    if a != [] {
      assert (a + b)[0] == a[0] && (a + b)[1..] == a[1..] + b;
      CountChangesAppend(a[1..], b);
    } else {
      assert a + b == b;
    }
  }

  /** The counter the command returns is the number of change events it wrote. */
  lemma {:induction false} RunCountsChanges(st: WatchState, sigs: seq<seq<string>>, emitInitial: bool)
    ensures var r := Run(st, sigs, emitInitial);
      r.state.changes == st.changes + CountChanges(r.events)
    decreases |sigs|
  {
    if sigs != [] {
      var p := WatchStep(st, sigs[0], emitInitial);
      RunCountsChanges(p.state, sigs[1..], emitInitial);
      CountChangesAppend(p.events, Run(p.state, sigs[1..], emitInitial).events);
      assert CountChanges(p.events) == p.state.changes - st.changes by {
        if p.events != [] {
          assert p.events[1..] == [];
        }
      }
    }
  }

  /** An independent count: the number of polls whose signature differs from
      the signature of the poll just before it. */
  function Transitions(sigs: seq<seq<string>>): nat
    decreases |sigs|
  {
    if |sigs| < 2 then 0 else (if sigs[0] != sigs[1] then 1 else 0) + Transitions(sigs[1..])
  }

  lemma {:induction false} RunCountsTransitions(st: WatchState, sigs: seq<seq<string>>, emitInitial: bool)
    requires st.prev.Some?
    ensures Run(st, sigs, emitInitial).state.changes == st.changes + Transitions([st.prev.value] + sigs)
    decreases |sigs|
  {
    if sigs != [] {
      var p := WatchStep(st, sigs[0], emitInitial);
      RunCountsTransitions(p.state, sigs[1..], emitInitial);
      assert ([st.prev.value] + sigs)[1..] == [sigs[0]] + sigs[1..];
    }
  }

  /** From the start, the loop counts one change per poll whose signature
      differs from the one before; the first poll is never counted. */
  lemma RunFromStart(sigs: seq<seq<string>>, emitInitial: bool)
    ensures Run(Fresh, sigs, emitInitial).state.changes == Transitions(sigs)
  {
    if sigs != [] {
      RunCountsTransitions(WatchStep(Fresh, sigs[0], emitInitial).state, sigs[1..], emitInitial);
      assert [sigs[0]] + sigs[1..] == sigs;
    }
  }

  /** After at least one poll the remembered signature is the last one. */
  lemma {:induction false} RunRemembersLast(st: WatchState, sigs: seq<seq<string>>, emitInitial: bool)
    requires sigs != []
    ensures Run(st, sigs, emitInitial).state.prev == Some(sigs[|sigs| - 1])
    decreases |sigs|
  {
    if |sigs| > 1 {
      RunRemembersLast(WatchStep(st, sigs[0], emitInitial).state, sigs[1..], emitInitial);
    }
  }

  /** Once a signature is remembered, no later poll writes an initial event. */
  lemma {:induction false} RunNoLateInitial(st: WatchState, sigs: seq<seq<string>>, emitInitial: bool)
    requires st.prev.Some?
    ensures forall k :: 0 <= k < |Run(st, sigs, emitInitial).events| ==> Run(st, sigs, emitInitial).events[k].Change?
    decreases |sigs|
  {
    if sigs != [] {
      var p := WatchStep(st, sigs[0], emitInitial);
      RunNoLateInitial(p.state, sigs[1..], emitInitial);
      var q := Run(p.state, sigs[1..], emitInitial);
      assert Run(st, sigs, emitInitial).events == p.events + q.events;
    }
  }

  /** Every change event lists its joined and left items in ascending order,
      every joined item is in the new signature and no left item is. */
  predicate WellFormed(e: WatchEvent) {
    e.Change? ==>
      && StrictlySorted(e.joined)
      && StrictlySorted(e.left)
      && (forall x :: x in e.joined ==> x in e.nodes)
      && (forall x :: x in e.left ==> x !in e.nodes)
  }

  lemma {:induction false} RunWellFormed(st: WatchState, sigs: seq<seq<string>>, emitInitial: bool)
    ensures forall k :: 0 <= k < |Run(st, sigs, emitInitial).events| ==> WellFormed(Run(st, sigs, emitInitial).events[k])
    decreases |sigs|
  {
    if sigs != [] {
      var p := WatchStep(st, sigs[0], emitInitial);
      RunWellFormed(p.state, sigs[1..], emitInitial);
      var q := Run(p.state, sigs[1..], emitInitial);
      assert forall k :: 0 <= k < |p.events| ==> WellFormed(p.events[k]);
      assert Run(st, sigs, emitInitial).events == p.events + q.events;
    }
  }

  /** A node whose mode changed, and nothing else did, shows up in both
      lists: its new item joined and its old item left. */
  lemma ModeChangeBothSides(before: seq<string>, after: seq<string>, node: string, m1: string, m2: string)
    requires m1 != m2
    requires Distinct(before + [node + ":" + m1] + after)
    requires Distinct(before + [node + ":" + m2] + after)
    ensures var a := node + ":" + m1;
      var b := node + ":" + m2;
      ChangeEvent(before + [a] + after, before + [b] + after) == Change([b], [a], before + [b] + after)
  {
    var a := node + ":" + m1;
    var b := node + ":" + m2;
    assert a[|node| + 1..] == m1 && b[|node| + 1..] == m2;
    var prev := before + [a] + after;
    var sig := before + [b] + after;
    assert a in prev && b in sig;
    assert a !in before && a !in after by {
      DistinctSplit(before, a, after);
    }
    assert b !in before && b !in after by {
      DistinctSplit(before, b, after);
    }
    assert Members(sig) - Members(prev) == {b};
    assert Members(prev) - Members(sig) == {a};
    SortedSingleton(b);
    SortedSingleton(a);
  }

  lemma DistinctSplit(before: seq<string>, x: string, after: seq<string>)
    requires Distinct(before + [x] + after)
    ensures x !in before && x !in after
  {
    var s := before + [x] + after;
    assert s[|before|] == x;
    forall i | 0 <= i < |before|
      ensures before[i] != x
    {
      assert s[i] == before[i];
    }
    forall i | 0 <= i < |after|
      ensures after[i] != x
    {
      assert s[|before| + 1 + i] == after[i];
    }
  }

  lemma SortedSingleton(x: string)
    ensures Sorted({x}) == [x]
  {
    var r := Sorted({x});
    assert x in r;
  }

  /** Reordering the same items is still a change: it is written, with
      nobody joined or left, and counted. */
  lemma ReorderIsCounted(st: WatchState, sig: seq<string>, emitInitial: bool)
    requires st.prev.Some? && st.prev.value != sig && Members(st.prev.value) == Members(sig)
    ensures var r := WatchStep(st, sig, emitInitial);
      r.events == [Change([], [], sig)] && r.state.changes == st.changes + 1
  {
    assert Members(sig) - Members(st.prev.value) == {};
  }

  /** The signatures of successive `/nodes` replies. */
  function Signatures(replies: seq<NodesReply>): (sigs: seq<seq<string>>)
    ensures |sigs| == |replies|
    ensures forall i :: 0 <= i < |replies| ==> sigs[i] == NodesSignature(replies[i])
  {
    seq(|replies|, i requires 0 <= i < |replies| => NodesSignature(replies[i]))
  }

  /** What the command returns. */
  datatype WatchResult = WatchResult(success: bool, error: Option<string>, changes: nat, events: seq<WatchEvent>)

  /** `cmd_watch`: an interval below one second is refused before any poll;
      otherwise the loop runs over the replies of its polls (the loop always
      polls at least once) and returns the number of changes. */
  function Watch(interval: real, emitInitial: bool, first: NodesReply, rest: seq<NodesReply>): (r: WatchResult)
    ensures interval < 1.0 ==> !r.success && r.error == Some("interval must be >= 1") && r.events == [] && r.changes == 0
    ensures interval >= 1.0 ==> r.success && r.error == None
    ensures interval >= 1.0 ==> r.changes == CountChanges(r.events)
    ensures interval >= 1.0 ==> r.changes == Transitions(Signatures([first] + rest))
  {
    if interval < 1.0 then WatchResult(false, Some("interval must be >= 1"), 0, [])
    else
      var sigs := Signatures([first] + rest);
      var p := Run(Fresh, sigs, emitInitial);
      RunCountsChanges(Fresh, sigs, emitInitial);
      RunFromStart(sigs, emitInitial);
      WatchResult(true, None, p.state.changes, p.events)
  }
}
