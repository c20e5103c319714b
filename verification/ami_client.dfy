/** The backend's Asterisk Manager Interface client (backend/ami_client.py):
    the decoders for `rpt nodes` and `rpt stats` text, and the link controller
    that issues `ilink` commands and judges their effect from the link list
    read back after the settle wait.

    The daemon is not modelled: every reply it would give is a parameter
    (`Result<Reply, ChannelError>`, an `Err` standing for an exception raised
    by the transport), and the waits are left out. */
module AmiClient {
  import opened Results
  import opened Text
  import opened Lists

  // ---------------------------------------------------------------------------
  // Replies

  /** The `Output` entry of an AMI reply: missing, one string, or a list of lines. */
  datatype OutputField = Absent | Single(text: string) | Many(lines: seq<string>)

  datatype Reply = Reply(output: OutputField)

  /** The reply's output as a list of lines. A missing entry is an empty list
      and a single string becomes a one-element list; it is not split at
      line breaks. */
  function OutputLines(reply: Reply): seq<string> {
    match reply.output
    case Absent => []
    case Single(text) => [text]
    case Many(lines) => lines
  }

  // ---------------------------------------------------------------------------
  // `rpt nodes` decoder

  /** One linked node as the backend reports it. */
  datatype NodeEntry = NodeEntry(node: string, mode: string, info: string)

  /** The single-letter link modes: Transceive, Monitor, Remote. */
  predicate IsModePrefix(c: char) {
    c == 'T' || c == 'M' || c == 'R'
  }

  /** The mode field of a decoded entry: empty, or one mode letter. */
  predicate IsMode(m: string) {
    m == [] || (|m| == 1 && IsModePrefix(m[0]))
  }

  /** Decodes one comma-separated piece of a listing line. */
  function ParseEntry(piece: string): (r: seq<NodeEntry>)
    ensures |r| <= 1
  {
    var entry := Strip(piece);
    if entry == [] then []
    else if IsModePrefix(entry[0]) then
      (if |entry| > 1 then [NodeEntry(entry[1..], entry[..1], "")] else [])
    else [NodeEntry(entry, "", "")]
  }

  /** The stripped piece gives an entry unless it is empty or a bare mode
      letter; a leading mode letter becomes the mode and the rest, unchecked,
      the node; the info is always empty. */
  lemma ParseEntrySpec(piece: string)
    ensures var r := ParseEntry(piece);
      var entry := Strip(piece);
      && (r == [] <==> entry == [] || (|entry| == 1 && IsModePrefix(entry[0])))
      && forall e | e in r ::
        && e.info == []
        && e.node != []
        && IsMode(e.mode)
        && e.mode + e.node == entry
        && (e.mode == [] <==> !IsModePrefix(entry[0]))
  {
    var entry := Strip(piece);
    if entry != [] && IsModePrefix(entry[0]) && |entry| > 1 {
      assert entry[..1] + entry[1..] == entry;
    }
  }

  /** Decodes the pieces of a line in order. */
  function ParseEntries(pieces: seq<string>): seq<NodeEntry> {
    FlatMap(ParseEntry, pieces)
  }

  /** A stripped line the decoder passes over: empty, a `*` banner line, or
      one holding the `<NONE>` marker anywhere. */
  predicate SkippedLine(line: string) {
    line == [] || line[0] == '*' || Contains(line, "<NONE>")
  }

  /** Decodes one line of `rpt nodes` output. Only lines with a comma are
      read, so a line listing one node and no comma yields nothing. */
  function ParseNodesLine(raw: string): (r: seq<NodeEntry>)
    ensures SkippedLine(Strip(raw)) ==> r == []
    ensures ',' !in Strip(raw) ==> r == []
    ensures forall e | e in r :: e.info == [] && e.node != [] && IsMode(e.mode)
  {
    var line := Strip(raw);
    if SkippedLine(line) then []
    else if ',' !in line then []
    else
      EntriesShaped(Split(line, ','));
      ParseEntries(Split(line, ','))
  }

  lemma EntriesShaped(pieces: seq<string>)
    ensures forall e | e in ParseEntries(pieces) :: e.info == [] && e.node != [] && IsMode(e.mode)
  {
    forall e | e in ParseEntries(pieces)
      ensures e.info == [] && e.node != [] && IsMode(e.mode)
    {
      FlatMapMember(ParseEntry, pieces, e);
      var i :| 0 <= i < |pieces| && e in ParseEntry(pieces[i]);
      ParseEntrySpec(pieces[i]);
    }
  }

  /** Decodes a list of output lines, line by line. */
  function ParseNodesLines(lines: seq<string>): (r: seq<NodeEntry>)
    ensures forall e | e in r :: e.info == [] && e.node != [] && IsMode(e.mode)
  {
    forall e | e in FlatMap(ParseNodesLine, lines)
      ensures e.info == [] && e.node != [] && IsMode(e.mode)
    {
      FlatMapMember(ParseNodesLine, lines, e);
    }
    FlatMap(ParseNodesLine, lines)
  }

  /** `_parse_nodes_response`. */
  function ParseNodesReply(reply: Reply): seq<NodeEntry> {
    ParseNodesLines(OutputLines(reply))
  }

  /** The decoder works line by line: the entries of two blocks of output are
      the entries of the first followed by those of the second, so the
      daemon's order is kept and nothing is merged or deduplicated. */
  lemma ParseNodesLinesAppend(a: seq<string>, b: seq<string>)
    ensures ParseNodesLines(a + b) == ParseNodesLines(a) + ParseNodesLines(b)
  {
    FlatMapAppend(ParseNodesLine, a, b);
  }

  /** A one-string reply decodes like a one-line list. */
  lemma SingleOutputIsOneLine(text: string)
    ensures ParseNodesReply(Reply(Single(text))) == ParseNodesLine(text)
  {
    FlatMapSingle(ParseNodesLine, text);
  }

  // The listing format, used to state the decoder's round trip.

  /** An entry the daemon can list: a decimal node number, a known mode, no info. */
  predicate Listable(e: NodeEntry) {
    IsDigits(e.node) && IsMode(e.mode) && e.info == []
  }

  function RenderEntry(e: NodeEntry): string {
    e.mode + e.node
  }

  /** The daemon's listing line, entries joined by `", "`. */
  function RenderLine(es: seq<NodeEntry>): string
    requires es != []
    decreases |es|
  {
    if |es| == 1 then RenderEntry(es[0]) else RenderEntry(es[0]) + ", " + RenderLine(es[1..])
  }

  /** A listing line starts with its first entry and ends with its last. */
  lemma {:induction false} RenderLineEnds(es: seq<NodeEntry>)
    requires es != []
    ensures var r := RenderLine(es);
      && |RenderEntry(es[0])| <= |r| && r[..|RenderEntry(es[0])|] == RenderEntry(es[0])
      && |RenderEntry(Last(es))| <= |r| && r[|r| - |RenderEntry(Last(es))|..] == RenderEntry(Last(es))
    decreases |es|
  {
    if |es| > 1 {
      RenderLineEnds(es[1..]);
      assert Last(es[1..]) == Last(es);
    }
  }

  /** The rendering of a listable entry has no `<`. */
  lemma RenderEntryNoAngle(e: NodeEntry)
    requires Listable(e)
    ensures '<' !in RenderEntry(e)
  {
    var s := e.mode + e.node;
    forall i | 0 <= i < |s|
      ensures s[i] != '<'
    {
      if i < |e.mode| {
        assert s[i] == e.mode[0];
      } else {
        assert s[i] == e.node[i - |e.mode|];
        assert IsDigit(e.node[i - |e.mode|]);
      }
    }
  }

  /** A rendered line of listable entries has no `<`, so no `<NONE>` marker. */
  lemma {:induction false} RenderLineNoAngle(es: seq<NodeEntry>)
    requires es != []
    requires forall e | e in es :: Listable(e)
    ensures '<' !in RenderLine(es)
    decreases |es|
  {
    RenderEntryNoAngle(es[0]);
    if |es| > 1 {
      assert forall e | e in es[1..] :: e in es;
      RenderLineNoAngle(es[1..]);
      NotInConcat('<', RenderEntry(es[0]) + ", ", RenderLine(es[1..]));
    }
  }

  lemma RenderEntryShape(e: NodeEntry)
    requires Listable(e)
    ensures var s := RenderEntry(e);
      s != [] && !IsSpace(s[0]) && !IsSpace(s[|s| - 1]) && ',' !in s && s[0] != '*'
  {
    var s := RenderEntry(e);
    assert s[|s| - 1] == e.node[|e.node| - 1];
    if e.mode != [] {
      assert s[0] == e.mode[0];
    }
  }

  /** A listable entry survives a trip through its rendering. */
  lemma ParseEntryRendered(piece: string, e: NodeEntry)
    requires Listable(e)
    requires Strip(piece) == RenderEntry(e)
    ensures ParseEntry(piece) == [e]
  {
    var s := e.mode + e.node;
    assert Strip(piece) == s;
    assert IsDigits(e.node) && IsMode(e.mode);
    if e.mode != [] {
      assert s[1..] == e.node && s[..1] == e.mode;
    } else {
      assert s == e.node;
      assert IsDigit(s[0]);
    }
  }

  /** The comma pieces of a rendered line: the first entry, then each other
      entry behind its blank. */
  lemma {:induction false} RenderedPieces(es: seq<NodeEntry>)
    requires es != []
    requires forall e | e in es :: Listable(e)
    ensures var p := Split(RenderLine(es), ',');
      && |p| == |es|
      && p[0] == RenderEntry(es[0])
      && forall i :: 1 <= i < |es| ==> p[i] == [' '] + RenderEntry(es[i])
    decreases |es|
  {
    RenderEntryShape(es[0]);
    var r0 := RenderEntry(es[0]);
    if |es| == 1 {
      SplitWithoutSep(r0, ',');
    } else {
      var tail := es[1..];
      assert forall e | e in tail :: e in es;
      RenderedPieces(tail);
      var rest := RenderLine(tail);
      assert RenderLine(es) == r0 + ", " + rest;
      SplitAfterComma(r0, rest);
      PiecesShape(r0, Split(rest, ','), es);
    }
  }

  lemma PiecesShape(r0: string, q: seq<string>, es: seq<NodeEntry>)
    requires |es| >= 2 && |q| == |es| - 1
    requires q[0] == RenderEntry(es[1])
    requires forall j :: 1 <= j < |q| ==> q[j] == [' '] + RenderEntry(es[j + 1])
    ensures var p := [r0] + ([[' '] + q[0]] + q[1..]);
      |p| == |es| && forall i :: 1 <= i < |es| ==> p[i] == [' '] + RenderEntry(es[i])
  {
    var p := [r0] + ([[' '] + q[0]] + q[1..]);
    forall i | 1 <= i < |es|
      ensures p[i] == [' '] + RenderEntry(es[i])
    {
      if i >= 2 {
        assert p[i] == q[i - 1];
      }
    }
  }

  lemma ParseEntriesRendered(pieces: seq<string>, es: seq<NodeEntry>)
    requires |pieces| == |es|
    requires forall i :: 0 <= i < |es| ==> Listable(es[i]) && Strip(pieces[i]) == RenderEntry(es[i])
    ensures ParseEntries(pieces) == es
  {
    forall i | 0 <= i < |pieces|
      ensures ParseEntry(pieces[i]) == [es[i]]
    {
      ParseEntryRendered(pieces[i], es[i]);
    }
    FlatMapSingletons(ParseEntry, pieces, es);
  }

  /** A rendered line of two or more entries is read: it is already stripped,
      it is not a banner or `<NONE>` line, and it has a comma. */
  lemma RenderedLineRead(es: seq<NodeEntry>)
    requires |es| >= 2
    requires forall e | e in es :: Listable(e)
    ensures var line := RenderLine(es);
      Strip(line) == line && !SkippedLine(line) && ',' in line
  {
    RenderedLineTrimmed(es);
    RenderedLineHasComma(es);
    RenderLineNoAngle(es);
    ContainsNeedsChar(RenderLine(es), "<NONE>", '<');
  }

  lemma RenderedLineTrimmed(es: seq<NodeEntry>)
    requires |es| >= 2
    requires forall e | e in es :: Listable(e)
    ensures var line := RenderLine(es);
      line != [] && line[0] != '*' && Strip(line) == line
  {
    var line := RenderLine(es);
    var r0 := RenderEntry(es[0]);
    var rn := RenderEntry(Last(es));
    RenderEntryShape(es[0]);
    assert Last(es) in es;
    RenderEntryShape(Last(es));
    RenderLineEnds(es);
    assert line[0] == r0[0] by {
      assert line[..|r0|][0] == line[0];
    }
    assert line[|line| - 1] == rn[|rn| - 1] by {
      assert line[|line| - |rn|..][|rn| - 1] == line[|line| - 1];
    }
    StripTrimmed(line);
  }

  lemma RenderedLineHasComma(es: seq<NodeEntry>)
    requires |es| >= 2
    ensures ',' in RenderLine(es)
  {
    var r0 := RenderEntry(es[0]);
    var line := RenderLine(es);
    assert line == r0 + ", " + RenderLine(es[1..]);
    assert line[|r0|] == ',';
  }

  /** Each comma piece of a rendered line strips to its entry's rendering. */
  lemma RenderedPiecesStrip(es: seq<NodeEntry>)
    requires es != []
    requires forall e | e in es :: Listable(e)
    ensures var p := Split(RenderLine(es), ',');
      |p| == |es| && forall i :: 0 <= i < |es| ==> Listable(es[i]) && Strip(p[i]) == RenderEntry(es[i])
  {
    RenderedPieces(es);
    var p := Split(RenderLine(es), ',');
    forall i | 0 <= i < |es|
      ensures Listable(es[i]) && Strip(p[i]) == RenderEntry(es[i])
    {
      RenderEntryShape(es[i]);
      if i == 0 {
        StripTrimmed(p[0]);
      } else {
        StripAfterBlank(RenderEntry(es[i]));
      }
    }
  }

  /** Round trip: a listing line of two or more listable entries decodes to
      exactly those entries, in order and with any duplicates kept. */
  lemma ParseRenderedLine(es: seq<NodeEntry>)
    requires |es| >= 2
    requires forall e | e in es :: Listable(e)
    ensures ParseNodesLine(RenderLine(es)) == es
  {
    RenderedLineRead(es);
    RenderedPiecesStrip(es);
    ParseEntriesRendered(Split(RenderLine(es), ','), es);
  }

  /** A line that lists a single node, with no comma, contributes no entry. */
  lemma LoneEntryIgnored(e: NodeEntry)
    requires Listable(e)
    ensures ParseNodesLine(RenderEntry(e)) == []
  {
    RenderEntryShape(e);
    StripTrimmed(RenderEntry(e));
  }

  // ---------------------------------------------------------------------------
  // `rpt stats` decoder

  /** `_parse_stats_response`'s dictionary: the raw lines, the configured node
      number and callsign, and the three fields it looks for, each missing
      until a line sets it. */
  datatype NodeStats = NodeStats(
    rawOutput: seq<string>,
    node: string,
    callsign: string,
    uptime: Option<string>,
    keyupsToday: Option<string>,
    connectedNodes: Option<string>)

  datatype StatsField = UptimeField | KeyupsField | ConnectedField

  /** The field a stripped stats line sets, checked in the code's order:
      uptime, then keyups today, then currently connected nodes. A line
      without a colon sets nothing. */
  function FieldOf(line: string): Option<StatsField> {
    if Contains(line, "Uptime") && ':' in line then Some(UptimeField)
    else if Contains(line, "Keyups today") && ':' in line then Some(KeyupsField)
    else if Contains(line, "Nodes currently connected to us") && ':' in line then Some(ConnectedField)
    else None
  }

  /** The value a stripped stats line gives its field: the stripped text after
      the line's last colon, with the `<NONE>` marker of the connected-nodes
      field shown as `None`. */
  function FieldText(f: StatsField, line: string): (v: string)
    ensures var after := Strip(AfterLast(line, ':'));
      v == if f == ConnectedField && after == "<NONE>" then "None" else after
  {
    SplitLastPiece(line, ':');
    var v := Strip(Last(Split(line, ':')));
    if f == ConnectedField && v == "<NONE>" then "None" else v
  }

  /** A field's value is taken after the line's last colon only, so a value
      that itself holds colons keeps just its final part. */
  lemma FieldTextAfterLastColon(f: StatsField, head: string, tail: string)
    requires ':' !in tail
    ensures FieldText(f, head + [':'] + tail) ==
      if f == ConnectedField && Strip(tail) == "<NONE>" then "None" else Strip(tail)
  {
    AfterLastAt(head, ':', tail);
  }

  function FieldValue(st: NodeStats, f: StatsField): Option<string> {
    match f
    case UptimeField => st.uptime
    case KeyupsField => st.keyupsToday
    case ConnectedField => st.connectedNodes
  }

  /** One pass of the scanning loop: the line's field, if any, is overwritten. */
  function Record(st: NodeStats, raw: string): NodeStats {
    var line := Strip(raw);
    match FieldOf(line)
    case None => st
    case Some(f) =>
      var v := Some(FieldText(f, line));
      match f
      case UptimeField => st.(uptime := v)
      case KeyupsField => st.(keyupsToday := v)
      case ConnectedField => st.(connectedNodes := v)
  }

  /** The scanning loop over the output lines, front to back. */
  function Scan(st: NodeStats, lines: seq<string>): NodeStats
    decreases |lines|
  {
    if lines == [] then st else Scan(Record(st, lines[0]), lines[1..])
  }

  /** Reference reading of a field: the value from the LAST line that sets it,
      found from the back of the output. */
  function LastSetting(lines: seq<string>, f: StatsField): Option<string>
    decreases |lines|
  {
    if lines == [] then None
    else
      var line := Strip(Last(lines));
      if FieldOf(line) == Some(f) then Some(FieldText(f, line))
      else LastSetting(lines[..|lines| - 1], f)
  }

  /** One pass of the loop sets at most the line's own field. */
  lemma RecordEffect(st: NodeStats, raw: string, f: StatsField)
    ensures var line := Strip(raw);
      FieldValue(Record(st, raw), f) == if FieldOf(line) == Some(f) then Some(FieldText(f, line)) else FieldValue(st, f)
    ensures Record(st, raw).rawOutput == st.rawOutput
    ensures Record(st, raw).node == st.node && Record(st, raw).callsign == st.callsign
  {
  }

  lemma {:induction false} ScanSnoc(st: NodeStats, a: seq<string>, x: string)
    ensures Scan(st, a + [x]) == Record(Scan(st, a), x)
    decreases |a|
  {
    if a == [] {
      assert a + [x] == [x];
      assert [x][1..] == [];
    } else {
      assert (a + [x])[1..] == a[1..] + [x];
      ScanSnoc(Record(st, a[0]), a[1..], x);
    }
  }

  /** Later lines overwrite earlier ones: after the scan, each field holds the
      value of the last line that sets it, or its earlier value when no line
      does; the raw output, node and callsign are untouched. */
  lemma {:induction false} ScanKeepsLast(st: NodeStats, lines: seq<string>, f: StatsField)
    ensures FieldValue(Scan(st, lines), f) ==
      if LastSetting(lines, f).Some? then LastSetting(lines, f) else FieldValue(st, f)
    ensures Scan(st, lines).rawOutput == st.rawOutput
    ensures Scan(st, lines).node == st.node && Scan(st, lines).callsign == st.callsign
    decreases |lines|
  {
    if lines != [] {
      var init := lines[..|lines| - 1];
      assert lines == init + [Last(lines)];
      ScanSnoc(st, init, Last(lines));
      ScanKeepsLast(st, init, f);
      RecordEffect(Scan(st, init), Last(lines), f);
    }
  }

  /** `_parse_stats_response`, for the configured node number and callsign:
      the reply's lines are kept as the raw output and scanned for the fields. */
  function ParseStats(reply: Reply, nodeNumber: string, callsign: string): (s: NodeStats)
    ensures s.rawOutput == OutputLines(reply)
    ensures s.node == nodeNumber && s.callsign == callsign
    ensures reply.output.Single? ==> s.rawOutput == [reply.output.text]
  {
    var lines := OutputLines(reply);
    var init := NodeStats(lines, nodeNumber, callsign, None, None, None);
    ScanKeepsLast(init, lines, UptimeField);
    Scan(init, lines)
  }

  /** Each field of the decoded stats is the value given by the last output
      line that sets it, and is missing when no line does. */
  lemma ParseStatsKeepsLast(reply: Reply, nodeNumber: string, callsign: string, f: StatsField)
    ensures FieldValue(ParseStats(reply, nodeNumber, callsign), f) == LastSetting(OutputLines(reply), f)
  {
    var lines := OutputLines(reply);
    var init := NodeStats(lines, nodeNumber, callsign, None, None, None);
    ScanKeepsLast(init, lines, f);
    assert FieldValue(init, f) == None;
  }

  // ---------------------------------------------------------------------------
  // Command channel and link controller

  /** The client's session flags: `connected`, and whether a manager object exists. */
  datatype Session = Session(connected: bool, hasManager: bool)

  predicate Ready(s: Session) {
    s.connected && s.hasManager
  }

  /** Why a command did not produce a reply. */
  datatype ChannelError = NotConnected | Transport(reason: string)

  /** What a call put on the wire, and what it returned or raised. */
  datatype Call<T> = Call(sent: seq<string>, outcome: Result<T, ChannelError>)

  /** `send_command`: refuses before sending anything when the session is not
      ready; otherwise sends the command and hands back the daemon's reply or
      its failure unchanged. */
  function SendCommand(s: Session, command: string, reply: Result<Reply, ChannelError>): (c: Call<Reply>)
    ensures !Ready(s) ==> c.sent == [] && c.outcome == Err(NotConnected)
    ensures Ready(s) ==> c.sent == [command] && c.outcome == reply
  {
    if !Ready(s) then Call([], Err(NotConnected)) else Call([command], reply)
  }

  function NodesCommand(local: string): string {
    "rpt nodes " + local
  }

  function StatsCommand(local: string): string {
    "rpt stats " + local
  }

  /** `get_connected_nodes`: `rpt nodes` for the local node, decoded. */
  function GetConnectedNodes(s: Session, local: string, reply: Result<Reply, ChannelError>): (c: Call<seq<NodeEntry>>)
    ensures c.sent == (if Ready(s) then [NodesCommand(local)] else [])
    ensures c.outcome.Ok? <==> Ready(s) && reply.Ok?
    ensures c.outcome.Ok? ==> c.outcome.value == ParseNodesReply(reply.value)
    ensures c.outcome.Err? ==> c.outcome.error == (if Ready(s) then reply.error else NotConnected)
  {
    var sent := SendCommand(s, NodesCommand(local), reply);
    match sent.outcome
    case Err(e) => Call(sent.sent, Err(e))
    case Ok(r) => Call(sent.sent, Ok(ParseNodesReply(r)))
  }

  /** `get_node_stats`: `rpt stats` for the local node, decoded. */
  function GetNodeStats(s: Session, local: string, callsign: string, reply: Result<Reply, ChannelError>): (c: Call<NodeStats>)
    ensures c.sent == (if Ready(s) then [StatsCommand(local)] else [])
    ensures c.outcome.Ok? <==> Ready(s) && reply.Ok?
    ensures c.outcome.Ok? ==> c.outcome.value == ParseStats(reply.value, local, callsign)
    ensures c.outcome.Ok? ==> c.outcome.value.rawOutput == OutputLines(reply.value)
    ensures c.outcome.Err? ==> c.outcome.error == (if Ready(s) then reply.error else NotConnected)
  {
    var sent := SendCommand(s, StatsCommand(local), reply);
    match sent.outcome
    case Err(e) => Call(sent.sent, Err(e))
    case Ok(r) => Call(sent.sent, Ok(ParseStats(r, local, callsign)))
  }

  /** `rpt cmd <local> ilink <code>`. */
  function Ilink(local: string, code: char): (cmd: string)
    ensures |cmd| == |local| + 16
    ensures cmd[..8] == "rpt cmd " && cmd[8..8 + |local|] == local
    ensures cmd[8 + |local|..] == [' ', 'i', 'l', 'i', 'n', 'k', ' ', code]
  {
    "rpt cmd " + local + " ilink " + [code]
  }

  /** The position of the `ilink` function code in a command for `local`. */
  function CodeAt(local: string): nat {
    |local| + 15
  }

  /** `connect_node`'s command: function 3 (transceive) or 2 (monitor only). */
  function ConnectCommand(local: string, target: string, monitorOnly: bool): (cmd: string)
    ensures |cmd| == CodeAt(local) + 2 + |target|
    ensures cmd[CodeAt(local)] == (if monitorOnly then '2' else '3')
    ensures cmd[..CodeAt(local) + 1] == Ilink(local, cmd[CodeAt(local)])
    ensures cmd[CodeAt(local) + 1..] == [' '] + target
  {
    Ilink(local, if monitorOnly then '2' else '3') + " " + target
  }

  /** `disconnect_node`'s command: function 1. */
  function DisconnectCommand(local: string, target: string): (cmd: string)
    ensures |cmd| == CodeAt(local) + 2 + |target|
    ensures cmd[CodeAt(local)] == '1'
    ensures cmd[..CodeAt(local) + 1] == Ilink(local, '1')
    ensures cmd[CodeAt(local) + 1..] == [' '] + target
  {
    Ilink(local, '1') + " " + target
  }

  /** `disconnect_all`'s command: function 6, with no target. */
  function DisconnectAllCommand(local: string): (cmd: string)
    ensures |cmd| == CodeAt(local) + 1 && cmd[CodeAt(local)] == '6'
    ensures cmd == Ilink(local, '6')
  {
    Ilink(local, '6')
  }

  /** The three ilink commands for the same local node never coincide. */
  lemma CommandsDistinct(local: string, target: string, monitorOnly: bool)
    ensures ConnectCommand(local, target, true) != ConnectCommand(local, target, false)
    ensures ConnectCommand(local, target, monitorOnly) != DisconnectCommand(local, target)
    ensures ConnectCommand(local, target, monitorOnly) != DisconnectAllCommand(local)
    ensures DisconnectCommand(local, target) != DisconnectAllCommand(local)
  {
    var k := CodeAt(local);
    assert ConnectCommand(local, target, true)[k] != ConnectCommand(local, target, false)[k];
    assert ConnectCommand(local, target, monitorOnly)[k] != DisconnectCommand(local, target)[k];
  }

  /** The dictionaries the controller returns. */
  datatype ControlResult =
    | Done(command: string, node: string)          // success with the node
    | Failed(command: string, error: string)       // success False, with a reason
    | DoneAll(command: string, response: Reply)    // success with the raw reply

  predicate Succeeded(r: ControlResult) {
    !r.Failed?
  }

  /** `any(n['node'] == target for n in nodes)`. */
  predicate InListing(nodes: seq<NodeEntry>, target: string) {
    exists i :: 0 <= i < |nodes| && nodes[i].node == target
  }

  /** `connect_node`: sends the connect command and, after the settle wait,
      re-reads the link list. It succeeds exactly when the target is listed;
      otherwise it reports a failure with the reason and the command instead
      of raising. Channel failures are passed on as errors, never turned into
      a failed result. */
  function ConnectNode(s: Session, local: string, target: string, monitorOnly: bool,
                       ack: Result<Reply, ChannelError>, listing: Result<Reply, ChannelError>): (c: Call<ControlResult>)
    ensures !Ready(s) ==> c == Call([], Err(NotConnected))
    ensures Ready(s) && ack.Err? ==> c == Call([ConnectCommand(local, target, monitorOnly)], Err(ack.error))
    ensures Ready(s) && ack.Ok? ==> c.sent == [ConnectCommand(local, target, monitorOnly), NodesCommand(local)]
    ensures Ready(s) && ack.Ok? && listing.Err? ==> c.outcome == Err(listing.error)
    ensures c.outcome.Ok? ==> Ready(s) && ack.Ok? && listing.Ok?
    ensures c.outcome.Ok? ==>
      var r := c.outcome.value;
      && r.command == ConnectCommand(local, target, monitorOnly)
      && (Succeeded(r) <==> InListing(ParseNodesReply(listing.value), target))
      && (r.Done? ==> r.node == target)
      && (r.Failed? ==> r.error == "Node " + target + " did not connect (may be offline or unreachable)")
      && !r.DoneAll?
  {
    var cmd := ConnectCommand(local, target, monitorOnly);
    var first := SendCommand(s, cmd, ack);
    if first.outcome.Err? then Call(first.sent, Err(first.outcome.error))
    else
      var check := GetConnectedNodes(s, local, listing);
      match check.outcome
      case Err(e) => Call(first.sent + check.sent, Err(e))
      case Ok(nodes) =>
        if InListing(nodes, target) then Call(first.sent + check.sent, Ok(Done(cmd, target)))
        else Call(first.sent + check.sent,
                  Ok(Failed(cmd, "Node " + target + " did not connect (may be offline or unreachable)")))
  }

  /** `disconnect_node`: sends the disconnect command and, after the settle
      wait, succeeds exactly when the target is no longer listed. */
  function DisconnectNode(s: Session, local: string, target: string,
                          ack: Result<Reply, ChannelError>, listing: Result<Reply, ChannelError>): (c: Call<ControlResult>)
    ensures !Ready(s) ==> c == Call([], Err(NotConnected))
    ensures Ready(s) && ack.Err? ==> c == Call([DisconnectCommand(local, target)], Err(ack.error))
    ensures Ready(s) && ack.Ok? ==> c.sent == [DisconnectCommand(local, target), NodesCommand(local)]
    ensures Ready(s) && ack.Ok? && listing.Err? ==> c.outcome == Err(listing.error)
    ensures c.outcome.Ok? ==> Ready(s) && ack.Ok? && listing.Ok?
    ensures c.outcome.Ok? ==>
      var r := c.outcome.value;
      && r.command == DisconnectCommand(local, target)
      && (Succeeded(r) <==> !InListing(ParseNodesReply(listing.value), target))
      && (r.Done? ==> r.node == target)
      && (r.Failed? ==> r.error == "Node " + target + " is still connected")
      && !r.DoneAll?
  {
    var cmd := DisconnectCommand(local, target);
    var first := SendCommand(s, cmd, ack);
    if first.outcome.Err? then Call(first.sent, Err(first.outcome.error))
    else
      var check := GetConnectedNodes(s, local, listing);
      match check.outcome
      case Err(e) => Call(first.sent + check.sent, Err(e))
      case Ok(nodes) =>
        if InListing(nodes, target) then Call(first.sent + check.sent, Ok(Failed(cmd, "Node " + target + " is still connected")))
        else Call(first.sent + check.sent, Ok(Done(cmd, target)))
  }

  /** `disconnect_all`: sends function 6 and reports success whenever the
      channel accepted it, without re-reading the links. */
  function DisconnectAll(s: Session, local: string, ack: Result<Reply, ChannelError>): (c: Call<ControlResult>)
    ensures !Ready(s) ==> c == Call([], Err(NotConnected))
    ensures Ready(s) ==> c.sent == [DisconnectAllCommand(local)]
    ensures Ready(s) && ack.Err? ==> c.outcome == Err(ack.error)
    ensures Ready(s) && ack.Ok? ==>
      c.outcome.Ok? && Succeeded(c.outcome.value) && c.outcome.value == DoneAll(DisconnectAllCommand(local), ack.value)
  {
    var cmd := DisconnectAllCommand(local);
    var first := SendCommand(s, cmd, ack);
    match first.outcome
    case Err(e) => Call(first.sent, Err(e))
    case Ok(r) => Call(first.sent, Ok(DoneAll(cmd, r)))
  }
}
