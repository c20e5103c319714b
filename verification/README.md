# ASL agent: link control, link monitoring and the command-line client

This project models, in Dafny, the core of an agent that controls an
AllStarLink radio node. It covers four parts.

- The backend's Asterisk Manager Interface client. It decodes the text of
  `rpt nodes` and `rpt stats`. It issues the `ilink` commands that connect
  (function 3, or 2 for monitor only), disconnect (function 1) and drop
  all links (function 6). A connect or disconnect is judged by the link
  list read back afterwards.
- The backend's event handler. It remembers the set of connected node
  numbers. On each poll it emits a "connected" event per new node and a
  "disconnected" event per vanished node, and forwards every event to the
  webhook sink.
- The operator's command-line client:
  - the node signature it compares between polls;
  - the `watch` loop that reports joined and left items;
  - the node report;
  - the favorites map;
  - the choice of the REST base URL from the environment.
- The configuration lookup by dot-separated keys, and the defaults of the
  typed accessors.

Everything the code gets from outside is a parameter of the model:
- the Asterisk daemon's replies (an `Err` stands for an exception raised by
  the transport);
- the REST replies;
- the parsed YAML document;
- the environment.

Python's string behaviour is written out in `Text`:
- `strip` (the `str.isspace` set);
- `split` (which never returns an empty list);
- `join`;
- substring `in`;
- `split(":")[-1]` and `split(":", 1)[-1]`.

`StringOrder` gives Python's string order and `sorted` of a set of strings.

Modules, one per file: `Results`, `Lists`, `Text`, `StringOrder`,
`AmiClient`, `EventHandler`, `AslTool`, `AslWatch` and `Config`.

Where the code's behaviour is easy to misread, the model follows the code:

- **Stats values.** A stats value is the text after the LAST colon of its
  line (`line.split(":")[-1]`). An uptime of `3 days, 4:21:09` therefore
  decodes to `09`, not to the whole duration. `AmiClient.FieldTextAfterLastColon`
  states this for every line.
- **Lines the nodes decoder skips.** It skips any line that contains
  `<NONE>` anywhere, and any line that starts with `*`.
- **Single-node lines.** A line that lists one node and has no comma yields
  no entry (`AmiClient.LoneEntryIgnored`).
- **Single-string output.** When `Output` is one string, it becomes a
  one-line list. It is not split at line breaks.
- **Set order in the event handler.** Python leaves the iteration order of
  the set differences in `check_node_changes` open. The model takes the
  nodes in ascending string order.
- **Connect and disconnect commands.** The client builds them only as
  `ilink` commands, so that is the one encoding modelled.

## Model

| member | source | states |
|---|---|---|
| AmiClient.ParseEntrySpec | backend/ami_client.py:163-178 | A comma piece yields exactly one entry when its stripped text is neither empty nor a bare mode letter. A leading T, M or R becomes the mode and the rest is the node number. The info is always empty. Otherwise the piece yields nothing. |
| AmiClient.ParseNodesLine | backend/ami_client.py:152-178 | Lines that are empty, start with `*` or contain `<NONE>` give no entries, and so does any line without a comma. Every entry has a non-empty node number, an empty or one-letter mode and an empty info. |
| AmiClient.ParseNodesLines | backend/ami_client.py:151-180 | Every decoded entry of a whole output has a non-empty node, a valid mode and an empty info. |
| AmiClient.ParseNodesLinesAppend | backend/ami_client.py:151-180 | Output is decoded line by line. The entries of two blocks are the two results concatenated: order is kept and nothing is merged or deduplicated. |
| AmiClient.SingleOutputIsOneLine | backend/ami_client.py:147-149 | A reply whose `Output` is one string decodes like a one-line list. |
| AmiClient.ParseRenderedLine | backend/ami_client.py:158-178 | Round trip: a listing line of two or more entries joined by `", "` decodes to exactly those entries, in order. Each entry is a decimal node number with an optional mode letter. |
| AmiClient.LoneEntryIgnored | backend/ami_client.py:160-161 | A line listing a single node, with no comma, contributes no entry. |
| AmiClient.FieldText | backend/ami_client.py:136-141 | A field's value is the stripped text after the line's last colon. For the connected-nodes field, the `<NONE>` marker becomes `None`. |
| AmiClient.FieldTextAfterLastColon | backend/ami_client.py:136-141 | For a line `head:tail` with no colon in `tail`, the value is the stripped `tail`, however many colons `head` holds. |
| AmiClient.RecordEffect | backend/ami_client.py:133-141 | One output line sets at most one field: the first of uptime, keyups today and connected nodes whose label it contains, and only if it has a colon. The other fields, the raw output, the node and the callsign are unchanged. |
| AmiClient.ScanKeepsLast | backend/ami_client.py:133-141 | After the loop, each field holds the value from the last line that sets it. The field is absent when no line sets it. |
| AmiClient.ParseStats | backend/ami_client.py:120-130 | The raw output is the reply's line list (one string becomes a one-line list). The node and callsign are the configured ones. |
| AmiClient.ParseStatsKeepsLast | backend/ami_client.py:120-143 | Each decoded stats field equals the independent back-to-front reading, i.e. the last line that sets that field. |
| AmiClient.SendCommand | backend/ami_client.py:46-59 | A session that is not connected, or has no manager, sends nothing and fails with "not connected". Otherwise exactly the command is sent and the daemon's reply or failure is passed on unchanged. |
| AmiClient.GetConnectedNodes | backend/ami_client.py:66-69 | Sends `rpt nodes` for the local node only when the session is ready. It succeeds exactly when the session is ready and the reply arrived, and then returns the decoded listing. |
| AmiClient.GetNodeStats | backend/ami_client.py:61-64 | Sends `rpt stats <local>` only on a connected, logged-in session. On success the result is the stats decoder's reading of the reply, carrying the reply's lines as raw output. A failed send passes its error through; an unusable session fails with "not connected" and sends nothing. |
| AmiClient.Ilink | backend/ami_client.py:74 | The command is `rpt cmd <local> ilink <code>`, with its exact layout and length. |
| AmiClient.ConnectCommand | backend/ami_client.py:73-74 | The connect command uses ilink function 2 when monitor-only and 3 otherwise, followed by a blank and the target. |
| AmiClient.DisconnectCommand | backend/ami_client.py:95 | The disconnect command uses ilink function 1 followed by a blank and the target. |
| AmiClient.DisconnectAllCommand | backend/ami_client.py:116 | Disconnect-all is exactly `rpt cmd <local> ilink 6`, with no target. |
| AmiClient.CommandsDistinct | backend/ami_client.py:73-116 | For the same local node, the connect (both variants), disconnect and disconnect-all commands are pairwise different. |
| AmiClient.ConnectNode | backend/ami_client.py:71-91 | Nothing is sent when not connected. A channel failure is passed on as an error, not as a failed result. Otherwise the connect command and then `rpt nodes` are sent. The result succeeds exactly when the target is in the read-back listing. A failure carries the command and the "did not connect" reason. |
| AmiClient.DisconnectNode | backend/ami_client.py:93-112 | Nothing is sent when not connected. Otherwise the disconnect command and then `rpt nodes` are sent. The result succeeds exactly when the target is no longer listed; otherwise it gives the "is still connected" reason. |
| AmiClient.DisconnectAll | backend/ami_client.py:114-118 | Function 6 is sent, and the result succeeds whenever the channel accepted the command. The links are not re-read. |
| EventHandler.SendWebhook | backend/event_handler.py:34-58 | At most one post is made. A post happens exactly when webhooks are enabled and the session is open, and it carries the configured node and callsign. |
| EventHandler.DeliveriesFollowEvents | backend/event_handler.py:34-58 | With webhooks on, each event is posted once, in order, with its type and data. With webhooks off, nothing is posted. |
| EventHandler.OnNodeConnect | backend/event_handler.py:60-69 | The node joins the known set. A "connected" event is raised exactly when the node was not known. |
| EventHandler.OnNodeDisconnect | backend/event_handler.py:71-79 | The node leaves the known set. A "disconnected" event is raised exactly when the node was known. |
| EventHandler.ConnectIdempotent | backend/event_handler.py:60-69 | Announcing a node twice raises one event only and leaves the set as the first call left it. |
| EventHandler.ConnectThenDisconnect | backend/event_handler.py:60-79 | Connecting a new node and then disconnecting it restores the known set and raises exactly the two events. |
| EventHandler.FirstInfoSpec | backend/event_handler.py:89 | The info passed on is that of the earliest listed entry for the node, or empty when none lists it. |
| EventHandler.ConnectEach | backend/event_handler.py:88-90 | The new-connection loop adds exactly the listed nodes to the known set. |
| EventHandler.DisconnectEach | backend/event_handler.py:93-94 | The disconnection loop removes exactly the listed nodes from the known set. |
| EventHandler.ConnectEachFresh | backend/event_handler.py:88-90 | For distinct new nodes, the loop raises one "connected" event per node, in order, each with the node's first listed info. |
| EventHandler.DisconnectEachKnown | backend/event_handler.py:93-94 | For distinct known nodes, the loop raises one "disconnected" event per node, in order. |
| EventHandler.CheckNodeChanges | backend/event_handler.py:81-97 | A failed fetch changes nothing and raises nothing. A successful one leaves the known set equal to the listed node numbers. |
| EventHandler.VanishedAfterJoin | backend/event_handler.py:88-94 | Adding the new nodes first does not change which known nodes have vanished. |
| EventHandler.CheckNodeChangesEvents | backend/event_handler.py:84-94 | A poll's events are one "connected" event per listed-but-unknown node, then one "disconnected" event per known-but-unlisted node. |
| EventHandler.CheckNodeChangesCount | backend/event_handler.py:84-94 | A poll raises exactly as many events as nodes came and went. |
| EventHandler.CheckNodeChangesIdempotent | backend/event_handler.py:81-97 | A second poll with the same listing (or the same failure) is silent and leaves the known set unchanged. |
| EventHandler.MonitorTracksLastListing | backend/event_handler.py:99-112 | After any run of polls, the known set is that of the last listing fetched. Failed polls leave no trace; with no successful poll the set is unchanged. |
| AslTool.NodesSignature | skill/scripts/asl-tool.py:258-274 | The signature has no repeated item. Its items are exactly the `node:mode` strings of the listed nodes with a non-empty number. |
| AslTool.SignatureItemsSpec | skill/scripts/asl-tool.py:259-265 | An item occurs exactly when some listed node with a non-empty number renders to it. |
| AslTool.SignatureItemsSnoc | skill/scripts/asl-tool.py:259-265 | One more listed node adds its `node:mode` item at the end exactly when its number is non-empty. |
| AslTool.NodesSignatureSnoc | skill/scripts/asl-tool.py:258-274 | The signature keeps listing order: one more listed node appends its item when it has a number and the item is new, and otherwise changes nothing. |
| AslTool.SignatureCollapsesRepeats | skill/scripts/asl-tool.py:266-274 | Deduplicating the signature again changes nothing. |
| AslTool.ReportIds | skill/scripts/asl-tool.py:167-178 | The counted node numbers have no repeats, and they are exactly the non-empty listed numbers. |
| AslTool.NonEmptyIdsSnoc | skill/scripts/asl-tool.py:171-174 | One more listed node adds its number at the end exactly when the number is non-empty. |
| AslTool.ReportIdsSnoc | skill/scripts/asl-tool.py:167-178 | The counted numbers keep listing order: one more listed node appends its number when it is non-empty and not yet seen, and otherwise changes nothing. |
| AslTool.NonEmptyIdsNonEmpty | skill/scripts/asl-tool.py:172-174 | No counted number is empty. |
| AslTool.Summarize | skill/scripts/asl-tool.py:179-181 | At most the first 25 numbers are shown. `, ...` follows exactly when there are more than 25. With 25 or fewer, all numbers are shown. |
| AslTool.ConnectedLineShape | skill/scripts/asl-tool.py:179-190 | The connected-nodes line ends at the count exactly when no node number was listed. |
| AslTool.FindFirst | skill/scripts/asl-tool.py:193-197 | The finder returns the value of the first raw line whose stripped text starts with the prefix, and nothing when no line does. |
| AslTool.FindAppend | skill/scripts/asl-tool.py:193-197 | A line added at the end is consulted only when no earlier line matches. |
| AslTool.ScanUptimeIsLast | skill/scripts/asl-tool.py:161-165 | Scanning from the front keeps the value of the last line labelled `Uptime`, or the starting value when there is none. |
| AslTool.ReportUptimeIsLast | skill/scripts/asl-tool.py:161-165 | The report's uptime is what the finder returns on the reversed raw lines: the text after the first colon of the LAST `Uptime` line. |
| AslTool.ReportLines | skill/scripts/asl-tool.py:156-212 | The report has between 3 and 8 lines. When there is an uptime, it is the second line. Then comes `Keyups today: <n>` (`?` when unknown), and right after it the connected-nodes line, built from the distinct counted numbers. |
| AslTool.StatsLines | skill/scripts/asl-tool.py:199-212 | The closing lines are `System: …`, `Scheduler: …`, `Signal on input: …` and `Autopatch: …`, in that order. Each appears only when its value is non-empty. The autopatch line ends in ` (state …)` exactly when the autopatch state is non-empty. No other line appears. |
| AslTool.FormatReportSplits | skill/scripts/asl-tool.py:214 | When no value holds a line break, splitting the report at line breaks gives back exactly its lines. |
| AslTool.FavSet | skill/scripts/asl-tool.py:242-246 | Always succeeds. The name maps to the node, and every other entry is unchanged. |
| AslTool.FavRemove | skill/scripts/asl-tool.py:249-255 | Succeeds exactly when the name is present, and then removes it. An absent name fails with "Favorite not found: <name>" and the map unchanged. Other entries never change. |
| AslTool.FavSetThenRemove | skill/scripts/asl-tool.py:242-255 | Removing a name just set succeeds and leaves the map without that name. |
| AslTool.FavSetTwice | skill/scripts/asl-tool.py:242-246 | Setting a name twice keeps only the second node. |
| AslTool.ConnectFav | skill/scripts/asl-tool.py:130-141 | An unknown name fails with "Favorite not found: <name>" and the favorites, and sends no request. Otherwise the request carries the stored node in canonical decimal (`str(int)`: no leading zeros, a `-` before a negative number) and the monitor-only flag. |
| AslTool.TagFavorite | skill/scripts/asl-tool.py:140 | A `favorite` field already in the agent's reply is kept; otherwise the favorite's name is added. |
| AslTool.ConnectFavAfterSet | skill/scripts/asl-tool.py:130-141 | A favorite just set is connected to by its node number written in digits. |
| AslTool.Env | skill/scripts/asl-tool.py:41-45 | A variable that is unset or empty gives the default; otherwise it gives its value. |
| AslTool.BaseUrl | skill/scripts/asl-tool.py:48-56 | Fails with the "Missing ASL_API_BASE or ASL_PI_IP" message exactly when both variables are unset or empty. Otherwise the URL ends in `/`. Without `ASL_API_BASE`, the URL is `http://<ASL_PI_IP>:8073/`. |
| AslTool.BaseUrlOneSlash | skill/scripts/asl-tool.py:49-51 | A non-empty `ASL_API_BASE` gives the base with its trailing slashes replaced by exactly one. |
| AslTool.BaseUrlIdempotent | skill/scripts/asl-tool.py:48-56 | Feeding the URL back in as `ASL_API_BASE` gives the same URL. |
| AslTool.EmptyBaseFallsBack | skill/scripts/asl-tool.py:41-56 | An empty `ASL_API_BASE` counts as unset, and `http://<ASL_PI_IP>:8073/` is used. |
| AslTool.ApiKey | skill/scripts/asl-tool.py:59-63 | The key is `ASL_API_KEY` when it is set and non-empty. Otherwise the call fails with the "Missing ASL_API_KEY" message. |
| AslWatch.ChangeEvent | skill/scripts/asl-tool.py:297-311 | `joined` is exactly the items of the new signature not in the previous one, and `left` the reverse. Both are in strictly ascending order. `nodes` is the new signature. |
| AslWatch.WatchStep | skill/scripts/asl-tool.py:288-312 | The first poll only records the signature, plus an initial event when asked for one, and is not counted. A later poll writes one change event and counts it exactly when the signature differs; otherwise nothing changes. |
| AslWatch.RunCountsChanges | skill/scripts/asl-tool.py:286-318 | The returned counter is the number of change events written. |
| AslWatch.RunCountsTransitions | skill/scripts/asl-tool.py:291-312 | After the first poll, the counter grows by the number of polls whose signature differs from the poll before. |
| AslWatch.RunFromStart | skill/scripts/asl-tool.py:282-312 | From the start, changes equal the number of adjacent differing signatures, so the first poll is never counted. |
| AslWatch.RunRemembersLast | skill/scripts/asl-tool.py:291-311 | After any polls, the remembered signature is the last one. |
| AslWatch.RunNoLateInitial | skill/scripts/asl-tool.py:291-296 | Once a signature is remembered, every later event is a change event; the initial event can only come first. |
| AslWatch.RunWellFormed | skill/scripts/asl-tool.py:297-311 | In every change event, `joined` and `left` are sorted, joined items are in the new signature, and left items are not. |
| AslWatch.ModeChangeBothSides | skill/scripts/asl-tool.py:297-301 | When only one node's mode changes, its new `node:mode` is the single joined item and its old one the single left item. |
| AslWatch.ReorderIsCounted | skill/scripts/asl-tool.py:297-312 | The same items in another order still count as a change, with nothing joined or left. |
| AslWatch.Signatures | skill/scripts/asl-tool.py:288-289 | Each poll's signature is the signature of that poll's reply. |
| AslWatch.Watch | skill/scripts/asl-tool.py:277-318 | An interval below 1 fails with "interval must be >= 1" before any poll. Otherwise the command succeeds, and its change count equals both the number of change events and the number of adjacent differing signatures. |
| Config.WalkIsLookup | backend/config.py:23-34 | When the default is not a mapping, `get` returns the value at the path when every segment is present through nested mappings, and the default otherwise. This includes the case where a non-mapping is reached early. |
| Config.WalkDefault | backend/config.py:28-32 | Once the walk falls back to a non-mapping default, it stays at the default. |
| Config.WalkIntoDefault | backend/config.py:29-30 | When a segment is missing, the walk continues inside the default, so a mapping default is searched by the remaining segments. |
| Config.GetPath | backend/config.py:25-34 | A key made of dot-free segments joined by dots is walked segment by segment. |
| Config.KeySegments | backend/config.py:36-94 | Each accessor's key is a dot-free section and a dot-free name joined by one dot. |
| Config.Read | backend/config.py:36-94 | Each typed accessor returns the value stored under its section and name, of whatever type, or the accessor's own default when there is none. |
| Config.EmptyDocumentDefaults | backend/config.py:26-32 | A document that is not a mapping, or is an empty one, gives every setting its default. |
| Config.FlatSectionDefaults | backend/config.py:29-32 | A section that holds something other than a mapping gives the default. |
| Config.StoredValueWins | backend/config.py:28-34 | In any document whose section is a mapping holding the setting's name, the accessor returns the stored entry as it is, even null, and never the default. |

## Left out

- The transport itself (the panoramisk session, login, `connect` and `disconnect` of the AMI client) is not modelled. The session is reduced to its two flags, and the replies are parameters.
- The settle waits (8 s after connect, 5 s after disconnect), the 30-second pause of the monitoring loop, and the sleep and `max_seconds` clock test of `watch` are timing only. They are left out. The replies a loop received before it stopped are a parameter.
- The monitoring loop's cancellation, and concurrency between the poll loop and controller calls, are not modelled.
- Webhook delivery (the HTTP POST, its status code, its timeout and the timestamp) is not modelled. A post is the value handed to the sink.
- HTTP requests, `urljoin`, JSON encoding and printing, `argparse`, `main`, and the favorites file (`_load_favorites`, `_save_favorites`) are I/O. The favorites map and the agent's replies are parameters.
- `cmd_report`'s wrapper dictionary (success flags, raw replies, text output) is not modelled; the report text is.
- The YAML file loading in `Config.load` (and its missing-file error) is I/O. The parsed document is a parameter.
- AslWatch.Watch: the interval is a real number. Python's float parsing, and float arithmetic other than the `< 1` test, are not modelled. That includes a NaN interval, which passes the `< 1` guard in Python and makes `time.sleep` raise.
- AslTool.NodesSignature: reply fields are modelled as text that is present or missing. `str()` of a JSON number or null (for example `"None"` from a null `node`) is not modelled.
- AslTool.ReportIds: the same restriction on JSON field types applies. Raw stats lines that are not strings, which the report skips, are not modelled.
- Config.Read: YAML floats and non-string mapping keys are not part of the `Yaml` datatype.
- EventHandler.CheckNodeChanges: enumerates each set difference in ascending order. Python's actual set iteration order is unspecified.
- Only the `ilink` command encoding exists in `ami_client.py`; no other encoding of connect or disconnect is modelled.
- AslWatch.ChangeEvent: the `ts` field of a change event (`int(time.time())`) is a clock reading and is left out of the event.
