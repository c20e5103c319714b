/** The pure helpers of the command-line client that talks to the agent's
    REST API: the node signature and the node report built from its replies,
    the favorites map, and the choice of the API base URL from the
    environment. HTTP requests, the favorites file and JSON encoding stay
    outside the model; their results are parameters. */
module AslTool {
  import opened Results
  import opened Text
  import opened Lists

  // ---------------------------------------------------------------------------
  // Replies of the REST API

  /** One element of the `connected_nodes` list of a `/nodes` reply: the
      text of its `node` and `mode` fields, when present. */
  datatype Listed = Listed(node: Option<string>, mode: Option<string>)

  /** A `/nodes` reply: its `connected_nodes` list, which may be missing. */
  datatype NodesReply = NodesReply(connected: Option<seq<Listed>>)

  /** `nodes.get("connected_nodes") or []`. */
  function ConnectedList(reply: NodesReply): seq<Listed> {
    reply.connected.GetOr([])
  }

  /** `str(n.get("node", ""))`. */
  function NodeText(n: Listed): string {
    n.node.GetOr("")
  }

  /** `f"{node}:{mode}"` of one listed node. */
  function SignatureItem(n: Listed): string {
    NodeText(n) + ":" + n.mode.GetOr("")
  }

  /** The signature items of the listed nodes that have a node number, in order. */
  function SignatureItems(list: seq<Listed>): seq<string>
    decreases |list|
  {
    if list == [] then []
    else (if NodeText(list[0]) != "" then [SignatureItem(list[0])] else []) + SignatureItems(list[1..])
  }

  /** `_nodes_signature`: one `node:mode` item per listed node with a node
      number, duplicates removed, first occurrence first. */
  function NodesSignature(reply: NodesReply): (r: seq<string>)
    ensures Distinct(r)
    ensures forall x :: x in r <==> x in SignatureItems(ConnectedList(reply))
  {
    DedupSpec(SignatureItems(ConnectedList(reply)));
    Dedup(SignatureItems(ConnectedList(reply)))
  }

  /** An item is in the signature exactly when some listed node with a
      non-empty number renders to it. */
  lemma {:induction false} SignatureItemsSpec(list: seq<Listed>, x: string)
    ensures x in SignatureItems(list) <==>
      exists i :: 0 <= i < |list| && NodeText(list[i]) != "" && SignatureItem(list[i]) == x
    decreases |list|
  {
    if list != [] {
      SignatureItemsSpec(list[1..], x);
      if x in SignatureItems(list[1..]) {
        var i :| 0 <= i < |list[1..]| && NodeText(list[1..][i]) != "" && SignatureItem(list[1..][i]) == x;
        assert list[i + 1] == list[1..][i];
      }
      if exists i :: 0 <= i < |list| && NodeText(list[i]) != "" && SignatureItem(list[i]) == x {
        var i :| 0 <= i < |list| && NodeText(list[i]) != "" && SignatureItem(list[i]) == x;
        if i > 0 {
          assert list[1..][i - 1] == list[i];
        }
      }
    }
  }

  lemma {:induction false} SignatureItemsSnoc(list: seq<Listed>, n: Listed)
    ensures SignatureItems(list + [n]) == SignatureItems(list) + (if NodeText(n) != "" then [SignatureItem(n)] else [])
    decreases |list|
  {
    if list == [] {
      assert list + [n] == [n];
    } else {
      assert (list + [n])[0] == list[0] && (list + [n])[1..] == list[1..] + [n];
      SignatureItemsSnoc(list[1..], n);
    }
  }

  /** The signature keeps the order of the listing: one more listed node adds
      its item at the end, when it has a number and its item is new. */
  lemma NodesSignatureSnoc(list: seq<Listed>, n: Listed)
    ensures var before := NodesSignature(NodesReply(Some(list)));
      NodesSignature(NodesReply(Some(list + [n]))) ==
        before + (if NodeText(n) != "" && SignatureItem(n) !in before then [SignatureItem(n)] else [])
  {
    SignatureItemsSnoc(list, n);
    assert ConnectedList(NodesReply(Some(list))) == list;
    assert ConnectedList(NodesReply(Some(list + [n]))) == list + [n];
    if NodeText(n) != "" {
      DedupSnoc(SignatureItems(list), SignatureItem(n));
      assert SignatureItem(n) in NodesSignature(NodesReply(Some(list))) <==> SignatureItem(n) in SignatureItems(list);
    } else {
      assert SignatureItems(list + [n]) == SignatureItems(list);
    }
  }

  /** A node listed twice with the same mode appears once in the signature. */
  lemma SignatureCollapsesRepeats(reply: NodesReply)
    ensures NodesSignature(reply) == Dedup(NodesSignature(reply))
  {
    DedupIdempotent(SignatureItems(ConnectedList(reply)));
  }

  // ---------------------------------------------------------------------------
  // Node report

  /** The node numbers of the listed nodes, empty ones dropped, in order. */
  function NonEmptyIds(list: seq<Listed>): seq<string>
    decreases |list|
  {
    if list == [] then []
    else (if NodeText(list[0]) != "" then [NodeText(list[0])] else []) + NonEmptyIds(list[1..])
  }

  /** The distinct node numbers the report counts: `_format_report` skips a
      node whose number is empty or already seen. */
  function ReportIds(reply: NodesReply): (ids: seq<string>)
    ensures Distinct(ids)
    ensures forall x :: x in ids <==> x in NonEmptyIds(ConnectedList(reply))
  {
    DedupSpec(NonEmptyIds(ConnectedList(reply)));
    Dedup(NonEmptyIds(ConnectedList(reply)))
  }

  lemma {:induction false} NonEmptyIdsSnoc(list: seq<Listed>, n: Listed)
    ensures NonEmptyIds(list + [n]) == NonEmptyIds(list) + (if NodeText(n) != "" then [NodeText(n)] else [])
    decreases |list|
  {
    if list == [] {
      assert list + [n] == [n];
    } else {
      assert (list + [n])[0] == list[0] && (list + [n])[1..] == list[1..] + [n];
      NonEmptyIdsSnoc(list[1..], n);
    }
  }

  /** The counted numbers keep the order of the listing: one more listed
      node adds its number at the end, when it is non-empty and not yet seen. */
  lemma ReportIdsSnoc(list: seq<Listed>, n: Listed)
    ensures var before := ReportIds(NodesReply(Some(list)));
      ReportIds(NodesReply(Some(list + [n]))) ==
        before + (if NodeText(n) != "" && NodeText(n) !in before then [NodeText(n)] else [])
  {
    NonEmptyIdsSnoc(list, n);
    assert ConnectedList(NodesReply(Some(list))) == list;
    assert ConnectedList(NodesReply(Some(list + [n]))) == list + [n];
    if NodeText(n) != "" {
      DedupSnoc(NonEmptyIds(list), NodeText(n));
      assert NodeText(n) in ReportIds(NodesReply(Some(list))) <==> NodeText(n) in NonEmptyIds(list);
    } else {
      assert NonEmptyIds(list + [n]) == NonEmptyIds(list);
    }
  }

  /** No counted number is empty. */
  lemma {:induction false} NonEmptyIdsNonEmpty(list: seq<Listed>)
    ensures forall x | x in NonEmptyIds(list) :: x != ""
    decreases |list|
  {
    if list != [] {
      NonEmptyIdsNonEmpty(list[1..]);
    }
  }

  /** How many numbers the report shows at most. */
  const ShownIds: nat := 25

  /** The numbers shown after the count, and whether `, ...` follows them. */
  datatype IdSummary = IdSummary(shown: seq<string>, more: bool)

  /** At most 25 numbers are shown, the first ones, and `, ...` is added
      exactly when there are more than 25. */
  function Summarize(ids: seq<string>): (s: IdSummary)
    ensures |s.shown| == if |ids| <= ShownIds then |ids| else ShownIds
    ensures s.shown <= ids
    ensures s.more <==> |ids| > ShownIds
    ensures !s.more ==> s.shown == ids
  {
    if |ids| <= ShownIds then IdSummary(ids, false) else IdSummary(ids[..ShownIds], true)
  }

  /** The text of the shown numbers: joined by `", "`, then `, ...` when
      numbers were left out. */
  function SummaryText(s: IdSummary): string {
    Join(s.shown, ", ") + (if s.more then ", ..." else "")
  }

  /** The `Connected nodes:` line: the count, then ` - ` and the numbers
      when there are any. */
  function ConnectedLine(ids: seq<string>): string {
    var text := SummaryText(Summarize(ids));
    "Connected nodes: " + IntToString(|ids|) + (if text != "" then " - " + text else "")
  }

  /** With no numbers to show the line ends at the count; otherwise the
      numbers follow it. */
  lemma ConnectedLineShape(ids: seq<string>)
    requires forall x | x in ids :: x != ""
    ensures SummaryText(Summarize(ids)) == "" <==> ids == []
  {
    if ids != [] {
      var s := Summarize(ids);
      assert s.shown != [] && s.shown[0] == ids[0];
      assert ids[0] in ids;
      JoinStartsWith(s.shown, ", ");
    }
  }

  /** A join of a non-empty list starts with its first item. */
  lemma JoinStartsWith(xs: seq<string>, sep: string)
    requires xs != []
    ensures |xs[0]| <= |Join(xs, sep)| && Join(xs, sep)[..|xs[0]|] == xs[0]
  {
    if |xs| > 1 {
      assert Join(xs, sep) == xs[0] + (sep + Join(xs[1..], sep));
    }
  }

  /** A raw stats line `line` "starts with" `prefix` once stripped. */
  predicate LabelledBy(line: string, prefix: string) {
    StartsWith(Strip(line), prefix)
  }

  /** The value of a raw stats line: the stripped text after its FIRST colon
      (`line.split(":", 1)[-1].strip()`), or the whole stripped line when it
      has no colon. */
  function LineValue(line: string): string {
    Strip(AfterFirst(line, ':'))
  }

  /** `_find(prefix)`: the value of the first raw line labelled `prefix`. */
  function Find(raw: seq<string>, prefix: string): (r: Option<string>)
    decreases |raw|
  {
    if raw == [] then None
    else if LabelledBy(raw[0], prefix) then Some(LineValue(raw[0]))
    else Find(raw[1..], prefix)
  }

  /** The report's uptime loop: every raw line labelled `Uptime` overwrites
      the value, so the last such line wins. */
  function ScanUptime(raw: seq<string>, uptime: Option<string>): Option<string>
    decreases |raw|
  {
    if raw == [] then uptime
    else ScanUptime(raw[1..], if LabelledBy(raw[0], "Uptime") then Some(LineValue(raw[0])) else uptime)
  }

  function ReportUptime(raw: seq<string>): Option<string> {
    ScanUptime(raw, None)
  }

  /** Line `i` is the first raw line labelled `prefix`. */
  predicate FirstLabelled(raw: seq<string>, prefix: string, i: int) {
    0 <= i < |raw| && LabelledBy(raw[i], prefix) && forall j :: 0 <= j < i ==> !LabelledBy(raw[j], prefix)
  }

  /** `_find` returns the value of the first labelled line, and nothing when
      no line is labelled. */
  lemma {:induction false} FindFirst(raw: seq<string>, prefix: string)
    ensures var r := Find(raw, prefix);
      && (r.None? <==> forall i :: 0 <= i < |raw| ==> !LabelledBy(raw[i], prefix))
      && (r.Some? ==> exists i :: FirstLabelled(raw, prefix, i) && r.value == LineValue(raw[i]))
    decreases |raw|
  {
    if raw != [] && !LabelledBy(raw[0], prefix) {
      var tail := raw[1..];
      FindFirst(tail, prefix);
      forall i | 0 < i < |raw|
        ensures raw[i] == tail[i - 1]
      {
      }
      if Find(tail, prefix).Some? {
        var i :| FirstLabelled(tail, prefix, i) && Find(tail, prefix).value == LineValue(tail[i]);
        assert FirstLabelled(raw, prefix, i + 1);
      }
    }
  }

  /** Scanning from the front keeps the value of the last labelled line: it
      is what `_find` returns on the reversed list, or the earlier value. */
  lemma {:induction false} ScanUptimeIsLast(raw: seq<string>, uptime: Option<string>)
    ensures ScanUptime(raw, uptime) ==
      if Find(Reverse(raw), "Uptime").Some? then Find(Reverse(raw), "Uptime") else uptime
    decreases |raw|
  {
    if raw != [] {
      var next := if LabelledBy(raw[0], "Uptime") then Some(LineValue(raw[0])) else uptime;
      ScanUptimeIsLast(raw[1..], next);
      FindAppend(Reverse(raw[1..]), raw[0], "Uptime");
    }
  }

  /** `_find` on a list with one more line at the end looks at that line only
      when no earlier line matches. */
  lemma {:induction false} FindAppend(raw: seq<string>, line: string, prefix: string)
    ensures Find(raw + [line], prefix) ==
      if Find(raw, prefix).Some? then Find(raw, prefix)
      else if LabelledBy(line, prefix) then Some(LineValue(line)) else None
    decreases |raw|
  {
    if raw == [] {
      assert [] + [line] == [line];
      assert [line][1..] == [];
    } else {
      assert (raw + [line])[0] == raw[0] && (raw + [line])[1..] == raw[1..] + [line];
      FindAppend(raw[1..], line, prefix);
    }
  }

  /** The report's uptime is the value of the LAST raw line labelled `Uptime`. */
  lemma ReportUptimeIsLast(raw: seq<string>)
    ensures ReportUptime(raw) == Find(Reverse(raw), "Uptime")
  {
    ScanUptimeIsLast(raw, None);
  }

  /** The fields of a `/status` reply the report reads. */
  datatype StatusReply = StatusReply(
    node: Option<string>,
    callsign: Option<string>,
    keyupsToday: Option<string>,
    rawOutput: Option<seq<string>>)

  /** Python truthiness of an optional string. */
  predicate Shown(v: Option<string>) {
    v.Some? && v.value != ""
  }

  /** A report line shown only when its value is non-empty. */
  function OptionalLine(caption: string, v: Option<string>): (r: seq<string>)
    ensures |r| <= 1
    ensures r != [] <==> Shown(v)
  {
    if Shown(v) then [caption + v.value] else []
  }

  /** The autopatch line, with the state in parentheses when it is shown. */
  function AutopatchLine(patch: string, state: Option<string>): string {
    "Autopatch: " + patch + (if Shown(state) then " (state " + state.value + ")" else "")
  }

  /** The stats lines at the end of the report: `System`, `Scheduler`,
      `Signal on input` and `Autopatch`, in that order, each only when its
      value is non-empty; the autopatch line carries the autopatch state in
      parentheses when that is non-empty too. */
  function StatsLines(raw: seq<string>): (lines: seq<string>)
    ensures |lines| <= 4
    ensures var system := Find(raw, "System");
      var sched := Find(raw, "Scheduler");
      var signal := Find(raw, "Signal on input");
      var patch := Find(raw, "Autopatch");
      var state := Find(raw, "Autopatch state");
      && |lines| == (if Shown(system) then 1 else 0) + (if Shown(sched) then 1 else 0)
                    + (if Shown(signal) then 1 else 0) + (if Shown(patch) then 1 else 0)
      && (Shown(system) ==> lines[0] == "System: " + system.value)
      && (Shown(sched) ==> lines[if Shown(system) then 1 else 0] == "Scheduler: " + sched.value)
      && (Shown(patch) ==> lines[|lines| - 1] == AutopatchLine(patch.value, state))
      && (forall x :: x in lines <==>
           || (Shown(system) && x == "System: " + system.value)
           || (Shown(sched) && x == "Scheduler: " + sched.value)
           || (Shown(signal) && x == "Signal on input: " + signal.value)
           || (Shown(patch) && x == AutopatchLine(patch.value, state)))
  {
    var autopatch := Find(raw, "Autopatch");
    var autopatchState := Find(raw, "Autopatch state");
    OptionalLine("System: ", Find(raw, "System"))
    + OptionalLine("Scheduler: ", Find(raw, "Scheduler"))
    + OptionalLine("Signal on input: ", Find(raw, "Signal on input"))
    + (if Shown(autopatch) then [AutopatchLine(autopatch.value, autopatchState)] else [])
  }

  /** The lines `_format_report` builds: the header, the uptime when there is
      one, keyups, the connected-nodes line, then the stats lines found. */
  function ReportLines(status: StatusReply, nodes: NodesReply): (lines: seq<string>)
    ensures 3 <= |lines| <= 8
    ensures var uptime := ReportUptime(status.rawOutput.GetOr([]));
      && |lines| >= (if Shown(uptime) then 4 else 3)
      && (Shown(uptime) ==> lines[1] == "Uptime: " + uptime.value)
      && lines[if Shown(uptime) then 2 else 1] == "Keyups today: " + status.keyupsToday.GetOr("?")
      && lines[if Shown(uptime) then 3 else 2] == ConnectedLine(ReportIds(nodes))
  {
    var raw := status.rawOutput.GetOr([]);
    var callsign := status.callsign.GetOr("");
    var head :=
      ["ASL Node Report: " + status.node.GetOr("?") + (if callsign != "" then " (" + callsign + ")" else "")]
      + OptionalLine("Uptime: ", ReportUptime(raw))
      + ["Keyups today: " + status.keyupsToday.GetOr("?"), ConnectedLine(ReportIds(nodes))];
    head + StatsLines(raw)
  }

  /** `_format_report`: the report lines joined by newlines. */
  function FormatReport(status: StatusReply, nodes: NodesReply): string {
    Join(ReportLines(status, nodes), "\n")
  }

  /** When no value holds a line break, the report splits back into its lines. */
  lemma FormatReportSplits(status: StatusReply, nodes: NodesReply)
    requires forall i :: 0 <= i < |ReportLines(status, nodes)| ==> '\n' !in ReportLines(status, nodes)[i]
    ensures Split(FormatReport(status, nodes), '\n') == ReportLines(status, nodes)
  {
    JoinThenSplit(ReportLines(status, nodes), '\n');
  }

  // ---------------------------------------------------------------------------
  // Favorites

  /** The outcome of a favorites command: success, the error text on failure,
      and the favorites map as it stands afterwards. */
  datatype FavResult = FavResult(success: bool, error: Option<string>, favorites: map<string, int>)

  /** `cmd_fav_set`: the name now maps to the node; nothing else changes. */
  function FavSet(favs: map<string, int>, name: string, node: int): (r: FavResult)
    ensures r.success && r.error == None
    ensures name in r.favorites && r.favorites[name] == node
    ensures forall k :: k != name ==> (k in r.favorites <==> k in favs)
    ensures forall k | k in favs && k != name :: r.favorites[k] == favs[k]
  {
    FavResult(true, None, favs[name := node])
  }

  /** `cmd_fav_remove`: an unknown name fails and leaves the map alone; a
      known one is removed, and nothing else changes. */
  function FavRemove(favs: map<string, int>, name: string): (r: FavResult)
    ensures r.success <==> name in favs
    ensures !r.success ==> r.favorites == favs && r.error == Some("Favorite not found: " + name)
    ensures r.success ==> r.error == None && name !in r.favorites
    ensures forall k :: k != name ==> (k in r.favorites <==> k in favs)
    ensures forall k | k in r.favorites :: k in favs && r.favorites[k] == favs[k]
  {
    if name in favs then FavResult(true, None, favs - {name})
    else FavResult(false, Some("Favorite not found: " + name), favs)
  }

  /** Removing a name just set restores the map as it was without that name. */
  lemma FavSetThenRemove(favs: map<string, int>, name: string, node: int)
    ensures var r := FavRemove(FavSet(favs, name, node).favorites, name);
      r.success && r.favorites == favs - {name}
  {
  }

  /** Setting a name twice keeps only the second node. */
  lemma FavSetTwice(favs: map<string, int>, name: string, a: int, b: int)
    ensures FavSet(FavSet(favs, name, a).favorites, name, b) == FavSet(favs, name, b)
  {
  }

  /** What `cmd_connect_fav` does: fail without any request when the name is
      unknown, or send a connect request for the stored node. */
  datatype ConnectFavPlan =
    | FavMissing(error: string, favorites: map<string, int>)
    | ConnectRequest(node: string, monitorOnly: bool, favorite: string)

  function ConnectFav(favs: map<string, int>, name: string, monitorOnly: bool): (r: ConnectFavPlan)
    ensures r.FavMissing? <==> name !in favs
    ensures r.FavMissing? ==> r.favorites == favs && r.error == "Favorite not found: " + name
    ensures r.ConnectRequest? ==> r.favorite == name && r.monitorOnly == monitorOnly
    ensures r.ConnectRequest? && favs[name] >= 0 ==>
      && IsDigits(r.node) && DigitsValue(r.node) == favs[name]
      && (r.node[0] == '0' ==> r.node == "0")
    ensures r.ConnectRequest? && favs[name] < 0 ==>
      && |r.node| >= 2 && r.node[0] == '-' && r.node[1] != '0'
      && IsDigits(r.node[1..]) && DigitsValue(r.node[1..]) == -favs[name]
  {
    if name !in favs then FavMissing("Favorite not found: " + name, favs)
    else ConnectRequest(IntToString(favs[name]), monitorOnly, name)
  }

  /** `out.setdefault("favorite", name)` on the agent's reply: a `favorite`
      field the reply already has is kept, otherwise the name is added. */
  function TagFavorite(replyFavorite: Option<string>, name: string): (r: Option<string>)
    ensures r.Some?
    ensures replyFavorite.Some? ==> r == replyFavorite
    ensures replyFavorite.None? ==> r.value == name
  {
    if replyFavorite.Some? then replyFavorite else Some(name)
  }

  /** A favorite just set is connected to by its node number. */
  lemma ConnectFavAfterSet(favs: map<string, int>, name: string, node: nat, monitorOnly: bool)
    ensures var r := ConnectFav(FavSet(favs, name, node).favorites, name, monitorOnly);
      r.ConnectRequest? && IsDigits(r.node) && DigitsValue(r.node) == node && r.favorite == name
  {
  }

  // ---------------------------------------------------------------------------
  // Environment

  /** `_env`: the variable's value, or `default` when it is unset or empty. */
  function Env(environ: map<string, string>, name: string, default: Option<string>): (r: Option<string>)
    ensures name in environ && environ[name] != "" ==> r == Some(environ[name])
    ensures !(name in environ && environ[name] != "") ==> r == default
  {
    if name !in environ || environ[name] == "" then default else Some(environ[name])
  }

  const MissingBase := "Missing ASL_API_BASE or ASL_PI_IP in environment"

  /** `_base_url`: `ASL_API_BASE` with its trailing slashes replaced by exactly
      one; otherwise `http://<ASL_PI_IP>:8073/`; otherwise an error. */
  function BaseUrl(environ: map<string, string>): (r: Result<string, string>)
    ensures r.Err? <==> Env(environ, "ASL_API_BASE", None).None? && Env(environ, "ASL_PI_IP", None).None?
    ensures r.Err? ==> r.error == MissingBase
    ensures Env(environ, "ASL_API_BASE", None).None? && Env(environ, "ASL_PI_IP", None).Some? ==>
      r == Ok("http://" + Env(environ, "ASL_PI_IP", None).value + ":8073/")
    ensures r.Ok? ==> r.value != [] && r.value[|r.value| - 1] == '/'
  {
    var base := Env(environ, "ASL_API_BASE", None);
    if base.Some? then Ok(RStripChar(base.value, '/') + "/")
    else
      var ip := Env(environ, "ASL_PI_IP", None);
      if ip.None? then Err(MissingBase) else Ok("http://" + ip.value + ":8073/")
  }

  /** The URL keeps the configured base up to its trailing slashes and ends in
      exactly one slash (unless the base was nothing but slashes). */
  lemma BaseUrlOneSlash(environ: map<string, string>)
    requires "ASL_API_BASE" in environ && environ["ASL_API_BASE"] != ""
    ensures var b := environ["ASL_API_BASE"];
      var r := BaseUrl(environ);
      && r.Ok?
      && r.value == RStripChar(b, '/') + "/"
      && RStripChar(b, '/') <= b
      && (RStripChar(b, '/') == "" || r.value[|r.value| - 2] != '/')
  {
  }

  /** Feeding the URL back in as `ASL_API_BASE` gives the same URL. */
  lemma BaseUrlIdempotent(environ: map<string, string>)
    requires BaseUrl(environ).Ok?
    ensures BaseUrl(environ["ASL_API_BASE" := BaseUrl(environ).value]) == BaseUrl(environ)
  {
    var u := BaseUrl(environ).value;
    var s := u[..|u| - 1];
    assert u == s + "/";
    RStripCharSlashOnce(s);
  }

  /** Stripping the slashes of `s + "/"`, when `s` does not end in one, gives `s`. */
  lemma RStripCharSlashOnce(s: string)
    requires s == [] || s[|s| - 1] != '/'
    ensures RStripChar(s + "/", '/') == s
  {
    assert (s + "/")[..|s|] == s;
  }

  /** `_api_key`: `ASL_API_KEY`, which must be set and non-empty. */
  function ApiKey(environ: map<string, string>): (r: Result<string, string>)
    ensures r.Ok? <==> "ASL_API_KEY" in environ && environ["ASL_API_KEY"] != ""
    ensures r.Ok? ==> r.value == environ["ASL_API_KEY"]
    ensures r.Err? ==> r.error == "Missing ASL_API_KEY in environment"
  {
    var key := Env(environ, "ASL_API_KEY", None);
    if key.None? then Err("Missing ASL_API_KEY in environment") else Ok(key.value)
  }

  /** An empty `ASL_API_BASE` counts as unset and the node address is used. */
  lemma EmptyBaseFallsBack(environ: map<string, string>, ip: string)
    requires ip != ""
    ensures BaseUrl(environ["ASL_API_BASE" := ""]["ASL_PI_IP" := ip]) == Ok("http://" + ip + ":8073/")
  {
  }
}
