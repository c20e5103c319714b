/** The agent's configuration: a YAML document read once at start-up,
    queried by dot-separated keys such as `ami.port`, with a default for
    every setting the agent reads. Reading and parsing the file is not
    modelled; the parsed document is a parameter. */
module Config {
  import opened Results
  import opened Text

  /** A parsed YAML value (mapping keys are strings in every document the
      agent reads). */
  datatype Yaml =
    | YNull
    | YBool(b: bool)
    | YInt(i: int)
    | YStr(s: string)
    | YList(items: seq<Yaml>)
    | YDict(fields: map<string, Yaml>)

  /** The loop of `Config.get`: at a mapping, step to the segment's value,
      or to the default when the segment is missing; at anything else, stop
      with the default. */
  function Walk(value: Yaml, keys: seq<string>, default: Yaml): Yaml
    decreases |keys|
  {
    if keys == [] then value
    else if value.YDict? then
      Walk(if keys[0] in value.fields then value.fields[keys[0]] else default, keys[1..], default)
    else default
  }

  /** `Config.get(key, default)` on the document `doc`. */
  function Get(doc: Yaml, key: string, default: Yaml): Yaml {
    Walk(doc, Split(key, '.'), default)
  }

  /** An independent reading of a key path: the value found by following
      every segment through nested mappings, if there is one. */
  function Lookup(value: Yaml, path: seq<string>): (r: Option<Yaml>)
    decreases |path|
  {
    if path == [] then Some(value)
    else match value
      case YDict(fields) => if path[0] in fields then Lookup(fields[path[0]], path[1..]) else None
      case _ => None
  }

  /** With a default that is not a mapping, `get` returns the value at the
      path when there is one and the default otherwise; in particular a
      non-mapping met before the last segment yields the default. */
  lemma {:induction false} WalkIsLookup(value: Yaml, path: seq<string>, default: Yaml)
    requires !default.YDict?
    ensures Walk(value, path, default) == Lookup(value, path).GetOr(default)
    decreases |path|
  {
    if path != [] && value.YDict? {
      if path[0] in value.fields {
        WalkIsLookup(value.fields[path[0]], path[1..], default);
      } else {
        WalkDefault(path[1..], default);
      }
    }
  }

  /** Walking on from a non-mapping default keeps the default. */
  lemma WalkDefault(path: seq<string>, default: Yaml)
    requires !default.YDict?
    ensures Walk(default, path, default) == default
  {
  }

  /** A mapping given as the default is walked into when a segment is
      missing: the remaining segments are looked up in the default. */
  lemma {:induction false} WalkIntoDefault(fields: map<string, Yaml>, k: string, rest: seq<string>, default: Yaml)
    requires k !in fields
    ensures Walk(YDict(fields), [k] + rest, default) == Walk(default, rest, default)
  {
    assert ([k] + rest)[1..] == rest;
  }

  /** A key written as dot-free segments joined by dots is walked segment by
      segment. */
  lemma GetPath(doc: Yaml, path: seq<string>, default: Yaml)
    requires |path| >= 1
    requires forall i :: 0 <= i < |path| ==> '.' !in path[i]
    ensures Get(doc, Join(path, "."), default) == Walk(doc, path, default)
  {
    JoinThenSplit(path, '.');
  }

  /** The settings the agent reads through its typed accessors. */
  datatype Setting =
    | AmiHost | AmiPort | AmiUsername | AmiPassword
    | NodeNumber | NodeCallsign
    | ApiHost | ApiPort | ApiKey
    | WebhooksEnabled | N8nUrl
    | LogLevel | AuditFile
    | RateLimit | RequireConfirmation

  /** The section and name of each setting's key. */
  function Section(s: Setting): string {
    match s
    case AmiHost | AmiPort | AmiUsername | AmiPassword => "ami"
    case NodeNumber | NodeCallsign => "node"
    case ApiHost | ApiPort | ApiKey => "api"
    case WebhooksEnabled | N8nUrl => "webhooks"
    case LogLevel | AuditFile => "logging"
    case RateLimit | RequireConfirmation => "security"
  }

  function Name(s: Setting): string {
    match s
    case AmiHost => "host"
    case AmiPort => "port"
    case AmiUsername => "username"
    case AmiPassword => "password"
    case NodeNumber => "number"
    case NodeCallsign => "callsign"
    case ApiHost => "host"
    case ApiPort => "port"
    case ApiKey => "api_key"
    case WebhooksEnabled => "enabled"
    case N8nUrl => "n8n_url"
    case LogLevel => "level"
    case AuditFile => "audit_file"
    case RateLimit => "rate_limit_per_minute"
    case RequireConfirmation => "require_confirmation"
  }

  function Key(s: Setting): string {
    Section(s) + "." + Name(s)
  }

  /** The default each accessor passes to `get`. */
  function Default(s: Setting): Yaml {
    match s
    case AmiHost => YStr("127.0.0.1")
    case AmiPort => YInt(5038)
    case AmiUsername => YStr("asl-agent")
    case AmiPassword => YStr("")
    case NodeNumber => YStr("")
    case NodeCallsign => YStr("")
    case ApiHost => YStr("0.0.0.0")
    case ApiPort => YInt(8073)
    case ApiKey => YStr("")
    case WebhooksEnabled => YBool(false)
    case N8nUrl => YStr("")
    case LogLevel => YStr("INFO")
    case AuditFile => YStr("/opt/asl-agent/audit.log")
    case RateLimit => YInt(10)
    case RequireConfirmation => YList([])
  }

  lemma KeySegments(s: Setting)
    ensures '.' !in Section(s) && '.' !in Name(s)
    ensures Key(s) == Join([Section(s), Name(s)], ".")
  {
  }

  /** A typed accessor: the value stored under the setting's section and
      name, whatever its type, or the setting's default when the document
      has no such entry. */
  function Read(doc: Yaml, s: Setting): (r: Yaml)
    ensures Lookup(doc, [Section(s), Name(s)]).Some? ==> r == Lookup(doc, [Section(s), Name(s)]).value
    ensures Lookup(doc, [Section(s), Name(s)]).None? ==> r == Default(s)
  {
    KeySegments(s);
    GetPath(doc, [Section(s), Name(s)], Default(s));
    WalkIsLookup(doc, [Section(s), Name(s)], Default(s));
    Get(doc, Key(s), Default(s))
  }

  /** An empty document, or one whose top level is not a mapping (an empty
      file parses to null), gives every setting its default. */
  lemma EmptyDocumentDefaults(doc: Yaml, s: Setting)
    requires !doc.YDict? || doc.fields == map[]
    ensures Read(doc, s) == Default(s)
  {
  }

  /** A section present but holding something other than a mapping also
      gives the default. */
  lemma FlatSectionDefaults(fields: map<string, Yaml>, s: Setting)
    requires Section(s) in fields && !fields[Section(s)].YDict?
    ensures Read(YDict(fields), s) == Default(s)
  {
    assert [Section(s), Name(s)][1..] == [Name(s)];
    assert Lookup(fields[Section(s)], [Name(s)]) == None;
  }

  /** An entry that is present is returned as stored, even when it is null. */
  lemma StoredValueWins(doc: map<string, Yaml>, s: Setting)
    requires Section(s) in doc && doc[Section(s)].YDict? && Name(s) in doc[Section(s)].fields
    ensures Read(YDict(doc), s) == doc[Section(s)].fields[Name(s)]
  {
    var path := [Section(s), Name(s)];
    assert path[1..] == [Name(s)] && path[1..][1..] == [];
    assert Lookup(doc[Section(s)], [Name(s)]) == Some(doc[Section(s)].fields[Name(s)]);
  }
}
