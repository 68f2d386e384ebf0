/**
  The MCP config editor of src-tauri/src/mcp_integrations.rs: one server entry inserted and removed
  at a dotted path of a JSON tree, everything else left alone.
 */
module McpConfig {
  import opened Prelude
  import opened Text

  type Fields = map<string, Json>

  datatype Json = Null | Bool(b: bool) | Number(n: int) | Str(s: string) | Array(items: seq<Json>)
                | Object(fields: Fields)

  const SERVER_NAME := "coco-browser"

  // ----- Walking and editing the tree -----

  function FieldsOf(node: Json): Fields {
    if node.Object? then node.fields else map[]
  }

  function Child(fields: Fields, part: string): Json {
    if part in fields then fields[part] else Object(map[])
  }

  function NestedObject(node: Json, parts: seq<string>): Option<Fields> {
    if !node.Object? then None
    else if parts == [] then Some(node.fields)
    else if parts[0] !in node.fields then None
    else NestedObject(node.fields[parts[0]], parts[1..])
  }

  datatype Edit = Put(entry: Json) | Drop

  function Apply(edit: Edit, fields: Fields): Fields {
    match edit
    case Put(entry) => fields[SERVER_NAME := entry]
    case Drop => fields - {SERVER_NAME}
  }

  /** Creates an object at each missing level of the path, replaces what is not one, and edits the bottom. */
  function EditAt(node: Json, parts: seq<string>, edit: Edit): Json
    decreases |parts|
  {
    var fields := FieldsOf(node);
    if parts == [] then Object(Apply(edit, fields))
    else Object(fields[parts[0] := EditAt(Child(fields, parts[0]), parts[1..], edit)])
  }

  /** The container as the editor sees it: empty where there is none yet. */
  function Container(node: Json, parts: seq<string>): Fields {
    match NestedObject(node, parts)
    case Some(fields) => fields
    case None => map[]
  }

  function Lookup(node: Json, path: seq<string>): Option<Json>
    decreases |path|
  {
    if path == [] then Some(node)
    else if !node.Object? || path[0] !in node.fields then None
    else Lookup(node.fields[path[0]], path[1..])
  }

  /** The container is the object found by walking down the path, if there is one. */
  lemma {:induction false} NestedObjectIsLookup(node: Json, parts: seq<string>)
    ensures NestedObject(node, parts)
            == match Lookup(node, parts) case Some(Object(fields)) => Some(fields) case _ => None
  {
    if node.Object? && parts != [] && parts[0] in node.fields {
      NestedObjectIsLookup(node.fields[parts[0]], parts[1..]);
    }
  }

  // ----- Lens laws -----

  /** What is read at the path after an edit is the edited container. */
  lemma {:induction false} ReadAfterEdit(node: Json, parts: seq<string>, edit: Edit)
    ensures NestedObject(EditAt(node, parts, edit), parts) == Some(Apply(edit, Container(node, parts)))
    decreases |parts|
  {
    if parts != [] {
      ReadAfterEdit(Child(FieldsOf(node), parts[0]), parts[1..], edit);
    }
  }

  /** The last edit wins: editing twice is editing once, so installing is idempotent and uninstalling
      forgets whatever was installed. */
  lemma {:induction false} LastEditWins(node: Json, parts: seq<string>, first: Edit, second: Edit)
    ensures EditAt(EditAt(node, parts, first), parts, second) == EditAt(node, parts, second)
    decreases |parts|
  {
    var fields := FieldsOf(node);
    if parts == [] {
      assert Apply(second, Apply(first, fields)) == Apply(second, fields);
    } else {
      LastEditWins(Child(fields, parts[0]), parts[1..], first, second);
      var once := EditAt(Child(fields, parts[0]), parts[1..], first);
      assert fields[parts[0] := once][parts[0] := EditAt(once, parts[1..], second)]
             == fields[parts[0] := EditAt(once, parts[1..], second)];
    }
  }

  /** An edit changes nothing at any path that leaves the written one somewhere. */
  lemma {:induction false} EditIsLocal(node: Json, parts: seq<string>, edit: Edit, path: seq<string>)
    requires !(path <= parts + [SERVER_NAME]) && !(parts + [SERVER_NAME] <= path)
    ensures Lookup(EditAt(node, parts, edit), path) == Lookup(node, path)
    decreases |parts|
  {
    var fields := FieldsOf(node);
    if parts == [] {
      assert path[0] != SERVER_NAME;
    } else if path[0] == parts[0] {
      var written := parts + [SERVER_NAME];
      assert written[1..] == parts[1..] + [SERVER_NAME];
      assert path == [path[0]] + path[1..] && written == [path[0]] + written[1..];
      EditIsLocal(Child(fields, parts[0]), parts[1..], edit, path[1..]);
    }
  }

  /** An edit is without effect exactly when the container already reads as the edit would leave it. */
  lemma {:induction false} EditIsNoOpIff(node: Json, parts: seq<string>, edit: Edit)
    ensures EditAt(node, parts, edit) == node
            <==> NestedObject(node, parts).Some? && Apply(edit, Container(node, parts)) == Container(node, parts)
    decreases |parts|
  {
    if parts != [] {
      var fields := FieldsOf(node);
      var child := Child(fields, parts[0]);
      EditIsNoOpIff(child, parts[1..], edit);
      if node.Object? && parts[0] in fields {
        var child' := EditAt(child, parts[1..], edit);
        assert fields[parts[0] := child'] == fields <==> child' == child;
      } else if node.Object? {
        assert parts[0] in EditAt(node, parts, edit).fields;
      }
    }
  }

  // ----- Entries and URLs -----

  predicate UrlMatches(url: string) {
    Contains(url, "/mcp/") && ("http://127.0.0.1" <= url || "http://localhost" <= url)
  }

  predicate KeyMatches(entry: Json, key: string) {
    entry.Object? && key in entry.fields && entry.fields[key].Str? && UrlMatches(entry.fields[key].s)
  }

  predicate MatchesCoco(entry: Json) {
    KeyMatches(entry, "url") || KeyMatches(entry, "uri") || KeyMatches(entry, "serverUrl")
  }

  /** The shape each client expects. */
  function TransformRemoteConfig(agent: string, url: string): Json {
    if agent == "zed" then Object(map["source" := Str("custom"), "type" := Str("http"), "url" := Str(url)])
    else if agent == "opencode" then Object(map["type" := Str("remote"), "url" := Str(url), "enabled" := Bool(true)])
    else if agent == "antigravity" then Object(map["serverUrl" := Str(url)])
    else if agent == "cursor" then Object(map["url" := Str(url)])
    else if agent == "cline" || agent == "cline-cli" then
      Object(map["url" := Str(url), "type" := Str("streamableHttp"), "disabled" := Bool(false)])
    else if agent == "github-copilot-cli" then
      Object(map["type" := Str("http"), "url" := Str(url), "tools" := Array([Str("*")])])
    else if agent == "goose" then
      Object(map["name" := Str(SERVER_NAME), "description" := Str(""), "type" := Str("streamable_http"),
                 "uri" := Str(url), "headers" := Object(map[]), "enabled" := Bool(true), "timeout" := Number(300)])
    else Object(map["type" := Str("http"), "url" := Str(url)])
  }

  lemma TransformedEntryMatchesIff(agent: string, url: string)
    ensures MatchesCoco(TransformRemoteConfig(agent, url)) <==> UrlMatches(url)
  {
  }

  predicate Connected(root: Json, parts: seq<string>) {
    match NestedObject(root, parts)
    case None => false
    case Some(servers) =>
      if SERVER_NAME in servers then MatchesCoco(servers[SERVER_NAME])
      else exists name :: name in servers && MatchesCoco(servers[name])
  }

  /** The entry has a text under this name that starts like a local address and has "/mcp/" in it. */
  ghost predicate PointsHere(entry: Json, field: string) {
    && entry.Object? && field in entry.fields && entry.fields[field].Str?
    && var url := entry.fields[field].s;
       && ("http://127.0.0.1" <= url || "http://localhost" <= url)
       && exists i :: 0 <= i <= |url| && "/mcp/" <= url[i..]
  }

  lemma KeyMatchesIff(entry: Json, field: string)
    ensures KeyMatches(entry, field) <==> PointsHere(entry, field)
  {
    hide Contains;
    if entry.Object? && field in entry.fields && entry.fields[field].Str? {
      ContainsIff(entry.fields[field].s, "/mcp/");
    }
  }

  /** A client is connected, if and only if at the path there is an object with an entry whose "url", "uri" or
      "serverUrl" points here: the entry under our name where there is one, else any. */
  lemma ConnectedIff(root: Json, parts: seq<string>)
    ensures Connected(root, parts)
            <==> match Lookup(root, parts)
                 case Some(Object(servers)) =>
                   exists name, field :: name in servers && field in ["url", "uri", "serverUrl"]
                     && PointsHere(servers[name], field) && (SERVER_NAME in servers ==> name == SERVER_NAME)
                 case _ => false
  {
    hide PointsHere, KeyMatches;
    NestedObjectIsLookup(root, parts);
    match NestedObject(root, parts)
    case None =>
    case Some(servers) =>
      forall name | name in servers
        ensures MatchesCoco(servers[name])
                <==> exists field :: field in ["url", "uri", "serverUrl"] && PointsHere(servers[name], field)
      {
        MatchesCocoIff(servers[name]);
      }
  }

  lemma MatchesCocoIff(entry: Json)
    ensures MatchesCoco(entry) <==> exists field :: field in ["url", "uri", "serverUrl"] && PointsHere(entry, field)
  {
    hide PointsHere, KeyMatches;
    KeyMatchesIff(entry, "url");
    KeyMatchesIff(entry, "uri");
    KeyMatchesIff(entry, "serverUrl");
    var fields := ["url", "uri", "serverUrl"];
    assert fields[0] in fields && fields[1] in fields && fields[2] in fields;
  }

  /** The URLs the application hands out. */
  function LocalUrl(port: string, token: string): string {
    "http://127.0.0.1" + (":" + port + "/mcp/" + token)
  }

  lemma LocalUrlMatches(port: string, token: string)
    ensures UrlMatches(LocalUrl(port, token))
  {
    var host := "http://127.0.0.1";
    ContainsMiddle(host + (":" + port), "/mcp/", token);
    assert LocalUrl(port, token) == host + (":" + port) + "/mcp/" + token;
  }

  // ----- Installing and uninstalling -----

  /** Each known client with the top-level key of its config. */
  const AGENT_SPECS: seq<(string, string)> := [
    ("claude-desktop", "mcpServers"), ("claude-code", "mcpServers"), ("cursor", "mcpServers"), ("vscode", "servers"),
    ("zed", "context_servers"), ("cline-cli", "mcpServers"), ("cline", "mcpServers"), ("codex", "mcp_servers"),
    ("gemini-cli", "mcpServers"), ("github-copilot-cli", "mcpServers"), ("goose", "extensions"),
    ("antigravity", "mcpServers"), ("opencode", "mcp"), ("mcporter", "mcpServers")
  ]

  function KeyIn(specs: seq<(string, string)>, agent: string): Option<string> {
    if specs == [] then None else if specs[0].0 == agent then Some(specs[0].1) else KeyIn(specs[1..], agent)
  }

  /** None for an unknown client. */
  function ConfigKey(agent: string): Option<string> {
    KeyIn(AGENT_SPECS, agent)
  }

  lemma {:induction false} KeyInIff(specs: seq<(string, string)>, agent: string)
    ensures match KeyIn(specs, agent)
            case None => forall spec :: spec in specs ==> spec.0 != agent
            case Some(key) => (agent, key) in specs
  {
    if specs != [] {
      KeyInIff(specs[1..], agent);
      assert specs == [specs[0]] + specs[1..];
    }
  }

  /** A client is known exactly if it is listed, and its key is one listed with it. */
  lemma ConfigKeyIff(agent: string)
    ensures match ConfigKey(agent)
            case None => forall spec :: spec in AGENT_SPECS ==> spec.0 != agent
            case Some(key) => (agent, key) in AGENT_SPECS
  {
    hide AGENT_SPECS;
    KeyInIff(AGENT_SPECS, agent);
  }

  predicate SaysType(entry: Json, text: string) {
    entry.Object? && "type" in entry.fields && entry.fields["type"] == Str(text)
  }

  /** What some clients ask for besides; no entry is switched off. */
  lemma EntryExtras(agent: string, url: string)
    ensures var fields := FieldsOf(TransformRemoteConfig(agent, url));
            && (if agent in ["opencode", "goose"] then "enabled" in fields && fields["enabled"] == Bool(true)
                else "enabled" !in fields)
            && (if agent in ["cline", "cline-cli"] then "disabled" in fields && fields["disabled"] == Bool(false)
                else "disabled" !in fields)
            && (agent == "zed" ==> "source" in fields && fields["source"] == Str("custom"))
            && (agent == "github-copilot-cli" ==> "tools" in fields && fields["tools"] == Array([Str("*")]))
            && (agent == "goose" ==> "name" in fields && fields["name"] == Str(SERVER_NAME))
            && (agent == "goose" ==> "timeout" in fields && fields["timeout"] == Number(300))
  {
  }

  /** For every client the entry names the URL in exactly one field, the one that client reads, and declares the
      client's word for an HTTP server where it has one. */
  lemma EntryShape(agent: string, url: string)
    ensures var entry := TransformRemoteConfig(agent, url);
            var field := if agent == "antigravity" then "serverUrl" else if agent == "goose" then "uri" else "url";
            && entry.Object? && field in entry.fields && entry.fields[field] == Str(url)
            && (forall other :: other in ["url", "uri", "serverUrl"] && other != field ==> other !in entry.fields)
            && (if agent in ["antigravity", "cursor"] then "type" !in entry.fields
                else SaysType(entry, if agent == "opencode" then "remote"
                                     else if agent in ["cline", "cline-cli"] then "streamableHttp"
                                     else if agent == "goose" then "streamable_http" else "http"))
  {
  }

  function Install(file: Option<Json>, parts: seq<string>, agent: string, url: string): Json {
    EditAt(if file.Some? then file.value else Object(map[]), parts, Put(TransformRemoteConfig(agent, url)))
  }

  function Uninstall(root: Json, parts: seq<string>): Json {
    if root.Object? then EditAt(root, parts, Drop) else root
  }

  /** After installing, the client shows as connected exactly when the URL has the application's form. */
  lemma InstallConnectsIff(file: Option<Json>, parts: seq<string>, agent: string, url: string)
    ensures Connected(Install(file, parts, agent, url), parts) <==> UrlMatches(url)
  {
    hide TransformRemoteConfig, EditAt, MatchesCoco;
    ReadAfterEdit(if file.Some? then file.value else Object(map[]), parts, Put(TransformRemoteConfig(agent, url)));
    TransformedEntryMatchesIff(agent, url);
  }

  /** Uninstalling after installing gives the tree back exactly when the container was there and held no
      entry of ours. */
  lemma UninstallRestoresIff(root: Json, parts: seq<string>, agent: string, url: string)
    ensures Uninstall(Install(Some(root), parts, agent, url), parts) == root
            <==> NestedObject(root, parts).Some? && SERVER_NAME !in Container(root, parts)
  {
    hide TransformRemoteConfig;
    var put := Put(TransformRemoteConfig(agent, url));
    LastEditWins(root, parts, put, Drop);
    EditIsNoOpIff(root, parts, Drop);
    var fields := Container(root, parts);
    assert fields - {SERVER_NAME} == fields <==> SERVER_NAME !in fields;
  }

  /** What is no object stays as it is; after uninstalling, a client counts as connected only through an entry
      under another name. */
  lemma UninstallDisconnectsIff(root: Json, parts: seq<string>)
    ensures !root.Object? ==> Uninstall(root, parts) == root
    ensures Connected(Uninstall(root, parts), parts)
            <==> exists name :: name in Container(root, parts) && name != SERVER_NAME
                                && MatchesCoco(Container(root, parts)[name])
  {
    hide MatchesCoco, EditAt;
    ReadAfterEdit(root, parts, Drop);
    var before, after := Container(root, parts), Apply(Drop, Container(root, parts));
    assert forall name :: name in after <==> name in before && name != SERVER_NAME;
  }

  datatype Outcome = Done | UnknownAgent

  /** One client's config file: absent, or the parsed tree (Null when it does not parse). */
  class ConfigFile {
    var content: Option<Json>

    constructor (content: Option<Json>)
      ensures this.content == content
    {
      this.content := content;
    }

    method InstallGeneric(agent: string, url: string) returns (r: Outcome)
      modifies this
      ensures r == UnknownAgent <==> ConfigKey(agent) == None
      ensures r == UnknownAgent ==> content == old(content)
      ensures r == Done ==> content == Some(Install(old(content), Split(ConfigKey(agent).value, '.'), agent, url))
    {
      var key := ConfigKey(agent);
      if key.None? {
        return UnknownAgent;
      }
      var root := if content.Some? then content.value else Object(map[]);
      content := Some(EditAt(root, Split(key.value, '.'), Put(TransformRemoteConfig(agent, url))));
      r := Done;
    }

    method UninstallGeneric(agent: string) returns (r: Outcome)
      modifies this
      ensures r == UnknownAgent <==> ConfigKey(agent) == None
      ensures r == UnknownAgent || old(content).None? ==> content == old(content)
      ensures r == Done && old(content).Some? ==>
                content == Some(Uninstall(old(content).value, Split(ConfigKey(agent).value, '.')))
    {
      var key := ConfigKey(agent);
      if key.None? {
        return UnknownAgent;
      }
      if content.Some? && content.value.Object? {
        content := Some(EditAt(content.value, Split(key.value, '.'), Drop));
      }
      r := Done;
    }

    method IsGenericAgentConnected(agent: string) returns (connected: bool)
      ensures connected
              <==> ConfigKey(agent).Some? && content.Some?
                   && Connected(content.value, Split(ConfigKey(agent).value, '.'))
    {
      var key := ConfigKey(agent);
      connected := key.Some? && content.Some? && Connected(content.value, Split(key.value, '.'));
    }
  }
}
