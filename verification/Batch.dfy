/** Several commands in one request: which are taken as parts, how they are written, and whose
    answer each answer is. */
module Batch {
  import opened Text
  import opened Yson
  import YsonCodec
  import Failures
  import Utf8
  import opened Retrying
  import opened ErrorTrees
  import opened BatchRuns
  import Mutations

  const NOT_A_BATCH_PART: set<string> := {
    "alter_query", "get_job_fail_context", "get_job_input", "get_job_stderr", "get_job_trace", "lookup_rows",
    "pull_consumer", "pull_queue", "pull_queue_consumer", "pull_rows", "read_blob_table", "read_file",
    "read_journal", "read_query_result", "read_shuffle_data", "read_table", "read_table_partition",
    "run_job_shell_command", "select_rows", "write_file", "write_file_fragment"
  }

  const HEAVY: set<string> := {
    "read_table", "write_table", "read_file", "write_file", "read_blob_table", "get_job_input",
    "get_job_stderr", "lookup_rows", "select_rows", "insert_rows", "delete_rows"
  }

  const NO_TRANSACTION: set<string> := {
    "execute_batch", "get_operation", "list_operations", "list_operation_events", "abort_operation",
    "complete_operation", "suspend_operation", "resume_operation", "update_operation_parameters",
    "list_jobs", "get_job", "get_job_stderr", "get_job_input", "abort_job", "poll_job_shell"
  }

  const DEFAULT_CONCURRENCY: nat := 50

  const PARTS_PER_CONCURRENCY: nat := 5

  /** What a part's success is keyed by. */
  datatype Output = Keyed(key: string) | Unchecked

  datatype Part = Part(command: string, parameters: Value, input: Option<Value>, kind: PartKind, output: Output)

  predicate IsCommandName(command: string) {
    command != "" && forall c :: c in command ==> IsAlpha(c) || IsDigit(c) || c == '_'
  }

  predicate TakenAsPart(command: string) {
    command !in NOT_A_BATCH_PART && command !in HEAVY
  }

  /** A part that can be stamped and sent. */
  predicate Fit(part: Part) {
    IsCommandName(part.command) && TakenAsPart(part.command) && part.parameters.node.Map?
  }

  /** Commands that move bulk data, and those the cluster refuses as parts, are not taken. */
  lemma BulkCommandsAreNotTaken(command: string)
    requires command in {
      "read_table", "write_table", "read_file", "write_file", "read_blob_table", "get_job_input", "get_job_stderr",
      "lookup_rows", "select_rows", "insert_rows", "delete_rows",
      "alter_query", "get_job_fail_context", "get_job_trace", "pull_consumer", "pull_queue", "pull_queue_consumer",
      "pull_rows", "read_journal", "read_query_result", "read_shuffle_data", "read_table_partition",
      "run_job_shell_command", "write_file_fragment"
    }
    ensures !TakenAsPart(command)
  {
  }

  /** A command's name is letters, digits and underscores, and at least one of them. */
  lemma CommandNamesExactly(command: string)
    ensures IsCommandName(command) <==> command != "" && forall i :: 0 <= i < |command| ==>
      'a' <= command[i] <= 'z' || 'A' <= command[i] <= 'Z' || '0' <= command[i] <= '9' || command[i] == '_'
  {
    forall i | 0 <= i < |command| ensures command[i] in command { }
  }

  lemma ModelledCommandsFit(command: string)
    requires command in {"create", "exists", "get", "list", "set", "remove"}
    ensures IsCommandName(command) && TakenAsPart(command)
  {
    AllLetters();
  }

  lemma AllLetters()
    ensures forall command :: command in {"create", "exists", "get", "list", "set", "remove"} ==> IsCommandName(command)
  {
  }

  function Plain(node: Node): Value { Value(Absent, node) }

  function StringOf(text: string): Value { Plain(String(Utf8.Encode(text))) }

  /** `yson_build::insert`. */
  function Set(dict: Value, key: string, value: Value): (r: Value)
    requires dict.node.Map?
    ensures r.node.Map?
  {
    dict.(node := Map(YsonCodec.Insert(dict.node.entries, Utf8.Encode(key), value)))
  }

  /** `yson_build::map`. */
  function Dict(fields: seq<(string, Value)>): (r: Value)
    ensures r.node.Map?
  {
    if fields == [] then Plain(Map([]))
    else Set(Dict(fields[..|fields| - 1]), fields[|fields| - 1].0, fields[|fields| - 1].1)
  }

  lemma {:induction false} FindInserted(entries: Entries, key: Bytes, value: Value, asked: Bytes)
    ensures Find(YsonCodec.Insert(entries, key, value), asked) == if asked == key then Some(value) else Find(entries, asked)
  {
    hide YsonCodec.Less;
    if entries != [] {
      FindInserted(entries[1..], key, value, asked);
    }
  }

  lemma FieldOfSet(dict: Value, key: string, value: Value, asked: string)
    requires dict.node.Map?
    ensures Field(Set(dict, key, value), asked) == if asked == key then Some(value) else Field(dict, asked)
  {
    hide Utf8.Encode, YsonCodec.Insert, Find;
    FindInserted(dict.node.entries, Utf8.Encode(key), value, Utf8.Encode(asked));
    Utf8.DecodeEncode(key);
    Utf8.DecodeEncode(asked);
  }

  function Flag(flag: bool): Value { Plain(Boolean(flag)) }

  /** A dict of these fields and no others. */
  ghost predicate Holds(dict: Value, fields: map<string, Value>) {
    forall name: string :: Field(dict, name) == if name in fields then Some(fields[name]) else None
  }

  lemma EmptyHolds()
    ensures Holds(Dict([]), map[])
  {
  }

  lemma OneMoreField(fields: seq<(string, Value)>, has: map<string, Value>, name: string, value: Value)
    requires Holds(Dict(fields), has)
    ensures Holds(Dict(fields + [(name, value)]), has[name := value])
  {
    hide Field, Set;
    assert (fields + [(name, value)])[..|fields|] == fields;
    forall asked: string ensures Field(Set(Dict(fields), name, value), asked) == if asked == name then Some(value) else Field(Dict(fields), asked) {
      FieldOfSet(Dict(fields), name, value, asked);
    }
  }

  lemma PathHolds(path: Value)
    ensures Holds(Dict([("path", path)]), map["path" := path])
  {
    hide Holds, Dict;
    EmptyHolds();
    OneMoreField([], map[], "path", path);
    assert [] + [("path", path)] == [("path", path)];
  }

  lemma RemoveHolds(path: Value, flag: Value)
    ensures Holds(Dict([("path", path), ("recursive", flag), ("force", flag)]), map["path" := path, "recursive" := flag, "force" := flag])
  {
    hide Holds, Dict;
    PathHolds(path);
    var one := [("path", path)];
    OneMoreField(one, map["path" := path], "recursive", flag);
    OneMoreField(one + [("recursive", flag)], map["path" := path, "recursive" := flag], "force", flag);
    assert one + [("recursive", flag)] + [("force", flag)] == [("path", path), ("recursive", flag), ("force", flag)];
  }

  lemma FourHold(path: Value, kind: Value, name: string, value: Value)
    ensures Holds(Dict([("path", path), ("type", kind), ("recursive", Flag(true)), (name, value)]),
                  map["path" := path, "type" := kind, "recursive" := Flag(true)][name := value])
  {
    hide Holds, Dict;
    PathHolds(path);
    var one := [("path", path)];
    var two := one + [("type", kind)];
    var three := two + [("recursive", Flag(true))];
    OneMoreField(one, map["path" := path], "type", kind);
    OneMoreField(two, map["path" := path, "type" := kind], "recursive", Flag(true));
    OneMoreField(three, map["path" := path, "type" := kind, "recursive" := Flag(true)], name, value);
    assert three + [(name, value)] == [("path", path), ("type", kind), ("recursive", Flag(true)), (name, value)];
  }

  lemma CreateHolds(kind: Value, path: Value)
    ensures Holds(Dict([("path", path), ("type", kind), ("recursive", Flag(true)), ("ignore_existing", Flag(true))]),
                  map["path" := path, "type" := kind, "recursive" := Flag(true), "ignore_existing" := Flag(true)])
  {
    hide Holds, Dict;
    FourHold(path, kind, "ignore_existing", Flag(true));
  }

  lemma CreateTableHolds(path: Value, kind: Value, attributes: Value)
    ensures Holds(Dict([("path", path), ("type", kind), ("recursive", Flag(true)), ("attributes", attributes)]),
                  map["path" := path, "type" := kind, "recursive" := Flag(true), "attributes" := attributes])
  {
    hide Holds, Dict;
    FourHold(path, kind, "attributes", attributes);
  }

  function KindFor(repeatable: Repeatable): PartKind {
    match repeatable
    case Freely => PartKind.Read
    case WithMutationId => MasterMutation
    case _ => Raw
  }

  function Kinds(parts: seq<Part>): (r: seq<PartKind>)
    ensures |r| == |parts|
  {
    seq(|parts|, i requires 0 <= i < |parts| => parts[i].kind)
  }

  /** How many parts one request may carry: the caller's cap, or five to one of concurrency,
      saturating at the width of `usize`. */
  function MaxPartSize(concurrency: Option<nat>, cap: Option<nat>): nat {
    match cap
    case Some(parts) => parts
    case None =>
      var product := OrElse(concurrency, DEFAULT_CONCURRENCY) * PARTS_PER_CONCURRENCY;
      var saturated := if product < U64 then product else U64 - 1;
      if saturated > 1 then saturated else 1
  }

  class BatchRequest {
    var parts: seq<Part>
    var concurrency: Option<nat>
    var maxPartSize: Option<nat>

    predicate Valid()
      reads this
    {
      && (forall i :: 0 <= i < |parts| ==> Fit(parts[i]))
      && MaxPartSize(concurrency, maxPartSize) >= 1
    }

    constructor ()
      ensures Valid() && parts == [] && MaxPartSize(concurrency, maxPartSize) == 250
    {
      parts, concurrency, maxPartSize := [], None, None;
    }

    /** Zero is clamped to one, since the cluster refuses it. */
    method WithConcurrency(n: nat)
      requires Valid()
      modifies this`concurrency
      ensures Valid() && concurrency == Some(if n > 1 then n else 1)
      ensures MaxPartSize(concurrency, maxPartSize) ==
        if maxPartSize.Some? then MaxPartSize(old(concurrency), maxPartSize) else Min(5 * (if n > 1 then n else 1), U64 - 1)
    {
      concurrency := Some(if n > 1 then n else 1);
    }

    method WithMaxPartSize(n: nat)
      requires Valid()
      modifies this`maxPartSize
      ensures Valid() && maxPartSize == Some(if n > 1 then n else 1)
      ensures forall c :: MaxPartSize(c, maxPartSize) == if n > 1 then n else 1
    {
      maxPartSize := Some(if n > 1 then n else 1);
    }

    method Push(part: Part)
      requires Valid() && Fit(part)
      modifies this`parts
      ensures Valid() && parts == old(parts) + [part]
    {
      parts := parts + [part];
    }

    /** The modelled parts, each last in the batch with exactly the parameters its namesake
        sends: a create keeps an existing node and answers under `node_id`. */
    method Create(nodeType: string, path: string)
      requires Valid()
      modifies this`parts
      ensures Valid() && |parts| == |old(parts)| + 1 && parts[..|old(parts)|] == old(parts)
      ensures var part := parts[|old(parts)|];
        && part == Part("create", part.parameters, None, MasterMutation, Keyed("node_id"))
        && Holds(part.parameters, map["path" := StringOf(path), "type" := StringOf(nodeType),
                                      "recursive" := Flag(true), "ignore_existing" := Flag(true)])
    {
      hide IsCommandName, TakenAsPart, Dict, StringOf, MaxPartSize, Holds;
      ModelledCommandsFit("create");
      CreateHolds(StringOf(nodeType), StringOf(path));
      Push(Part("create",
                Dict([("path", StringOf(path)), ("type", StringOf(nodeType)),
                      ("recursive", Flag(true)), ("ignore_existing", Flag(true))]),
                None, MasterMutation, Keyed("node_id")));
    }

    /** A created table fails on an existing path; a schema the cluster would refuse adds no part. */
    method CreateTable(path: string, schema: Option<Value>) returns (added: bool)
      requires Valid()
      modifies this`parts
      ensures Valid() && (added <==> schema.Some?) && (!added ==> parts == old(parts))
      ensures added ==> |parts| == |old(parts)| + 1 && parts[..|old(parts)|] == old(parts)
      ensures added ==>
        var part := parts[|old(parts)|];
        && part == Part("create", part.parameters, None, MasterMutation, Keyed("node_id"))
        && Holds(part.parameters, map["path" := StringOf(path), "type" := StringOf("table"),
                                      "recursive" := Flag(true), "attributes" := Dict([("schema", schema.value)])])
    {
      hide IsCommandName, TakenAsPart, Dict, StringOf, MaxPartSize, Holds;
      if schema.None? {
        return false;
      }
      ModelledCommandsFit("create");
      CreateTableHolds(StringOf(path), StringOf("table"), Dict([("schema", schema.value)]));
      Push(Part("create",
                Dict([("path", StringOf(path)), ("type", StringOf("table")),
                      ("recursive", Flag(true)), ("attributes", Dict([("schema", schema.value)]))]),
                None, MasterMutation, Keyed("node_id")));
      return true;
    }

    /** `exists`, `get` and `list` differ in the name alone, and answer under `value`. */
    method Ask(command: string, path: string)
      requires Valid() && command in {"exists", "get", "list"}
      modifies this`parts
      ensures Valid() && |parts| == |old(parts)| + 1 && parts[..|old(parts)|] == old(parts)
      ensures var part := parts[|old(parts)|];
        && part == Part(command, part.parameters, None, PartKind.Read, Keyed("value"))
        && Holds(part.parameters, map["path" := StringOf(path)])
    {
      hide IsCommandName, TakenAsPart, Dict, StringOf, MaxPartSize, Holds;
      ModelledCommandsFit(command);
      PathHolds(StringOf(path));
      Push(Part(command, Dict([("path", StringOf(path))]), None, PartKind.Read, Keyed("value")));
    }

    /** `remove` of an empty node that must exist, or `remove_tree` of whatever is there. */
    method Remove(path: string, tree: bool)
      requires Valid()
      modifies this`parts
      ensures Valid() && |parts| == |old(parts)| + 1 && parts[..|old(parts)|] == old(parts)
      ensures var part := parts[|old(parts)|];
        && part == Part("remove", part.parameters, None, MasterMutation, Unchecked)
        && Holds(part.parameters, map["path" := StringOf(path), "recursive" := Flag(tree), "force" := Flag(tree)])
    {
      hide IsCommandName, TakenAsPart, Dict, StringOf, MaxPartSize, Holds;
      ModelledCommandsFit("remove");
      RemoveHolds(StringOf(path), Flag(tree));
      Push(Part("remove", Dict([("path", StringOf(path)), ("recursive", Flag(tree)), ("force", Flag(tree))]),
                None, MasterMutation, Unchecked));
    }

    /** `set_attribute`, whose value travels as the part's input. */
    method SetAttribute(path: string, name: string, value: Value)
      requires Valid()
      modifies this`parts
      ensures Valid() && |parts| == |old(parts)| + 1 && parts[..|old(parts)|] == old(parts)
      ensures var part := parts[|old(parts)|];
        && part == Part("set", part.parameters, Some(value), MasterMutation, Unchecked)
        && Holds(part.parameters, map["path" := StringOf(path + "/@" + name)])
    {
      hide IsCommandName, TakenAsPart, Dict, StringOf, MaxPartSize, Holds;
      ModelledCommandsFit("set");
      PathHolds(StringOf(path + "/@" + name));
      Push(Part("set", Dict([("path", StringOf(path + "/@" + name))]), Some(value), MasterMutation, Unchecked));
    }

    /** `raw_with`. */
    method RawWith(command: string, parameters: Value, input: Option<Value>, repeatable: Repeatable) returns (taken: bool)
      requires Valid()
      modifies this`parts
      ensures Valid()
      ensures taken <==> IsCommandName(command) && parameters.node.Map? && TakenAsPart(command) && repeatable != Heavy
      ensures !taken ==> parts == old(parts)
      ensures taken ==> KindCaution(KindFor(repeatable)) == Caution(repeatable)
      ensures taken ==> parts == old(parts) + [Part(command, parameters, input, KindFor(repeatable), Unchecked)]
    {
      if !IsCommandName(command) || !parameters.node.Map? { return false; }
      if command in NOT_A_BATCH_PART { return false; }
      if command in HEAVY { return false; }
      if repeatable == Heavy { return false; }
      var part := Part(command, parameters, input, KindFor(repeatable), Unchecked);
      Push(part);
      return true;
    }

    method Raw(command: string, parameters: Value, input: Option<Value>) returns (taken: bool)
      requires Valid()
      modifies this`parts
      ensures Valid()
      ensures taken <==> IsCommandName(command) && parameters.node.Map? && TakenAsPart(command)
      ensures taken ==> parts == old(parts) + [Part(command, parameters, input, PartKind.Raw, Unchecked)] && ClassOf(Kinds(parts)) == Never
      ensures !taken ==> parts == old(parts)
    {
      taken := RawWith(command, parameters, input, Never);
      if taken { assert Kinds(parts)[|parts| - 1] == PartKind.Raw; }
    }
  }

  // ---------------------------------------------------------------- writing the request

  /** The client's transaction, put into each part that could run inside it. */
  function Stamped(part: Part, transaction: Option<string>): (r: Value)
    requires part.parameters.node.Map?
    ensures r.node.Map?
  {
    if transaction.Some? && part.command !in NO_TRANSACTION && Field(part.parameters, "transaction_id").None?
    then Set(part.parameters, "transaction_id", StringOf(transaction.value))
    else part.parameters
  }

  /** Stamping adds the one field, only where the part has none of its own, and touches no other. */
  lemma StampAddsOneField(part: Part, transaction: Option<string>, asked: string)
    requires part.parameters.node.Map?
    ensures asked != "transaction_id" || Field(part.parameters, asked).Some? ==>
      Field(Stamped(part, transaction), asked) == Field(part.parameters, asked)
    ensures asked == "transaction_id" && Field(part.parameters, asked).None? ==>
      Field(Stamped(part, transaction), asked) ==
        if transaction.Some? && part.command !in NO_TRANSACTION then Some(StringOf(transaction.value)) else None
  {
    hide Field, Set, StringOf;
    if transaction.Some? {
      FieldOfSet(part.parameters, "transaction_id", StringOf(transaction.value), asked);
    }
  }

  function RenderPart(part: Part, transaction: Option<string>): (r: Value)
    requires part.parameters.node.Map?
  {
    var request := Set(Set(Plain(Map([])), "command", StringOf(part.command)), "parameters", Stamped(part, transaction));
    if part.input.Some? then Set(request, "input", part.input.value) else request
  }

  /** What keeps inserting a field into a part from failing. */
  predicate AllDicts(parts: seq<Part>) {
    forall i :: 0 <= i < |parts| ==> parts[i].parameters.node.Map?
  }

  lemma FitPartsAreDicts(parts: seq<Part>)
    requires forall i :: 0 <= i < |parts| ==> Fit(parts[i])
    ensures AllDicts(parts)
  {
    hide IsCommandName, TakenAsPart;
  }

  function RenderParts(parts: seq<Part>, transaction: Option<string>): (r: seq<Value>)
    requires AllDicts(parts)
    ensures |r| == |parts|
  {
    hide RenderPart;
    if parts == [] then [] else [RenderPart(parts[0], transaction)] + RenderParts(parts[1..], transaction)
  }

  lemma {:induction false} RenderedAt(parts: seq<Part>, transaction: Option<string>, i: nat)
    requires AllDicts(parts) && i < |parts|
    ensures RenderParts(parts, transaction)[i] == RenderPart(parts[i], transaction)
  {
    hide RenderPart;
    if i > 0 { RenderedAt(parts[1..], transaction, i - 1); }
  }

  /** `render_chunk`, as far as the document goes. */
  function RenderChunk(parts: seq<Part>, concurrency: Option<nat>, transaction: Option<string>): Value
    requires AllDicts(parts)
  {
    var rendered := Set(Plain(Map([])), "requests", Plain(List(RenderParts(parts, transaction))));
    if concurrency.Some? then Set(rendered, "concurrency", Plain(Int64(concurrency.value))) else rendered
  }

  /** What the cluster reads off a part it is sent. */
  lemma PartReadsBack(part: Part, transaction: Option<string>)
    requires part.parameters.node.Map?
    ensures var sent := RenderPart(part, transaction);
      && Field(sent, "command") == Some(StringOf(part.command))
      && Field(sent, "parameters") == Some(Stamped(part, transaction))
      && Field(sent, "input") == part.input
  {
    hide Field, Set, StringOf, Stamped;
    var empty := Plain(Map([]));
    var one := Set(empty, "command", StringOf(part.command));
    var two := Set(one, "parameters", Stamped(part, transaction));
    EmptyHas(empty, "input");
    forall asked | asked in {"command", "parameters", "input"}
      ensures Field(RenderPart(part, transaction), asked) ==
        match asked case "command" => Some(StringOf(part.command)) case "parameters" => Some(Stamped(part, transaction)) case _ => part.input
    {
      FieldOfSet(empty, "command", StringOf(part.command), asked);
      FieldOfSet(one, "parameters", Stamped(part, transaction), asked);
      if part.input.Some? { FieldOfSet(two, "input", part.input.value, asked); }
    }
  }

  lemma EmptyHas(dict: Value, asked: string)
    requires dict.node == Map([])
    ensures Field(dict, asked).None?
  {
  }

  function ChunkField(parts: seq<Part>, concurrency: Option<nat>, transaction: Option<string>, name: string): Option<Value>
    requires AllDicts(parts)
  {
    if name == "concurrency" && concurrency.Some? then Some(Plain(Int64(concurrency.value)))
    else if name == "requests" then Some(Plain(List(RenderParts(parts, transaction))))
    else None
  }

  /** Each field of the document is the last one set under its name. */
  lemma ChunkFields(parts: seq<Part>, concurrency: Option<nat>, transaction: Option<string>)
    requires AllDicts(parts)
    ensures forall name: string :: Field(RenderChunk(parts, concurrency, transaction), name) == ChunkField(parts, concurrency, transaction, name)
  {
    hide Field, Set, RenderParts;
    var empty, requests := Plain(Map([])), Plain(List(RenderParts(parts, transaction)));
    forall name: string
      ensures Field(RenderChunk(parts, concurrency, transaction), name) == ChunkField(parts, concurrency, transaction, name)
    {
      EmptyHas(empty, name);
      FieldOfSet(empty, "requests", requests, name);
      if concurrency.Some? { FieldOfSet(Set(empty, "requests", requests), "concurrency", Plain(Int64(concurrency.value)), name); }
    }
  }

  /** The k-th request of the document is the k-th part, and there are no others. */
  lemma ChunkReadsBack(parts: seq<Part>, concurrency: Option<nat>, transaction: Option<string>)
    requires AllDicts(parts)
    ensures var requests := Field(RenderChunk(parts, concurrency, transaction), "requests");
      && requests.Some? && requests.value.node.List? && |requests.value.node.items| == |parts|
      && forall i :: 0 <= i < |parts| ==> requests.value.node.items[i] == RenderPart(parts[i], transaction)
    ensures Field(RenderChunk(parts, concurrency, transaction), "concurrency") ==
      if concurrency.Some? then Some(Plain(Int64(concurrency.value))) else None
    ensures forall name: string :: name !in {"requests", "concurrency"} ==> Field(RenderChunk(parts, concurrency, transaction), name).None?
  {
    hide Field, Set, RenderPart;
    ChunkFields(parts, concurrency, transaction);
    var requests := Plain(List(RenderParts(parts, transaction)));
    forall i | 0 <= i < |parts| ensures RenderParts(parts, transaction)[i] == RenderPart(parts[i], transaction) {
      RenderedAt(parts, transaction, i);
    }
    var empty := Plain(Map([]));
    FieldOfSet(empty, "requests", requests, "requests");
    if concurrency.Some? {
      FieldOfSet(Set(empty, "requests", requests), "concurrency", Plain(Int64(concurrency.value)), "requests");
    }
  }

  // ---------------------------------------------------------------- reading the answer

  type PartAnswer = Result<Value, Told>

  /** `part_result`: none for a shape the client refuses to guess about. */
  function PartResult(item: Value, part: Part): Option<PartAnswer> {
    if !item.node.Map? then None
    else
      var error, output := Field(item, "error"), Field(item, "output");
      match (error, output, |item.node.entries|)
      case (Some(e), None, 1) => Some(Err(PartError(e)))
      case (None, Some(o), 1) => if part.output.Keyed? && Field(o, part.output.key).None? then None else Some(Ok(o))
      case (None, None, 0) => if part.output.Unchecked? then Some(Ok(Plain(Map([])))) else None
      case _ => None
  }

  /** `collect` into a result: none as soon as one item is refused. */
  function CollectResults(items: seq<Value>, parts: seq<Part>): (r: Option<seq<PartAnswer>>)
    requires |items| == |parts|
    ensures r.Some? ==> |r.value| == |items|
  {
    hide PartResult;
    if items == [] then Some([])
    else
      match (PartResult(items[0], parts[0]), CollectResults(items[1..], parts[1..]))
      case (Some(first), Some(rest)) => Some([first] + rest)
      case _ => None
  }

  /** Collecting gives each item's result in its place, and fails only where an item is refused. */
  lemma {:induction false} CollectsEach(items: seq<Value>, parts: seq<Part>, answers: seq<PartAnswer>)
    requires |items| == |parts| == |answers|
    ensures CollectResults(items, parts) == Some(answers) <==>
      forall i :: 0 <= i < |items| ==> PartResult(items[i], parts[i]) == Some(answers[i])
  {
    hide PartResult;
    if items != [] {
      CollectsEach(items[1..], parts[1..], answers[1..]);
      assert answers == [answers[0]] + answers[1..];
      assert forall i :: 0 <= i < |items| - 1 ==> items[1..][i] == items[i + 1] && parts[1..][i] == parts[i + 1] && answers[1..][i] == answers[i + 1];
      assert forall i :: 0 < i < |items| ==> items[i] == items[1..][i - 1] && parts[i] == parts[1..][i - 1] && answers[i] == answers[1..][i - 1];
    }
  }

  /** `parse_results`, of a body that decodes as `body`. */
  function ParseResults(body: Option<Value>, parts: seq<Part>): (r: Option<seq<PartAnswer>>)
    ensures r.Some? ==> |r.value| == |parts|
  {
    if body.None? || !body.value.node.Map? then None
    else
      match Field(body.value, "results")
      case Some(Value(_, List(items))) => if |items| == |parts| then CollectResults(items, parts) else None
      case _ => None
  }

  /** The body a cluster answers with when its k-th part came to `answers[k]`. */
  ghost predicate Tells(body: Value, parts: seq<Part>, answers: seq<PartAnswer>) {
    && body.node.Map? && |answers| == |parts|
    && Field(body, "results").Some? && Field(body, "results").value.node.List?
    && var items := Field(body, "results").value.node.items;
    && |items| == |parts|
    && forall k :: 0 <= k < |parts| ==> ItemTells(items[k], parts[k], answers[k])
  }

  /** A dict of one field that says how the part went; or, for a part that promises no value, of
      none. */
  ghost predicate ItemTells(item: Value, part: Part, answer: PartAnswer) {
    && item.node.Map?
    && match answer
       case Err(told) => exists e :: item.node.entries == [Entry(Utf8.Encode("error"), e)] && PartError(e) == told
       case Ok(o) =>
         && (part.output.Keyed? ==> Field(o, part.output.key).Some?)
         && (|| item.node.entries == [Entry(Utf8.Encode("output"), o)]
             || (part.output.Unchecked? && item.node.entries == [] && o == Plain(Map([]))))
  }

  lemma OneEntry(item: Value, name: string)
    requires item.node.Map? && |item.node.entries| == 1
    ensures Field(item, name) == if item.node.entries[0].key == Utf8.Encode(name) then Some(item.node.entries[0].value) else None
  {
    hide Utf8.Encode;
    assert item.node.entries[1..] == [];
  }

  lemma ItemIsItsAnswer(item: Value, part: Part, answer: PartAnswer)
    ensures PartResult(item, part) == Some(answer) <==> ItemTells(item, part, answer)
  {
    hide Utf8.Encode, Utf8.Decode, PartError, Field;
    Utf8.DecodeEncode("error");
    Utf8.DecodeEncode("output");
    assert Utf8.Encode("error") != Utf8.Encode("output");
    if item.node.Map? {
      if |item.node.entries| == 1 {
        OneEntry(item, "error");
        OneEntry(item, "output");
        var entry := item.node.entries[0];
        assert item.node.entries == [Entry(entry.key, entry.value)];
      } else if |item.node.entries| == 0 {
        EmptyHas(item, "error");
        EmptyHas(item, "output");
      }
    }
  }

  /** An answer is accepted exactly when it tells of every part in turn, and then each part gets
      what was told of it and of no other. */
  lemma AcceptedExactlyWhenTold(body: Value, parts: seq<Part>, answers: seq<PartAnswer>)
    ensures ParseResults(Some(body), parts) == Some(answers) <==> Tells(body, parts, answers)
  {
    hide PartResult, ItemTells, Field, CollectResults;
    if body.node.Map? && Field(body, "results").Some? && Field(body, "results").value.node.List? {
      var items := Field(body, "results").value.node.items;
      if |items| == |parts| == |answers| {
        forall k | 0 <= k < |parts| ensures PartResult(items[k], parts[k]) == Some(answers[k]) <==> ItemTells(items[k], parts[k], answers[k]) {
          ItemIsItsAnswer(items[k], parts[k], answers[k]);
        }
        CollectsEach(items, parts, answers);
      }
    }
  }

  /** An accepted success of a part that answers under a key has that key, so taking it never
      fails. */
  lemma KeyedAnswersCarryTheirKey(body: Option<Value>, parts: seq<Part>, k: nat)
    requires k < |parts| && parts[k].output.Keyed? && ParseResults(body, parts).Some?
    ensures var answer := ParseResults(body, parts).value[k]; answer.Ok? ==> Field(answer.value, parts[k].output.key).Some?
  {
    hide Field, PartError, CollectResults;
    var items := Field(body.value, "results").value.node.items;
    CollectsEach(items, parts, ParseResults(body, parts).value);
  }

  // ---------------------------------------------------------------- more parts than one request holds

  function Flatten<T>(pieces: seq<seq<T>>): seq<T> {
    if pieces == [] then [] else Flatten(pieces[..|pieces| - 1]) + pieces[|pieces| - 1]
  }

  lemma FlattenSnoc<T>(pieces: seq<seq<T>>, piece: seq<T>)
    ensures Flatten(pieces + [piece]) == Flatten(pieces) + piece
  {
    assert (pieces + [piece])[..|pieces|] == pieces;
  }

  ghost predicate SameShape<A, B>(a: seq<seq<A>>, b: seq<seq<B>>) {
    |a| == |b| && forall j :: 0 <= j < |a| ==> |a[j]| == |b[j]|
  }

  /** Pieces of one shape put the same place of the same piece at each place of the whole. */
  lemma {:induction false} SamePlace<A, B>(a: seq<seq<A>>, b: seq<seq<B>>, i: nat)
    requires SameShape(a, b)
    ensures |Flatten(a)| == |Flatten(b)|
    ensures i < |Flatten(a)| ==>
      exists j, k :: 0 <= j < |a| && 0 <= k < |a[j]| && Flatten(a)[i] == a[j][k] && Flatten(b)[i] == b[j][k]
  {
    if a != [] {
      var last := |a| - 1;
      SamePlace(a[..last], b[..last], i);
      var before := |Flatten(a[..last])|;
      if before <= i < |Flatten(a)| {
        assert Flatten(a)[i] == a[last][i - before] && Flatten(b)[i] == b[last][i - before];
      } else if i < before {
        var j, k :| 0 <= j < last && 0 <= k < |a[..last][j]|
          && Flatten(a[..last])[i] == a[..last][j][k] && Flatten(b[..last])[i] == b[..last][j][k];
        assert Flatten(a)[i] == a[j][k] && Flatten(b)[i] == b[j][k];
      }
    }
  }

  datatype BatchResult =
    | Answered(results: seq<PartAnswer>)
    | Refused(cause: Failures.ClientError)
    | Interrupted(answered: seq<PartAnswer>, parts: nat, cause: Failures.ClientError)

  /** What the j-th request comes to once it is read: its answers, or why there are none. */
  function Reading(call: Result<Option<Value>, Failures.ClientError>, chunk: seq<Part>): (r: Result<seq<PartAnswer>, Failures.ClientError>)
    ensures r.Ok? ==> |r.value| == |chunk|
  {
    match call
    case Err(error) => Err(error)
    case Ok(body) =>
      match ParseResults(body, chunk)
      case Some(answers) => Ok(answers)
      case None => Err(Failures.Decode)
  }

  /** A request's answers are those its body tells, part for part; and why there are none is the
      call's own error, or that the body is none or tells something else. */
  lemma ReadingTells(call: Result<Option<Value>, Failures.ClientError>, chunk: seq<Part>, answers: seq<PartAnswer>)
    ensures Reading(call, chunk) == Ok(answers) <==> call.Ok? && call.value.Some? && Tells(call.value.value, chunk, answers)
    ensures call.Err? ==> Reading(call, chunk) == Err(call.error)
    ensures call.Ok? && Reading(call, chunk).Err? ==> Reading(call, chunk).error == Failures.Decode
  {
    hide ParseResults, Tells;
    if call.Ok? && call.value.Some? {
      AcceptedExactlyWhenTold(call.value.value, chunk, answers);
    }
    NoBodyTellsNothing(chunk);
  }

  lemma NoBodyTellsNothing(chunk: seq<Part>)
    ensures ParseResults(None, chunk).None?
  {
  }

  type Calls = nat -> Result<Option<Value>, Failures.ClientError>

  /** The first requests have all been answered, and these are their answers in order. */
  ghost predicate AnsweredInOrder(sent: seq<seq<Part>>, calls: Calls, results: seq<PartAnswer>) {
    exists answers :: AreAnswers(sent, calls, answers) && results == Flatten(answers)
  }

  ghost predicate AreAnswers(sent: seq<seq<Part>>, calls: Calls, answers: seq<seq<PartAnswer>>) {
    && |answers| == |sent|
    && forall j :: 0 <= j < |sent| ==> Reading(calls(j), sent[j]) == Ok(answers[j])
  }

  /** Full pieces of the parts, except that the last may be short. */
  ghost predicate AreChunks(sent: seq<seq<Part>>, parts: seq<Part>, size: nat) {
    && Flatten(sent) <= parts
    && forall j :: 0 <= j < |sent| ==> 0 < |sent[j]| <= size && (j < |sent| - 1 ==> |sent[j]| == size)
  }

  lemma OneMoreChunk(sent: seq<seq<Part>>, parts: seq<Part>, size: nat, chunk: seq<Part>)
    requires AreChunks(sent, parts, size) && forall j :: 0 <= j < |sent| ==> |sent[j]| == size
    requires 0 < |chunk| <= size && Flatten(sent) + chunk <= parts
    ensures AreChunks(sent + [chunk], parts, size)
  {
    FlattenSnoc(sent, chunk);
  }

  lemma OneMoreAnswer(sent: seq<seq<Part>>, calls: Calls, results: seq<PartAnswer>, chunk: seq<Part>)
    requires AnsweredInOrder(sent, calls, results) && Reading(calls(|sent|), chunk).Ok?
    ensures AnsweredInOrder(sent + [chunk], calls, results + Reading(calls(|sent|), chunk).value)
  {
    hide Reading;
    var answers :| AreAnswers(sent, calls, answers) && results == Flatten(answers);
    var more := answers + [Reading(calls(|sent|), chunk).value];
    FlattenSnoc(answers, Reading(calls(|sent|), chunk).value);
    assert AreAnswers(sent + [chunk], calls, more);
  }

  lemma NothingAnswered(calls: Calls)
    ensures AnsweredInOrder([], calls, [])
  {
    var none: seq<seq<PartAnswer>> := [];
    assert AreAnswers([], calls, none);
    assert Flatten(none) == [];
  }

  /** How a batch ends: every request answered; or the last one sent not, with those before it. */
  ghost predicate Ends(sent: seq<seq<Part>>, parts: seq<Part>, calls: Calls, result: BatchResult) {
    match result
    case Answered(results) => Flatten(sent) == parts && AnsweredInOrder(sent, calls, results)
    case Refused(cause) => |sent| == 1 && Reading(calls(0), sent[0]) == Err(cause)
    case Interrupted(answered, count, cause) =>
      && count == |parts| && |sent| > 1
      && AnsweredInOrder(sent[..|sent| - 1], calls, answered)
      && Reading(calls(|sent| - 1), sent[|sent| - 1]) == Err(cause)
  }

  /** Some full pieces have gone, or all of them, and `rest` is what has not. */
  ghost predicate Underway(sent: seq<seq<Part>>, rest: seq<Part>, parts: seq<Part>, size: nat) {
    && AreChunks(sent, parts, size) && Flatten(sent) + rest == parts
    && (rest != [] ==> forall j :: 0 <= j < |sent| ==> |sent[j]| == size)
    && (|parts| <= size && sent != [] ==> |sent| == 1 && rest == [])
  }

  lemma NothingSent(parts: seq<Part>, size: nat)
    ensures Underway([], parts, parts, size)
  {
    assert Flatten<Part>([]) == [];
  }

  lemma Took(sent: seq<seq<Part>>, rest: seq<Part>, parts: seq<Part>, size: nat)
    requires Underway(sent, rest, parts, size) && rest != [] && size >= 1
    ensures var n := if |rest| < size then |rest| else size;
      Underway(sent + [rest[..n]], rest[n..], parts, size) && AreChunks(sent + [rest[..n]], parts, size)
  {
    var n := if |rest| < size then |rest| else size;
    assert rest == rest[..n] + rest[n..];
    assert Flatten(sent) + rest[..n] + rest[n..] == parts;
    OneMoreChunk(sent, parts, size, rest[..n]);
    FlattenSnoc(sent, rest[..n]);
  }

  lemma Stopped(sent: seq<seq<Part>>, chunk: seq<Part>, parts: seq<Part>, calls: Calls, results: seq<PartAnswer>)
    requires AnsweredInOrder(sent, calls, results) && (sent == [] <==> results == [])
    requires Reading(calls(|sent|), chunk).Err?
    ensures var cause := Reading(calls(|sent|), chunk).error;
      Ends(sent + [chunk], parts, calls, if results == [] then Refused(cause) else Interrupted(results, |parts|, cause))
  {
    assert (sent + [chunk])[..|sent|] == sent;
  }

  /** What goes out for some of the parts: the document, the whole batch's class and the id. */
  datatype Post = Post(body: Value, repeatable: Repeatable, id: Option<Mutations.MutationId>)

  ghost predicate AreAllDicts(pieces: seq<seq<Part>>) {
    forall j :: 0 <= j < |pieces| ==> AllDicts(pieces[j])
  }

  /** Every request carries its own piece, under the class of the whole batch. */
  ghost predicate ArePosts(posts: seq<Post>, sent: seq<seq<Part>>, parts: seq<Part>, concurrency: Option<nat>,
                           transaction: Option<string>, id: Option<Mutations.MutationId>)
  {
    && AreAllDicts(sent) && |posts| == |sent|
    && forall j :: 0 <= j < |posts| ==> posts[j] == Post(RenderChunk(sent[j], concurrency, transaction), ClassOf(Kinds(parts)), id)
  }

  lemma OneMorePost(posts: seq<Post>, sent: seq<seq<Part>>, parts: seq<Part>, concurrency: Option<nat>,
                    transaction: Option<string>, id: Option<Mutations.MutationId>, chunk: seq<Part>)
    requires ArePosts(posts, sent, parts, concurrency, transaction, id) && AllDicts(chunk)
    ensures ArePosts(posts + [Post(RenderChunk(chunk, concurrency, transaction), ClassOf(Kinds(parts)), id)],
                     sent + [chunk], parts, concurrency, transaction, id)
  {
    hide RenderChunk, ClassOf;
  }

  lemma DictsEitherSide(parts: seq<Part>, n: nat)
    requires AllDicts(parts) && n <= |parts|
    ensures AllDicts(parts[..n]) && AllDicts(parts[n..])
  {
  }

  /** `execute_batch_with`. The j-th request, carrying `sent[j]` as `posts[j]`, comes to `calls(j)`. */
  method ExecuteBatchWith(batch: BatchRequest, transaction: Option<string>, id: Option<Mutations.MutationId>, calls: Calls)
    returns (result: BatchResult, sent: seq<seq<Part>>, posts: seq<Post>)
    requires batch.Valid()
    ensures var size := MaxPartSize(batch.concurrency, batch.maxPartSize);
      if batch.parts == [] || (id.Some? && |batch.parts| > size) then sent == [] && result == Refused(Failures.Config)
      else AreChunks(sent, batch.parts, size) && Ends(sent, batch.parts, calls, result)
    ensures ArePosts(posts, sent, batch.parts, batch.concurrency, transaction, id)
    ensures id.Some? ==> |sent| <= 1
  {
    hide MaxPartSize, Reading, AnsweredInOrder, Flatten, AreChunks, Fit, AllDicts, ArePosts, ClassOf, RenderChunk;
    sent, posts := [], [];
    NothingPosted(batch.parts, batch.concurrency, transaction, id);
    if batch.parts == [] {
      return Refused(Failures.Config), sent, posts;
    }
    var size := MaxPartSize(batch.concurrency, batch.maxPartSize);
    if id.Some? && |batch.parts| > size {
      return Refused(Failures.Config), sent, posts;
    }
    var repeatable := ClassOf(Kinds(batch.parts));
    var results: seq<PartAnswer> := [];
    var rest := batch.parts;
    FitPartsAreDicts(batch.parts);
    NothingAnswered(calls);
    NothingSent(batch.parts, size);
    while rest != []
      invariant Underway(sent, rest, batch.parts, size) && AllDicts(rest)
      invariant ArePosts(posts, sent, batch.parts, batch.concurrency, transaction, id)
      invariant AnsweredInOrder(sent, calls, results) && (sent == [] <==> results == [])
      decreases |rest|
    {
      var n := if |rest| < size then |rest| else size;
      var chunk := rest[..n];
      DictsEitherSide(rest, n);
      Took(sent, rest, batch.parts, size);
      OneMorePost(posts, sent, batch.parts, batch.concurrency, transaction, id, chunk);
      posts := posts + [Post(RenderChunk(chunk, batch.concurrency, transaction), repeatable, id)];
      var answered := Reading(calls(|sent|), chunk);
      if answered.Err? {
        Stopped(sent, chunk, batch.parts, calls, results);
        return if results == [] then Refused(answered.error) else Interrupted(results, |batch.parts|, answered.error), sent + [chunk], posts;
      }
      ReadingIsAsLong(calls(|sent|), chunk);
      OneMoreAnswer(sent, calls, results, chunk);
      sent := sent + [chunk];
      results := results + answered.value;
      rest := rest[n..];
    }
    result := Answered(results);
  }

  lemma NothingPosted(parts: seq<Part>, concurrency: Option<nat>, transaction: Option<string>, id: Option<Mutations.MutationId>)
    ensures ArePosts([], [], parts, concurrency, transaction, id)
  {
  }

  /** The i-th part's answer was told by the body of the request that carried it. */
  ghost predicate WasTold(sent: seq<seq<Part>>, calls: Calls, j: nat, k: nat, part: Part, answer: PartAnswer) {
    && j < |sent| && k < |sent[j]| && sent[j][k] == part
    && calls(j).Ok? && calls(j).value.Some?
    && var body := calls(j).value.value;
    && body.node.Map? && Field(body, "results").Some? && Field(body, "results").value.node.List?
    && k < |Field(body, "results").value.node.items|
    && ItemTells(Field(body, "results").value.node.items[k], part, answer)
  }

  /** How a batch ends, by what came back alone: every part was told its answer; or the request
      that stopped the batch failed with its own error, or with a body that tells no answers. */
  lemma EndsByWhatCameBack(sent: seq<seq<Part>>, parts: seq<Part>, calls: Calls, result: BatchResult, i: nat)
    requires Ends(sent, parts, calls, result)
    ensures result.Answered? ==> |result.results| == |parts|
    ensures result.Answered? && i < |parts| ==> exists j: nat, k: nat :: WasTold(sent, calls, j, k, parts[i], result.results[i])
    ensures !result.Answered? ==> |sent| > 0
    ensures !result.Answered? ==> result.cause == match calls(|sent| - 1) case Err(error) => error case Ok(_) => Failures.Decode
    ensures result.Interrupted? ==> result.parts == |parts| && |sent| > 1
    ensures result.Refused? ==> |sent| == 1
  {
    hide Reading, Flatten, ItemTells, Field;
    if result.Answered? {
      if i < |parts| {
        EachPartGetsItsAnswer(sent, parts, calls, result.results, i);
        var j: nat, k: nat :| IsAnswerTo(sent, calls, j, k, parts[i], result.results[i]);
        ReadingTells(calls(j), sent[j], Reading(calls(j), sent[j]).value);
        assert WasTold(sent, calls, j, k, parts[i], result.results[i]);
      } else if parts != [] {
        EachPartGetsItsAnswer(sent, parts, calls, result.results, 0);
      } else {
        NoPartsNoAnswers(sent, calls, result.results);
      }
    } else {
      ReadingTells(calls(|sent| - 1), sent[|sent| - 1], []);
    }
  }

  lemma NoPartsNoAnswers(sent: seq<seq<Part>>, calls: Calls, results: seq<PartAnswer>)
    requires Flatten(sent) == [] && AnsweredInOrder(sent, calls, results)
    ensures results == []
  {
    hide Reading;
    var answers :| AreAnswers(sent, calls, answers) && results == Flatten(answers);
    forall j | 0 <= j < |sent| ensures |answers[j]| == |sent[j]| { ReadingIsAsLong(calls(j), sent[j]); }
    SamePlace(sent, answers, 0);
  }

  /** The k-th place of the j-th request carried the part and was answered so. */
  predicate IsAnswerTo(sent: seq<seq<Part>>, calls: Calls, j: nat, k: nat, part: Part, answer: PartAnswer) {
    && j < |sent| && k < |sent[j]| && sent[j][k] == part
    && Reading(calls(j), sent[j]).Ok? && Reading(calls(j), sent[j]).value[k] == answer
  }

  /** However the batch is split, the i-th answer is the one the request carrying the i-th part
      gave in that part's place; and there is one for every part. */
  lemma EachPartGetsItsAnswer(sent: seq<seq<Part>>, parts: seq<Part>, calls: Calls, results: seq<PartAnswer>, i: nat)
    requires Ends(sent, parts, calls, Answered(results)) && i < |parts|
    ensures |results| == |parts|
    ensures exists j: nat, k: nat :: IsAnswerTo(sent, calls, j, k, parts[i], results[i])
  {
    hide Reading;
    var answers :| AreAnswers(sent, calls, answers) && results == Flatten(answers);
    forall j | 0 <= j < |sent| ensures |answers[j]| == |sent[j]| {
      ReadingIsAsLong(calls(j), sent[j]);
    }
    SamePlace(sent, answers, i);
    var j, k :| 0 <= j < |sent| && 0 <= k < |sent[j]| && Flatten(sent)[i] == sent[j][k] && Flatten(answers)[i] == answers[j][k];
    assert IsAnswerTo(sent, calls, j, k, parts[i], results[i]);
  }

  lemma ReadingIsAsLong(call: Result<Option<Value>, Failures.ClientError>, chunk: seq<Part>)
    requires Reading(call, chunk).Ok?
    ensures |Reading(call, chunk).value| == |chunk|
  {
  }
}
