/** What binary YSON written by the serializer reads back as. */
module YsonCodec {
  import opened Text
  import opened Yson

  // ---------------------------------------------------------------- maps with byte-string keys

  /** Byte strings in the order a `BTreeMap` keeps them. */
  predicate Less(a: Bytes, b: Bytes) {
    b != [] && (a == [] || a[0] < b[0] || (a[0] == b[0] && Less(a[1..], b[1..])))
  }

  predicate Sorted(entries: Entries) {
    forall i, j :: 0 <= i < j < |entries| ==> Less(entries[i].key, entries[j].key)
  }

  function Insert(entries: Entries, key: Bytes, value: Value): Entries {
    if entries == [] then [Entry(key, value)]
    else if key == entries[0].key then [Entry(key, value)] + entries[1..]
    else if Less(key, entries[0].key) then [Entry(key, value)] + entries
    else [entries[0]] + Insert(entries[1..], key, value)
  }

  function Extend(entries: Entries, more: Entries): Entries {
    if more == [] then entries
    else Insert(Extend(entries, more[..|more| - 1]), more[|more| - 1].key, more[|more| - 1].value)
  }

  lemma {:induction false} LessIsStrict(a: Bytes, b: Bytes)
    requires Less(a, b)
    ensures a != b && !Less(b, a)
  {
    if a != [] && a[0] == b[0] {
      LessIsStrict(a[1..], b[1..]);
    }
  }

  lemma {:induction false} InsertLast(entries: Entries, key: Bytes, value: Value)
    requires forall i :: 0 <= i < |entries| ==> Less(entries[i].key, key)
    ensures Insert(entries, key, value) == entries + [Entry(key, value)]
  {
    if entries != [] {
      LessIsStrict(entries[0].key, key);
      InsertLast(entries[1..], key, value);
    }
  }

  // ---------------------------------------------------------------- writing

  function EncodeString(bytes: Bytes): Bytes {
    [0x01] + WriteUvarint(Zigzag(|bytes|)) + bytes
  }

  function EncodeValue(v: Value): (r: Bytes)
    decreases v, 1
  {
    if v.attributes.Present? && v.attributes.entries != []
    then [0x3C] + EncodeEntries(v.attributes.entries) + [0x3E] + EncodeNode(v.node)
    else EncodeNode(v.node)
  }

  function EncodeNode(node: Node): Bytes
    decreases node, 1
  {
    match node
    case Entity => [0x23]
    case Boolean(flag) => [if flag then 0x05 else 0x04]
    case Int64(i) => [0x02] + WriteUvarint(Zigzag(i))
    case Uint64(u) => [0x06] + WriteUvarint(u)
    case Double(bits) => [0x03] + bits
    case String(bytes) => EncodeString(bytes)
    case List(items) => [0x5B] + EncodeItems(items) + [0x5D]
    case Map(entries) => [0x7B] + EncodeEntries(entries) + [0x7D]
  }

  function EncodeItems(items: seq<Value>): Bytes
    decreases items, 0
  {
    if items == [] then []
    else if |items| == 1 then EncodeValue(items[0])
    else EncodeValue(items[0]) + [0x3B] + EncodeItems(items[1..])
  }

  function EncodeEntry(entry: Entry): Bytes
    decreases entry, 1
  {
    EncodeString(entry.key) + [0x3D] + EncodeValue(entry.value)
  }

  function EncodeEntries(entries: Entries): Bytes
    decreases entries, 0
  {
    if entries == [] then []
    else if |entries| == 1 then EncodeEntry(entries[0])
    else EncodeEntry(entries[0]) + [0x3B] + EncodeEntries(entries[1..])
  }

  // ---------------------------------------------------------------- reading

  datatype Parsed<+T> = Done(value: T, rest: Bytes) | Fail

  const VALUE_KEY: Bytes := [0x24, 0x76, 0x61, 0x6C, 0x75, 0x65]

  predicate IsAttributeKey(key: Bytes) {
    key != [] && key[0] == 0x40
  }

  /** What `visit_map` has gathered so far. */
  datatype Gathered = Gathered(attributes: Entries, plain: Entries, body: Option<Node>, attributed: bool)

  function Gather(g: Gathered, key: Bytes, value: Value): Gathered {
    if IsAttributeKey(key) then
      g.(attributes := Insert(g.attributes, key[1..], value), attributed := true)
    else if key == VALUE_KEY then
      g.(attributes := if value.attributes.Present? then Extend(g.attributes, value.attributes.entries) else g.attributes,
         body := Some(value.node), attributed := true)
    else g.(plain := Insert(g.plain, key, value))
  }

  function GatherAll(pairs: Entries): Gathered {
    if pairs == [] then Gathered([], [], None, false)
    else
      var last := pairs[|pairs| - 1];
      Gather(GatherAll(pairs[..|pairs| - 1]), last.key, last.value)
  }

  /** The end of `visit_map`: keys with an at sign are attributes, and a value has one body. */
  function Build(pairs: Entries): Option<Value> {
    var g := GatherAll(pairs);
    if !g.attributed then Some(Value(Absent, Map(g.plain)))
    else if g.plain != [] && g.body.Some? then None
    else
      Some(Value(
        if g.attributes == [] then Absent else Present(g.attributes),
        if g.plain != [] then Map(g.plain) else if g.body.Some? then g.body.value else Entity))
  }

  function AsParsed<T>(r: Option<T>, rest: Bytes): Parsed<T> {
    match r case Some(v) => Done(v, rest) case None => Fail
  }

  function Built(r: Parsed<Entries>): Parsed<Value> {
    match r case Done(pairs, rest) => AsParsed(Build(pairs), rest) case Fail => Fail
  }

  function Listed(r: Parsed<seq<Value>>): Parsed<Value> {
    match r case Done(items, rest) => Done(Value(Absent, List(items)), rest) case Fail => Fail
  }

  function Joined<T>(front: seq<T>, r: Parsed<seq<T>>): Parsed<seq<T>> {
    match r case Done(back, rest) => Done(front + back, rest) case Fail => Fail
  }

  function DecodeValue(input: Bytes, depth: nat): (r: Parsed<Value>)
    ensures r.Done? ==> Consumes(r.rest, input)
    decreases |input|, 0
  {
    if input == [] then Fail
    else if input[0] == 0x3C then
      if depth + 1 > MAX_DEPTH then Fail
      else
        match DecodePairs(input[1..], depth + 1, 0x3E, false, [0x40])
        case Fail => Fail
        case Done(attributes, after) => Built(Joined(attributes, DecodeBody(after, depth + 1)))
    else
      match NextToken(input)
      case Got(Scalar(node), rest) => Done(Value(Absent, node), rest)
      case Got(BeginList, body) =>
        if depth + 1 > MAX_DEPTH then Fail else Listed(DecodeItems(body, depth + 1))
      case Got(BeginMap, body) =>
        if depth + 1 > MAX_DEPTH then Fail else Built(DecodePairs(body, depth + 1, 0x7D, true, []))
      case _ => Fail
  }

  /** What stands behind an attribute block, as the pairs the flat presentation makes of it. */
  function DecodeBody(input: Bytes, depth: nat): (r: Parsed<Entries>)
    ensures r.Done? ==> Consumes(r.rest, input)
    decreases |input|, 1
  {
    if input == [] then Fail
    else if input[0] == 0x7B then DecodePairs(input[1..], depth, 0x7D, false, [])
    else if input[0] == 0x23 then Done([], input[1..])
    else
      match DecodeValue(input, depth)
      case Fail => Fail
      case Done(v, rest) => Done([Entry(VALUE_KEY, v)], rest)
  }

  function DecodeItems(input: Bytes, depth: nat): (r: Parsed<seq<Value>>)
    ensures r.Done? ==> Consumes(r.rest, input)
    decreases |input|, 1
  {
    if input == [] then Fail
    else if input[0] == 0x5D then Done([], input[1..])
    else if input[0] == 0x3B then
      if |input| > 1 && input[1] == 0x3B then Fail else DecodeItems(input[1..], depth)
    else
      match DecodeValue(input, depth)
      case Fail => Fail
      case Done(v, rest) => Joined([v], DecodeItems(rest, depth))
  }

  /** Key-value pairs up to `end`. A `strict` reader takes one separator at a time; `prefix`
      goes in front of every key. */
  function DecodePairs(input: Bytes, depth: nat, end: Byte, strict: bool, prefix: Bytes): (r: Parsed<Entries>)
    ensures r.Done? ==> Consumes(r.rest, input)
    decreases |input|, 1
  {
    if input == [] then Fail
    else if input[0] == end then Done([], input[1..])
    else if input[0] == 0x3B then
      if strict && |input| > 1 && input[1] == 0x3B then Fail
      else DecodePairs(input[1..], depth, end, strict, prefix)
    else
      match NextToken(input)
      case Got(Scalar(String(key)), afterKey) =>
        (match NextToken(afterKey)
         case Got(Equals, afterEquals) =>
           (match DecodeValue(afterEquals, depth)
            case Fail => Fail
            case Done(v, rest) =>
              Joined([Entry(prefix + key, v)], DecodePairs(rest, depth, end, strict, prefix)))
         case _ => Fail)
      case _ => Fail
  }

  /** `from_slice`: one value and nothing behind it. */
  function FromSlice(input: Bytes): Option<Value> {
    match DecodeValue(input, 0)
    case Done(v, rest) => if rest == [] then Some(v) else None
    case Fail => None
  }

  // ---------------------------------------------------------------- what a written value reads as

  /** A value as the client can hold it: numbers of 64 bits, keys in order. */
  predicate WellFormed(v: Value)
    decreases v, 1
  {
    && (v.attributes.Present? ==> WellFormedEntries(v.attributes.entries))
    && WellFormedNode(v.node)
  }

  predicate WellFormedNode(node: Node)
    decreases node, 1
  {
    match node
    case Int64(i) => -(I64 as int) <= i < I64
    case Uint64(u) => u < U64
    case Double(bits) => |bits| == 8
    case String(bytes) => |bytes| < I64
    case List(items) => WellFormedItems(items)
    case Map(entries) => WellFormedEntries(entries)
    case _ => true
  }

  predicate WellFormedItems(items: seq<Value>)
    decreases items, 0
  {
    forall i :: 0 <= i < |items| ==> WellFormed(items[i])
  }

  predicate WellFormedEntries(entries: Entries)
    decreases entries, 0
  {
    && Sorted(entries)
    && forall i :: 0 <= i < |entries| ==> |entries[i].key| < I64 && WellFormed(entries[i].value)
  }

  /** The value that reading a written value gives, or none where reading fails: at `depth`
      containers down, with an attributed value presented flat. */
  function Norm(v: Value, depth: nat): Option<Value>
    decreases v, 1
  {
    if v.attributes.Present? && v.attributes.entries != [] then
      if depth + 1 > MAX_DEPTH then None
      else
        match NormEntries(v.attributes.entries, depth + 1, [0x40])
        case None => None
        case Some(attributes) =>
          match NormBody(v.node, depth + 1)
          case None => None
          case Some(pairs) => Build(attributes + pairs)
    else NormNode(v.node, depth)
  }

  function NormBody(node: Node, depth: nat): Option<Entries>
    decreases node, 2
  {
    match node
    case Entity => Some([])
    case Map(entries) => NormEntries(entries, depth, [])
    case _ =>
      match NormNode(node, depth)
      case None => None
      case Some(v) => Some([Entry(VALUE_KEY, v)])
  }

  function NormNode(node: Node, depth: nat): Option<Value>
    decreases node, 1
  {
    match node
    case List(items) =>
      if depth + 1 > MAX_DEPTH then None
      else
        (match NormItems(items, depth + 1)
         case None => None
         case Some(ws) => Some(Value(Absent, List(ws))))
    case Map(entries) =>
      if depth + 1 > MAX_DEPTH then None
      else
        (match NormEntries(entries, depth + 1, [])
         case None => None
         case Some(pairs) => Build(pairs))
    case _ => Some(Value(Absent, node))
  }

  function NormItems(items: seq<Value>, depth: nat): Option<seq<Value>>
    decreases items, 0
  {
    if items == [] then Some([])
    else
      match (Norm(items[0], depth), NormItems(items[1..], depth))
      case (Some(w), Some(ws)) => Some([w] + ws)
      case _ => None
  }

  function NormEntries(entries: Entries, depth: nat, prefix: Bytes): Option<Entries>
    decreases entries, 0
  {
    if entries == [] then Some([])
    else
      match (Norm(entries[0].value, depth), NormEntries(entries[1..], depth, prefix))
      case (Some(w), Some(ws)) => Some([Entry(prefix + entries[0].key, w)] + ws)
      case _ => None
  }
}
