/** An error document arrives as JSON in a header and as YSON in a body, and three copies of one
    walk turn it into a line. */
module ErrorTrees {
  import opened Text
  import opened Yson
  import opened Failures
  import Utf8

  /** One field of a dict, or nothing where it is not a dict. */
  function Find(entries: Entries, key: Bytes): (r: Option<Value>)
    ensures r.Some? ==> exists i :: 0 <= i < |entries| && entries[i].key == key && entries[i].value == r.value
    ensures r.None? ==> forall i :: 0 <= i < |entries| ==> entries[i].key != key
  {
    if entries == [] then None
    else if entries[0].key == key then Some(entries[0].value)
    else Find(entries[1..], key)
  }

  function Field(value: Value, key: string): (r: Option<Value>)
    ensures r.Some? ==> r.value < value
  {
    if value.node.Map? then Find(value.node.entries, Utf8.Encode(key)) else None
  }

  /** The items of a list under `inner_errors`. */
  function Nested(value: Value): (r: seq<Value>)
    ensures forall i :: 0 <= i < |r| ==> r[i] < value
  {
    match Field(value, "inner_errors")
    case Some(inner) => if inner.node.List? then inner.node.items else []
    case None => []
  }

  /** How one of the two YSON walks reads a string: `as_str`, or lossily. */
  type Reading = Bytes -> Option<string>

  function AsStr(bytes: Bytes): Option<string> { Utf8.Decode(bytes) }

  /** A reading that answers for every text with that text. */
  ghost predicate ReadsText(reading: Reading) {
    forall text: string :: reading(Utf8.Encode(text)) == Some(text)
  }

  function MessageIn(value: Value, reading: Reading): Option<string> {
    match Field(value, "message")
    case Some(Value(_, String(bytes))) => reading(bytes)
    case _ => None
  }

  /** `innermost_message` of `batch.rs` under `AsStr`, and of `jobs.rs` under a lossy reading. */
  function InnermostIn(value: Value, reading: Reading): Option<string>
    decreases value
  {
    var inner := Nested(value);
    if inner == [] then None
    else
      match InnermostIn(inner[0], reading)
      case Some(message) => Some(message)
      case None => MessageIn(inner[0], reading)
  }

  /** An outer message and the cause behind it. */
  function WithCause(outer: string, inner: Option<string>): string {
    if inner.Some? && inner.value != outer then outer + ": " + inner.value else outer
  }

  datatype Told = Told(code: int, message: string)

  function OrElse<T>(value: Option<T>, default: T): T {
    if value.Some? then value.value else default
  }

  /** `from_yt_error` of a document that parsed. */
  function FromYtError(document: Json): Told {
    Told(OrElse(CodeOf(document), -1), WithCause(OrElse(MessageOf(document), "(no message)"), InnermostMessage(document)))
  }

  function CodeIn(value: Value): Option<int> {
    match Field(value, "code")
    case Some(Value(_, Int64(n))) => Some(n)
    case _ => None
  }

  /** `part_error`. */
  function PartError(document: Value): Told {
    Told(OrElse(CodeIn(document), -1), WithCause(OrElse(MessageIn(document, AsStr), "(no message)"), InnermostIn(document, AsStr)))
  }

  /** `error_summary`. */
  function ErrorSummary(document: Value, lossy: Reading): Option<string> {
    match MessageIn(document, lossy)
    case None => None
    case Some(top) => Some(WithCause(top, InnermostIn(document, lossy)))
  }

  // ---------------------------------------------------------------- one document, two notations

  /** A key of one dict under its other spelling. */
  predicate Spelled(fields: map<string, Json>, key: Bytes) {
    exists name :: name in fields && Utf8.Encode(name) == key
  }

  /** The same document in JSON and in YSON; attributes are YSON's alone. */
  ghost predicate Same(j: Json, y: Value)
    decreases j
  {
    match j
    case Null => y.node.Entity?
    case Bool(flag) => y.node == Boolean(flag)
    case Int(number) => I64_MIN <= number <= I64_MAX && y.node == Int64(number)
    case OtherNumber => y.node.Uint64? || y.node.Double?
    case Str(text) => y.node == String(Utf8.Encode(text))
    case Array(items) =>
      && y.node.List? && |y.node.items| == |items|
      && forall i :: 0 <= i < |items| ==> Same(items[i], y.node.items[i])
    case Object(fields) =>
      && y.node.Map?
      && (forall name :: name in fields ==> Field(y, name).Some? && Same(fields[name], Field(y, name).value))
      && (forall i :: 0 <= i < |y.node.entries| ==> Spelled(fields, y.node.entries[i].key))
  }

  /** Both notations have the same fields. */
  lemma SameFields(j: Json, y: Value, name: string)
    requires Same(j, y)
    ensures Get(j, name).Some? <==> Field(y, name).Some?
    ensures Get(j, name).Some? ==> Same(Get(j, name).value, Field(y, name).value)
  {
    hide Utf8.Encode, Utf8.Decode;
    if j.Object? && Field(y, name).Some? {
      var i :| 0 <= i < |y.node.entries| && y.node.entries[i].key == Utf8.Encode(name);
      var other :| other in j.fields && Utf8.Encode(other) == Utf8.Encode(name);
      Utf8.DecodeEncode(name);
      Utf8.DecodeEncode(other);
    }
  }

  /** What the two walks read off one value. */
  lemma SameKind(j: Json, y: Value)
    requires Same(j, y)
    ensures j.Str? <==> y.node.String?
    ensures j.Str? ==> y.node == String(Utf8.Encode(j.text))
    ensures AsI64(j).Some? <==> y.node.Int64?
    ensures AsI64(j).Some? ==> y.node == Int64(AsI64(j).value)
    ensures j.Array? <==> y.node.List?
    ensures j.Array? ==> |j.items| == |y.node.items| && forall i :: 0 <= i < |j.items| ==> Same(j.items[i], y.node.items[i])
  {
    hide Utf8.Encode, Field, Spelled;
  }

  lemma InnerErrorsAre(j: Json)
    ensures var inner := Get(j, "inner_errors");
      InnerErrors(j) == if inner.Some? && inner.value.Array? then inner.value.items else []
  {
  }

  lemma SameMessage(j: Json, y: Value, reading: Reading)
    requires Same(j, y) && ReadsText(reading)
    ensures MessageIn(y, reading) == MessageOf(j)
  {
    hide Field, Get, Same, Utf8.Encode;
    SameFields(j, y, "message");
    if Get(j, "message").Some? {
      SameKind(Get(j, "message").value, Field(y, "message").value);
    }
  }

  lemma SameNested(j: Json, y: Value)
    requires Same(j, y)
    ensures |Nested(y)| == |InnerErrors(j)|
    ensures forall i :: 0 <= i < |Nested(y)| ==> Same(InnerErrors(j)[i], Nested(y)[i])
  {
    hide Field, Get, Same, Utf8.Encode;
    SameFields(j, y, "inner_errors");
    if Get(j, "inner_errors").Some? {
      SameKind(Get(j, "inner_errors").value, Field(y, "inner_errors").value);
    }
    InnerErrorsAre(j);
  }

  lemma {:induction false} SameInnermost(j: Json, y: Value, reading: Reading)
    requires Same(j, y) && ReadsText(reading)
    ensures InnermostIn(y, reading) == InnermostMessage(j)
    decreases j
  {
    hide Same, Utf8.Encode, Field, Get;
    SameNested(j, y);
    if Nested(y) != [] {
      SameInnermost(InnerErrors(j)[0], Nested(y)[0], reading);
      SameMessage(InnerErrors(j)[0], Nested(y)[0], reading);
    }
  }

  /** One document told three ways comes to the same code and the same line, except that a
      summary of a document with no top message is no summary. */
  lemma ThreeWalksAgree(j: Json, y: Value, lossy: Reading)
    requires Same(j, y) && ReadsText(lossy)
    ensures PartError(y) == FromYtError(j)
    ensures ErrorSummary(y, lossy) == if MessageOf(j).Some? then Some(FromYtError(j).message) else None
  {
    hide Same, Utf8.Encode, Utf8.Decode;
    StrictReadsText();
    SameMessage(j, y, AsStr);
    SameMessage(j, y, lossy);
    SameInnermost(j, y, AsStr);
    SameInnermost(j, y, lossy);
    SameCode(j, y);
  }

  lemma SameCode(j: Json, y: Value)
    requires Same(j, y)
    ensures CodeIn(y) == CodeOf(j)
  {
    hide Field, Get, Same, Utf8.Encode;
    SameFields(j, y, "code");
    if Get(j, "code").Some? {
      SameKind(Get(j, "code").value, Field(y, "code").value);
    }
  }

  lemma StrictReadsText()
    ensures ReadsText(AsStr)
  {
    forall text: string ensures AsStr(Utf8.Encode(text)) == Some(text) {
      Utf8.DecodeEncode(text);
    }
  }

  /** The line never names one cause twice: it is the top message alone, or that and a different
      one from the deepest document on the first-child chain that has any. */
  lemma LineIsTopAndCause(j: Json)
    ensures FromYtError(j).code == if CodeOf(j).Some? then CodeOf(j).value else -1
    ensures var deepest := LastMessage(FirstChain(j));
      var top := OrElse(MessageOf(j), "(no message)");
      FromYtError(j).message == (if deepest.Some? && deepest.value != top then top + ": " + deepest.value else top)
  {
    InnermostIsDeepest(j);
  }

  // ---------------------------------------------------------------- when the two YSON walks agree

  /** What a lossy reading shows for bytes that are not text. */
  const REPLACEMENT: char := '\U{FFFD}'

  /** A reading that answers every string: with its text where it is one, and otherwise with
      something that holds the replacement character. */
  ghost predicate MarksLosses(lossy: Reading) {
    forall bytes: Bytes :: lossy(bytes).Some? &&
      if Utf8.Valid(bytes) then lossy(bytes) == Utf8.Decode(bytes) else REPLACEMENT in lossy(bytes).value
  }

  /** There are such readings. */
  function Crudely(bytes: Bytes): Option<string> {
    if Utf8.Valid(bytes) then Utf8.Decode(bytes) else Some([REPLACEMENT])
  }

  lemma CrudelyMarksLosses()
    ensures MarksLosses(Crudely)
  {
    hide Utf8.Decode;
  }

  /** A document, its first inner error, that one's first, and so on down. */
  function Chain(value: Value): (r: seq<Value>)
    ensures r != [] && r[0] == value
    decreases value
  {
    var inner := Nested(value);
    [value] + if inner == [] then [] else Chain(inner[0])
  }

  /** The string under `message`, text or not. */
  function MessageBytes(value: Value): Option<Bytes> {
    match Field(value, "message")
    case Some(Value(_, String(bytes))) => Some(bytes)
    case _ => None
  }

  function Deepest(chain: seq<Value>): Option<Bytes> {
    if chain == [] then None
    else
      match Deepest(chain[1..])
      case Some(bytes) => Some(bytes)
      case None => MessageBytes(chain[0])
  }

  /** The walk on a chain. */
  function LastIn(chain: seq<Value>, reading: Reading): Option<string> {
    if chain == [] then None
    else
      match LastIn(chain[1..], reading)
      case Some(message) => Some(message)
      case None => MessageIn(chain[0], reading)
  }

  lemma {:induction false} InnermostIsLast(value: Value, reading: Reading)
    ensures InnermostIn(value, reading) == LastIn(Chain(value)[1..], reading)
    decreases value
  {
    hide Nested, MessageIn;
    var inner := Nested(value);
    if inner != [] {
      InnermostIsLast(inner[0], reading);
      assert Chain(value)[1..] == Chain(inner[0]);
      assert Chain(inner[0]) == [inner[0]] + Chain(inner[0])[1..];
    } else {
      assert Chain(value)[1..] == [];
    }
  }

  /** No message that is text holds the replacement character itself. */
  ghost predicate Unmarked(chain: seq<Value>) {
    forall i :: 0 <= i < |chain| && MessageIn(chain[i], AsStr).Some? ==> REPLACEMENT !in MessageIn(chain[i], AsStr).value
  }

  predicate IsText(message: Option<Bytes>) {
    message.Some? ==> Utf8.Valid(message.value)
  }

  lemma TwoReadings(value: Value, lossy: Reading)
    requires MarksLosses(lossy)
    ensures MessageIn(value, AsStr) == if MessageBytes(value).Some? && IsText(MessageBytes(value)) then MessageIn(value, lossy) else None
    ensures MessageIn(value, lossy).Some? <==> MessageBytes(value).Some?
    ensures MessageBytes(value).Some? ==> MessageIn(value, AsStr) == Utf8.Decode(MessageBytes(value).value)
    ensures !IsText(MessageBytes(value)) ==> REPLACEMENT in MessageIn(value, lossy).value
  {
    hide Field, Utf8.Decode;
  }

  /** Down a chain, the lossy walk shows the deepest string, and the strict one another text. */
  lemma {:induction false} WalksOnChain(chain: seq<Value>, lossy: Reading)
    requires MarksLosses(lossy) && Unmarked(chain)
    ensures LastIn(chain, lossy).Some? <==> Deepest(chain).Some?
    ensures LastIn(chain, AsStr).Some? ==> REPLACEMENT !in LastIn(chain, AsStr).value
    ensures if IsText(Deepest(chain)) then LastIn(chain, AsStr) == LastIn(chain, lossy)
      else REPLACEMENT in LastIn(chain, lossy).value
  {
    hide MessageIn, MessageBytes, IsText;
    NoneIsText();
    if chain != [] {
      var rest := chain[1..];
      assert forall i :: 0 <= i < |rest| ==> rest[i] == chain[i + 1];
      WalksOnChain(rest, lossy);
      TwoReadings(chain[0], lossy);
    }
  }

  lemma NoneIsText()
    ensures IsText(None)
  {
  }

  lemma UnmarkedBelow(chain: seq<Value>)
    requires chain != [] && Unmarked(chain)
    ensures Unmarked(chain[1..])
  {
    var rest := chain[1..];
    assert forall i :: 0 <= i < |rest| ==> rest[i] == chain[i + 1];
  }

  /** The two YSON walks are twins exactly on documents whose deepest string message below the top
      is text, or which have none. */
  lemma WalksAgreeExactlyOnText(value: Value, lossy: Reading)
    requires MarksLosses(lossy) && Unmarked(Chain(value))
    ensures InnermostIn(value, AsStr) == InnermostIn(value, lossy) <==> IsText(Deepest(Chain(value)[1..]))
  {
    hide Chain, LastIn, Deepest, IsText, Unmarked, MarksLosses;
    UnmarkedBelow(Chain(value));
    WalksOnChain(Chain(value)[1..], lossy);
    InnermostIsLast(value, AsStr);
    InnermostIsLast(value, lossy);
    NoneIsText();
  }

  /** A line tells where it came from: with the same top, two lines are the same only for the same
      cause; and it holds a character of its own only if its parts do. */
  lemma LineTells(outer: string, one: Option<string>, other: Option<string>)
    requires REPLACEMENT !in outer && (one.Some? ==> REPLACEMENT !in one.value)
    ensures REPLACEMENT !in WithCause(outer, one)
    ensures other.Some? && REPLACEMENT in other.value ==> REPLACEMENT in WithCause(outer, other)
  {
    if other.Some? && REPLACEMENT in other.value {
      var line := outer + ": " + other.value;
      var i :| 0 <= i < |other.value| && other.value[i] == REPLACEMENT;
      assert line[|outer| + 2 + i] == REPLACEMENT;
    }
  }

  lemma MarkedTop(outer: string, cause: Option<string>)
    requires REPLACEMENT in outer
    ensures REPLACEMENT in WithCause(outer, cause)
  {
  }

  lemma NoMessageIsUnmarked()
    ensures REPLACEMENT !in "(no message)"
  {
  }

  /** The lines the two make of one document are the same exactly when it has a top message and
      both that and the deepest string below it are text. */
  lemma LinesAgreeExactlyOnText(value: Value, lossy: Reading)
    requires MarksLosses(lossy) && Unmarked(Chain(value))
    ensures ErrorSummary(value, lossy) == Some(PartError(value).message) <==>
      MessageBytes(value).Some? && IsText(MessageBytes(value)) && IsText(Deepest(Chain(value)[1..]))
  {
    hide LastIn, Deepest, IsText, MarksLosses, MessageIn, MessageBytes, WithCause, InnermostIn, Chain;
    var chain := Chain(value);
    assert chain[0] == value by { HeadOfChain(value); }
    UnmarkedBelow(chain);
    WalksOnChain(chain[1..], lossy);
    InnermostIsLast(value, AsStr);
    InnermostIsLast(value, lossy);
    TwoReadings(value, lossy);
    NoMessageIsUnmarked();
    NoneIsText();
    var strict, shown := InnermostIn(value, AsStr), InnermostIn(value, lossy);
    var top := OrElse(MessageIn(value, AsStr), "(no message)");
    LineTells(top, strict, shown);
    if MessageIn(value, lossy).Some? && !IsText(MessageBytes(value)) {
      MarkedTop(MessageIn(value, lossy).value, shown);
    }
  }

  lemma HeadOfChain(value: Value)
    ensures Chain(value)[0] == value
  {
  }

  function Document(message: Bytes, inner: seq<Value>): Value {
    Value(Absent, Map([Entry(Utf8.Encode("inner_errors"), Value(Absent, List(inner))),
                       Entry(Utf8.Encode("message"), Value(Absent, String(message)))]))
  }

  lemma DocumentParts(message: Bytes, inner: seq<Value>)
    ensures MessageBytes(Document(message, inner)) == Some(message) && Nested(Document(message, inner)) == inner
  {
    hide Utf8.Encode, Utf8.Decode;
    Utf8.DecodeEncode("inner_errors");
    Utf8.DecodeEncode("message");
    var document := Document(message, inner);
    assert document.node.entries[1..][0].key == Utf8.Encode("message");
  }

  /** A document whose cause is not text: the batch drops the cause, the job shows it broken. */
  lemma BrokenMessageSplitsThem(lossy: Reading)
    requires MarksLosses(lossy)
    ensures var document := Document(Utf8.Encode("failed"), [Document([0xFF], [])]);
      && PartError(document).message == "failed"
      && ErrorSummary(document, lossy).Some? && ErrorSummary(document, lossy).value != "failed"
  {
    hide Utf8.Encode, Utf8.Decode, Field, MessageBytes, Nested, MessageIn, Document, IsText;
    var inner := Document([0xFF], []);
    var document := Document(Utf8.Encode("failed"), [inner]);
    DocumentParts([0xFF], []);
    DocumentParts(Utf8.Encode("failed"), [inner]);
    TwoReadings(document, lossy);
    TwoReadings(inner, lossy);
    Utf8.DecodeEncode("failed");
    FailedIsText();
    assert InnermostIn(inner, AsStr) == None && InnermostIn(inner, lossy) == None;
    assert InnermostIn(document, AsStr) == None && InnermostIn(document, lossy) == MessageIn(inner, lossy);
    LineTells("failed", None, MessageIn(inner, lossy));
  }

  lemma FailedIsText()
    ensures IsText(Some(Utf8.Encode("failed"))) && !IsText(Some([0xFF])) && REPLACEMENT !in "failed"
  {
    hide Utf8.Encode;
    Utf8.DecodeEncode("failed");
  }
}
