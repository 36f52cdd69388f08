/** What a command can fail with, and the three questions the client asks of a failure:
    is it worth repeating, is it worth asking the cluster again, is the host to blame. */
module Failures {
  import opened Text

  /** A JSON document. A number is kept only when it is one `as_i64` can answer with. */
  datatype Json =
    | Null
    | Bool(flag: bool)
    | Int(number: int)
    | OtherNumber
    | Str(text: string)
    | Array(items: seq<Json>)
    | Object(fields: map<string, Json>)

  function Get(value: Json, key: string): Option<Json> {
    if value.Object? && key in value.fields then Some(value.fields[key]) else None
  }

  const I64_MIN: int := -0x8000_0000_0000_0000
  const I64_MAX: int := 0x7fff_ffff_ffff_ffff

  function AsI64(value: Json): Option<int> {
    if value.Int? && I64_MIN <= value.number <= I64_MAX then Some(value.number) else None
  }

  /** The code a document carries at its top. */
  function CodeOf(value: Json): Option<int> {
    match Get(value, "code")
    case Some(code) => AsI64(code)
    case None => None
  }

  /** The documents nested directly under one. */
  function InnerErrors(value: Json): (r: seq<Json>)
    ensures forall i :: 0 <= i < |r| ==> r[i] < value
  {
    if value.Object? && "inner_errors" in value.fields then
      var inner := value.fields["inner_errors"];
      if inner.Array? then inner.items else []
    else []
  }

  predicate ContainsCode(value: Json, wanted: set<int>)
    decreases value
  {
    var code := CodeOf(value);
    || (code.Some? && code.value in wanted)
    || exists i :: 0 <= i < |InnerErrors(value)| && ContainsCode(InnerErrors(value)[i], wanted)
  }

  /** The document reached from `value` by taking inner errors by position. */
  function At(value: Json, path: seq<nat>): Option<Json>
    decreases |path|
  {
    if path == [] then Some(value)
    else if path[0] < |InnerErrors(value)| then At(InnerErrors(value)[path[0]], path[1..])
    else None
  }

  predicate CarriesAt(value: Json, path: seq<nat>, wanted: set<int>) {
    var node := At(value, path);
    node.Some? && CodeOf(node.value).Some? && CodeOf(node.value).value in wanted
  }

  /** The walk finds a wanted code exactly when some document reachable through inner errors,
      at any depth, carries one. */
  lemma {:induction false} ContainsCodeIsReachability(value: Json, wanted: set<int>)
    ensures ContainsCode(value, wanted) <==> exists path :: CarriesAt(value, path, wanted)
    decreases value
  {
    var inner := InnerErrors(value);
    if CarriesAt(value, [], wanted) {
    } else if ContainsCode(value, wanted) {
      var i :| 0 <= i < |inner| && ContainsCode(inner[i], wanted);
      ContainsCodeIsReachability(inner[i], wanted);
      var path :| CarriesAt(inner[i], path, wanted);
      assert ([i] + path)[1..] == path;
      assert CarriesAt(value, [i] + path, wanted);
    } else if path :| CarriesAt(value, path, wanted) {
      ContainsCodeIsReachability(inner[path[0]], wanted);
      assert CarriesAt(inner[path[0]], path[1..], wanted);
    }
  }

  // ---------------------------------------------------------------- failures

  const RETRIABLE_CODES: set<int> := {3, 100, 105, 108, 904, 2100}

  const RETRIABLE_STATUSES: set<int> := {429, 500, 502, 503, 504}

  /** `settled` marks a certificate rejection that this client's configuration decided. A
      cluster error keeps its document when that parses, and whether its message is a control
      proxy's refusal of heavy work. */
  datatype ClientError =
    | Transport(settled: bool)
    | Http(status: int)
    | Cluster(code: int, document: Option<Json>, controlRefusal: bool)
    | Redirected(refusal: Refusal)
    | ResponseTooLarge(limit: nat)
    | Decode
    | Config

  datatype Refusal = Credentials | Body | Payload | TooMany

  predicate IsRetriable(error: ClientError) {
    match error
    case Transport(settled) => !settled
    case Http(status) => status in RETRIABLE_STATUSES
    case Cluster(code, document, _) =>
      code in RETRIABLE_CODES || (document.Some? && ContainsCode(document.value, RETRIABLE_CODES))
    case _ => false
  }

  predicate WorthAskingAgain(error: ClientError) {
    IsRetriable(error) || (error.Cluster? && error.controlRefusal) || error.Redirected?
  }

  predicate AttributableToTheHost(error: ClientError) {
    (error.Transport? && error.settled) || WorthAskingAgain(error)
  }

  /** A failure that will pass: an answer that never came, save where the certificate was refused
      for good; a busy or failing server; or one of the cluster's own codes for either, at the top
      of its document or anywhere below. */
  ghost predicate Passing(error: ClientError) {
    match error
    case Transport(settled) => !settled
    case Http(status) => status == 429 || status == 500 || status == 502 || status == 503 || status == 504
    case Cluster(code, document, _) =>
      || code in {3, 100, 105, 108, 904, 2100}
      || (document.Some? && exists path :: CarriesAt(document.value, path, {3, 100, 105, 108, 904, 2100}))
    case _ => false
  }

  /** A failure another proxy might not give: one that will pass, a control proxy's refusal of
      heavy work, or a redirect that was refused. */
  ghost predicate WrongAddress(error: ClientError) {
    Passing(error) || (error.Cluster? && error.controlRefusal) || error.Redirected?
  }

  /** What each question comes to, for every failure there is. */
  lemma QuestionsExactly(error: ClientError)
    ensures IsRetriable(error) <==> Passing(error)
    ensures WorthAskingAgain(error) <==> WrongAddress(error)
    ensures AttributableToTheHost(error) <==> error.Transport? || WrongAddress(error)
  {
    hide ContainsCode, CarriesAt;
    if error.Cluster? && error.document.Some? {
      ContainsCodeIsReachability(error.document.value, RETRIABLE_CODES);
    }
  }

  /** `Request retries failed` around a banned proxy is worth repeating, and a resolve error is not. */
  lemma WrappedCodeIsFound()
    ensures var banned := Object(map["code" := Int(2100)]);
      var document := Object(map["code" := Int(1), "inner_errors" := Array([Object(map[]), banned])]);
      Passing(Cluster(1, Some(document), false))
    ensures !Passing(Cluster(500, Some(Object(map["code" := Int(500)])), false))
  {
    var banned := Object(map["code" := Int(2100)]);
    var document := Object(map["code" := Int(1), "inner_errors" := Array([Object(map[]), banned])]);
    assert [1][1..] == [];
    assert At(banned, []) == Some(banned);
    assert InnerErrors(document)[1] == banned;
    assert At(document, [1]) == Some(banned);
    assert CarriesAt(document, [1], {3, 100, 105, 108, 904, 2100});
    var plain := Object(map["code" := Int(500)]);
    assert InnerErrors(plain) == [];
    ContainsCodeIsReachability(plain, {3, 100, 105, 108, 904, 2100});
  }

  /** A cluster's failure is worth repeating exactly when a code that says so is its own or stands
      anywhere in its document, however deep in inner errors. */
  lemma RetriableIsReachable(code: int, document: Json, controlRefusal: bool)
    ensures IsRetriable(Cluster(code, Some(document), controlRefusal)) <==>
      code in RETRIABLE_CODES || exists path :: CarriesAt(document, path, RETRIABLE_CODES)
  {
    hide ContainsCode, CarriesAt;
    ContainsCodeIsReachability(document, RETRIABLE_CODES);
  }

  /** So an error wrapped in another keeps its say, whatever the wrapper's own code. */
  lemma WrappingKeepsRetriable(code: int, outer: Json, i: nat, inner: Json, controlRefusal: bool)
    requires i < |InnerErrors(outer)| && InnerErrors(outer)[i] == inner && ContainsCode(inner, RETRIABLE_CODES)
    ensures IsRetriable(Cluster(code, Some(outer), controlRefusal))
  {
  }

  /** The three questions widen in turn. Asking again adds to retrying exactly the failures
      about the addressee; blaming the host adds to those exactly the settled certificate
      rejections, so every transport failure is the host's. */
  lemma QuestionsWiden(error: ClientError)
    ensures IsRetriable(error) ==> WorthAskingAgain(error)
    ensures WorthAskingAgain(error) ==> AttributableToTheHost(error)
    ensures WorthAskingAgain(error) && !IsRetriable(error) ==> error.Redirected? || (error.Cluster? && error.controlRefusal)
    ensures AttributableToTheHost(error) && !WorthAskingAgain(error) <==> error == Transport(true)
    ensures error.Transport? ==> AttributableToTheHost(error)
    ensures error.ResponseTooLarge? || error.Decode? || error.Config? ==> !AttributableToTheHost(error)
  {
  }

  // ---------------------------------------------------------------- the cause of a failure

  function MessageOf(value: Json): Option<string> {
    match Get(value, "message")
    case Some(Str(text)) => Some(text)
    case _ => None
  }

  function InnermostMessage(value: Json): Option<string>
    decreases value
  {
    var inner := InnerErrors(value);
    if inner == [] then None
    else
      match InnermostMessage(inner[0])
      case Some(message) => Some(message)
      case None => MessageOf(inner[0])
  }

  /** The first inner error, its first inner error, and so on down. */
  function FirstChain(value: Json): (r: seq<Json>)
    decreases value
  {
    var inner := InnerErrors(value);
    if inner == [] then [] else [inner[0]] + FirstChain(inner[0])
  }

  predicate SilentFrom(chain: seq<Json>, start: nat) {
    forall j :: start <= j < |chain| ==> MessageOf(chain[j]).None?
  }

  /** The message of the last document in a chain that has one. */
  function LastMessage(chain: seq<Json>): (r: Option<string>)
    ensures r.None? ==> forall i :: 0 <= i < |chain| ==> MessageOf(chain[i]).None?
    ensures r.Some? ==> exists i :: 0 <= i < |chain| && MessageOf(chain[i]) == r && SilentFrom(chain, i + 1)
  {
    if chain == [] then None
    else
      var last := |chain| - 1;
      if MessageOf(chain[last]).Some? then MessageOf(chain[last]) else LastMessage(chain[..last])
  }

  lemma {:induction false} LastMessageCons(first: Json, rest: seq<Json>)
    ensures LastMessage([first] + rest) ==
      if LastMessage(rest).Some? then LastMessage(rest) else MessageOf(first)
  {
    hide MessageOf;
    if rest != [] {
      var last := |rest| - 1;
      assert ([first] + rest)[..last + 1] == [first] + rest[..last];
      LastMessageCons(first, rest[..last]);
    }
  }

  /** The innermost message is that of the deepest document on the first-child chain below the
      root that has one, and is missing only when none of them has. */
  lemma {:induction false} InnermostIsDeepest(value: Json)
    ensures InnermostMessage(value) == LastMessage(FirstChain(value))
    decreases value
  {
    var inner := InnerErrors(value);
    if inner != [] {
      InnermostIsDeepest(inner[0]);
      LastMessageCons(inner[0], FirstChain(inner[0]));
    }
  }
}
