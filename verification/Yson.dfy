/** Binary YSON: the lexer, the scanner that finds where a value ends, the serializer and the
    deserializer, as functions on the bytes still to be read. */
module Yson {
  import opened Text

  type Byte = x: int | 0 <= x < 256

  type Bytes = seq<Byte>

  /** `BTreeMap<Vec<u8>, YsonValue>` as its entries in key order. */
  type Entries = seq<Entry>

  datatype Entry = Entry(key: Bytes, value: Value)

  datatype Attributes = Absent | Present(entries: Entries)

  datatype Value = Value(attributes: Attributes, node: Node)

  datatype Node =
    | Entity
    | Boolean(flag: bool)
    | Int64(int64: int)
    | Uint64(uint64: nat)
    | Double(bits: Bytes)
    | String(bytes: Bytes)
    | List(items: seq<Value>)
    | Map(entries: Entries)

  const U64: nat := 0x1_0000_0000_0000_0000

  const I64: nat := 0x8000_0000_0000_0000

  const MAX_DEPTH: nat := 128

  // ---------------------------------------------------------------- varints

  datatype Varint = Read(value: nat, rest: Bytes) | ShortInt | BadInt

  /** The seven bits of a varint byte that carry the number. */
  function LowBits(byte: Byte): (r: nat)
    ensures r < 128 && r == if byte < 128 then byte else byte - 128
  {
    byte % 128
  }

  /** The low seven bits of a number, marked as having more behind them. */
  function Continued(value: nat): (r: Byte)
    ensures r >= 128 && value == r - 128 + 128 * (value / 128)
  {
    value % 128 + 128
  }

  /** `read_uvarint` from its `index`-th byte on. */
  function ReadUvarint(input: Bytes, index: nat): (r: Varint)
    ensures r.Read? ==> |r.rest| < |input| && r.rest == input[|input| - |r.rest|..]
  {
    if input == [] then ShortInt
    else if index >= 10 then BadInt
    else
      var bits := LowBits(input[0]);
      if index == 9 && bits > 1 then BadInt
      else if input[0] < 128 then Read(bits, input[1..])
      else
        match ReadUvarint(input[1..], index + 1)
        case Read(high, rest) => Read(bits + 128 * high, rest)
        case other => other
  }

  function WriteUvarint(value: nat): (r: Bytes)
    ensures |r| >= 1
  {
    if value >= 128 then [Continued(value)] + WriteUvarint(value / 128) else [value]
  }

  /** The bits a varint may still add when its first `index` bytes are gone. */
  function Room(index: nat): nat {
    if index == 0 then U64
    else if index == 1 then 0x200_0000_0000_0000
    else if index == 2 then 0x4_0000_0000_0000
    else if index == 3 then 0x800_0000_0000
    else if index == 4 then 0x10_0000_0000
    else if index == 5 then 0x2000_0000
    else if index == 6 then 0x40_0000
    else if index == 7 then 0x8000
    else if index == 8 then 0x100
    else if index == 9 then 2
    else 0
  }

  lemma RoomShrinks(value: nat, index: nat)
    requires index <= 9 && value < Room(index)
    ensures value >= 128 ==> index < 9 && value / 128 < Room(index + 1)
    ensures index == 9 ==> value <= 1
  {
  }

  lemma ReadFirst(first: Byte, rest: Bytes, index: nat)
    requires index <= 9
    ensures first < 128 && (index == 9 ==> first <= 1) ==> ReadUvarint([first] + rest, index) == Read(first, rest)
    ensures first >= 128 && index < 9 && ReadUvarint(rest, index + 1).Read? ==>
      var tail := ReadUvarint(rest, index + 1);
      ReadUvarint([first] + rest, index) == Read(first - 128 + 128 * tail.value, tail.rest)
  {
    assert ([first] + rest)[1..] == rest;
  }

  /** Reading undoes writing, whatever follows, for every 64-bit number. */
  lemma {:induction false} ReadWriteUvarint(value: nat, index: nat, more: Bytes)
    requires index <= 9 && value < Room(index)
    ensures ReadUvarint(WriteUvarint(value) + more, index) == Read(value, more)
  {
    hide ReadUvarint, Continued;
    RoomShrinks(value, index);
    hide Room;
    if value >= 128 {
      var low, high := Continued(value), value / 128;
      ReadWriteUvarint(high, index + 1, more);
      ReadFirst(low, WriteUvarint(high) + more, index);
      assert WriteUvarint(value) + more == [low] + (WriteUvarint(high) + more);
    } else {
      ReadFirst(value, more, index);
    }
  }

  /** What is read fits in 64 bits, however many bytes spell it; eleven never do. */
  lemma {:induction false} ReadFits(input: Bytes, index: nat)
    ensures ReadUvarint(input, index).Read? ==> index < 10 && ReadUvarint(input, index).value < Room(index)
  {
    hide LowBits;
    if input != [] && index < 10 && input[0] >= 128 {
      ReadFits(input[1..], index + 1);
    }
  }

  function Zigzag(value: int): nat {
    if value >= 0 then 2 * value else -2 * value - 1
  }

  function Unzigzag(value: nat): int {
    if value % 2 == 0 then value / 2 else -(value / 2) - 1
  }

  // ---------------------------------------------------------------- tokens

  datatype Token =
    | BeginAttributes | EndAttributes | BeginList | EndList | BeginMap | EndMap
    | Equals | Separator
    | Scalar(node: Node)

  datatype Lexed = Got(token: Token, rest: Bytes) | Short | Bad

  predicate Consumes(rest: Bytes, input: Bytes) {
    |rest| < |input| && rest == input[|input| - |rest|..]
  }

  function LexString(body: Bytes): (r: Lexed)
    ensures r.Got? ==> Consumes(r.rest, [0x01] + body)
  {
    match ReadUvarint(body, 0)
    case ShortInt => Short
    case BadInt => Bad
    case Read(zigzag, rest) =>
      var length := Unzigzag(zigzag);
      if length < 0 then Bad
      else if length > |rest| then Short
      else Got(Scalar(String(rest[..length])), rest[length..])
  }

  function LexInt64(body: Bytes): (r: Lexed)
    ensures r.Got? ==> Consumes(r.rest, [0x02] + body)
  {
    match ReadUvarint(body, 0)
    case ShortInt => Short
    case BadInt => Bad
    case Read(zigzag, rest) => Got(Scalar(Int64(Unzigzag(zigzag))), rest)
  }

  function LexUint64(body: Bytes): (r: Lexed)
    ensures r.Got? ==> Consumes(r.rest, [0x06] + body)
  {
    match ReadUvarint(body, 0)
    case ShortInt => Short
    case BadInt => Bad
    case Read(value, rest) => Got(Scalar(Uint64(value)), rest)
  }

  function LexDouble(body: Bytes): (r: Lexed)
    ensures r.Got? ==> Consumes(r.rest, [0x03] + body)
  {
    if |body| < 8 then Short else Got(Scalar(Double(body[..8])), body[8..])
  }

  function NextToken(input: Bytes): (r: Lexed)
    ensures r.Got? ==> Consumes(r.rest, input)
  {
    if input == [] then Short
    else
      var marker, body := input[0], input[1..];
      assert [marker] + body == input;
      if marker == 0x01 then LexString(body)
      else if marker == 0x02 then LexInt64(body)
      else if marker == 0x03 then LexDouble(body)
      else if marker == 0x04 then Got(Scalar(Boolean(false)), body)
      else if marker == 0x05 then Got(Scalar(Boolean(true)), body)
      else if marker == 0x06 then LexUint64(body)
      else if marker == 0x23 then Got(Scalar(Entity), body)
      else if marker == 0x3C then Got(BeginAttributes, body)
      else if marker == 0x3E then Got(EndAttributes, body)
      else if marker == 0x5B then Got(BeginList, body)
      else if marker == 0x5D then Got(EndList, body)
      else if marker == 0x7B then Got(BeginMap, body)
      else if marker == 0x7D then Got(EndMap, body)
      else if marker == 0x3D then Got(Equals, body)
      else if marker == 0x3B then Got(Separator, body)
      else Bad
  }

  // ---------------------------------------------------------------- the scanner

  datatype Scanned = Complete(rest: Bytes) | Incomplete | Malformed

  /** `scan_tree`. */
  function ScanTree(input: Bytes, depth: nat): (r: Scanned)
    ensures r.Complete? ==> Consumes(r.rest, input)
    decreases |input|, 0
  {
    if depth > MAX_DEPTH then Malformed
    else
      match NextToken(input)
      case Short => Incomplete
      case Bad => Malformed
      case Got(BeginAttributes, rest) =>
        if depth + 1 > MAX_DEPTH then Malformed
        else
          (match ScanPairs(rest, depth + 1, 0x3E)
           case Complete(after) =>
             (match NextToken(after)
              case Short => Incomplete
              case Bad => Malformed
              case Got(token, body) => ScanObject(token, body, depth))
           case other => other)
      case Got(token, rest) => ScanObject(token, rest, depth)
  }

  function ScanObject(token: Token, rest: Bytes, depth: nat): (r: Scanned)
    ensures r.Complete? ==> r.rest == rest || Consumes(r.rest, rest)
    decreases |rest|, 2
  {
    match token
    case Scalar(_) => Complete(rest)
    case BeginList => if depth + 1 > MAX_DEPTH then Malformed else ScanItems(rest, depth + 1)
    case BeginMap => if depth + 1 > MAX_DEPTH then Malformed else ScanPairs(rest, depth + 1, 0x7D)
    case _ => Malformed
  }

  /** The loop of `scan_list`. */
  function ScanItems(input: Bytes, depth: nat): (r: Scanned)
    ensures r.Complete? ==> Consumes(r.rest, input)
    decreases |input|, 1
  {
    if input == [] then Incomplete
    else if input[0] == 0x5D then Complete(input[1..])
    else if input[0] == 0x3B then ScanItems(input[1..], depth)
    else
      match ScanTree(input, depth)
      case Complete(rest) => ScanItems(rest, depth)
      case other => other
  }

  /** The loop of `scan_fragment`. */
  function ScanPairs(input: Bytes, depth: nat, end: Byte): (r: Scanned)
    ensures r.Complete? ==> Consumes(r.rest, input)
    decreases |input|, 1
  {
    if input == [] then Incomplete
    else if input[0] == end then Complete(input[1..])
    else if input[0] == 0x3B then ScanPairs(input[1..], depth, end)
    else
      match NextToken(input)
      case Short => Incomplete
      case Bad => Malformed
      case Got(key, afterKey) =>
        if !(key.Scalar? && key.node.String?) then Malformed
        else
          match NextToken(afterKey)
          case Short => Incomplete
          case Bad => Malformed
          case Got(equals, afterEquals) =>
            if equals != Equals then Malformed
            else
              match ScanTree(afterEquals, depth)
              case Complete(rest) => ScanPairs(rest, depth, end)
              case other => other
  }

  // ---------------------------------------------------------------- more bytes never change a verdict

  /** A verdict reached with `more` bytes behind the input, from one reached without them. */
  function Later(r: Scanned, more: Bytes): Scanned {
    match r case Complete(rest) => Complete(rest + more) case other => other
  }

  lemma {:induction false} ReadUvarintStable(input: Bytes, index: nat, more: Bytes)
    requires !ReadUvarint(input, index).ShortInt?
    ensures ReadUvarint(input + more, index) ==
      match ReadUvarint(input, index) case Read(v, rest) => Read(v, rest + more) case other => other
  {
    hide LowBits;
    assert (input + more)[1..] == input[1..] + more;
    if index < 10 && input[0] >= 128 && !(index == 9 && LowBits(input[0]) > 1) {
      ReadUvarintStable(input[1..], index + 1, more);
    }
  }

  function LaterToken(r: Lexed, more: Bytes): Lexed {
    match r case Got(token, rest) => Got(token, rest + more) case other => other
  }

  lemma LexBodiesStable(body: Bytes, more: Bytes)
    ensures !LexString(body).Short? ==> LexString(body + more) == LaterToken(LexString(body), more)
    ensures !LexInt64(body).Short? ==> LexInt64(body + more) == LaterToken(LexInt64(body), more)
    ensures !LexUint64(body).Short? ==> LexUint64(body + more) == LaterToken(LexUint64(body), more)
    ensures !LexDouble(body).Short? ==> LexDouble(body + more) == LaterToken(LexDouble(body), more)
  {
    hide ReadUvarint, Unzigzag;
    var read := ReadUvarint(body, 0);
    if !read.ShortInt? {
      ReadUvarintStable(body, 0, more);
      if read.Read? {
        var length := Unzigzag(read.value);
        if 0 <= length <= |read.rest| {
          assert (read.rest + more)[..length] == read.rest[..length];
          assert (read.rest + more)[length..] == read.rest[length..] + more;
        }
      }
    }
    if |body| >= 8 {
      assert (body + more)[..8] == body[..8] && (body + more)[8..] == body[8..] + more;
    }
  }

  lemma NextTokenStable(input: Bytes, more: Bytes)
    requires !NextToken(input).Short?
    ensures NextToken(input + more) == LaterToken(NextToken(input), more)
  {
    hide LexString, LexInt64, LexUint64, LexDouble;
    assert (input + more)[1..] == input[1..] + more;
    LexBodiesStable(input[1..], more);
  }

  lemma {:induction false} ScanTreeStable(input: Bytes, depth: nat, more: Bytes)
    requires !ScanTree(input, depth).Incomplete?
    ensures ScanTree(input + more, depth) == Later(ScanTree(input, depth), more)
    decreases |input|, 0
  {
    hide NextToken, ScanPairs, ScanItems, ScanObject;
    if depth <= MAX_DEPTH {
      NextTokenStable(input, more);
      match NextToken(input) {
        case Got(BeginAttributes, rest) =>
          if depth + 1 <= MAX_DEPTH {
            ScanPairsStable(rest, depth + 1, 0x3E, more);
            match ScanPairs(rest, depth + 1, 0x3E) {
              case Complete(after) =>
                NextTokenStable(after, more);
                match NextToken(after) {
                  case Got(token, body) => ScanObjectStable(token, body, depth, more);
                  case _ =>
                }
              case _ =>
            }
          }
        case Got(token, rest) => ScanObjectStable(token, rest, depth, more);
        case _ =>
      }
    }
  }

  lemma {:induction false} ScanObjectStable(token: Token, rest: Bytes, depth: nat, more: Bytes)
    requires !ScanObject(token, rest, depth).Incomplete?
    ensures ScanObject(token, rest + more, depth) == Later(ScanObject(token, rest, depth), more)
    decreases |rest|, 2
  {
    hide ScanItems, ScanPairs;
    if depth + 1 <= MAX_DEPTH {
      match token {
        case BeginList => ScanItemsStable(rest, depth + 1, more);
        case BeginMap => ScanPairsStable(rest, depth + 1, 0x7D, more);
        case _ =>
      }
    }
  }

  lemma {:induction false} ScanItemsStable(input: Bytes, depth: nat, more: Bytes)
    requires !ScanItems(input, depth).Incomplete?
    ensures ScanItems(input + more, depth) == Later(ScanItems(input, depth), more)
    decreases |input|, 1
  {
    hide ScanTree;
    assert (input + more)[1..] == input[1..] + more;
    if input[0] == 0x3B {
      ScanItemsStable(input[1..], depth, more);
    } else if input[0] != 0x5D {
      ScanTreeStable(input, depth, more);
      match ScanTree(input, depth) {
        case Complete(rest) => ScanItemsStable(rest, depth, more);
        case _ =>
      }
    }
  }

  lemma {:induction false} ScanPairsStable(input: Bytes, depth: nat, end: Byte, more: Bytes)
    requires !ScanPairs(input, depth, end).Incomplete?
    ensures ScanPairs(input + more, depth, end) == Later(ScanPairs(input, depth, end), more)
    decreases |input|, 1
  {
    hide NextToken, ScanTree;
    assert (input + more)[1..] == input[1..] + more;
    if input[0] == end {
    } else if input[0] == 0x3B {
      ScanPairsStable(input[1..], depth, end, more);
    } else {
      NextTokenStable(input, more);
      match NextToken(input) {
        case Got(Scalar(String(_)), afterKey) =>
          NextTokenStable(afterKey, more);
          match NextToken(afterKey) {
            case Got(Equals, afterEquals) =>
              ScanTreeStable(afterEquals, depth, more);
              match ScanTree(afterEquals, depth) {
                case Complete(rest) => ScanPairsStable(rest, depth, end, more);
                case _ =>
              }
            case _ =>
          }
        case _ =>
      }
    }
  }
}
