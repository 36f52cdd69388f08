/** Reading back what the serializer wrote: the deserializer undoes it up to the normal form,
    and the scanner finds its end. */
module YsonRoundTrip {
  import opened Text
  import opened Yson
  import opened YsonCodec

  lemma ZigzagFits(value: int)
    requires -(I64 as int) <= value < I64
    ensures Zigzag(value) < U64 && Unzigzag(Zigzag(value)) == value
  {
  }

  lemma LexWritten(bytes: Bytes, more: Bytes)
    requires |bytes| < I64
    ensures LexString(WriteUvarint(Zigzag(|bytes|)) + (bytes + more)) == Got(Scalar(String(bytes)), more)
  {
    ZigzagFits(|bytes|);
    ReadWriteUvarint(Zigzag(|bytes|), 0, bytes + more);
    hide ReadUvarint, WriteUvarint, Zigzag, Unzigzag;
    assert (bytes + more)[..|bytes|] == bytes && (bytes + more)[|bytes|..] == more;
  }

  lemma StringToken(bytes: Bytes, more: Bytes)
    requires |bytes| < I64
    ensures NextToken(EncodeString(bytes) + more) == Got(Scalar(String(bytes)), more)
  {
    LexWritten(bytes, more);
    hide LexString, WriteUvarint, Zigzag, NextToken;
    var length := WriteUvarint(Zigzag(|bytes|));
    Regroup([0x01], length, bytes, more);
    StringMarker(length + (bytes + more));
  }

  lemma Regroup(a: Bytes, b: Bytes, c: Bytes, d: Bytes)
    ensures a + b + c + d == a + (b + (c + d))
  {
  }

  lemma StringMarker(body: Bytes)
    ensures NextToken([0x01] + body) == LexString(body)
  {
    hide LexString;
    assert ([0x01] + body)[1..] == body;
  }

  predicate IsScalar(node: Node) {
    !node.List? && !node.Map?
  }

  lemma ScalarToken(node: Node, more: Bytes)
    requires IsScalar(node) && WellFormedNode(node)
    ensures NextToken(EncodeNode(node) + more) == Got(Scalar(node), more)
  {
    if node.Int64? {
      Int64Token(node.int64, more);
    } else if node.Uint64? {
      Uint64Token(node.uint64, more);
    } else if node.Double? {
      DoubleToken(node.bits, more);
    } else if node.String? {
      StringToken(node.bytes, more);
    } else {
      hide LexString, LexInt64, LexUint64, LexDouble, EncodeString, WriteUvarint;
      assert (EncodeNode(node) + more)[1..] == more;
    }
  }

  lemma DoubleToken(bits: Bytes, more: Bytes)
    requires |bits| == 8
    ensures NextToken(EncodeNode(Double(bits)) + more) == Got(Scalar(Double(bits)), more)
  {
    hide LexString, LexInt64, LexUint64, EncodeString, WriteUvarint;
    assert ([0x03] + bits + more)[1..] == bits + more;
    assert (bits + more)[..8] == bits && (bits + more)[8..] == more;
  }

  lemma NumberMarker(body: Bytes)
    ensures NextToken([0x02] + body) == LexInt64(body) && NextToken([0x06] + body) == LexUint64(body)
  {
    hide LexString, LexInt64, LexUint64, LexDouble;
    assert ([0x02] + body)[1..] == body && ([0x06] + body)[1..] == body;
  }

  lemma LexNumbersWritten(i: int, u: nat, more: Bytes)
    ensures -(I64 as int) <= i < I64 ==> LexInt64(WriteUvarint(Zigzag(i)) + more) == Got(Scalar(Int64(i)), more)
    ensures u < U64 ==> LexUint64(WriteUvarint(u) + more) == Got(Scalar(Uint64(u)), more)
  {
    if -(I64 as int) <= i < I64 {
      ZigzagFits(i);
      ReadWriteUvarint(Zigzag(i), 0, more);
    }
    if u < U64 { ReadWriteUvarint(u, 0, more); }
    hide ReadUvarint, WriteUvarint, Zigzag, Unzigzag;
  }

  lemma Int64Token(i: int, more: Bytes)
    requires -(I64 as int) <= i < I64
    ensures NextToken(EncodeNode(Int64(i)) + more) == Got(Scalar(Int64(i)), more)
  {
    hide WriteUvarint, Zigzag, NextToken, LexInt64, LexUint64;
    var written := WriteUvarint(Zigzag(i));
    LexNumbersWritten(i, 0, more);
    NumberMarker(written + more);
    Regroup([0x02], written, [], more);
    assert [0x02] + written + [] == [0x02] + written && [] + more == more;
  }

  lemma Uint64Token(u: nat, more: Bytes)
    requires u < U64
    ensures NextToken(EncodeNode(Uint64(u)) + more) == Got(Scalar(Uint64(u)), more)
  {
    hide WriteUvarint, NextToken, LexInt64, LexUint64;
    var written := WriteUvarint(u);
    LexNumbersWritten(0, u, more);
    NumberMarker(written + more);
    Regroup([0x06], written, [], more);
    assert [0x06] + written + [] == [0x06] + written && [] + more == more;
  }

  /** The byte a written node starts with. */
  function Marker(node: Node): Byte {
    match node
    case Entity => 0x23
    case Boolean(flag) => if flag then 0x05 else 0x04
    case Int64(_) => 0x02
    case Uint64(_) => 0x06
    case Double(_) => 0x03
    case String(_) => 0x01
    case List(_) => 0x5B
    case Map(_) => 0x7B
  }

  lemma NodeMarker(node: Node)
    ensures EncodeNode(node) != [] && EncodeNode(node)[0] == Marker(node)
  {
  }

  lemma ValueMarker(v: Value)
    ensures EncodeValue(v) != [] && EncodeValue(v)[0] !in {0x3B, 0x3E, 0x5D, 0x7D}
  {
    hide EncodeNode;
    NodeMarker(v.node);
  }

  // ---------------------------------------------------------------- the deserializer, step by step

  lemma ReadAttributed(body: Bytes, depth: nat)
    ensures depth + 1 > MAX_DEPTH ==> DecodeValue([0x3C] + body, depth) == Fail
    ensures depth + 1 <= MAX_DEPTH ==>
      var attributes := DecodePairs(body, depth + 1, 0x3E, false, [0x40]);
      DecodeValue([0x3C] + body, depth) ==
        if attributes.Fail? then Fail
        else Built(Joined(attributes.value, DecodeBody(attributes.rest, depth + 1)))
  {
    hide DecodePairs, DecodeBody, Built, Joined;
    assert ([0x3C] + body)[1..] == body;
  }

  lemma ReadList(body: Bytes, depth: nat)
    ensures DecodeValue([0x5B] + body, depth) ==
      if depth + 1 > MAX_DEPTH then Fail else Listed(DecodeItems(body, depth + 1))
  {
    hide DecodePairs, DecodeBody, DecodeItems, Built, Listed;
    assert ([0x5B] + body)[1..] == body;
  }

  lemma ReadMap(body: Bytes, depth: nat)
    ensures DecodeValue([0x7B] + body, depth) ==
      if depth + 1 > MAX_DEPTH then Fail else Built(DecodePairs(body, depth + 1, 0x7D, true, []))
  {
    hide DecodePairs, DecodeBody, DecodeItems, Built, Listed;
    assert ([0x7B] + body)[1..] == body;
  }

  lemma ReadPair(input: Bytes, depth: nat, end: Byte, strict: bool, prefix: Bytes, key: Bytes, afterKey: Bytes, value: Bytes)
    requires input != [] && input[0] == 0x01 && end in {0x3E, 0x7D}
    requires NextToken(input) == Got(Scalar(String(key)), afterKey) && NextToken(afterKey) == Got(Equals, value)
    ensures var read := DecodeValue(value, depth);
      DecodePairs(input, depth, end, strict, prefix) ==
        if read.Fail? then Fail
        else Joined([Entry(prefix + key, read.value)], DecodePairs(read.rest, depth, end, strict, prefix))
  {
    hide DecodeValue, NextToken, Joined;
  }

  /** A separator before a key is skipped, strictly or not. */
  lemma SkipSeparator(tail: Bytes, depth: nat, end: Byte, strict: bool, prefix: Bytes)
    requires tail != [] && tail[0] == 0x01 && end in {0x3E, 0x7D}
    ensures DecodePairs([0x3B] + tail, depth, end, strict, prefix) == DecodePairs(tail, depth, end, strict, prefix)
  {
    hide DecodeValue, NextToken;
    assert ([0x3B] + tail)[1..] == tail;
  }

  // ---------------------------------------------------------------- the deserializer undoes the serializer

  /** Reading a written value gives its normal form, whatever follows it. */
  lemma {:induction false} DecodeEncoded(v: Value, depth: nat, more: Bytes)
    requires WellFormed(v)
    ensures DecodeValue(EncodeValue(v) + more, depth) == AsParsed(Norm(v, depth), more)
    decreases v, 1
  {
    hide DecodeValue, DecodePairs, DecodeBody, EncodeNode, EncodeEntries, NormEntries, NormBody, NormNode, Build;
    if v.attributes.Present? && v.attributes.entries != [] {
      var entries, node := v.attributes.entries, EncodeNode(v.node);
      var body := EncodeEntries(entries) + [0x3E] + (node + more);
      assert EncodeValue(v) + more == [0x3C] + body;
      ReadAttributed(body, depth);
      if depth + 1 <= MAX_DEPTH {
        EntriesEncoded(entries, depth + 1, 0x3E, false, [0x40], node + more);
        BodyEncoded(v.node, depth + 1, more);
      }
    } else {
      NodeEncoded(v.node, depth, more);
    }
  }

  lemma {:induction false} NodeEncoded(node: Node, depth: nat, more: Bytes)
    requires WellFormedNode(node)
    ensures DecodeValue(EncodeNode(node) + more, depth) == AsParsed(NormNode(node, depth), more)
    decreases node, 1
  {
    hide DecodeValue, DecodeItems, DecodePairs, EncodeNode, EncodeItems, EncodeEntries;
    hide NormNode, NormItems, NormEntries, Built, Listed, AsParsed, Consumes, WellFormedItems, WellFormedEntries;
    if node.List? {
      ListUnfolds(node.items, depth, more);
      ReadList(EncodeItems(node.items) + [0x5D] + more, depth);
      if depth + 1 <= MAX_DEPTH { ItemsEncoded(node.items, depth + 1, more); }
    } else if node.Map? {
      MapUnfolds(node.entries, depth, more);
      ReadMap(EncodeEntries(node.entries) + [0x7D] + more, depth);
      if depth + 1 <= MAX_DEPTH { EntriesEncoded(node.entries, depth + 1, 0x7D, true, [], more); }
    } else {
      ScalarEncoded(node, depth, more);
    }
  }

  lemma ScalarEncoded(node: Node, depth: nat, more: Bytes)
    requires WellFormedNode(node) && IsScalar(node)
    ensures DecodeValue(EncodeNode(node) + more, depth) == AsParsed(NormNode(node, depth), more)
  {
    ScalarToken(node, more);
    NodeMarker(node);
    hide NextToken, EncodeNode, WellFormedNode, DecodePairs, DecodeItems, DecodeBody;
  }

  lemma ListUnfolds(items: seq<Value>, depth: nat, more: Bytes)
    ensures EncodeNode(List(items)) + more == [0x5B] + (EncodeItems(items) + [0x5D] + more)
    ensures AsParsed(NormNode(List(items), depth), more) ==
      if depth + 1 > MAX_DEPTH then Fail else Listed(AsParsed(NormItems(items, depth + 1), more))
  {
    hide EncodeItems, NormItems;
  }

  lemma MapUnfolds(entries: Entries, depth: nat, more: Bytes)
    ensures EncodeNode(Map(entries)) + more == [0x7B] + (EncodeEntries(entries) + [0x7D] + more)
    ensures AsParsed(NormNode(Map(entries), depth), more) ==
      if depth + 1 > MAX_DEPTH then Fail else Built(AsParsed(NormEntries(entries, depth + 1, []), more))
  {
    hide EncodeEntries, NormEntries, Build;
  }

  lemma {:induction false} BodyEncoded(node: Node, depth: nat, more: Bytes)
    requires WellFormedNode(node)
    ensures DecodeBody(EncodeNode(node) + more, depth) == AsParsed(NormBody(node, depth), more)
    decreases node, 2
  {
    var whole := EncodeNode(node) + more;
    NodeMarker(node);
    match node {
      case Entity => assert whole[1..] == more;
      case Map(entries) =>
        assert whole[1..] == EncodeEntries(entries) + [0x7D] + more;
        EntriesEncoded(entries, depth, 0x7D, false, [], more);
      case _ =>
        hide DecodeValue, DecodePairs, NormNode, EncodeNode;
        NodeEncoded(node, depth, more);
    }
  }

  lemma {:induction false} ItemsEncoded(items: seq<Value>, depth: nat, more: Bytes)
    requires WellFormedItems(items)
    ensures DecodeItems(EncodeItems(items) + [0x5D] + more, depth) == AsParsed(NormItems(items, depth), more)
    decreases items, 0
  {
    hide DecodeItems, DecodeValue, EncodeValue, EncodeItems, Norm, NormItems, Joined, Consumes;
    ItemsUnfold(items, more);
    if items == [] {
      ReadItemsEnd(more, depth);
      assert NormItems([], depth) == Some([]) by { NormNoItems(depth); }
    } else {
      var rest := items[1..];
      ItemsEncoded(rest, depth, more);
      var tail := EncodeItems(rest) + [0x5D] + more;
      var after := if rest == [] then tail else [0x3B] + tail;
      DecodeEncoded(items[0], depth, after);
      ValueMarker(items[0]);
      ReadItem(EncodeValue(items[0]) + after, depth);
      if rest != [] { SkipItemSeparator(tail, depth); }
      NormItemsStep(items, depth, more);
    }
  }

  lemma NormNoItems(depth: nat)
    ensures NormItems([], depth) == Some([])
  {
  }

  lemma ItemsUnfold(items: seq<Value>, more: Bytes)
    ensures items == [] ==> EncodeItems(items) + [0x5D] + more == [0x5D] + more
    ensures items != [] ==>
      var tail := EncodeItems(items[1..]) + [0x5D] + more;
      && EncodeItems(items) + [0x5D] + more ==
           EncodeValue(items[0]) + (if items[1..] == [] then tail else [0x3B] + tail)
      && (items[1..] != [] ==> tail[0] !in {0x3B, 0x5D})
  {
    hide EncodeValue, EncodeItems;
    ItemsCons(items);
    if items != [] {
      var rest := EncodeItems(items[1..]);
      Grouped(EncodeValue(items[0]), rest, more);
      if items[1..] != [] {
        ItemsCons(items[1..]);
        ValueMarker(items[1]);
        Headed(EncodeValue(items[1]), rest, [0x5D] + more);
      }
    }
  }

  /** One item in front of the others. */
  lemma ItemsCons(items: seq<Value>)
    ensures items == [] ==> EncodeItems(items) == []
    ensures items != [] ==>
      EncodeItems(items) == EncodeValue(items[0]) + if items[1..] == [] then [] else [0x3B] + EncodeItems(items[1..])
    ensures items != [] ==> EncodeValue(items[0]) <= EncodeItems(items)
    ensures |items| == 1 ==> EncodeItems(items[1..]) == []
  {
    hide EncodeValue;
  }

  lemma Grouped(first: Bytes, rest: Bytes, more: Bytes)
    ensures (first + []) + [0x5D] + more == first + ([] + [0x5D] + more)
    ensures (first + ([0x3B] + rest)) + [0x5D] + more == first + ([0x3B] + (rest + [0x5D] + more))
  {
  }

  lemma Headed(first: Bytes, whole: Bytes, more: Bytes)
    requires first != [] && first <= whole
    ensures whole[0] == first[0] && (whole + more)[0] == first[0]
    ensures whole + more != []
  {
  }

  lemma NormItemsStep(items: seq<Value>, depth: nat, more: Bytes)
    requires items != []
    ensures AsParsed(NormItems(items, depth), more) ==
      if Norm(items[0], depth).None? then Fail
      else Joined([Norm(items[0], depth).value], AsParsed(NormItems(items[1..], depth), more))
  {
    hide Norm;
  }

  lemma ReadItemsEnd(more: Bytes, depth: nat)
    ensures DecodeItems([0x5D] + more, depth) == Done([], more)
  {
    assert ([0x5D] + more)[1..] == more;
  }

  lemma ReadItem(input: Bytes, depth: nat)
    requires input != [] && input[0] !in {0x3B, 0x5D}
    ensures var read := DecodeValue(input, depth);
      DecodeItems(input, depth) == if read.Fail? then Fail else Joined([read.value], DecodeItems(read.rest, depth))
  {
    hide DecodeValue, Joined;
  }

  lemma SkipItemSeparator(tail: Bytes, depth: nat)
    requires tail != [] && tail[0] !in {0x3B, 0x5D}
    ensures DecodeItems([0x3B] + tail, depth) == DecodeItems(tail, depth)
  {
    hide DecodeValue;
    assert ([0x3B] + tail)[1..] == tail;
  }

  lemma {:induction false} EntriesEncoded(entries: Entries, depth: nat, end: Byte, strict: bool, prefix: Bytes, more: Bytes)
    requires WellFormedEntries(entries) && end in {0x3E, 0x7D}
    ensures DecodePairs(EncodeEntries(entries) + [end] + more, depth, end, strict, prefix)
      == AsParsed(NormEntries(entries, depth, prefix), more)
    decreases entries, 0
  {
    hide DecodePairs, DecodeValue, EncodeValue, EncodeEntry, Norm, NextToken, Joined;
    if entries == [] {
      ReadPairsEnd(more, depth, end, strict, prefix);
      assert [] + [end] + more == [end] + more;
    } else {
      var first, rest := entries[0], entries[1..];
      EntriesEncoded(rest, depth, end, strict, prefix, more);
      var tail := EncodeEntries(rest) + [end] + more;
      var after := if rest == [] then tail else [0x3B] + tail;
      var whole := EncodeEntry(first) + after;
      assert EncodeEntries(entries) + [end] + more == whole;
      PairToken(first, after);
      PairEncoded(first, depth, after);
      EntryMarker(first);
      ReadPair(whole, depth, end, strict, prefix, first.key, [0x3D] + (EncodeValue(first.value) + after), EncodeValue(first.value) + after);
      if rest != [] {
        EntryMarker(rest[0]);
        assert EncodeEntries(rest)[0] == EncodeEntry(rest[0])[0];
        SkipSeparator(tail, depth, end, strict, prefix);
      }
      NormEntriesStep(entries, depth, prefix, more);
    }
  }

  lemma NormEntriesStep(entries: Entries, depth: nat, prefix: Bytes, more: Bytes)
    requires entries != []
    ensures AsParsed(NormEntries(entries, depth, prefix), more) ==
      var w := Norm(entries[0].value, depth);
      if w.None? then Fail
      else Joined([Entry(prefix + entries[0].key, w.value)], AsParsed(NormEntries(entries[1..], depth, prefix), more))
  {
    hide Norm;
  }

  lemma ReadPairsEnd(more: Bytes, depth: nat, end: Byte, strict: bool, prefix: Bytes)
    ensures DecodePairs([end] + more, depth, end, strict, prefix) == Done([], more)
  {
    assert ([end] + more)[1..] == more;
  }

  lemma EntryMarker(entry: Entry)
    ensures EncodeEntry(entry) != [] && EncodeEntry(entry)[0] == 0x01
  {
    KeyMarker(entry.key);
    hide EncodeString;
  }

  lemma KeyMarker(key: Bytes)
    ensures EncodeString(key) != [] && EncodeString(key)[0] == 0x01
  {
  }

  /** The key and the equals sign of one written entry. */
  lemma PairToken(entry: Entry, after: Bytes)
    requires |entry.key| < I64
    ensures var value := EncodeValue(entry.value) + after;
      && NextToken(EncodeEntry(entry) + after) == Got(Scalar(String(entry.key)), [0x3D] + value)
      && NextToken([0x3D] + value) == Got(Equals, value)
  {
    hide EncodeValue, EncodeString, NextToken;
    var value := EncodeValue(entry.value) + after;
    StringToken(entry.key, [0x3D] + value);
    Regroup(EncodeString(entry.key), [0x3D], EncodeValue(entry.value), after);
    EqualsToken(value);
  }

  /** The value of one written entry. */
  lemma {:induction false} PairEncoded(entry: Entry, depth: nat, after: Bytes)
    requires |entry.key| < I64 && WellFormed(entry.value)
    ensures DecodeValue(EncodeValue(entry.value) + after, depth) == AsParsed(Norm(entry.value, depth), after)
    decreases entry, 1
  {
    DecodeEncoded(entry.value, depth, after);
  }

  lemma EqualsToken(value: Bytes)
    ensures NextToken([0x3D] + value) == Got(Equals, value)
  {
    hide LexString, LexInt64, LexUint64, LexDouble;
    assert ([0x3D] + value)[1..] == value;
  }

  /** A value with anything behind it is no value. */
  lemma TrailingBytesAreRefused(v: Value, more: Bytes)
    requires WellFormed(v) && more != []
    ensures FromSlice(EncodeValue(v) + more).None?
  {
    hide DecodeValue, EncodeValue, Norm, WellFormed;
    DecodeEncoded(v, 0, more);
  }

  /** `from_slice` of `to_vec` is the normal form, and nothing where that has none. */
  lemma FromSliceOfToVec(v: Value)
    requires WellFormed(v)
    ensures FromSlice(EncodeValue(v)) == Norm(v, 0)
  {
    DecodeEncoded(v, 0, []);
    assert EncodeValue(v) + [] == EncodeValue(v);
  }
}
