/** The scanner on what the serializer wrote: it stops exactly at the end of the value. */
module YsonScan {
  import opened Text
  import opened Yson
  import opened YsonCodec
  import opened YsonRoundTrip

  /** A value the scanner follows to its end at `depth` containers down. */
  predicate Fits(v: Value, depth: nat)
    decreases v, 1
  {
    && depth <= MAX_DEPTH
    && (v.attributes.Present? && v.attributes.entries != [] ==>
          depth + 1 <= MAX_DEPTH && FitsEntries(v.attributes.entries, depth + 1))
    && FitsNode(v.node, depth)
  }

  predicate FitsNode(node: Node, depth: nat)
    decreases node, 1
  {
    match node
    case List(items) => depth + 1 <= MAX_DEPTH && FitsItems(items, depth + 1)
    case Map(entries) => depth + 1 <= MAX_DEPTH && FitsEntries(entries, depth + 1)
    case _ => true
  }

  predicate FitsItems(items: seq<Value>, depth: nat)
    decreases items, 0
  {
    items == [] || (Fits(items[0], depth) && FitsItems(items[1..], depth))
  }

  predicate FitsEntries(entries: Entries, depth: nat)
    decreases entries, 0
  {
    entries == [] || (Fits(entries[0].value, depth) && FitsEntries(entries[1..], depth))
  }

  // ---------------------------------------------------------------- the scanner, step by step

  lemma ScanAttributed(body: Bytes, depth: nat)
    requires depth + 1 <= MAX_DEPTH
    ensures var attributes := ScanPairs(body, depth + 1, 0x3E);
      ScanTree([0x3C] + body, depth) == if attributes.Complete? then ScanBody(attributes.rest, depth) else attributes
  {
    hide ScanPairs, ScanObject, NextToken;
    MarkerToken(body);
  }

  /** What `scan_tree` does after an attribute block, or without one. */
  function ScanBody(input: Bytes, depth: nat): Scanned {
    match NextToken(input)
    case Short => Incomplete
    case Bad => Malformed
    case Got(token, body) => ScanObject(token, body, depth)
  }

  lemma MarkerToken(body: Bytes)
    ensures NextToken([0x3C] + body) == Got(BeginAttributes, body)
    ensures NextToken([0x5B] + body) == Got(BeginList, body)
    ensures NextToken([0x7B] + body) == Got(BeginMap, body)
  {
    hide LexString, LexInt64, LexUint64, LexDouble;
    assert ([0x3C] + body)[1..] == body && ([0x5B] + body)[1..] == body && ([0x7B] + body)[1..] == body;
  }

  lemma ScanPlain(input: Bytes, depth: nat)
    requires depth <= MAX_DEPTH && NextToken(input).Got? && NextToken(input).token != BeginAttributes
    ensures ScanTree(input, depth) == ScanBody(input, depth)
  {
    hide ScanPairs, ScanObject, NextToken;
  }

  lemma ScanPair(input: Bytes, depth: nat, end: Byte, key: Bytes, afterKey: Bytes, value: Bytes)
    requires input != [] && input[0] == 0x01 && end in {0x3E, 0x7D}
    requires NextToken(input) == Got(Scalar(String(key)), afterKey) && NextToken(afterKey) == Got(Equals, value)
    requires ScanTree(value, depth).Complete?
    ensures ScanPairs(input, depth, end) == ScanPairs(ScanTree(value, depth).rest, depth, end)
  {
    hide ScanTree, NextToken;
  }

  lemma SkipSeparatorScanning(tail: Bytes, depth: nat, end: Byte)
    requires end in {0x3E, 0x5D, 0x7D}
    ensures end != 0x5D ==> ScanPairs([0x3B] + tail, depth, end) == ScanPairs(tail, depth, end)
    ensures ScanItems([0x3B] + tail, depth) == ScanItems(tail, depth)
    ensures end != 0x5D ==> ScanPairs([end] + tail, depth, end) == Complete(tail)
    ensures ScanItems([0x5D] + tail, depth) == Complete(tail)
  {
    hide ScanTree, NextToken;
    assert ([0x3B] + tail)[1..] == tail && ([end] + tail)[1..] == tail && ([0x5D] + tail)[1..] == tail;
  }

  lemma ScanItem(input: Bytes, depth: nat)
    requires input != [] && input[0] !in {0x3B, 0x5D} && ScanTree(input, depth).Complete?
    ensures ScanItems(input, depth) == ScanItems(ScanTree(input, depth).rest, depth)
  {
    hide ScanTree;
  }

  // ---------------------------------------------------------------- the scanner on written values

  /** Scanning a written value ends where the value does, whatever follows. */
  lemma {:induction false} ScanEncoded(v: Value, depth: nat, more: Bytes)
    requires WellFormed(v) && Fits(v, depth)
    ensures ScanTree(EncodeValue(v) + more, depth) == Complete(more)
    decreases v, 1
  {
    hide ScanTree, ScanPairs, ScanBody, EncodeNode, EncodeEntries, NextToken, FitsNode, FitsEntries;
    ScanBodyEncoded(v.node, depth, more);
    if v.attributes.Present? && v.attributes.entries != [] {
      var entries, node := v.attributes.entries, EncodeNode(v.node);
      ScanEntriesEncoded(entries, depth + 1, 0x3E, node + more);
      Regroup([0x3C], EncodeEntries(entries) + [0x3E], node, more);
      assert [0x3C] + EncodeEntries(entries) + [0x3E] == [0x3C] + (EncodeEntries(entries) + [0x3E]);
      ScanAttributed(EncodeEntries(entries) + [0x3E] + (node + more), depth);
    } else {
      ScanPlain(EncodeNode(v.node) + more, depth);
    }
  }

  lemma {:induction false} ScanBodyEncoded(node: Node, depth: nat, more: Bytes)
    requires WellFormedNode(node) && FitsNode(node, depth)
    ensures ScanBody(EncodeNode(node) + more, depth) == Complete(more)
    ensures NextToken(EncodeNode(node) + more).Got? && NextToken(EncodeNode(node) + more).token != BeginAttributes
    decreases node, 1
  {
    hide ScanItems, ScanPairs, EncodeNode, EncodeItems, EncodeEntries, NextToken, NormNode, AsParsed;
    if node.List? {
      ListUnfolds(node.items, depth, more);
      MarkerToken(EncodeItems(node.items) + [0x5D] + more);
      ScanItemsEncoded(node.items, depth + 1, more);
    } else if node.Map? {
      MapUnfolds(node.entries, depth, more);
      MarkerToken(EncodeEntries(node.entries) + [0x7D] + more);
      ScanEntriesEncoded(node.entries, depth + 1, 0x7D, more);
    } else {
      ScalarToken(node, more);
    }
  }

  lemma {:induction false} ScanItemsEncoded(items: seq<Value>, depth: nat, more: Bytes)
    requires WellFormedItems(items) && FitsItems(items, depth)
    ensures ScanItems(EncodeItems(items) + [0x5D] + more, depth) == Complete(more)
    decreases items, 0
  {
    hide ScanItems, ScanTree, EncodeItems, EncodeValue, Fits;
    ItemsUnfold(items, more);
    if items == [] {
      SkipSeparatorScanning(more, depth, 0x5D);
    } else {
      var rest := items[1..];
      ScanItemsEncoded(rest, depth, more);
      var tail := EncodeItems(rest) + [0x5D] + more;
      var after := if rest == [] then tail else [0x3B] + tail;
      ScanEncoded(items[0], depth, after);
      ValueMarker(items[0]);
      ScanItem(EncodeValue(items[0]) + after, depth);
      SkipSeparatorScanning(tail, depth, 0x5D);
    }
  }

  lemma {:induction false} ScanEntriesEncoded(entries: Entries, depth: nat, end: Byte, more: Bytes)
    requires WellFormedEntries(entries) && FitsEntries(entries, depth) && end in {0x3E, 0x7D}
    ensures ScanPairs(EncodeEntries(entries) + [end] + more, depth, end) == Complete(more)
    decreases entries, 0
  {
    hide ScanPairs, ScanTree, EncodeValue, EncodeEntry, NextToken, Fits;
    if entries == [] {
      SkipSeparatorScanning(more, depth, end);
      assert [] + [end] + more == [end] + more;
    } else {
      var first, rest := entries[0], entries[1..];
      ScanEntriesEncoded(rest, depth, end, more);
      var tail := EncodeEntries(rest) + [end] + more;
      var after := if rest == [] then tail else [0x3B] + tail;
      assert EncodeEntries(entries) + [end] + more == EncodeEntry(first) + after;
      PairToken(first, after);
      EntryMarker(first);
      ScanEncoded(first.value, depth, after);
      var value := EncodeValue(first.value) + after;
      ScanPair(EncodeEntry(first) + after, depth, end, first.key, [0x3D] + value, value);
      SkipSeparatorScanning(tail, depth, end);
    }
  }

  /** A value cut short anywhere is incomplete, never malformed, and never another value. */
  lemma TruncationIsIncomplete(cut: Bytes, more: Bytes)
    requires more != [] && ScanTree(cut + more, 0) == Complete([])
    ensures ScanTree(cut, 0) == Incomplete
  {
    hide ScanTree;
    if !ScanTree(cut, 0).Incomplete? { ScanTreeStable(cut, 0, more); }
  }

  /** A map with `$value` beside another key is scanned to its end, and refused for having two
      bodies. */
  lemma TwoBodiesAreRefused()
    ensures var v := Value(Absent, Map([Entry(VALUE_KEY, Value(Absent, Entity)), Entry([0x61], Value(Absent, Entity))]));
      ScanTree(EncodeValue(v), 0) == Complete([]) && FromSlice(EncodeValue(v)).None?
  {
    hide ScanTree, EncodeValue, FromSlice;
    var none := Value(Absent, Entity);
    var body, other := Entry(VALUE_KEY, none), Entry([0x61], none);
    var pairs := [body, other];
    var v := Value(Absent, Map(pairs));
    assert Less(VALUE_KEY, [0x61]);
    assert WellFormedEntries(pairs);
    assert EncodeValue(v) + [] == EncodeValue(v);
    assert pairs[1..] == [other] && [other][1..] == [];
    assert FitsEntries([other], 1);
    assert FitsEntries(pairs, 1);
    ScanEncoded(v, 0, []);
    FromSliceOfToVec(v);
    assert Norm(none, 1) == Some(none);
    var bare: Bytes, nothing: Entries := [], [];
    assert bare + other.key == other.key && bare + body.key == body.key;
    assert NormEntries([other][1..], 1, bare) == Some(nothing);
    assert [Entry(bare + other.key, none)] + nothing == [other];
    assert NormEntries([other], 1, bare) == Some([other]);
    assert NormEntries(pairs, 1, bare) == Some([body] + [other]);
    assert pairs[..1] == [body] && [body][..0] == [];
    assert GatherAll([body]).body == Some(Entity);
  }
}
