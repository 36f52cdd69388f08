/** Which values survive being written and read back: exactly those whose maps avoid the keys the
    flat presentation of attributes reserves, whose attributed maps are not empty, and which do
    not nest past the depth limit. */
module YsonFaithful {
  import opened Text
  import opened Yson
  import opened YsonCodec
  import opened YsonRoundTrip

  /** A key that `visit_map` takes for something other than an entry. */
  predicate Reserved(key: Bytes) {
    IsAttributeKey(key) || key == VALUE_KEY
  }

  predicate NoReserved(entries: Entries) {
    forall i :: 0 <= i < |entries| ==> !Reserved(entries[i].key)
  }

  predicate Clean(v: Value, depth: nat)
    decreases v, 1
  {
    match v.attributes
    case Absent => CleanNode(v.node, depth)
    case Present(attributes) =>
      && attributes != [] && depth + 1 <= MAX_DEPTH
      && CleanEntries(attributes, depth + 1)
      && (if v.node.Map? then v.node.entries != [] && NoReserved(v.node.entries) && CleanEntries(v.node.entries, depth + 1)
          else CleanNode(v.node, depth + 1))
  }

  predicate CleanNode(node: Node, depth: nat)
    decreases node, 1
  {
    match node
    case List(items) => depth + 1 <= MAX_DEPTH && CleanItems(items, depth + 1)
    case Map(entries) => depth + 1 <= MAX_DEPTH && NoReserved(entries) && CleanEntries(entries, depth + 1)
    case _ => true
  }

  predicate CleanItems(items: seq<Value>, depth: nat)
    decreases items, 0
  {
    items == [] || (Clean(items[0], depth) && CleanItems(items[1..], depth))
  }

  predicate CleanEntries(entries: Entries, depth: nat)
    decreases entries, 0
  {
    entries == [] || (Clean(entries[0].value, depth) && CleanEntries(entries[1..], depth))
  }

  function Prefixed(entries: Entries, prefix: Bytes): (r: Entries)
    ensures |r| == |entries|
    ensures forall i :: 0 <= i < |r| ==> r[i] == Entry(prefix + entries[i].key, entries[i].value)
  {
    seq(|entries|, i requires 0 <= i < |entries| => Entry(prefix + entries[i].key, entries[i].value))
  }

  // ---------------------------------------------------------------- gathering pairs

  lemma GatherSnoc(pairs: Entries, last: Entry)
    ensures GatherAll(pairs + [last]) == Gather(GatherAll(pairs), last.key, last.value)
  {
    assert (pairs + [last])[..|pairs|] == pairs;
  }

  lemma SortedFront(entries: Entries, front: Entries, last: Entry)
    requires Sorted(entries) && entries == front + [last]
    ensures Sorted(front) && forall i :: 0 <= i < |front| ==> Less(front[i].key, last.key)
  {
    assert entries[|front|] == last && forall i :: 0 <= i < |front| ==> front[i] == entries[i];
  }

  /** Plain pairs in order, gathered on top of attributes, are the entries of the map. */
  lemma {:induction false} GatherPlain(front: Entries, pairs: Entries)
    requires Sorted(pairs) && NoReserved(pairs) && GatherAll(front).plain == []
    ensures GatherAll(front + pairs) == GatherAll(front).(plain := pairs)
  {
    if pairs == [] {
      assert front + pairs == front;
    } else {
      hide Reserved, Less, Insert;
      var some, last := pairs[..|pairs| - 1], pairs[|pairs| - 1];
      SortedFront(pairs, some, last);
      GatherPlain(front, some);
      assert front + pairs == (front + some) + [last];
      GatherSnoc(front + some, last);
      InsertLast(some, last.key, last.value);
      GatherOrdinary(GatherAll(front + some), last.key, last.value);
      assert some + [Entry(last.key, last.value)] == pairs;
    }
  }

  lemma GatherOrdinary(g: Gathered, key: Bytes, value: Value)
    requires !Reserved(key)
    ensures Gather(g, key, value) == g.(plain := Insert(g.plain, key, value))
  {
  }

  /** Prefixed attributes in order are the attributes of the value. */
  lemma {:induction false} GatherAttributes(attributes: Entries)
    requires Sorted(attributes)
    ensures GatherAll(Prefixed(attributes, [0x40])) == Gathered(attributes, [], None, attributes != [])
  {
    if attributes != [] {
      hide Less, Insert, Gather;
      var some, last := attributes[..|attributes| - 1], attributes[|attributes| - 1];
      SortedFront(attributes, some, last);
      GatherAttributes(some);
      var pair := Entry([0x40] + last.key, last.value);
      assert Prefixed(attributes, [0x40]) == Prefixed(some, [0x40]) + [pair];
      GatherSnoc(Prefixed(some, [0x40]), pair);
      InsertLast(some, last.key, last.value);
      GatherAttribute(GatherAll(Prefixed(some, [0x40])), last.key, last.value);
      assert some + [Entry(last.key, last.value)] == attributes;
    }
  }

  lemma GatherAttribute(g: Gathered, key: Bytes, value: Value)
    ensures Gather(g, [0x40] + key, value) == g.(attributes := Insert(g.attributes, key, value), attributed := true)
  {
    assert ([0x40] + key)[1..] == key;
  }

  lemma BuildPlainMap(entries: Entries)
    requires Sorted(entries) && NoReserved(entries)
    ensures Build(entries) == Some(Value(Absent, Map(entries)))
  {
    GatherPlain([], entries);
    assert [] + entries == entries;
  }

  lemma BuildAttributedMap(attributes: Entries, entries: Entries)
    requires Sorted(attributes) && attributes != [] && Sorted(entries) && NoReserved(entries) && entries != []
    ensures Build(Prefixed(attributes, [0x40]) + entries) == Some(Value(Present(attributes), Map(entries)))
  {
    GatherAttributes(attributes);
    GatherPlain(Prefixed(attributes, [0x40]), entries);
  }

  lemma BuildAttributedEntity(attributes: Entries)
    requires Sorted(attributes) && attributes != []
    ensures Build(Prefixed(attributes, [0x40]) + []) == Some(Value(Present(attributes), Entity))
  {
    GatherAttributes(attributes);
    assert Prefixed(attributes, [0x40]) + [] == Prefixed(attributes, [0x40]);
  }

  lemma BuildAttributedNode(attributes: Entries, node: Node)
    requires Sorted(attributes) && attributes != []
    ensures Build(Prefixed(attributes, [0x40]) + [Entry(VALUE_KEY, Value(Absent, node))]) == Some(Value(Present(attributes), node))
  {
    GatherAttributes(attributes);
    GatherSnoc(Prefixed(attributes, [0x40]), Entry(VALUE_KEY, Value(Absent, node)));
  }

  // ---------------------------------------------------------------- clean values come back

  /** A clean value is its own normal form. */
  lemma {:induction false} CleanIsNormal(v: Value, depth: nat)
    requires WellFormed(v) && Clean(v, depth)
    ensures Norm(v, depth) == Some(v)
    decreases v, 1
  {
    if v.attributes.Absent? {
      CleanNodeIsNormal(v.node, depth);
    } else {
      var attributes := v.attributes.entries;
      CleanEntriesAreNormal(attributes, depth + 1, [0x40]);
      var node := v.node;
      if node.Map? {
        CleanEntriesAreNormal(node.entries, depth + 1, []);
        PrefixNothing(node.entries);
        hide Build, Prefixed, CleanEntries, WellFormedEntries, NormEntries, NormNode;
        BuildAttributedMap(attributes, node.entries) by { WellFormedIsSorted(attributes); WellFormedIsSorted(node.entries); }
      } else {
        CleanNodeIsNormal(node, depth + 1);
        hide Build, Prefixed, CleanEntries, WellFormedEntries, NormEntries, NormNode, CleanNode;
        WellFormedIsSorted(attributes);
        if node.Entity? { BuildAttributedEntity(attributes); } else { BuildAttributedNode(attributes, node); }
      }
    }
  }

  lemma WellFormedIsSorted(entries: Entries)
    requires WellFormedEntries(entries)
    ensures Sorted(entries)
  {
  }

  lemma PrefixNothing(entries: Entries)
    ensures Prefixed(entries, []) == entries
  {
    assert forall i :: 0 <= i < |entries| ==> [] + entries[i].key == entries[i].key;
  }

  lemma {:induction false} CleanNodeIsNormal(node: Node, depth: nat)
    requires WellFormedNode(node) && CleanNode(node, depth)
    ensures NormNode(node, depth) == Some(Value(Absent, node))
    decreases node, 1
  {
    match node {
      case List(items) => CleanItemsAreNormal(items, depth + 1);
      case Map(entries) =>
        CleanEntriesAreNormal(entries, depth + 1, []);
        PrefixNothing(entries);
        BuildPlainMap(entries);
      case _ =>
    }
  }

  lemma {:induction false} CleanItemsAreNormal(items: seq<Value>, depth: nat)
    requires WellFormedItems(items) && CleanItems(items, depth)
    ensures NormItems(items, depth) == Some(items)
    decreases items, 0
  {
    if items != [] {
      hide Norm, Clean;
      CleanIsNormal(items[0], depth);
      CleanItemsAreNormal(items[1..], depth);
      assert [items[0]] + items[1..] == items;
    }
  }

  lemma {:induction false} CleanEntriesAreNormal(entries: Entries, depth: nat, prefix: Bytes)
    requires WellFormedEntries(entries) && CleanEntries(entries, depth)
    ensures NormEntries(entries, depth, prefix) == Some(Prefixed(entries, prefix))
    decreases entries, 0
  {
    if entries != [] {
      hide Norm, Clean;
      CleanIsNormal(entries[0].value, depth);
      CleanEntriesAreNormal(entries[1..], depth, prefix);
      assert Prefixed(entries, prefix) == [Entry(prefix + entries[0].key, entries[0].value)] + Prefixed(entries[1..], prefix);
    }
  }

  // ---------------------------------------------------------------- reading never makes a value larger

  function Size(v: Value): (r: nat)
    ensures r >= 1
    decreases v, 1
  {
    SizeNode(v.node) + match v.attributes case Absent => 0 case Present(entries) => SizeEntries(entries)
  }

  function SizeNode(node: Node): (r: nat)
    ensures r >= 1
    decreases node, 1
  {
    match node
    case List(items) => 1 + SizeItems(items)
    case Map(entries) => 1 + SizeEntries(entries)
    case _ => 1
  }

  function SizeItems(items: seq<Value>): nat
    decreases items, 0
  {
    if items == [] then 0 else Size(items[0]) + SizeItems(items[1..])
  }

  function SizeEntries(entries: Entries): nat
    decreases entries, 0
  {
    if entries == [] then 0 else Size(entries[0].value) + SizeEntries(entries[1..])
  }

  lemma {:induction false} SizeConcat(a: Entries, b: Entries)
    ensures SizeEntries(a + b) == SizeEntries(a) + SizeEntries(b)
  {
    hide Size;
    if a == [] {
      assert a + b == b;
    } else {
      SizeConcat(a[1..], b);
      assert (a + b)[1..] == a[1..] + b;
    }
  }

  lemma {:induction false} SizeInsert(entries: Entries, key: Bytes, value: Value)
    ensures SizeEntries(Insert(entries, key, value)) <= SizeEntries(entries) + Size(value)
    ensures Insert(entries, key, value) != []
  {
    hide Less, Size;
    if entries == [] {
    } else if key == entries[0].key {
      assert ([Entry(key, value)] + entries[1..])[1..] == entries[1..];
    } else if Less(key, entries[0].key) {
      assert ([Entry(key, value)] + entries)[1..] == entries;
    } else {
      SizeInsert(entries[1..], key, value);
      assert ([entries[0]] + Insert(entries[1..], key, value))[1..] == Insert(entries[1..], key, value);
    }
  }

  lemma {:induction false} SizeExtend(entries: Entries, more: Entries)
    ensures SizeEntries(Extend(entries, more)) <= SizeEntries(entries) + SizeEntries(more)
  {
    if more != [] {
      hide Size, Insert;
      var front, last := more[..|more| - 1], more[|more| - 1];
      SizeExtend(entries, front);
      SizeInsert(Extend(entries, front), last.key, last.value);
      SizeConcat(front, [last]);
      assert front + [last] == more;
    }
  }

  function SizeGathered(g: Gathered): nat {
    SizeEntries(g.attributes) + SizeEntries(g.plain) + if g.body.Some? then SizeNode(g.body.value) else 0
  }

  lemma SizeGather(g: Gathered, key: Bytes, value: Value)
    ensures SizeGathered(Gather(g, key, value)) <= SizeGathered(g) + Size(value)
  {
    hide SizeEntries, SizeNode, Insert, Extend;
    if IsAttributeKey(key) {
      SizeInsert(g.attributes, key[1..], value);
    } else if key == VALUE_KEY {
      if value.attributes.Present? { SizeExtend(g.attributes, value.attributes.entries); }
    } else {
      SizeInsert(g.plain, key, value);
    }
  }

  lemma {:induction false} SizeGatherAll(pairs: Entries)
    ensures SizeGathered(GatherAll(pairs)) <= SizeEntries(pairs)
  {
    if pairs != [] {
      hide Size, SizeGathered, Gather;
      var front, last := pairs[..|pairs| - 1], pairs[|pairs| - 1];
      SizeGatherAll(front);
      SizeGather(GatherAll(front), last.key, last.value);
      SizeConcat(front, [last]);
      assert front + [last] == pairs;
    }
  }

  lemma SizeBuild(pairs: Entries)
    requires Build(pairs).Some?
    ensures Size(Build(pairs).value) <= SizeEntries(pairs) + if GatherAll(pairs).body.Some? then 0 else 1
  {
    hide SizeEntries, GatherAll;
    SizeGatherAll(pairs);
    var g := GatherAll(pairs);
    if !g.attributed { UnattributedHasNoBody(pairs); }
  }

  lemma {:induction false} UnattributedHasNoBody(pairs: Entries)
    ensures !GatherAll(pairs).attributed ==> GatherAll(pairs).body.None? && GatherAll(pairs).attributes == []
  {
    hide Insert, Extend;
    if pairs != [] { UnattributedHasNoBody(pairs[..|pairs| - 1]); }
  }

  lemma {:induction false} NormIsNoLarger(v: Value, depth: nat)
    requires Norm(v, depth).Some?
    ensures Size(Norm(v, depth).value) <= Size(v)
    decreases v, 1
  {
    if v.attributes.Present? && v.attributes.entries != [] {
      var attributes := NormEntries(v.attributes.entries, depth + 1, [0x40]).value;
      var body := NormBody(v.node, depth + 1).value;
      NormEntriesAreNoLarger(v.attributes.entries, depth + 1, [0x40]);
      BodyIsNoLarger(v.node, depth + 1);
      hide Build, NormEntries, NormBody, NormNode, GatherAll;
      SizeBuild(attributes + body);
      SizeConcat(attributes, body);
      LastBody(attributes, body);
    } else {
      NodeIsNoLarger(v.node, depth);
    }
  }

  /** A body pair at the end of the pairs is a body gathered. */
  lemma LastBody(front: Entries, body: Entries)
    ensures |body| == 1 && body[0].key == VALUE_KEY ==> GatherAll(front + body).body.Some?
  {
    if |body| == 1 {
      assert body == [body[0]];
      GatherSnoc(front, body[0]);
    }
  }

  lemma {:induction false} BodyIsNoLarger(node: Node, depth: nat)
    requires NormBody(node, depth).Some?
    ensures var body := NormBody(node, depth).value;
      if |body| == 1 && body[0].key == VALUE_KEY && !node.Map? then SizeEntries(body) <= SizeNode(node)
      else SizeEntries(body) + 1 <= SizeNode(node)
    decreases node, 2
  {
    match node {
      case Entity =>
      case Map(entries) => NormEntriesAreNoLarger(entries, depth, []);
      case _ => NodeIsNoLarger(node, depth);
    }
  }

  lemma {:induction false} NodeIsNoLarger(node: Node, depth: nat)
    requires NormNode(node, depth).Some?
    ensures Size(NormNode(node, depth).value) <= SizeNode(node)
    decreases node, 1
  {
    match node {
      case List(items) => NormItemsAreNoLarger(items, depth + 1);
      case Map(entries) =>
        var pairs := NormEntries(entries, depth + 1, []).value;
        NormEntriesAreNoLarger(entries, depth + 1, []);
        SizeBuild(pairs);
      case _ =>
    }
  }

  lemma {:induction false} NormItemsAreNoLarger(items: seq<Value>, depth: nat)
    requires NormItems(items, depth).Some?
    ensures SizeItems(NormItems(items, depth).value) <= SizeItems(items)
    decreases items, 0
  {
    if items != [] {
      hide Norm, Size;
      NormIsNoLarger(items[0], depth);
      NormItemsAreNoLarger(items[1..], depth);
      var w, ws := Norm(items[0], depth).value, NormItems(items[1..], depth).value;
      assert ([w] + ws)[1..] == ws;
    }
  }

  lemma {:induction false} NormEntriesAreNoLarger(entries: Entries, depth: nat, prefix: Bytes)
    requires NormEntries(entries, depth, prefix).Some?
    ensures SizeEntries(NormEntries(entries, depth, prefix).value) <= SizeEntries(entries)
    decreases entries, 0
  {
    if entries != [] {
      hide Norm, Size;
      NormIsNoLarger(entries[0].value, depth);
      NormEntriesAreNoLarger(entries[1..], depth, prefix);
      var e := Entry(prefix + entries[0].key, Norm(entries[0].value, depth).value);
      var ws := NormEntries(entries[1..], depth, prefix).value;
      assert ([e] + ws)[1..] == ws;
    }
  }

  // ---------------------------------------------------------------- what comes back is clean

  lemma {:induction false} PlainIsOrdinary(pairs: Entries)
    ensures NoReserved(GatherAll(pairs).plain)
  {
    if pairs != [] {
      hide Reserved, Insert, Extend;
      var front, last := pairs[..|pairs| - 1], pairs[|pairs| - 1];
      PlainIsOrdinary(front);
      if Reserved(last.key) {
        ReservedLeavesPlain(GatherAll(front), last.key, last.value);
      } else {
        GatherOrdinary(GatherAll(front), last.key, last.value);
        InsertKeepsOrdinary(GatherAll(front).plain, last.key, last.value);
      }
    }
  }

  lemma ReservedLeavesPlain(g: Gathered, key: Bytes, value: Value)
    requires Reserved(key)
    ensures Gather(g, key, value).plain == g.plain
  {
  }

  lemma {:induction false} InsertKeepsOrdinary(entries: Entries, key: Bytes, value: Value)
    requires NoReserved(entries) && !Reserved(key)
    ensures NoReserved(Insert(entries, key, value))
  {
    hide Reserved, Less;
    if entries != [] && key != entries[0].key && !Less(key, entries[0].key) {
      InsertKeepsOrdinary(entries[1..], key, value);
    }
  }

  lemma {:induction false} BodyComesFromAPair(pairs: Entries)
    requires GatherAll(pairs).body.Some?
    ensures exists i :: 0 <= i < |pairs| && pairs[i].key == VALUE_KEY && pairs[i].value.node == GatherAll(pairs).body.value
  {
    hide Insert, Extend;
    var front, last := pairs[..|pairs| - 1], |pairs| - 1;
    if pairs[last].key != VALUE_KEY {
      BodyComesFromAPair(front);
      var i :| 0 <= i < |front| && front[i].key == VALUE_KEY && front[i].value.node == GatherAll(front).body.value;
      assert pairs[i] == front[i];
    } else {
      assert pairs[last].value.node == GatherAll(pairs).body.value;
    }
  }

  lemma {:induction false} NormEntriesMembers(entries: Entries, depth: nat, prefix: Bytes)
    requires NormEntries(entries, depth, prefix).Some?
    ensures var ws := NormEntries(entries, depth, prefix).value;
      && |ws| == |entries|
      && forall i :: 0 <= i < |ws| ==> ws[i].key == prefix + entries[i].key && Norm(entries[i].value, depth) == Some(ws[i].value)
  {
    if entries != [] {
      hide Norm;
      NormEntriesMembers(entries[1..], depth, prefix);
    }
  }

  lemma {:induction false} MemberIsSmaller(entries: Entries, i: nat)
    requires i < |entries|
    ensures Size(entries[i].value) <= SizeEntries(entries)
  {
    hide Size;
    if i > 0 { MemberIsSmaller(entries[1..], i - 1); }
  }

  /** A map with a reserved key never comes back as itself, whatever stands in front of it. */
  lemma ReservedIsLost(front: Entries, entries: Entries, depth: nat, i: nat)
    requires NormEntries(entries, depth, []).Some?
    requires i < |entries| && Reserved(entries[i].key)
    requires forall k :: 0 <= k < |front| ==> front[k].key != VALUE_KEY
    requires Build(front + NormEntries(entries, depth, []).value).Some?
    ensures Build(front + NormEntries(entries, depth, []).value).value.node != Map(entries)
  {
    hide GatherAll, NormEntries, Norm, Reserved;
    var ws := NormEntries(entries, depth, []).value;
    var pairs := front + ws;
    var g := GatherAll(pairs);
    PlainIsOrdinary(pairs);
    NormEntriesMembers(entries, depth, []);
    UnattributedHasNoBody(pairs);
    if g.plain == [] && g.body.Some? {
      BodyComesFromAPair(pairs);
      var k :| 0 <= k < |pairs| && pairs[k].key == VALUE_KEY && pairs[k].value.node == g.body.value;
      var j := k - |front|;
      assert pairs[k] == ws[j];
      NormIsNoLarger(entries[j].value, depth);
      MemberIsSmaller(entries, j);
      assert SizeNode(g.body.value) < SizeNode(Map(entries));
    }
  }

  lemma PrefixComesOff(entries: Entries, depth: nat, prefix: Bytes)
    requires NormEntries(entries, depth, prefix).Some?
    ensures NormEntries(entries, depth, []).Some?
    ensures NormEntries(entries, depth, prefix).value == Prefixed(NormEntries(entries, depth, []).value, prefix)
    decreases entries
  {
    if entries != [] {
      hide Norm;
      PrefixComesOff(entries[1..], depth, prefix);
      var ws := NormEntries(entries, depth, []).value;
      assert ws[0] == Entry([] + entries[0].key, Norm(entries[0].value, depth).value);
      assert [] + entries[0].key == entries[0].key;
      assert Prefixed(ws, prefix) == [Entry(prefix + ws[0].key, ws[0].value)] + Prefixed(ws[1..], prefix);
    }
  }

  /** Normalising the values keeps the keys, and so their order. */
  lemma KeysStay(entries: Entries, depth: nat)
    requires Sorted(entries) && NormEntries(entries, depth, []).Some?
    ensures Sorted(NormEntries(entries, depth, []).value)
    ensures NoReserved(entries) ==> NoReserved(NormEntries(entries, depth, []).value)
    ensures |NormEntries(entries, depth, []).value| == |entries|
  {
    NormEntriesMembers(entries, depth, []);
    assert forall i :: 0 <= i < |entries| ==> [] + entries[i].key == entries[i].key;
  }

  /** A value that comes back as itself is clean. */
  lemma {:induction false} NormalIsClean(v: Value, depth: nat)
    requires WellFormed(v) && Norm(v, depth) == Some(v)
    ensures Clean(v, depth)
    decreases v, 1
  {
    if v.attributes.Present? && v.attributes.entries != [] {
      var attributes := v.attributes.entries;
      PrefixComesOff(attributes, depth + 1, [0x40]);
      var back := NormEntries(attributes, depth + 1, []).value;
      var body := NormBody(v.node, depth + 1).value;
      AttributedComesBack(v, depth, back, body);
      NormalEntriesAreClean(attributes, depth + 1);
      if v.node.Map? {
        NormalEntriesAreClean(v.node.entries, depth + 1);
      } else {
        NormalNodeIsClean(v.node, depth + 1);
      }
    } else {
      NormNeverEmpty(v, depth);
      NormalNodeIsClean(v.node, depth);
    }
  }

  /** Nothing is read as having an empty attribute block. */
  lemma NormNeverEmpty(v: Value, depth: nat)
    requires Norm(v, depth) == Some(v)
    ensures v.attributes != Present([])
  {
    hide GatherAll, NormEntries, NormItems;
  }

  /** What an attributed value's coming back says of its parts. */
  lemma AttributedComesBack(v: Value, depth: nat, back: Entries, body: Entries)
    requires WellFormed(v) && v.attributes.Present? && v.attributes.entries != []
    requires NormEntries(v.attributes.entries, depth + 1, []) == Some(back) && NormBody(v.node, depth + 1) == Some(body)
    requires Build(Prefixed(back, [0x40]) + body) == Some(v)
    ensures back == v.attributes.entries
    ensures v.node.Map? ==> v.node.entries != [] && NoReserved(v.node.entries) && body == v.node.entries
    ensures !v.node.Map? ==> NormNode(v.node, depth + 1) == Some(Value(Absent, v.node))
  {
    hide Build, NormEntries, NormNode, Norm, Reserved;
    var attributes, front := v.attributes.entries, Prefixed(back, [0x40]);
    WellFormedIsSorted(attributes);
    KeysStay(attributes, depth + 1);
    if v.node.Map? {
      var entries := v.node.entries;
      if i :| 0 <= i < |entries| && Reserved(entries[i].key) {
        assert forall k :: 0 <= k < |front| ==> front[k].key[0] == 0x40;
        ReservedIsLost(front, entries, depth + 1, i);
      } else {
        WellFormedIsSorted(entries);
        KeysStay(entries, depth + 1);
        if entries == [] { BuildAttributedEntity(back); } else { BuildAttributedMap(back, body); }
      }
    } else if v.node.Entity? {
      BuildAttributedEntity(back);
      NormEntity(depth + 1);
    } else {
      NormOfNoMap(v.node, depth + 1);
      BuildAttributedNode(back, body[0].value.node);
    }
  }

  lemma NormEntity(depth: nat)
    ensures NormNode(Entity, depth) == Some(Value(Absent, Entity))
  {
  }

  lemma NormOfNoMap(node: Node, depth: nat)
    requires !node.Map? && NormNode(node, depth).Some?
    ensures NormNode(node, depth).value.attributes == Absent
  {
  }

  lemma {:induction false} NormalNodeIsClean(node: Node, depth: nat)
    requires WellFormedNode(node) && NormNode(node, depth) == Some(Value(Absent, node))
    ensures CleanNode(node, depth)
    decreases node, 1
  {
    match node {
      case List(items) => NormalItemsAreClean(items, depth + 1);
      case Map(entries) =>
        MapComesBack(entries, depth);
        NormalEntriesAreClean(entries, depth + 1);
      case _ =>
    }
  }

  lemma MapComesBack(entries: Entries, depth: nat)
    requires WellFormedEntries(entries) && depth + 1 <= MAX_DEPTH
    requires NormNode(Map(entries), depth) == Some(Value(Absent, Map(entries)))
    ensures NoReserved(entries) && NormEntries(entries, depth + 1, []) == Some(entries)
  {
    hide Build, NormEntries, Reserved;
    var ws := NormEntries(entries, depth + 1, []).value;
    assert [] + ws == ws;
    if i :| 0 <= i < |entries| && Reserved(entries[i].key) {
      ReservedIsLost([], entries, depth + 1, i);
    } else {
      WellFormedIsSorted(entries);
      KeysStay(entries, depth + 1);
      BuildPlainMap(ws);
    }
  }

  lemma {:induction false} NormalItemsAreClean(items: seq<Value>, depth: nat)
    requires WellFormedItems(items) && NormItems(items, depth) == Some(items)
    ensures CleanItems(items, depth)
    decreases items, 0
  {
    if items != [] {
      hide Norm, Clean;
      var w, ws := Norm(items[0], depth).value, NormItems(items[1..], depth).value;
      assert ([w] + ws)[0] == w && ([w] + ws)[1..] == ws;
      NormalIsClean(items[0], depth);
      NormalItemsAreClean(items[1..], depth);
    }
  }

  lemma {:induction false} NormalEntriesAreClean(entries: Entries, depth: nat)
    requires WellFormedEntries(entries) && NormEntries(entries, depth, []) == Some(entries)
    ensures CleanEntries(entries, depth)
    decreases entries, 0
  {
    if entries != [] {
      hide Norm, Clean;
      var w := Entry([] + entries[0].key, Norm(entries[0].value, depth).value);
      var ws := NormEntries(entries[1..], depth, []).value;
      assert ([w] + ws)[0] == w && ([w] + ws)[1..] == ws;
      NormalIsClean(entries[0].value, depth);
      NormalEntriesAreClean(entries[1..], depth);
    }
  }

  /** The serializer promises a round trip; it keeps the promise exactly on clean values. */
  lemma RoundTripsExactlyWhenClean(v: Value)
    requires WellFormed(v)
    ensures FromSlice(EncodeValue(v)) == Some(v) <==> Clean(v, 0)
  {
    FromSliceOfToVec(v);
    if Clean(v, 0) { CleanIsNormal(v, 0); }
    if Norm(v, 0) == Some(v) { NormalIsClean(v, 0); }
  }

  /** An attributed empty map comes back as an attributed entity. */
  lemma AttributedEmptyMapIsLost()
    ensures var attributes := [Entry([0x61], Value(Absent, Boolean(true)))];
      FromSlice(EncodeValue(Value(Present(attributes), Map([])))) == Some(Value(Present(attributes), Entity))
  {
    var attributes := [Entry([0x61], Value(Absent, Boolean(true)))];
    var v := Value(Present(attributes), Map([]));
    FromSliceOfToVec(v);
    CleanEntriesAreNormal(attributes, 1, [0x40]);
    BuildAttributedEntity(attributes);
  }
}
