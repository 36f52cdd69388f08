/** What the scanner walks over, as a syntax tree, and which of it the deserializer takes. The two
    agree on what a value is; they differ on separators, on bodies and on how deep a value is. */
module YsonSyntax {
  import opened Text
  import opened Yson
  import opened YsonCodec
  import opened YsonFaithful

  /** A value as it is written: separators are kept, and an item of a list has no key. */
  datatype Tree = Tree(block: Block, core: Core)

  datatype Block = NoBlock | Block(slots: seq<Slot>)

  datatype Core = Atom(node: Node) | ListOf(slots: seq<Slot>) | MapOf(slots: seq<Slot>)

  datatype Slot = Gap | Held(key: Bytes, value: Tree)

  datatype Walked<+T> = Walked(found: T, rest: Bytes) | Lost

  // ---------------------------------------------------------------- the tree of some bytes

  function Under(block: Block, r: Walked<Core>): Walked<Tree> {
    match r case Walked(core, rest) => Walked(Tree(block, core), rest) case Lost => Lost
  }

  function After(slot: Slot, r: Walked<seq<Slot>>): Walked<seq<Slot>> {
    match r case Walked(slots, rest) => Walked([slot] + slots, rest) case Lost => Lost
  }

  function Listed(r: Walked<seq<Slot>>): Walked<Core> {
    match r case Walked(slots, rest) => Walked(ListOf(slots), rest) case Lost => Lost
  }

  function Mapped(r: Walked<seq<Slot>>): Walked<Core> {
    match r case Walked(slots, rest) => Walked(MapOf(slots), rest) case Lost => Lost
  }

  function WalkTree(input: Bytes): (r: Walked<Tree>)
    ensures r.Walked? ==> Consumes(r.rest, input)
    decreases |input|, 0
  {
    match NextToken(input)
    case Got(BeginAttributes, rest) =>
      (match WalkPairs(rest, 0x3E)
       case Walked(slots, after) =>
         (match NextToken(after)
          case Got(token, body) => Under(Block.Block(slots), WalkObject(token, body))
          case _ => Lost)
       case Lost => Lost)
    case Got(token, rest) => Under(NoBlock, WalkObject(token, rest))
    case _ => Lost
  }

  function WalkObject(token: Token, rest: Bytes): (r: Walked<Core>)
    ensures r.Walked? ==> r.rest == rest || Consumes(r.rest, rest)
    decreases |rest|, 2
  {
    match token
    case Scalar(node) => Walked(Atom(node), rest)
    case BeginList => Listed(WalkItems(rest))
    case BeginMap => Mapped(WalkPairs(rest, 0x7D))
    case _ => Lost
  }

  function WalkItems(input: Bytes): (r: Walked<seq<Slot>>)
    ensures r.Walked? ==> Consumes(r.rest, input)
    decreases |input|, 1
  {
    if input == [] then Lost
    else if input[0] == 0x5D then Walked([], input[1..])
    else if input[0] == 0x3B then After(Gap, WalkItems(input[1..]))
    else
      match WalkTree(input)
      case Walked(tree, rest) => After(Held([], tree), WalkItems(rest))
      case Lost => Lost
  }

  function WalkPairs(input: Bytes, end: Byte): (r: Walked<seq<Slot>>)
    ensures r.Walked? ==> Consumes(r.rest, input)
    decreases |input|, 1
  {
    if input == [] then Lost
    else if input[0] == end then Walked([], input[1..])
    else if input[0] == 0x3B then After(Gap, WalkPairs(input[1..], end))
    else
      match NextToken(input)
      case Got(Scalar(String(key)), afterKey) =>
        (match NextToken(afterKey)
         case Got(Equals, afterEquals) =>
           (match WalkTree(afterEquals)
            case Walked(tree, rest) => After(Held(key, tree), WalkPairs(rest, end))
            case Lost => Lost)
         case _ => Lost)
      case _ => Lost
  }

  // ---------------------------------------------------------------- what the scanner takes

  /** No container, and no attribute block, more than the limit down: a block counts for what is
      in it, and not for the value behind it. */
  predicate Shallow(t: Tree, depth: nat)
    decreases t, 1
  {
    && (t.block.Block? ==> depth + 1 <= MAX_DEPTH && ShallowSlots(t.block.slots, depth + 1))
    && (!t.core.Atom? ==> depth + 1 <= MAX_DEPTH && ShallowSlots(t.core.slots, depth + 1))
  }

  predicate ShallowSlots(slots: seq<Slot>, depth: nat)
    decreases slots, 0
  {
    slots == [] || ((slots[0].Held? ==> Shallow(slots[0].value, depth)) && ShallowSlots(slots[1..], depth))
  }

  /** Scanning ended where walking did. */
  predicate Follows<T>(r: Scanned, w: Walked<T>) {
    r.Complete? ==> w.Walked? && r.rest == w.rest
  }

  /** The scanner follows a value to its end exactly when there is one and it is shallow. */
  lemma {:induction false} ScanIsWalk(input: Bytes, depth: nat)
    requires depth <= MAX_DEPTH
    ensures Follows(ScanTree(input, depth), WalkTree(input))
    ensures ScanTree(input, depth).Complete? <==> WalkTree(input).Walked? && Shallow(WalkTree(input).found, depth)
    decreases |input|, 0
  {
    hide NextToken, ScanObject, WalkObject, ScanPairs, WalkPairs;
    match NextToken(input)
    case Got(token, rest) =>
      if token == BeginAttributes {
        if depth + 1 <= MAX_DEPTH { PairsAreWalked(rest, depth + 1, 0x3E); }
        if WalkPairs(rest, 0x3E).Walked? {
          var after := NextToken(WalkPairs(rest, 0x3E).rest);
          if after.Got? { ObjectIsWalked(after.token, after.rest, depth); }
        }
      } else {
        ObjectIsWalked(token, rest, depth);
      }
    case _ =>
  }

  /** What of a tree is behind its block. */
  predicate ShallowObject(core: Core, depth: nat) {
    !core.Atom? ==> depth + 1 <= MAX_DEPTH && ShallowSlots(core.slots, depth + 1)
  }

  lemma {:induction false} ObjectIsWalked(token: Token, rest: Bytes, depth: nat)
    requires depth <= MAX_DEPTH
    ensures Follows(ScanObject(token, rest, depth), WalkObject(token, rest))
    ensures ScanObject(token, rest, depth).Complete? <==> WalkObject(token, rest).Walked? && ShallowObject(WalkObject(token, rest).found, depth)
    decreases |rest|, 2
  {
    hide ScanItems, ScanPairs, WalkItems, WalkPairs, ShallowSlots;
    if depth + 1 <= MAX_DEPTH {
      if token.BeginList? { ItemsAreWalked(rest, depth + 1); }
      if token.BeginMap? { PairsAreWalked(rest, depth + 1, 0x7D); }
    }
  }

  lemma {:induction false} ItemsAreWalked(input: Bytes, depth: nat)
    requires depth <= MAX_DEPTH
    ensures Follows(ScanItems(input, depth), WalkItems(input))
    ensures ScanItems(input, depth).Complete? <==> WalkItems(input).Walked? && ShallowSlots(WalkItems(input).found, depth)
    decreases |input|, 1
  {
    hide ScanTree, WalkTree, Shallow;
    if input == [] || input[0] == 0x5D {
    } else if input[0] == 0x3B {
      ItemsAreWalked(input[1..], depth);
    } else {
      ScanIsWalk(input, depth);
      if WalkTree(input).Walked? { ItemsAreWalked(WalkTree(input).rest, depth); }
    }
  }

  lemma {:induction false} PairsAreWalked(input: Bytes, depth: nat, end: Byte)
    requires depth <= MAX_DEPTH
    ensures Follows(ScanPairs(input, depth, end), WalkPairs(input, end))
    ensures ScanPairs(input, depth, end).Complete? <==> WalkPairs(input, end).Walked? && ShallowSlots(WalkPairs(input, end).found, depth)
    decreases |input|, 1
  {
    hide ScanTree, WalkTree, Shallow, NextToken;
    if input == [] || input[0] == end {
    } else if input[0] == 0x3B {
      PairsAreWalked(input[1..], depth, end);
    } else {
      var key := NextToken(input);
      if key.Got? && key.token.Scalar? && key.token.node.String? {
        var equals := NextToken(key.rest);
        if equals.Got? && equals.token == Equals {
          ScanIsWalk(equals.rest, depth);
          if WalkTree(equals.rest).Walked? { PairsAreWalked(WalkTree(equals.rest).rest, depth, end); }
        }
      }
    }
  }

  // ---------------------------------------------------------------- what the deserializer takes

  predicate Doubled(slots: seq<Slot>) {
    exists i :: 0 <= i < |slots| - 1 && slots[i].Gap? && slots[i + 1].Gap?
  }

  /** The keys of a map, with something in front of each. */
  function Keys(slots: seq<Slot>, prefix: Bytes): seq<Bytes> {
    if slots == [] then []
    else (if slots[0].Held? then [prefix + slots[0].key] else []) + Keys(slots[1..], prefix)
  }

  /** `$value` beside a key that is neither that nor an attribute's. */
  predicate TwoBodies(keys: seq<Bytes>) {
    VALUE_KEY in keys && exists i :: 0 <= i < |keys| && !Reserved(keys[i])
  }

  /** A value the deserializer takes: no list and no map without attributes doubles a separator,
      no map has two bodies, and no container is more than the limit down, counted with a level
      for each attribute block and one more for a list behind it. */
  predicate Readable(t: Tree, depth: nat)
    decreases t, 1
  {
    match t.block
    case NoBlock => ReadableObject(t.core, depth)
    case Block(slots) =>
      && depth + 1 <= MAX_DEPTH && ReadableSlots(slots, depth + 1)
      && (if t.core.MapOf? then ReadableSlots(t.core.slots, depth + 1) && !TwoBodies(Keys(t.core.slots, []))
          else ReadableObject(t.core, depth + 1))
  }

  predicate ReadableObject(core: Core, depth: nat)
    decreases core, 1
  {
    match core
    case Atom(_) => true
    case ListOf(slots) => depth + 1 <= MAX_DEPTH && !Doubled(slots) && ReadableSlots(slots, depth + 1)
    case MapOf(slots) =>
      depth + 1 <= MAX_DEPTH && !Doubled(slots) && !TwoBodies(Keys(slots, [])) && ReadableSlots(slots, depth + 1)
  }

  predicate ReadableSlots(slots: seq<Slot>, depth: nat)
    decreases slots, 0
  {
    slots == [] || ((slots[0].Held? ==> Readable(slots[0].value, depth)) && ReadableSlots(slots[1..], depth))
  }

  function PairKeys(pairs: Entries): seq<Bytes> {
    if pairs == [] then [] else PairKeys(pairs[..|pairs| - 1]) + [pairs[|pairs| - 1].key]
  }

  lemma {:induction false} PairKeysConcat(a: Entries, b: Entries)
    ensures PairKeys(a + b) == PairKeys(a) + PairKeys(b)
  {
    if b == [] {
      assert a + b == a;
    } else {
      var front := b[..|b| - 1];
      PairKeysConcat(a, front);
      assert (a + b)[..|a + b| - 1] == a + front;
    }
  }

  /** Building fails for two bodies and for nothing else. */
  lemma BuildsUnlessTwoBodies(pairs: Entries)
    ensures Build(pairs).Some? <==> !TwoBodies(PairKeys(pairs))
  {
    hide GatherAll, Reserved;
    GatheredKinds(pairs);
  }

  lemma {:induction false} GatheredKinds(pairs: Entries)
    ensures var g, keys := GatherAll(pairs), PairKeys(pairs);
      && (g.body.Some? <==> VALUE_KEY in keys)
      && (g.plain != [] <==> exists i :: 0 <= i < |keys| && !Reserved(keys[i]))
      && (VALUE_KEY in keys ==> g.attributed)
  {
    if pairs != [] {
      hide Insert, Extend, Reserved;
      var front, last := pairs[..|pairs| - 1], pairs[|pairs| - 1];
      GatheredKinds(front);
      GatherKind(GatherAll(front), last.key, last.value);
      var keys, before := PairKeys(pairs), PairKeys(front);
      assert keys == before + [last.key];
      if i :| 0 <= i < |before| && !Reserved(before[i]) { assert keys[i] == before[i]; }
      if !Reserved(last.key) { assert keys[|before|] == last.key; }
      if i :| 0 <= i < |keys| && !Reserved(keys[i]) { assert i < |before| ==> before[i] == keys[i]; }
    }
  }

  lemma GatherKind(g: Gathered, key: Bytes, value: Value)
    ensures var r := Gather(g, key, value);
      && (r.body.Some? <==> g.body.Some? || key == VALUE_KEY)
      && (r.plain != [] <==> g.plain != [] || !Reserved(key))
      && (g.attributed || key == VALUE_KEY ==> r.attributed)
  {
    hide Extend;
  }

  /** Attribute keys are neither a body nor ordinary, so they never make two bodies. */
  lemma AttributesAreNoBody(attributes: seq<Bytes>, keys: seq<Bytes>)
    requires forall i :: 0 <= i < |attributes| ==> IsAttributeKey(attributes[i])
    ensures TwoBodies(attributes + keys) <==> TwoBodies(keys)
  {
    var both := attributes + keys;
    if i :| 0 <= i < |keys| && !Reserved(keys[i]) { assert both[|attributes| + i] == keys[i]; }
    if i :| 0 <= i < |both| && !Reserved(both[i]) { assert i >= |attributes| && keys[i - |attributes|] == both[i]; }
  }

  lemma {:induction false} PrefixedKeys(slots: seq<Slot>)
    ensures forall i :: 0 <= i < |Keys(slots, [0x40])| ==> IsAttributeKey(Keys(slots, [0x40])[i])
  {
    if slots != [] { PrefixedKeys(slots[1..]); }
  }

  /** Decoding ended where walking did, and happened exactly when it should. */
  predicate Takes<T, U>(r: Parsed<T>, w: Walked<U>, fit: bool) {
    w.Walked? && (r.Done? <==> fit) && (r.Done? ==> r.rest == w.rest)
  }

  /** What follows an attribute block is readable on its own; a map there adds no level. */
  predicate ReadableBody(core: Core, depth: nat) {
    if core.MapOf? then ReadableSlots(core.slots, depth) else ReadableObject(core, depth)
  }

  /** The keys the flat presentation makes of what follows an attribute block. */
  function BodyKeys(core: Core): seq<Bytes> {
    match core
    case MapOf(slots) => Keys(slots, [])
    case Atom(Entity) => []
    case _ => [VALUE_KEY]
  }

  lemma OneBodyAlone(core: Core)
    ensures TwoBodies(BodyKeys(core)) <==> core.MapOf? && TwoBodies(Keys(core.slots, []))
  {
  }

  /** The token at the head of some bytes, told by its first byte. */
  lemma TokenAtHead(input: Bytes)
    requires NextToken(input).Got?
    ensures var token := NextToken(input).token;
      && input != []
      && (token == BeginAttributes <==> input[0] == 0x3C)
      && (token == BeginList <==> input[0] == 0x5B)
      && (token == BeginMap <==> input[0] == 0x7B)
      && (token == Scalar(Entity) <==> input[0] == 0x23)
      && (input[0] in {0x3C, 0x5B, 0x7B, 0x23} ==> NextToken(input).rest == input[1..])
  {
    LexedIsNoEntity(input[1..]);
  }

  lemma LexedIsNoEntity(body: Bytes)
    ensures LexString(body).Got? ==> LexString(body).token.Scalar? && LexString(body).token.node.String?
    ensures LexInt64(body).Got? ==> LexInt64(body).token.Scalar? && LexInt64(body).token.node.Int64?
    ensures LexUint64(body).Got? ==> LexUint64(body).token.Scalar? && LexUint64(body).token.node.Uint64?
    ensures LexDouble(body).Got? ==> LexDouble(body).token.Scalar? && LexDouble(body).token.node.Double?
  {
  }

  lemma BuiltAfter(attributes: Entries, body: Parsed<Entries>)
    ensures var r := Built(Joined(attributes, body));
      && (r.Done? <==> body.Done? && !TwoBodies(PairKeys(attributes) + PairKeys(body.value)))
      && (r.Done? ==> r.rest == body.rest)
  {
    hide TwoBodies, Build;
    if body.Done? {
      PairKeysConcat(attributes, body.value);
      BuildsUnlessTwoBodies(attributes + body.value);
    }
  }

  /** On a value that is there, the deserializer succeeds exactly when it is readable. */
  lemma {:induction false} DecodeIsReadable(input: Bytes, depth: nat)
    requires WalkTree(input).Walked?
    ensures Takes(DecodeValue(input, depth), WalkTree(input), Readable(WalkTree(input).found, depth))
    decreases |input|, 3
  {
    hide NextToken, WalkObject, WalkPairs, DecodePairs, DecodeBody, Built, ReadableSlots, ReadableObject, Keys, TwoBodies, PairKeys, DecodeValue;
    TokenAtHead(input);
    if input[0] == 0x3C {
      BlockIsRead(input, depth);
    } else {
      ObjectIsRead(input, depth);
    }
  }

  lemma {:induction false} BlockIsRead(input: Bytes, depth: nat)
    requires input != [] && input[0] == 0x3C && WalkTree(input).Walked?
    ensures Takes(DecodeValue(input, depth), WalkTree(input), Readable(WalkTree(input).found, depth))
    decreases |input|, 2
  {
    hide NextToken, WalkObject, WalkPairs, DecodePairs, DecodeBody, Built, Joined, ReadableSlots, ReadableObject, Keys, TwoBodies, PairKeys, BodyKeys;
    TokenAtHead(input);
    var pairs := WalkPairs(input[1..], 0x3E);
    var token := NextToken(pairs.rest);
    var core := WalkObject(token.token, token.rest);
    if depth + 1 <= MAX_DEPTH {
      PairsAreRead(input[1..], depth + 1, 0x3E, false, [0x40]);
      BodyIsRead(pairs.rest, depth + 1);
      var attributes, body := DecodePairs(input[1..], depth + 1, 0x3E, false, [0x40]), DecodeBody(pairs.rest, depth + 1);
      if attributes.Done? {
        BuiltAfter(attributes.value, body);
        PrefixedKeys(pairs.found);
        AttributesAreNoBody(Keys(pairs.found, [0x40]), BodyKeys(core.found));
        OneBodyAlone(core.found);
      }
    }
  }

  lemma {:induction false} BodyIsRead(input: Bytes, depth: nat)
    requires NextToken(input).Got? && WalkObject(NextToken(input).token, NextToken(input).rest).Walked?
    ensures var w, r := WalkObject(NextToken(input).token, NextToken(input).rest), DecodeBody(input, depth);
      && Takes(r, w, ReadableBody(w.found, depth))
      && (r.Done? ==> PairKeys(r.value) == BodyKeys(w.found))
    decreases |input|, 1
  {
    hide NextToken, WalkItems, WalkPairs, DecodePairs, DecodeValue, ReadableSlots, ReadableObject, Keys;
    TokenAtHead(input);
    if input[0] == 0x7B {
      PairsAreRead(input[1..], depth, 0x7D, false, []);
    } else if input[0] == 0x23 {
      EntityIsReadable(depth);
    } else {
      ObjectIsRead(input, depth);
    }
  }

  lemma EntityIsReadable(depth: nat)
    ensures ReadableObject(Atom(Entity), depth)
  {
  }

  lemma {:induction false} ObjectIsRead(input: Bytes, depth: nat)
    requires NextToken(input).Got? && input[0] != 0x3C
    requires WalkObject(NextToken(input).token, NextToken(input).rest).Walked?
    ensures var w := WalkObject(NextToken(input).token, NextToken(input).rest);
      Takes(DecodeValue(input, depth), w, ReadableObject(w.found, depth))
    decreases |input|, 0
  {
    hide NextToken, WalkItems, WalkPairs, DecodePairs, DecodeItems, ReadableSlots, Keys, TwoBodies, PairKeys, Built, Doubled;
    TokenAtHead(input);
    var token, rest := NextToken(input).token, NextToken(input).rest;
    if depth + 1 <= MAX_DEPTH {
      if token == BeginList { ItemsAreRead(rest, depth + 1); }
      if token == BeginMap {
        PairsAreRead(rest, depth + 1, 0x7D, true, []);
        BuiltFrom(DecodePairs(rest, depth + 1, 0x7D, true, []));
      }
    }
  }

  lemma BuiltFrom(pairs: Parsed<Entries>)
    ensures Built(pairs).Done? <==> pairs.Done? && !TwoBodies(PairKeys(pairs.value))
    ensures Built(pairs).Done? ==> Built(pairs).rest == pairs.rest
  {
    hide TwoBodies, Build;
    if pairs.Done? { BuildsUnlessTwoBodies(pairs.value); }
  }

  lemma DoubledCons(slot: Slot, rest: seq<Slot>)
    ensures Doubled([slot] + rest) <==> (slot.Gap? && rest != [] && rest[0].Gap?) || Doubled(rest)
  {
    var slots := [slot] + rest;
    if i :| 0 <= i < |rest| - 1 && rest[i].Gap? && rest[i + 1].Gap? { assert slots[i + 1].Gap? && slots[i + 2].Gap?; }
    if slot.Gap? && rest != [] && rest[0].Gap? { assert slots[0].Gap? && slots[1].Gap?; }
    if i :| 0 <= i < |slots| - 1 && slots[i].Gap? && slots[i + 1].Gap? { assert i > 0 ==> rest[i - 1].Gap? && rest[i].Gap?; }
  }

  lemma HeadOfItems(input: Bytes)
    requires WalkItems(input).Walked?
    ensures input != [] && (input[0] == 0x3B <==> WalkItems(input).found != [] && WalkItems(input).found[0].Gap?)
  {
    hide WalkTree;
  }

  lemma HeadOfPairs(input: Bytes, end: Byte)
    requires WalkPairs(input, end).Walked? && end != 0x3B
    ensures input != [] && (input[0] == 0x3B <==> WalkPairs(input, end).found != [] && WalkPairs(input, end).found[0].Gap?)
  {
    hide WalkTree, NextToken;
  }

  lemma {:induction false} ItemsAreRead(input: Bytes, depth: nat)
    requires WalkItems(input).Walked?
    ensures var w := WalkItems(input);
      Takes(DecodeItems(input, depth), w, !Doubled(w.found) && ReadableSlots(w.found, depth))
    decreases |input|, 4
  {
    hide WalkTree, DecodeValue, Readable, Doubled;
    if input[0] == 0x5D {
      EmptyIsNotDoubled();
    } else if input[0] == 0x3B {
      HeadOfItems(input[1..]);
      ItemsAreRead(input[1..], depth);
      DoubledCons(Gap, WalkItems(input[1..]).found);
    } else {
      DecodeIsReadable(input, depth);
      var tree := WalkTree(input);
      ItemsAreRead(tree.rest, depth);
      DoubledCons(Held([], tree.found), WalkItems(tree.rest).found);
    }
  }

  lemma EmptyIsNotDoubled()
    ensures !Doubled([])
  {
  }

  lemma {:induction false} PairsAreRead(input: Bytes, depth: nat, end: Byte, strict: bool, prefix: Bytes)
    requires WalkPairs(input, end).Walked? && end != 0x3B
    ensures var w, r := WalkPairs(input, end), DecodePairs(input, depth, end, strict, prefix);
      && Takes(r, w, (strict ==> !Doubled(w.found)) && ReadableSlots(w.found, depth))
      && (r.Done? ==> PairKeys(r.value) == Keys(w.found, prefix))
    decreases |input|, 4
  {
    hide WalkTree, DecodeValue, Readable, Doubled, NextToken, PairKeys;
    if input[0] == end {
      EmptyIsNotDoubled();
      NoKeys();
    } else if input[0] == 0x3B {
      HeadOfPairs(input[1..], end);
      PairsAreRead(input[1..], depth, end, strict, prefix);
      DoubledCons(Gap, WalkPairs(input[1..], end).found);
    } else {
      var key := NextToken(input);
      var value := NextToken(key.rest).rest;
      DecodeIsReadable(value, depth);
      var tree := WalkTree(value);
      PairsAreRead(tree.rest, depth, end, strict, prefix);
      DoubledCons(Held(key.token.node.bytes, tree.found), WalkPairs(tree.rest, end).found);
      var first, others := DecodeValue(value, depth), DecodePairs(tree.rest, depth, end, strict, prefix);
      if first.Done? && others.Done? {
        KeysOfOneMore(Entry(prefix + key.token.node.bytes, first.value), others.value);
      }
    }
  }

  lemma NoKeys()
    ensures PairKeys([]) == []
  {
  }

  lemma KeysOfOneMore(entry: Entry, pairs: Entries)
    ensures PairKeys([entry] + pairs) == [entry.key] + PairKeys(pairs)
  {
    PairKeysConcat([entry], pairs);
    assert [entry][..0] == [];
  }

  // ---------------------------------------------------------------- when a scanned value is decoded

  /** The scanner says that whatever it accepts can be decoded. Of all bytes it accepts to the end,
      those that can be decoded are exactly the ones whose value is readable. */
  lemma DecodedExactlyWhenReadable(input: Bytes)
    requires ScanTree(input, 0) == Complete([])
    ensures WalkTree(input).Walked? && WalkTree(input).rest == [] && Shallow(WalkTree(input).found, 0)
    ensures FromSlice(input).Some? <==> Readable(WalkTree(input).found, 0)
  {
    hide ScanTree, WalkTree, DecodeValue, Readable, Shallow;
    ScanIsWalk(input, 0);
    DecodeIsReadable(input, 0);
  }

  /** The other way round it keeps its word: whatever decodes, if it is walked over at all, is
      shallow enough to be scanned. */
  lemma {:induction false} ReadableIsShallow(t: Tree, depth: nat)
    requires Readable(t, depth) && depth <= MAX_DEPTH
    ensures Shallow(t, depth)
    decreases t, 1
  {
    hide TwoBodies, Doubled, Keys;
    if t.block.Block? {
      SlotsAreShallow(t.block.slots, depth + 1);
      if !t.core.Atom? {
        SlotsAreShallow(t.core.slots, if t.core.ListOf? then depth + 2 else depth + 1);
        if t.core.ListOf? { ShallowerToo(t.core.slots, depth + 1); }
      }
    } else if !t.core.Atom? {
      SlotsAreShallow(t.core.slots, depth + 1);
    }
  }

  lemma {:induction false} SlotsAreShallow(slots: seq<Slot>, depth: nat)
    requires ReadableSlots(slots, depth) && depth <= MAX_DEPTH
    ensures ShallowSlots(slots, depth)
    decreases slots, 0
  {
    hide Readable, Shallow;
    if slots != [] {
      if slots[0].Held? { ReadableIsShallow(slots[0].value, depth); }
      SlotsAreShallow(slots[1..], depth);
    }
  }

  lemma {:induction false} ShallowerToo(slots: seq<Slot>, depth: nat)
    requires ShallowSlots(slots, depth + 1)
    ensures ShallowSlots(slots, depth)
    decreases slots, 0
  {
    if slots != [] {
      if slots[0].Held? { TreeShallowerToo(slots[0].value, depth); }
      ShallowerToo(slots[1..], depth);
    }
  }

  lemma {:induction false} TreeShallowerToo(t: Tree, depth: nat)
    requires Shallow(t, depth + 1)
    ensures Shallow(t, depth)
    decreases t, 1
  {
    if t.block.Block? { ShallowerToo(t.block.slots, depth + 1); }
    if !t.core.Atom? { ShallowerToo(t.core.slots, depth + 1); }
  }

  // ---------------------------------------------------------------- three ways to be refused

  const NOTHING: Tree := Tree(NoBlock, Atom(Entity))

  lemma WalkNothing(more: Bytes)
    ensures WalkTree([0x23] + more) == Walked(NOTHING, more)
  {
    assert ([0x23] + more)[1..] == more;
  }

  lemma WalkGap(more: Bytes)
    ensures WalkItems([0x3B] + more) == After(Gap, WalkItems(more))
  {
    assert ([0x3B] + more)[1..] == more;
  }

  lemma WalkItem(item: Bytes, tree: Tree, more: Bytes)
    requires item != [] && item[0] !in {0x5D, 0x3B} && WalkTree(item + more) == Walked(tree, more)
    ensures WalkItems(item + more) == After(Held([], tree), WalkItems(more))
  {
    hide WalkTree;
  }

  lemma WalkListEnd(more: Bytes)
    ensures WalkItems([0x5D] + more) == Walked([], more)
  {
    assert ([0x5D] + more)[1..] == more;
  }

  lemma WalkList(body: Bytes)
    ensures WalkTree([0x5B] + body) == Under(NoBlock, Listed(WalkItems(body)))
  {
    assert ([0x5B] + body)[1..] == body;
  }

  lemma {:induction false} NothingIsShallow(slots: seq<Slot>, depth: nat)
    requires depth <= MAX_DEPTH && forall i :: 0 <= i < |slots| && slots[i].Held? ==> slots[i].value == NOTHING
    ensures ShallowSlots(slots, depth)
  {
    if slots != [] { NothingIsShallow(slots[1..], depth); }
  }

  /** `[#;;#]` is scanned to its end and refused. */
  lemma DoubledSeparatorIsRefused()
    ensures var input := [0x5B, 0x23, 0x3B, 0x3B, 0x23, 0x5D];
      ScanTree(input, 0) == Complete([]) && FromSlice(input).None?
  {
    hide ScanTree, FromSlice, WalkTree, WalkItems;
    var end: Bytes := [0x5D];
    var input: Bytes := [0x5B, 0x23, 0x3B, 0x3B, 0x23, 0x5D];
    var slots := [Held([], NOTHING), Gap, Gap, Held([], NOTHING)];
    assert input == [0x5B] + ([0x23] + ([0x3B] + ([0x3B] + ([0x23] + end))));
    assert end == [0x5D] + [];
    WalkListEnd([]);
    WalkNothing(end);
    WalkItem([0x23], NOTHING, end);
    WalkGap([0x23] + end);
    WalkGap([0x3B] + ([0x23] + end));
    WalkNothing([0x3B] + ([0x3B] + ([0x23] + end)));
    WalkItem([0x23], NOTHING, [0x3B] + ([0x3B] + ([0x23] + end)));
    WalkList([0x23] + ([0x3B] + ([0x3B] + ([0x23] + end))));
    var tree := Tree(NoBlock, ListOf(slots));
    assert WalkTree(input).Walked? && WalkTree(input).found.core.slots == slots;
    assert WalkTree(input) == Walked(tree, []);
    assert slots[1].Gap? && slots[2].Gap?;
    NothingIsShallow(slots, 1);
    ScanIsWalk(input, 0);
    DecodedExactlyWhenReadable(input);
  }

  /** `n` lists, one in another, each with an attribute. */
  function Nested(n: nat): (r: Bytes)
    ensures r != [] && r[0] in {0x23, 0x3C}
  {
    if n == 0 then [0x23]
    else [0x3C] + (ATTRIBUTE + ([0x3D] + ([0x23] + ([0x3E] + ([0x5B] + (Nested(n - 1) + [0x5D]))))))
  }

  function NestedTree(n: nat): Tree {
    if n == 0 then NOTHING else Tree(Block.Block([Held([0x61], NOTHING)]), ListOf([Held([], NestedTree(n - 1))]))
  }

  lemma LastSlot(slot: Slot, more: Bytes)
    ensures After(slot, Walked([], more)) == Walked([slot], more)
  {
    assert [slot] + [] == [slot];
  }

  const ATTRIBUTE: Bytes := [0x01, 0x02, 0x61]

  /** One pair at the front of a block. */
  lemma WalkPair(key: Bytes, value: Bytes, tree: Tree, more: Bytes)
    requires key != [] && key[0] !in {0x3E, 0x3B}
    requires NextToken(key + ([0x3D] + (value + more))) == Got(Scalar(String([0x61])), [0x3D] + (value + more))
    requires NextToken([0x3D] + (value + more)) == Got(Equals, value + more)
    requires WalkTree(value + more) == Walked(tree, more)
    ensures WalkPairs(key + ([0x3D] + (value + more)), 0x3E) == After(Held([0x61], tree), WalkPairs(more, 0x3E))
  {
    hide WalkTree, NextToken;
  }

  lemma WalkBlockEnd(more: Bytes)
    ensures WalkPairs([0x3E] + more, 0x3E) == Walked([], more)
  {
    assert ([0x3E] + more)[1..] == more;
  }

  lemma EqualsAtHead(more: Bytes)
    ensures NextToken([0x3D] + more) == Got(Equals, more)
  {
    assert ([0x3D] + more)[1..] == more;
  }

  lemma WalkAttribute(more: Bytes)
    ensures WalkPairs(ATTRIBUTE + ([0x3D] + ([0x23] + ([0x3E] + more))), 0x3E) == Walked([Held([0x61], NOTHING)], more)
  {
    hide WalkTree, NextToken, WalkPairs;
    var end := [0x3E] + more;
    KeyToken([0x3D] + ([0x23] + end));
    EqualsAtHead([0x23] + end);
    WalkNothing(end);
    WalkPair(ATTRIBUTE, [0x23], NOTHING, end);
    WalkBlockEnd(more);
    LastSlot(Held([0x61], NOTHING), more);
  }

  lemma KeyToken(more: Bytes)
    ensures NextToken(ATTRIBUTE + more) == Got(Scalar(String([0x61])), more)
  {
    var body := [0x02, 0x61] + more;
    assert (ATTRIBUTE + more)[1..] == body;
    assert body[1..] == [0x61] + more;
    assert ReadUvarint(body, 0) == Read(2, [0x61] + more);
    assert ([0x61] + more)[..1] == [0x61] && ([0x61] + more)[1..] == more;
  }

  lemma {:induction false} WalkNested(n: nat, more: Bytes)
    ensures WalkTree(Nested(n) + more) == Walked(NestedTree(n), more)
  {
    hide WalkTree, WalkPairs, WalkItems, NextToken;
    if n == 0 {
      WalkNothing(more);
    } else {
      var items := Nested(n - 1) + ([0x5D] + more);
      WalkNested(n - 1, [0x5D] + more);
      WalkListEnd(more);
      WalkItem(Nested(n - 1), NestedTree(n - 1), [0x5D] + more);
      LastSlot(Held([], NestedTree(n - 1)), more);
      WalkAttribute([0x5B] + items);
      WalkBlock(ATTRIBUTE + ([0x3D] + ([0x23] + ([0x3E] + ([0x5B] + items)))), [Held([0x61], NOTHING)], items);
      NestedThen(n, more);
    }
  }

  lemma NestedThen(n: nat, more: Bytes)
    requires n > 0
    ensures Nested(n) + more ==
      [0x3C] + (ATTRIBUTE + ([0x3D] + ([0x23] + ([0x3E] + ([0x5B] + (Nested(n - 1) + ([0x5D] + more)))))))
  {
    var inner := Nested(n - 1);
    assert (inner + [0x5D]) + more == inner + ([0x5D] + more);
  }

  /** A block, and a list behind it. */
  lemma WalkBlock(pairs: Bytes, slots: seq<Slot>, items: Bytes)
    requires WalkPairs(pairs, 0x3E) == Walked(slots, [0x5B] + items)
    ensures WalkTree([0x3C] + pairs) == Under(Block.Block(slots), Listed(WalkItems(items)))
  {
    hide WalkPairs, WalkItems;
    assert ([0x3C] + pairs)[1..] == pairs;
    assert ([0x5B] + items)[1..] == items;
  }

  lemma OneSlot(key: Bytes, tree: Tree, depth: nat)
    ensures ShallowSlots([Held(key, tree)], depth) <==> Shallow(tree, depth)
    ensures ReadableSlots([Held(key, tree)], depth) <==> Readable(tree, depth)
    ensures !Doubled([Held(key, tree)])
  {
    hide Shallow, Readable;
    assert [Held(key, tree)][1..] == [];
  }

  lemma NothingFits(depth: nat)
    ensures Readable(NOTHING, depth) && Shallow(NOTHING, depth)
  {
  }

  lemma NestedUnfolds(n: nat, depth: nat)
    requires n > 0
    ensures Shallow(NestedTree(n), depth) <==> depth + 1 <= MAX_DEPTH && Shallow(NestedTree(n - 1), depth + 1)
    ensures Readable(NestedTree(n), depth) <==> depth + 2 <= MAX_DEPTH && Readable(NestedTree(n - 1), depth + 2)
  {
    hide ShallowSlots, ReadableSlots, Doubled;
    OneSlot([], NestedTree(n - 1), depth + 1);
    OneSlot([], NestedTree(n - 1), depth + 2);
    OneSlot([0x61], NOTHING, depth + 1);
    NothingFits(depth + 1);
  }

  lemma {:induction false} NestedDepths(n: nat, depth: nat)
    ensures Shallow(NestedTree(n), depth) <==> n == 0 || depth + n <= MAX_DEPTH
    ensures Readable(NestedTree(n), depth) <==> n == 0 || depth + 2 * n <= MAX_DEPTH
  {
    NothingFits(depth);
    if n > 0 {
      hide Shallow, Readable, ShallowSlots, ReadableSlots, Doubled;
      NestedDepths(n - 1, depth + 1);
      NestedDepths(n - 1, depth + 2);
      NestedUnfolds(n, depth);
    }
  }

  /** The two limits are one number and not one depth: of lists that each have an attribute, the
      scanner follows 128, one in another, and the deserializer takes 64. */
  lemma AttributedListsCountTwice(n: nat)
    ensures ScanTree(Nested(n), 0) == Complete([]) <==> n <= 128
    ensures FromSlice(Nested(n)).Some? <==> n <= 64
  {
    hide ScanTree, WalkTree, DecodeValue, Readable, Shallow;
    assert Nested(n) + [] == Nested(n);
    WalkNested(n, []);
    NestedDepths(n, 0);
    ScanIsWalk(Nested(n), 0);
    DecodeIsReadable(Nested(n), 0);
  }
}
