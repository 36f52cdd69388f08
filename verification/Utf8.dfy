/** UTF-8 as section 3 of RFC 3629 has it, and where a string of bytes may be cut. */
module Utf8 {
  import opened Text
  import opened Yson

  function Trail(n: nat): (r: Byte)
    ensures 0x80 <= r < 0xC0
  {
    0x80 + n % 0x40
  }

  function EncodeChar(c: char): (r: Bytes)
    ensures 1 <= |r| <= 4
  {
    var n := c as int;
    if n < 0x80 then [n]
    else if n < 0x800 then [0xC0 + n / 0x40, Trail(n)]
    else if n < 0x1_0000 then [0xE0 + n / 0x1000, Trail(n / 0x40), Trail(n)]
    else [0xF0 + n / 0x4_0000, Trail(n / 0x1000), Trail(n / 0x40), Trail(n)]
  }

  function Encode(text: string): Bytes {
    if text == "" then [] else EncodeChar(text[0]) + Encode(text[1..])
  }

  predicate IsTrail(byte: Byte) { 0x80 <= byte < 0xC0 }

  /** How many bytes the first character takes, by the table of well-formed sequences; zero when
      there is no such character. */
  function Width(b: Bytes): (n: nat)
    ensures n <= |b| && n <= 4
  {
    if b == [] then 0
    else if b[0] < 0x80 then 1
    else if 0xC2 <= b[0] < 0xE0 then if |b| >= 2 && IsTrail(b[1]) then 2 else 0
    else if 0xE0 <= b[0] < 0xF0 then
      if |b| >= 3 && IsTrail(b[1]) && IsTrail(b[2]) && (b[0] == 0xE0 ==> b[1] >= 0xA0) && (b[0] == 0xED ==> b[1] < 0xA0)
      then 3 else 0
    else if 0xF0 <= b[0] < 0xF5 then
      if |b| >= 4 && IsTrail(b[1]) && IsTrail(b[2]) && IsTrail(b[3]) && (b[0] == 0xF0 ==> b[1] >= 0x90) && (b[0] == 0xF4 ==> b[1] < 0x90)
      then 4 else 0
    else 0
  }

  function Past(byte: Byte, mark: nat): int { byte - mark }

  /** The scalar value of a first character of that width. */
  function Scalar(b: Bytes): (n: nat)
    requires Width(b) > 0
    ensures n < 0xD800 || 0xE000 <= n < 0x11_0000
  {
    match Width(b)
    case 1 => b[0]
    case 2 => Past(b[0], 0xC0) * 0x40 + Past(b[1], 0x80)
    case 3 => Past(b[0], 0xE0) * 0x1000 + Past(b[1], 0x80) * 0x40 + Past(b[2], 0x80)
    case _ => Past(b[0], 0xF0) * 0x4_0000 + Past(b[1], 0x80) * 0x1000 + Past(b[2], 0x80) * 0x40 + Past(b[3], 0x80)
  }

  /** `str::from_utf8`. */
  function Decode(b: Bytes): Option<string> {
    if b == [] then Some("")
    else if Width(b) == 0 then None
    else
      match Decode(b[Width(b)..])
      case None => None
      case Some(rest) => Some([Scalar(b) as char] + rest)
  }

  predicate Valid(b: Bytes) { Decode(b).Some? }

  // ---------------------------------------------------------------- the table is the encoding

  /** A character's encoding is read back whatever follows it. */
  lemma CharReadsBack(c: char, more: Bytes)
    ensures Width(EncodeChar(c) + more) == |EncodeChar(c)|
    ensures Scalar(EncodeChar(c) + more) == c as int
  {
    if c as int >= 0x1_0000 { LongestReadsBack(c, more); } else { ShortReadsBack(c, more); }
  }

  lemma ShortReadsBack(c: char, more: Bytes)
    requires c as int < 0x1_0000
    ensures Width(EncodeChar(c) + more) == |EncodeChar(c)|
    ensures Scalar(EncodeChar(c) + more) == c as int
  {
    var n, b := c as int, EncodeChar(c) + more;
    assert forall i :: 0 <= i < |EncodeChar(c)| ==> b[i] == EncodeChar(c)[i];
    assert n / 0x40 == 0x40 * (n / 0x1000) + n / 0x40 % 0x40;
  }

  lemma LongestReadsBack(c: char, more: Bytes)
    requires c as int >= 0x1_0000
    ensures |EncodeChar(c)| == 4
    ensures Width(EncodeChar(c) + more) == 4 && Scalar(EncodeChar(c) + more) == c as int
  {
    var n := c as int;
    var b0, b1, b2, b3 := 0xF0 + n / 0x4_0000, Trail(n / 0x1000), Trail(n / 0x40), Trail(n);
    assert EncodeChar(c) == [b0, b1, b2, b3];
    assert n / 0x1000 == 0x40 * (n / 0x4_0000) + n / 0x1000 % 0x40;
    assert n / 0x40 == 0x40 * (n / 0x1000) + n / 0x40 % 0x40;
    FourAreRead(b0, b1, b2, b3, more);
  }

  lemma FourAreRead(b0: Byte, b1: Byte, b2: Byte, b3: Byte, more: Bytes)
    requires 0xF0 <= b0 < 0xF5 && IsTrail(b1) && IsTrail(b2) && IsTrail(b3)
    requires (b0 == 0xF0 ==> b1 >= 0x90) && (b0 == 0xF4 ==> b1 < 0x90)
    ensures var b := [b0, b1, b2, b3] + more;
      && Width(b) == 4
      && Scalar(b) == Past(b0, 0xF0) * 0x4_0000 + Past(b1, 0x80) * 0x1000 + Past(b2, 0x80) * 0x40 + Past(b3, 0x80)
  {
    var b := [b0, b1, b2, b3] + more;
    assert b[0] == b0 && b[1] == b1 && b[2] == b2 && b[3] == b3;
  }

  lemma DecodeFirst(c: char, rest: Bytes)
    ensures Decode(EncodeChar(c) + rest) == if Decode(rest).Some? then Some([c] + Decode(rest).value) else None
  {
    hide Width, Scalar, EncodeChar;
    CharReadsBack(c, rest);
    assert (EncodeChar(c) + rest)[|EncodeChar(c)|..] == rest;
  }

  /** Text in front of other bytes is read first, and leaves them to be read. */
  lemma {:induction false} TextThenMore(text: string, more: Bytes)
    ensures Decode(Encode(text) + more) == if Decode(more).Some? then Some(text + Decode(more).value) else None
  {
    hide Decode, EncodeChar;
    if text == "" {
      assert Encode(text) + more == more;
      if Decode(more).Some? { assert text + Decode(more).value == Decode(more).value; }
    } else {
      var rest := Encode(text[1..]) + more;
      assert Encode(text) + more == EncodeChar(text[0]) + rest;
      DecodeFirst(text[0], rest);
      TextThenMore(text[1..], more);
      if Decode(more).Some? {
        assert [text[0]] + (text[1..] + Decode(more).value) == text + Decode(more).value;
      }
    }
  }

  lemma DecodeEncode(text: string)
    ensures Decode(Encode(text)) == Some(text)
  {
    TextThenMore(text, []);
    assert Encode(text) + [] == Encode(text) && text + "" == text;
  }

  lemma {:induction false} AsciiBytes(text: string)
    requires forall i :: 0 <= i < |text| ==> text[i] as int < 128
    ensures |Encode(text)| == |text| && forall i :: 0 <= i < |text| ==> Encode(text)[i] == text[i] as int
  {
    if text != "" { AsciiBytes(text[1..]); }
  }

  lemma ScalarWritesBack(b: Bytes)
    requires Width(b) > 0
    ensures EncodeChar(Scalar(b) as char) == b[..Width(b)]
  {
    if Width(b) == 4 { FourWriteBack(b[0], b[1], b[2], b[3]); }
    else if Width(b) == 3 { ThreeWriteBack(b[0], b[1], b[2]); }
  }

  lemma FourWriteBack(a: Byte, b: Byte, c: Byte, d: Byte)
    requires Width([a, b, c, d]) == 4
    ensures EncodeChar(Scalar([a, b, c, d]) as char) == [a, b, c, d]
  {
    var n := Scalar([a, b, c, d]);
    assert n / 0x40 == (a - 0xF0) * 0x1000 + (b - 0x80) * 0x40 + (c - 0x80);
    assert n / 0x1000 == (a - 0xF0) * 0x40 + (b - 0x80);
    assert n / 0x4_0000 == a - 0xF0;
  }

  lemma ThreeWriteBack(a: Byte, b: Byte, c: Byte)
    requires Width([a, b, c]) == 3
    ensures EncodeChar(Scalar([a, b, c]) as char) == [a, b, c]
  {
    var n := Scalar([a, b, c]);
    assert n / 0x40 == (a - 0xE0) * 0x40 + (b - 0x80);
    assert n / 0x1000 == a - 0xE0;
  }

  /** Reading is the exact inverse of writing: bytes are accepted when they are the encoding of
      some text, and only of the text read. */
  lemma {:induction false} EncodeDecode(b: Bytes, text: string)
    ensures Decode(b) == Some(text) <==> b == Encode(text)
  {
    DecodeEncode(text);
    if Decode(b) == Some(text) { Written(b); }
  }

  lemma {:induction false} Written(b: Bytes)
    requires Valid(b)
    ensures b == Encode(Decode(b).value)
  {
    hide Width, Scalar, EncodeChar;
    if b != [] {
      ScalarWritesBack(b);
      Written(b[Width(b)..]);
      assert b == b[..Width(b)] + b[Width(b)..];
      assert ([Scalar(b) as char] + Decode(b[Width(b)..]).value)[1..] == Decode(b[Width(b)..]).value;
    }
  }

  // ---------------------------------------------------------------- where to cut

  /** `is_char_boundary`: an end, or a byte that does not continue a character. */
  predicate IsCharBoundary(b: Bytes, i: nat) {
    i == 0 || i == |b| || (i < |b| && !IsTrail(b[i]))
  }

  /** The bytes of the first character, cut short, are no text; any other first bytes are when
      the rest of them is. */
  lemma FirstCharacter(b: Bytes, i: nat)
    requires b != [] && Valid(b) && i <= |b|
    ensures 0 < Width(b) <= |b| && Valid(b[Width(b)..])
    ensures 0 < i < Width(b) ==> IsTrail(b[i]) && !Valid(b[..i])
    ensures i >= Width(b) ==> (Valid(b[..i]) <==> Valid(b[Width(b)..i]))
    ensures Width(b) < |b| ==> !IsTrail(b[Width(b)])
  {
    var n := Width(b);
    if 0 < i < n {
      assert Width(b[..i]) == 0;
    } else if i >= n {
      WidthOfPrefix(b, i);
      assert b[..i][n..] == b[n..i];
      assert i > 0 ==> b[..i] != [];
    }
    if n < |b| {
      assert b[n..][0] == b[n];
      StartsACharacter(b[n..]);
    }
  }

  lemma StartsACharacter(b: Bytes)
    requires b != [] && Valid(b)
    ensures Width(b) > 0 && !IsTrail(b[0])
  {
  }

  lemma WidthOfPrefix(b: Bytes, i: nat)
    requires 0 < Width(b) <= i <= |b|
    ensures Width(b[..i]) == Width(b)
  {
    assert forall k :: 0 <= k < i ==> b[..i][k] == b[k];
  }

  /** The boundaries a text reports are exactly the places where cutting it leaves two texts. */
  lemma {:induction false} BoundaryIsACut(b: Bytes, i: nat)
    requires Valid(b) && i <= |b|
    ensures IsCharBoundary(b, i) <==> Valid(b[..i]) && Valid(b[i..])
    decreases |b|
  {
    hide Width, Decode;
    if i == 0 || i == |b| {
      assert b[..0] == [] && b[|b|..] == [] && b[..|b|] == b && b[0..] == b;
      EmptyIsValid();
    } else {
      FirstCharacter(b, i);
      var n := Width(b);
      if i >= n {
        BoundaryIsACut(b[n..], i - n);
        assert b[n..][i - n..] == b[i..];
        assert b[n..][..i - n] == b[n..i];
        assert i > n ==> b[n..][i - n] == b[i];
      }
    }
  }

  lemma EmptyIsValid()
    ensures Valid([])
  {
  }

  predicate BoundaryBelow(b: Bytes, i: nat) {
    exists j: nat :: i - 3 <= j <= i && IsCharBoundary(b, j)
  }

  predicate BoundaryAbove(b: Bytes, i: nat) {
    exists j: nat :: i <= j <= i + 3 && j <= |b| && IsCharBoundary(b, j)
  }

  /** A boundary is never more than three bytes away, on either side. */
  lemma {:induction false} NearBoundary(b: Bytes, i: nat)
    requires Valid(b) && i <= |b|
    ensures BoundaryBelow(b, i) && BoundaryAbove(b, i)
    decreases |b|
  {
    hide Width, Decode, IsCharBoundary;
    EndIsBoundary(b);
    if 0 < i < |b| {
      FirstCharacter(b, i);
      var n := Width(b);
      FirstIsBounded(b);
      if i >= n {
        var rest := b[n..];
        NearBoundary(rest, i - n);
        var down: nat :| i - n - 3 <= down <= i - n && IsCharBoundary(rest, down);
        var up: nat :| i - n <= up <= i - n + 3 && up <= |rest| && IsCharBoundary(rest, up);
        ShiftedBoundary(b, n, down);
        ShiftedBoundary(b, n, up);
      }
    }
  }

  /** The first character takes at most four bytes, and ends on a boundary. */
  lemma FirstIsBounded(b: Bytes)
    requires b != [] && Valid(b)
    ensures 0 < Width(b) <= 4 && Width(b) <= |b| && IsCharBoundary(b, Width(b))
  {
    hide Width, Decode;
    FirstCharacter(b, 0);
    AtMostFour(b);
  }

  lemma AtMostFour(b: Bytes)
    ensures Width(b) <= 4
  {
  }

  lemma ShiftedBoundary(b: Bytes, n: nat, i: nat)
    requires n + i <= |b| && IsCharBoundary(b, n) && IsCharBoundary(b[n..], i)
    ensures IsCharBoundary(b, n + i)
  {
  }

  // ---------------------------------------------------------------- keeping one end of a text

  function Decimal(n: nat): string {
    if n < 10 then ['0' + n as char] else Decimal(n / 10) + ['0' + (n % 10) as char]
  }

  /** No longer piece from the same end would be a text within the limit. */
  ghost predicate LongestFront(s: Bytes, kept: Bytes, limit: nat) {
    && kept <= s && |kept| <= limit && Valid(kept)
    && forall other: Bytes :: other <= s && |other| <= limit && Valid(other) && Valid(s[|other|..]) ==> other <= kept
  }

  ghost predicate LongestBack(s: Bytes, kept: Bytes, limit: nat) {
    && |kept| <= |s| && kept == s[|s| - |kept|..] && |kept| <= limit && Valid(kept)
    && forall i: nat :: i <= |s| && |s| - i <= limit && Valid(s[..i]) && Valid(s[i..]) ==> |s| - i <= |kept|
  }

  /** A text shortened from the end, saying how much there was. */
  ghost predicate ShortenedTo(s: Bytes, limit: nat, shown: Bytes, kept: Bytes) {
    && LongestFront(s, kept, limit) && limit - |kept| <= 3
    && shown == kept + Encode("… (" + Decimal(|s|) + " bytes total)")
  }

  /** A text shortened from the front, saying how much there was and how much is left. */
  ghost predicate ShortenedFrom(s: Bytes, limit: nat, shown: Bytes, kept: Bytes) {
    && LongestBack(s, kept, limit) && limit - |kept| <= 3
    && shown == Encode("… (" + Decimal(|s|) + " bytes total, last " + Decimal(|kept|) + " shown)\n") + kept
  }

  /** Texts one behind another are a text. */
  lemma TextsJoin(a: Bytes, b: Bytes)
    requires Valid(a) && Valid(b)
    ensures Valid(a + b)
  {
    hide Decode, Encode;
    EncodeDecode(a, Decode(a).value);
    TextThenMore(Decode(a).value, b);
  }

  /** `truncate`. */
  method Truncate(s: Bytes, limit: nat) returns (shown: Bytes)
    requires Valid(s)
    ensures |s| <= limit ==> shown == s
    ensures |s| > limit ==> exists kept :: ShortenedTo(s, limit, shown, kept)
    ensures Valid(shown)
  {
    if |s| <= limit {
      return s;
    }
    var end := limit;
    while end > 0 && !IsCharBoundary(s, end)
      invariant 0 <= end <= limit
      invariant forall j :: end < j <= limit ==> !IsCharBoundary(s, j)
    {
      end := end - 1;
    }
    hide Decode, IsCharBoundary, Encode, Decimal, LongestFront;
    FrontIsLongest(s, limit, end) by { EndIsBoundary(s); }
    var note := "… (" + Decimal(|s|) + " bytes total)";
    shown := s[..end] + Encode(note);
    assert ShortenedTo(s, limit, shown, s[..end]);
    DecodeEncode(note);
    LongestIsText(s, s[..end], limit);
    TextsJoin(s[..end], Encode(note));
  }

  lemma FrontIsLongest(s: Bytes, limit: nat, end: nat)
    requires Valid(s) && end <= limit <= |s| && IsCharBoundary(s, end)
    requires forall j :: end < j <= limit ==> !IsCharBoundary(s, j)
    ensures LongestFront(s, s[..end], limit) && limit - end <= 3
  {
    hide Decode, IsCharBoundary;
    NearBoundary(s, limit);
    BoundaryIsACut(s, end);
    forall other: Bytes | other <= s && |other| <= limit && Valid(other) && Valid(s[|other|..])
      ensures other <= s[..end]
    {
      assert other == s[..|other|];
      BoundaryIsACut(s, |other|);
    }
  }

  lemma LongestIsText(s: Bytes, kept: Bytes, limit: nat)
    requires LongestFront(s, kept, limit)
    ensures Valid(kept)
  {
  }

  lemma LongestBackIsText(s: Bytes, kept: Bytes, limit: nat)
    requires LongestBack(s, kept, limit)
    ensures Valid(kept)
  {
  }

  lemma BackIsLongest(s: Bytes, limit: nat, start: nat)
    requires Valid(s) && limit <= |s| && |s| - limit <= start <= |s| && IsCharBoundary(s, start)
    requires forall j :: |s| - limit <= j < start ==> !IsCharBoundary(s, j)
    ensures LongestBack(s, s[start..], limit) && start - (|s| - limit) <= 3
  {
    hide Decode, IsCharBoundary;
    NearBoundary(s, |s| - limit);
    BoundaryIsACut(s, start);
    forall i: nat | i <= |s| && |s| - i <= limit && Valid(s[..i]) && Valid(s[i..])
      ensures start <= i
    {
      BoundaryIsACut(s, i);
    }
  }

  lemma EndIsBoundary(s: Bytes)
    ensures IsCharBoundary(s, 0) && IsCharBoundary(s, |s|)
  {
  }

  /** `tail`. */
  method Tail(s: Bytes, limit: nat) returns (shown: Bytes)
    requires Valid(s)
    ensures |s| <= limit ==> shown == s
    ensures |s| > limit ==> exists kept :: ShortenedFrom(s, limit, shown, kept)
    ensures Valid(shown)
  {
    if |s| <= limit {
      return s;
    }
    var start := |s| - limit;
    while start < |s| && !IsCharBoundary(s, start)
      invariant |s| - limit <= start <= |s|
      invariant forall j :: |s| - limit <= j < start ==> !IsCharBoundary(s, j)
    {
      start := start + 1;
    }
    hide Decode, IsCharBoundary, Encode, Decimal, LongestBack;
    BackIsLongest(s, limit, start) by { EndIsBoundary(s); }
    var note := "… (" + Decimal(|s|) + " bytes total, last " + Decimal(|s| - start) + " shown)\n";
    shown := Encode(note) + s[start..];
    assert ShortenedFrom(s, limit, shown, s[start..]);
    DecodeEncode(note);
    LongestBackIsText(s, s[start..], limit);
    TextsJoin(Encode(note), s[start..]);
  }
}
