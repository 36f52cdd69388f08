/** Draining a body in the chunked coding of section 7.1 of RFC 9112, and leaving the connection
    where the next request starts. */
module Chunked {
  import opened Text
  import opened Yson
  import Utf8

  const ISIZE_MAX: nat := 0x7fff_ffff_ffff_ffff

  const CRLF: Bytes := [13, 10]

  // ---------------------------------------------------------------- hexadecimal

  /** The value of a hexadecimal digit, in either case. */
  function HexDigit(c: char): Option<nat> {
    if IsDigit(c) then Some(c as int - '0' as int)
    else if 'a' <= c <= 'f' then Some(c as int - 'a' as int + 10)
    else if 'A' <= c <= 'F' then Some(c as int - 'A' as int + 10)
    else None
  }

  /** The sixteen digits, in both cases, and no others. */
  lemma HexDigitsExactly(c: char, d: nat)
    ensures HexDigit(c) == Some(d) <==> d < 16 && (c == "0123456789abcdef"[d] || c == "0123456789ABCDEF"[d])
  {
  }

  predicate AllHex(text: string) {
    forall i :: 0 <= i < |text| ==> HexDigit(text[i]).Some?
  }

  function HexValue(text: string): nat
    requires AllHex(text)
  {
    if text == "" then 0 else 16 * HexValue(text[..|text| - 1]) + HexDigit(text[|text| - 1]).value
  }

  /** Digits read from the left, giving up at a stranger or past 64 bits. */
  function Digits(text: string): Option<nat> {
    if text == "" then Some(0)
    else
      match (Digits(text[..|text| - 1]), HexDigit(text[|text| - 1]))
      case (Some(high), Some(low)) => if 16 * high + low < U64 then Some(16 * high + low) else None
      case _ => None
  }

  /** `usize::from_str_radix` of sixteen, which allows a plus sign. */
  function FromHex(text: string): Option<nat> {
    if text == "" || text == "+" then None
    else Digits(if text[0] == '+' then text[1..] else text)
  }

  lemma {:induction false} DigitsIsValue(text: string)
    ensures Digits(text) == if AllHex(text) && HexValue(text) < U64 then Some(HexValue(text)) else None
  {
    hide HexDigit;
    if text != "" {
      var front, last := text[..|text| - 1], |text| - 1;
      DigitsIsValue(front);
      assert AllHex(text) <==> AllHex(front) && HexDigit(text[last]).Some? by {
        assert forall i :: 0 <= i < last ==> front[i] == text[i];
      }
    }
  }

  function DigitChar(d: nat): (c: char)
    requires d < 16
    ensures HexDigit(c) == Some(d)
  {
    if d < 10 then '0' + d as char else 'a' + (d - 10) as char
  }

  /** A number as `{:x}` writes it. */
  function Hex(n: nat): (r: string)
    ensures r != ""
  {
    if n < 16 then [DigitChar(n)] else Hex(n / 16) + [DigitChar(n % 16)]
  }

  /** A number written in hexadecimal is read back, as far as the reader's integers go. */
  lemma {:induction false} HexReadsBack(n: nat)
    ensures AllHex(Hex(n)) && HexValue(Hex(n)) == n
    ensures FromHex(Hex(n)) == if n < U64 then Some(n) else None
  {
    hide HexDigit;
    if n >= 16 {
      HexReadsBack(n / 16);
      assert Hex(n)[..|Hex(n)| - 1] == Hex(n / 16);
    } else {
      assert Hex(n)[..0] == "";
    }
    DigitsIsValue(Hex(n));
    PlusIsNoDigit(Hex(n));
  }

  lemma PlusIsNoDigit(text: string)
    requires text != "" && AllHex(text)
    ensures text[0] != '+' && FromHex(text) == Digits(text)
    ensures !IsWhitespace(text[0]) && !IsWhitespace(text[|text| - 1])
    ensures forall c :: c in text ==> c != ';' && 32 < c as int < 128
  {
    hide Digits;
    assert HexDigit(text[0]).Some? && HexDigit(text[|text| - 1]).Some?;
  }

  // ---------------------------------------------------------------- the reader

  /** Where the first line ends, its line feed included. */
  function LineEnd(input: Bytes): (n: nat)
    ensures n <= |input|
    ensures input != [] ==> n > 0
  {
    if input == [] then 0 else if input[0] == 10 then 1 else 1 + LineEnd(input[1..])
  }

  /** A connection that ends where its bytes do. */
  class BufReader {
    var rest: Bytes

    constructor (rest: Bytes)
      ensures this.rest == rest
    {
      this.rest := rest;
    }

    /** `read_line`, which takes the line off even where it is not text. */
    method ReadLine() returns (line: Option<string>)
      modifies this
      ensures rest == old(rest)[LineEnd(old(rest))..]
      ensures line == Utf8.Decode(old(rest)[..LineEnd(old(rest))])
    {
      hide Utf8.Decode;
      var n := 0;
      while n < |rest| && rest[n] != 10
        invariant 0 <= n <= |rest| && rest == old(rest)
        invariant LineEnd(rest) == n + LineEnd(rest[n..])
      {
        n := n + 1;
      }
      n := if n < |rest| then n + 1 else n;
      line := Utf8.Decode(rest[..n]);
      rest := rest[n..];
    }

    /** `read_exact`. */
    method ReadExact(n: nat) returns (ok: bool)
      modifies this
      ensures ok <==> n <= |old(rest)|
      ensures rest == if ok then old(rest)[n..] else []
    {
      ok := n <= |rest|;
      rest := if ok then rest[n..] else [];
    }
  }

  /** Whether the body was read to its end; or the buffer for a chunk could not be had. */
  datatype Outcome = Done(whole: bool) | Panicked

  /** The size a chunk's header line gives. */
  function SizeIn(line: string): Option<nat> {
    FromHex(Before(Trim(line), {';'}))
  }

  /** How the buffer for a chunk and its line end comes out, in 64-bit arithmetic. */
  function BufferSize(size: nat): Option<nat> {
    var n := (size + 2) % U64;
    if n > ISIZE_MAX then None else Some(n)
  }

  /** What draining does to the bytes on the connection. */
  function Drained(input: Bytes): (Outcome, Bytes)
    decreases |input|
  {
    var line, rest := Utf8.Decode(input[..LineEnd(input)]), input[LineEnd(input)..];
    if line.None? || SizeIn(line.value).None? || input == [] then (Done(false), rest)
    else if SizeIn(line.value) == Some(0) then (Done(true), rest[LineEnd(rest)..])
    else
      match BufferSize(SizeIn(line.value).value)
      case None => (Panicked, rest)
      case Some(n) => if n <= |rest| then Drained(rest[n..]) else (Done(false), [])
  }

  lemma SizeMeansInput(input: Bytes)
    ensures var line := Utf8.Decode(input[..LineEnd(input)]); line.Some? && SizeIn(line.value).Some? ==> input != []
  {
    assert SizeIn("").None?;
  }

  /** `drain_chunked`. */
  method DrainChunked(reader: BufReader) returns (outcome: Outcome)
    modifies reader
    ensures (outcome, reader.rest) == Drained(old(reader.rest))
  {
    hide Utf8.Decode, SizeIn, LineEnd, BufferSize;
    while true
      invariant Drained(reader.rest) == Drained(old(reader.rest))
      decreases |reader.rest|
    {
      ghost var before := reader.rest;
      LineEndMoves(before);
      var header := reader.ReadLine();
      if header.None? {
        return Done(false);
      }
      var size := SizeIn(header.value);
      if size.None? {
        return Done(false);
      }
      SizeMeansInput(before);
      if size.value == 0 {
        var _ := reader.ReadLine();
        return Done(true);
      }
      var buffer := BufferSize(size.value);
      if buffer.None? {
        return Panicked;
      }
      var ok := reader.ReadExact(buffer.value);
      if !ok {
        return Done(false);
      }
    }
  }

  lemma LineEndMoves(input: Bytes)
    ensures LineEnd(input) <= |input| && (input != [] ==> LineEnd(input) > 0)
  {
  }

  // ---------------------------------------------------------------- the coding

  /** The line before a chunk: the size in hexadecimal, then extensions, each behind a semicolon
      that white space may precede. */
  datatype Header = Header(size: string, space: string, extensions: Bytes)
  {
    predicate WellFormed() {
      && size != "" && AllHex(size)
      && (forall c :: c in space ==> c == ' ' || c == '\t')
      && 10 !in extensions
      && (if extensions == [] then space == "" else extensions[0] == 0x3B)
    }

    /** No white space before the semicolon, and extensions that are text. */
    predicate Plain() { space == "" && Utf8.Valid(extensions) }

    function Line(): Bytes { Utf8.Encode(size + space) + extensions + CRLF }
  }

  datatype Chunk = Chunk(header: Header, data: Bytes)
  {
    predicate WellFormed() {
      header.WellFormed() && HexValue(header.size) == |data| && 0 < |data| <= ISIZE_MAX - 2
    }

    function Coded(): Bytes { header.Line() + data + CRLF }
  }

  datatype Body = Body(chunks: seq<Chunk>, last: Header, trailers: seq<Bytes>)
  {
    predicate WellFormed() {
      && (forall i :: 0 <= i < |chunks| ==> chunks[i].WellFormed())
      && last.WellFormed() && HexValue(last.size) == 0
      && (forall i :: 0 <= i < |trailers| ==> trailers[i] != [] && 10 !in trailers[i])
    }

    predicate Plain() {
      && (forall i :: 0 <= i < |chunks| ==> chunks[i].header.Plain())
      && last.Plain() && trailers == []
    }
  }

  function Chunks(chunks: seq<Chunk>, more: Bytes): Bytes {
    if chunks == [] then more else chunks[0].Coded() + Chunks(chunks[1..], more)
  }

  function Trailers(trailers: seq<Bytes>): Bytes {
    if trailers == [] then CRLF else trailers[0] + CRLF + Trailers(trailers[1..])
  }

  function Coded(body: Body, after: Bytes): Bytes {
    Chunks(body.chunks, body.last.Line() + (Trailers(body.trailers) + after))
  }

  // ---------------------------------------------------------------- one line

  /** The extensions of a line are text exactly when the whole line is. */
  lemma LineText(h: Header)
    requires h.WellFormed()
    ensures Utf8.Decode(h.Line()) ==
      if Utf8.Valid(h.extensions) then Some(h.size + h.space + Utf8.Decode(h.extensions).value + "\r\n") else None
  {
    hide Utf8.Decode, Utf8.Encode;
    var tail := h.extensions + CRLF;
    assert h.Line() == Utf8.Encode(h.size + h.space) + tail;
    Utf8.TextThenMore(h.size + h.space, tail);
    CrlfText();
    if Utf8.Decode(h.extensions).Some? {
      var text := Utf8.Decode(h.extensions).value;
      Utf8.EncodeDecode(h.extensions, text);
      Utf8.TextThenMore(text, CRLF);
      assert h.size + h.space + (text + "\r\n") == h.size + h.space + text + "\r\n";
    } else if Utf8.Decode(tail).Some? {
      assert tail[|h.extensions|] == 13 && tail[..|h.extensions|] == h.extensions;
      Utf8.BoundaryIsACut(tail, |h.extensions|);
    }
  }

  lemma CrlfText()
    ensures Utf8.Decode(CRLF) == Some("\r\n")
  {
    hide Utf8.Decode;
    Utf8.AsciiBytes("\r\n");
    assert CRLF == Utf8.Encode("\r\n");
    Utf8.DecodeEncode("\r\n");
  }

  /** Trimming takes white space alone off the end. */
  lemma {:induction false} TrimEndKeeps(s: string, i: nat)
    requires i < |s| && !IsWhitespace(s[i])
    ensures |TrimEnd(s)| > i
    ensures (forall j :: i < j < |s| ==> IsWhitespace(s[j])) ==> TrimEnd(s) == s[..i + 1]
  {
    if IsWhitespace(s[|s| - 1]) {
      TrimEndKeeps(s[..|s| - 1], i);
      assert s[..|s| - 1][..i + 1] == s[..i + 1];
    } else {
      assert s[..|s|] == s;
    }
  }

  lemma BeforeIs(s: string, stop: char, n: nat)
    requires n <= |s| && (forall i :: 0 <= i < n ==> s[i] != stop) && (n < |s| ==> s[n] == stop)
    ensures Before(s, {stop}) == s[..n]
  {
  }

  /** What stands before the first semicolon of a trimmed line. */
  lemma FrontOfLine(front: string, extensions: string)
    requires front != "" && !IsWhitespace(front[0]) && forall i :: 0 <= i < |front| ==> front[i] != ';'
    requires if extensions == "" then !IsWhitespace(front[|front| - 1]) else extensions[0] == ';'
    ensures Before(Trim(front + extensions + "\r\n"), {';'}) == front
  {
    hide IsWhitespace, TrimEnd, TrimStart, Before;
    var line := front + extensions + "\r\n";
    assert line[0] == front[0];
    assert TrimStart(line) == line by { StartsFlush(line); }
    EndsInSpace();
    var last := if extensions == "" then |front| - 1 else |front|;
    assert line[last] == if extensions == "" then front[last] else ';';
    TrimEndKeeps(line, last);
    var t := TrimEnd(line);
    assert t <= line by { EndIsPrefix(line); }
    assert forall i :: 0 <= i < |front| ==> t[i] == line[i] == front[i];
    if extensions == "" {
      assert forall j :: last < j < |line| ==> line[j] == "\r\n"[j - |front|];
      assert t == line[..|front|];
    } else {
      assert t[|front|] == ';';
    }
    BeforeIs(t, ';', |front|);
    assert t[..|front|] == front;
  }

  lemma StartsFlush(s: string)
    requires s != "" && !IsWhitespace(s[0])
    ensures TrimStart(s) == s
  {
  }

  lemma EndIsPrefix(s: string)
    ensures TrimEnd(s) <= s
  {
  }

  /** The size of a line is read exactly when no white space stands before its semicolon. */
  lemma SizeOfLine(h: Header, extensions: string)
    requires h.WellFormed() && HexValue(h.size) < U64
    requires extensions == "" ==> h.space == ""
    requires extensions != "" ==> extensions[0] == ';'
    ensures SizeIn(h.size + h.space + extensions + "\r\n") == if h.space == "" then Some(HexValue(h.size)) else None
  {
    hide Digits, HexValue, Before, Trim;
    var front := h.size + h.space;
    PlusIsNoDigit(h.size);
    forall i | 0 <= i < |front| ensures front[i] != ';' {
      assert i < |h.size| ==> h.size[i] in h.size;
      assert i >= |h.size| ==> h.space[i - |h.size|] in h.space;
    }
    assert front[0] == h.size[0];
    if h.space == "" { assert front == h.size; }
    FrontOfLine(front, extensions);
    DigitsIsValue(front);
    if h.space != "" {
      assert front[|h.size|] == h.space[0] && h.space[0] in h.space;
      assert HexDigit(front[|h.size|]).None?;
    }
  }

  lemma EndsInSpace()
    ensures IsWhitespace('\r') && IsWhitespace('\n') && !IsWhitespace(';')
  {
  }

  lemma {:induction false} LineEndsAt(line: Bytes, more: Bytes)
    requires 10 !in line
    ensures LineEnd(line + CRLF + more) == |line| + 2
  {
    if line != [] {
      LineEndsAt(line[1..], more);
      assert (line + CRLF + more)[1..] == line[1..] + CRLF + more;
    } else {
      assert (line + CRLF + more)[1..] == [10] + more;
    }
  }

  /** What the reader makes of a header line in front of other bytes. */
  lemma HeaderIsRead(h: Header, more: Bytes)
    requires h.WellFormed() && HexValue(h.size) < U64
    ensures var input := h.Line() + more;
      && input != [] && input[..LineEnd(input)] == h.Line() && input[LineEnd(input)..] == more
    ensures var line := Utf8.Decode(h.Line());
      if h.Plain() then line.Some? && SizeIn(line.value) == Some(HexValue(h.size)) else line.None? || SizeIn(line.value).None?
  {
    hide Utf8.Decode, Utf8.Encode, SizeIn, HexValue, AllHex;
    var front := Utf8.Encode(h.size + h.space);
    var input := h.Line() + more;
    PlusIsNoDigit(h.size);
    forall i | 0 <= i < |h.size + h.space| ensures 0 < (h.size + h.space)[i] as int < 128 && (h.size + h.space)[i] != '\n' {
      assert i < |h.size| ==> h.size[i] in h.size;
      assert i >= |h.size| ==> h.space[i - |h.size|] in h.space;
    }
    Utf8.AsciiBytes(h.size + h.space);
    LineEndsAt(front + h.extensions, more);
    assert h.Line() == front + h.extensions + CRLF;
    assert input == (front + h.extensions) + CRLF + more;
    LineText(h);
    if Utf8.Valid(h.extensions) {
      var text := Utf8.Decode(h.extensions).value;
      Utf8.EncodeDecode(h.extensions, text);
      FirstIsSemicolon(text);
      SizeOfLine(h, text);
    }
  }

  lemma FirstIsSemicolon(text: string)
    ensures Utf8.Encode(text) == [] <==> text == ""
    ensures text != "" && Utf8.Encode(text)[0] == 0x3B ==> text[0] == ';'
  {
  }

  // ---------------------------------------------------------------- the whole body

  /** One chunk is passed over, if its header is plain; otherwise the reader gives up. */
  lemma ChunkIsPassed(c: Chunk, more: Bytes)
    requires c.WellFormed()
    ensures c.header.Plain() ==> Drained(c.Coded() + more) == Drained(more)
    ensures !c.header.Plain() ==> Drained(c.Coded() + more).0 == Done(false)
  {
    hide Utf8.Decode, Utf8.Encode, SizeIn, HexValue, Header.Line, Header.Plain, Header.WellFormed;
    var behind := c.data + CRLF + more;
    assert c.Coded() + more == c.header.Line() + behind;
    HeaderIsRead(c.header, behind);
    assert behind[|c.data| + 2..] == more;
    assert BufferSize(|c.data|) == Some(|c.data| + 2);
  }

  lemma LastIsRead(body: Body, after: Bytes)
    requires body.WellFormed()
    ensures Drained(body.last.Line() + (Trailers(body.trailers) + after)) == (Done(true), after) <==>
      body.last.Plain() && body.trailers == []
  {
    hide Utf8.Decode, Utf8.Encode, SizeIn, Header.Line, Header.Plain;
    var behind := Trailers(body.trailers) + after;
    HeaderIsRead(body.last, behind);
    if body.trailers == [] {
      assert behind == [] + CRLF + after;
      LineEndsAt([], after);
    } else {
      var first, others := body.trailers[0], Trailers(body.trailers[1..]) + after;
      assert behind == first + CRLF + others;
      LineEndsAt(first, others);
      assert behind[LineEnd(behind)..] == others;
      TrailersAreLong(body.trailers[1..]);
    }
  }

  lemma TrailersAreLong(trailers: seq<Bytes>)
    ensures |Trailers(trailers)| >= 2
  {
  }

  lemma {:induction false} ChunksArePassed(chunks: seq<Chunk>, more: Bytes, after: Bytes)
    requires forall i :: 0 <= i < |chunks| ==> chunks[i].WellFormed()
    ensures Drained(Chunks(chunks, more)) == (Done(true), after) <==>
      (forall i :: 0 <= i < |chunks| ==> chunks[i].header.Plain()) && Drained(more) == (Done(true), after)
  {
    hide Drained, Chunk.Coded, Header.Plain, Chunk.WellFormed;
    if chunks != [] {
      ChunkIsPassed(chunks[0], Chunks(chunks[1..], more));
      ChunksArePassed(chunks[1..], more, after);
    }
  }

  /** Of the well-formed bodies, those drained to their end, with the connection left exactly at
      what follows, are the ones with no white space before an extension's semicolon, no
      extension that is not text, and no trailer fields. */
  lemma DrainedExactlyWhenPlain(body: Body, after: Bytes)
    requires body.WellFormed()
    ensures Drained(Coded(body, after)) == (Done(true), after) <==> body.Plain()
  {
    hide Drained, Chunks, Chunk.WellFormed, Header.Plain, Trailers;
    LastIsRead(body, after);
    ChunksArePassed(body.chunks, body.last.Line() + (Trailers(body.trailers) + after), after);
  }

  /** `1 ;a` is a chunk of one byte, and not one that is read. */
  lemma SpaceBeforeSemicolonStops(after: Bytes)
    ensures var body := Body([Chunk(Header("1", " ", [0x3B, 0x61]), [0x2A])], Header("0", "", []), []);
      body.WellFormed() && Drained(Coded(body, after)) != (Done(true), after)
  {
    hide Drained, Coded;
    var header, last := Header("1", " ", [0x3B, 0x61]), Header("0", "", []);
    var body := Body([Chunk(header, [0x2A])], last, []);
    DigitValues();
    assert header.WellFormed() && last.WellFormed();
    assert body.chunks[0].WellFormed() && !body.chunks[0].header.Plain();
    DrainedExactlyWhenPlain(body, after);
  }

  /** A trailer field is left on the connection. */
  lemma TrailerIsLeft(after: Bytes)
    ensures var body := Body([], Header("0", "", []), [[0x61, 0x3A, 0x62]]);
      body.WellFormed() && Drained(Coded(body, after)) != (Done(true), after)
  {
    hide Drained, Coded;
    DigitValues();
    DrainedExactlyWhenPlain(Body([], Header("0", "", []), [[0x61, 0x3A, 0x62]]), after);
  }

  lemma DigitValues()
    ensures AllHex("1") && HexValue("1") == 1 && AllHex("0") && HexValue("0") == 0
  {
    assert "1"[..0] == "" && "0"[..0] == "";
  }

  /** Any data at all, cut into any chunks, as a sender without extensions writes it. */
  function Sent(pieces: seq<Bytes>): Body {
    Body(seq(|pieces|, i requires 0 <= i < |pieces| => Chunk(Header(Hex(|pieces[i]|), "", []), pieces[i])), Header("0", "", []), [])
  }

  lemma SentIsDrained(pieces: seq<Bytes>, after: Bytes)
    requires forall i :: 0 <= i < |pieces| ==> 0 < |pieces[i]| <= ISIZE_MAX - 2
    ensures Drained(Coded(Sent(pieces), after)) == (Done(true), after)
  {
    hide Drained, Coded, Hex, HexValue;
    forall i | 0 <= i < |pieces| ensures Sent(pieces).chunks[i].WellFormed() && Sent(pieces).chunks[i].header.Plain() {
      HexReadsBack(|pieces[i]|);
    }
    assert Hex(0) == "0" by { HexOfZero(); }
    HexReadsBack(0);
    DrainedExactlyWhenPlain(Sent(pieces), after);
  }

  lemma HexOfZero()
    ensures Hex(0) == "0"
  {
  }
}
