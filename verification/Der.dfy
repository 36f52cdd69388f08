/** Telling a certificate from other bytes by its skeleton: tags and lengths as section 10.1 of
    X.690 restricts them, in the shape of section 4.1 of RFC 5280. */
module Der {
  import opened Text
  import opened Yson

  const INTEGER: Byte := 0x02
  const BIT_STRING: Byte := 0x03
  const SEQUENCE: Byte := 0x30
  const VERSION: Byte := 0xa0

  // ---------------------------------------------------------------- the encoding

  function BigEndian(n: nat): (r: Bytes)
    ensures |r| >= 1
  {
    if n < 256 then [n] else BigEndian(n / 256) + [n % 256]
  }

  /** A definite length in as few bytes as will hold it. */
  function EncodeLength(n: nat): Bytes
    requires n < 0x1_0000_0000
  {
    if n < 0x80 then [n] else FourAtMost(n); [0x80 + |BigEndian(n)|] + BigEndian(n)
  }

  lemma FourAtMost(n: nat)
    requires n < 0x1_0000_0000
    ensures |BigEndian(n)| <= 4
  {
    var a := n / 256;
    var b := a / 256;
    var c := b / 256;
    assert a < 0x100_0000 && b < 0x1_0000 && c < 0x100;
    assert |BigEndian(c)| == 1;
    assert |BigEndian(b)| <= 2 && |BigEndian(a)| <= 3;
  }

  predicate Encodable(tag: Byte, contents: Bytes) {
    tag % 32 != 31 && |contents| < 0x1_0000_0000
  }

  function Encode(tag: Byte, contents: Bytes): (r: Bytes)
    requires Encodable(tag, contents)
    ensures |r| > |contents| && r[0] == tag
  {
    [tag] + EncodeLength(|contents|) + contents
  }

  // ---------------------------------------------------------------- reading it

  /** The bytes of a length folded into a number. */
  function Fold(bytes: Bytes): nat {
    if bytes == [] then 0 else 256 * Fold(bytes[..|bytes| - 1]) + bytes[|bytes| - 1]
  }

  datatype Length = Length(value: nat, rest: Bytes)

  function ReadLength(input: Bytes): Option<Length> {
    if input == [] then None
    else if input[0] < 0x80 then Some(Length(input[0], input[1..]))
    else
      var count := input[0] - 0x80;
      if count == 0 || count > 4 || |input| < 1 + count then None
      else
        var bytes := input[1..1 + count];
        if bytes[0] == 0 || (count == 1 && bytes[0] < 0x80) then None
        else Some(Length(Fold(bytes), input[1 + count..]))
  }

  datatype Element = Element(tag: Byte, contents: Bytes, rest: Bytes)

  /** `tlv`. */
  function Tlv(input: Bytes): (r: Option<Element>)
    ensures r.Some? ==> |r.value.rest| < |input|
  {
    if input == [] || input[0] % 32 == 31 then None
    else
      match ReadLength(input[1..])
      case None => None
      case Some(Length(n, rest)) =>
        ReadLengthShortens(input[1..]);
        if n > |rest| then None else Some(Element(input[0], rest[..n], rest[n..]))
  }

  lemma ReadLengthShortens(input: Bytes)
    ensures ReadLength(input).Some? ==> |ReadLength(input).value.rest| < |input|
  {
  }

  /** `expect`: the contents of an element of that tag, and what follows. */
  function Expect(input: Bytes, tag: Byte): Option<(Bytes, Bytes)> {
    match Tlv(input)
    case Some(e) => if e.tag == tag then Some((e.contents, e.rest)) else None
    case None => None
  }

  // ---------------------------------------------------------------- each undoes the other

  /** Without a leading zero, folding and writing out are inverse. */
  lemma {:induction false} FoldBigEndian(n: nat)
    ensures Fold(BigEndian(n)) == n
    ensures n > 0 ==> BigEndian(n)[0] > 0
  {
    if n >= 256 {
      FoldBigEndian(n / 256);
      assert BigEndian(n)[..|BigEndian(n)| - 1] == BigEndian(n / 256);
    } else {
      assert [n][..0] == [];
    }
  }

  lemma {:induction false} BigEndianFold(bytes: Bytes)
    requires bytes != [] && (bytes[0] != 0 || |bytes| == 1)
    ensures BigEndian(Fold(bytes)) == bytes
    ensures |bytes| > 1 ==> Fold(bytes) >= 256
  {
    var last := |bytes| - 1;
    if last > 0 {
      BigEndianFold(bytes[..last]);
      assert Fold(bytes[..last]) > 0;
      assert bytes == bytes[..last] + [bytes[last]];
    } else {
      assert bytes[..0] == [];
    }
  }

  lemma {:induction false} FoldBounded(bytes: Bytes)
    requires |bytes| <= 4
    ensures |bytes| == 1 ==> Fold(bytes) == bytes[0]
    ensures Fold(bytes) < 0x1_0000_0000
    ensures |bytes| <= 3 ==> Fold(bytes) < 0x100_0000
    ensures |bytes| <= 2 ==> Fold(bytes) < 0x1_0000
    ensures |bytes| <= 1 ==> Fold(bytes) < 0x100
  {
    if bytes != [] { FoldBounded(bytes[..|bytes| - 1]); }
  }

  lemma LengthReadsBack(n: nat, more: Bytes)
    requires n < 0x1_0000_0000
    ensures ReadLength(EncodeLength(n) + more) == Some(Length(n, more))
  {
    hide BigEndian, Fold;
    var input := EncodeLength(n) + more;
    if n < 0x80 {
      assert input[1..] == more;
    } else {
      var bytes := BigEndian(n);
      FourAtMost(n);
      FoldBigEndian(n);
      var count := |bytes|;
      assert input == [0x80 + count] + bytes + more;
      assert input[1..1 + count] == bytes && input[1 + count..] == more;
      FoldBounded(bytes);
    }
  }

  lemma LengthWritesBack(input: Bytes)
    requires ReadLength(input).Some?
    ensures var r := ReadLength(input).value; r.value < 0x1_0000_0000 && input == EncodeLength(r.value) + r.rest
  {
    hide BigEndian, Fold;
    var r := ReadLength(input).value;
    if input[0] < 0x80 {
      assert input == [input[0]] + input[1..];
    } else {
      var count := input[0] - 0x80;
      var bytes := input[1..1 + count];
      FoldBounded(bytes);
      BigEndianFold(bytes);
      var after := input[1..];
      assert bytes == after[..count] && input[1 + count..] == after[count..];
      assert input == [input[0]] + after && after == bytes + after[count..];
      Regroup([input[0]], bytes, after[count..]);
      assert r.value >= 0x80;
    }
  }

  /** An element is read off the front exactly when the input is its encoding and then the rest:
      every low-form tag, every length below 2^32, minimal form and nothing else. */
  lemma TlvIsTheEncoding(input: Bytes, tag: Byte, contents: Bytes, rest: Bytes)
    ensures Tlv(input) == Some(Element(tag, contents, rest)) <==> Encodable(tag, contents) && input == Encode(tag, contents) + rest
  {
    hide ReadLength, EncodeLength;
    if Tlv(input) == Some(Element(tag, contents, rest)) {
      LengthWritesBack(input[1..]);
      var n := |contents|;
      var after := ReadLength(input[1..]).value.rest;
      assert input == [tag] + input[1..] && after == contents + rest;
      assert input == [tag] + (EncodeLength(n) + (contents + rest));
      assert input == Encode(tag, contents) + rest;
    }
    if Encodable(tag, contents) && input == Encode(tag, contents) + rest {
      LengthReadsBack(|contents|, contents + rest);
      assert input[1..] == EncodeLength(|contents|) + (contents + rest);
      assert (contents + rest)[..|contents|] == contents && (contents + rest)[|contents|..] == rest;
    }
  }

  lemma ExpectIsTheEncoding(input: Bytes, tag: Byte, contents: Bytes, rest: Bytes)
    ensures Expect(input, tag) == Some((contents, rest)) <==> Encodable(tag, contents) && input == Encode(tag, contents) + rest
  {
    hide Tlv, Encode;
    TlvIsTheEncoding(input, tag, contents, rest);
  }

  // ---------------------------------------------------------------- a certificate

  /** What a certificate's skeleton leaves open: the contents of its elements, and whatever the
      signed part holds past its fixed head. */
  datatype Skeleton = Skeleton(version: Option<Bytes>, serial: Bytes, fields: seq<Bytes>, extra: Bytes,
                               algorithm: Bytes, signature: Bytes)

  predicate AllEncodable(tag: Byte, fields: seq<Bytes>) {
    forall i :: 0 <= i < |fields| ==> Encodable(tag, fields[i])
  }

  function EncodeAll(tag: Byte, fields: seq<Bytes>): Bytes
    requires AllEncodable(tag, fields)
  {
    if fields == [] then [] else Encode(tag, fields[0]) + EncodeAll(tag, fields[1..])
  }

  predicate HeadFits(s: Skeleton) {
    && (s.version.Some? ==> Encodable(0xa0, s.version.value))
    && Encodable(0x02, s.serial)
    && |s.fields| == 5 && AllEncodable(0x30, s.fields)
  }

  function TbsOf(s: Skeleton): Bytes
    requires HeadFits(s)
  {
    (if s.version.Some? then Encode(0xa0, s.version.value) else [])
    + (Encode(0x02, s.serial) + (EncodeAll(0x30, s.fields) + s.extra))
  }

  predicate Fits(s: Skeleton) {
    && HeadFits(s) && Encodable(0x30, TbsOf(s))
    && Encodable(0x30, s.algorithm) && Encodable(0x03, s.signature)
    && Encodable(0x30, BodyOf(s))
  }

  function BodyOf(s: Skeleton): Bytes
    requires HeadFits(s) && Encodable(0x30, TbsOf(s))
    requires Encodable(0x30, s.algorithm) && Encodable(0x03, s.signature)
  {
    Encode(0x30, TbsOf(s)) + (Encode(0x30, s.algorithm) + Encode(0x03, s.signature))
  }

  function EncodeCertificate(s: Skeleton): Bytes
    requires Fits(s)
  {
    Encode(0x30, BodyOf(s))
  }

  ghost predicate IsTbs(tbs: Bytes) {
    exists s :: HeadFits(s) && tbs == TbsOf(s)
  }

  ghost predicate IsCertificate(der: Bytes) {
    exists s :: Fits(s) && der == EncodeCertificate(s)
  }

  /** A run of elements of one tag at the front of `input`. */
  function TakeAll(input: Bytes, tag: Byte, n: nat): Option<(seq<Bytes>, Bytes)> {
    if n == 0 then Some(([], input))
    else
      match Expect(input, tag)
      case None => None
      case Some((contents, rest)) =>
        match TakeAll(rest, tag, n - 1)
        case None => None
        case Some((others, after)) => Some(([contents] + others, after))
  }

  lemma {:induction false} TakeAllIsTheEncoding(input: Bytes, tag: Byte, n: nat, fields: seq<Bytes>, rest: Bytes)
    ensures TakeAll(input, tag, n) == Some((fields, rest)) <==>
      |fields| == n && AllEncodable(tag, fields) && input == EncodeAll(tag, fields) + rest
    decreases n
  {
    hide Expect, Encode, Encodable;
    if n > 0 {
      if TakeAll(input, tag, n) == Some((fields, rest)) {
        var (contents, after) := Expect(input, tag).value;
        ExpectIsTheEncoding(input, tag, contents, after);
        TakeAllIsTheEncoding(after, tag, n - 1, fields[1..], rest);
        Regroup(Encode(tag, contents), EncodeAll(tag, fields[1..]), rest);
      }
      if |fields| == n && AllEncodable(tag, fields) && input == EncodeAll(tag, fields) + rest {
        var after := EncodeAll(tag, fields[1..]) + rest;
        Regroup(Encode(tag, fields[0]), EncodeAll(tag, fields[1..]), rest);
        ExpectIsTheEncoding(input, tag, fields[0], after);
        TakeAllIsTheEncoding(after, tag, n - 1, fields[1..], rest);
        assert [fields[0]] + fields[1..] == fields;
      }
    } else {
      assert [] + rest == rest;
    }
  }

  lemma Regroup(a: Bytes, b: Bytes, c: Bytes)
    ensures (a + b) + c == a + (b + c)
  {
  }

  /** Asking for one more of a run is asking for one of what the run left. */
  lemma {:induction false} TakeOneMore(input: Bytes, tag: Byte, n: nat)
    ensures TakeAll(input, tag, n).None? ==> TakeAll(input, tag, n + 1).None?
    ensures TakeAll(input, tag, n).Some? ==>
      var rest := TakeAll(input, tag, n).value.1;
      && (TakeAll(input, tag, n + 1).Some? <==> Expect(rest, tag).Some?)
      && (Expect(rest, tag).Some? ==> TakeAll(input, tag, n + 1).value.1 == Expect(rest, tag).value.1)
    decreases n
  {
    hide Expect;
    if n > 0 && Expect(input, tag).Some? {
      TakeOneMore(Expect(input, tag).value.1, tag, n - 1);
    }
  }

  lemma {:induction false} TakeLess(input: Bytes, tag: Byte, n: nat, m: nat)
    requires n <= m && TakeAll(input, tag, n).None?
    ensures TakeAll(input, tag, m).None?
    decreases m - n
  {
    if n < m {
      TakeOneMore(input, tag, n);
      TakeLess(input, tag, n + 1, m);
    }
  }

  /** The part past an optional version. */
  function AfterVersion(tbs: Bytes): Bytes {
    match Tlv(tbs)
    case Some(e) => if e.tag == VERSION then e.rest else tbs
    case None => tbs
  }

  predicate HasHead(tbs: Bytes) {
    var serial := Expect(AfterVersion(tbs), INTEGER);
    serial.Some? && TakeAll(serial.value.1, SEQUENCE, 5).Some?
  }

  lemma HeadIsTbs(tbs: Bytes)
    requires HasHead(tbs)
    ensures IsTbs(tbs)
  {
    hide Expect, Encode, EncodeAll, TakeAll, Tlv;
    var after := AfterVersion(tbs);
    var (serial, rest) := Expect(after, INTEGER).value;
    var (fields, extra) := TakeAll(rest, SEQUENCE, 5).value;
    ExpectIsTheEncoding(after, INTEGER, serial, rest);
    TakeAllIsTheEncoding(rest, SEQUENCE, 5, fields, extra);
    var e := Tlv(tbs);
    var versioned := e.Some? && e.value.tag == VERSION;
    if versioned { TlvIsTheEncoding(tbs, VERSION, e.value.contents, after); }
    var s := Skeleton(if versioned then Some(e.value.contents) else None, serial, fields, extra, [], []);
    assert HeadFits(s);
    assert tbs == TbsOf(s);
  }

  lemma TbsHasHead(s: Skeleton)
    requires HeadFits(s)
    ensures HasHead(TbsOf(s))
  {
    hide Expect, EncodeAll, TakeAll, Tlv;
    var fields := EncodeAll(SEQUENCE, s.fields) + s.extra;
    var rest := Encode(INTEGER, s.serial) + fields;
    TakeAllIsTheEncoding(fields, SEQUENCE, 5, s.fields, s.extra);
    ExpectIsTheEncoding(rest, INTEGER, s.serial, fields);
    if s.version.Some? {
      TlvIsTheEncoding(TbsOf(s), VERSION, s.version.value, rest);
    } else {
      assert TbsOf(s) == rest;
      TlvIsTheEncoding(rest, INTEGER, s.serial, fields);
    }
  }

  /** `is_tbs_certificate`. */
  method IsTbsCertificate(tbs: Bytes) returns (accepted: bool)
    ensures accepted <==> IsTbs(tbs)
  {
    hide Expect, Tlv, TbsOf, TakeAll, HeadFits;
    if IsTbs(tbs) {
      var s :| HeadFits(s) && tbs == TbsOf(s);
      TbsHasHead(s);
    }
    var afterVersion := AfterVersion(tbs);
    var serial := Expect(afterVersion, INTEGER);
    if serial.None? {
      return false;
    }
    ghost var fields := serial.value.1;
    var rest := serial.value.1;
    NoneTaken(fields);
    for i := 0 to 5
      invariant TakeAll(fields, SEQUENCE, i).Some? && TakeAll(fields, SEQUENCE, i).value.1 == rest
    {
      TakeOneMore(fields, SEQUENCE, i);
      var next := Expect(rest, SEQUENCE);
      if next.None? {
        TakeLess(fields, SEQUENCE, i + 1, 5);
        return false;
      }
      rest := next.value.1;
    }
    HeadIsTbs(tbs);
    return true;
  }

  lemma NoneTaken(input: Bytes)
    ensures TakeAll(input, SEQUENCE, 0) == Some(([], input))
  {
  }

  predicate HasShape(der: Bytes) {
    var whole := Expect(der, SEQUENCE);
    && whole.Some? && whole.value.1 == []
    && var tbs := Expect(whole.value.0, SEQUENCE);
    && tbs.Some?
    && var algorithm := Expect(tbs.value.1, SEQUENCE);
    && algorithm.Some?
    && var signature := Expect(algorithm.value.1, BIT_STRING);
    && signature.Some? && signature.value.1 == []
  }

  function TbsIn(der: Bytes): Bytes
    requires HasShape(der)
  {
    Expect(Expect(der, SEQUENCE).value.0, SEQUENCE).value.0
  }

  lemma ShapeIsCertificate(der: Bytes)
    requires HasShape(der) && IsTbs(TbsIn(der))
    ensures IsCertificate(der)
  {
    hide Expect, Encode, TbsOf, HeadFits, Encodable;
    var body := Expect(der, SEQUENCE).value.0;
    var (tbs, afterTbs) := Expect(body, SEQUENCE).value;
    var (algorithm, afterAlgorithm) := Expect(afterTbs, SEQUENCE).value;
    var signature := Expect(afterAlgorithm, BIT_STRING).value.0;
    ExpectIsTheEncoding(der, SEQUENCE, body, []);
    ExpectIsTheEncoding(body, SEQUENCE, tbs, afterTbs);
    ExpectIsTheEncoding(afterTbs, SEQUENCE, algorithm, afterAlgorithm);
    ExpectIsTheEncoding(afterAlgorithm, BIT_STRING, signature, []);
    var head :| HeadFits(head) && tbs == TbsOf(head);
    var s := head.(algorithm := algorithm, signature := signature);
    OnlyTheHead(head, s);
    assert afterAlgorithm == Encode(BIT_STRING, signature) + [] == Encode(BIT_STRING, signature);
    assert body == BodyOf(s);
    assert Fits(s);
    assert der == EncodeCertificate(s) + [] == EncodeCertificate(s);
  }

  /** The signed part does not depend on the signature. */
  lemma OnlyTheHead(a: Skeleton, b: Skeleton)
    requires a.version == b.version && a.serial == b.serial && a.fields == b.fields && a.extra == b.extra
    ensures HeadFits(a) <==> HeadFits(b)
    ensures HeadFits(a) ==> TbsOf(a) == TbsOf(b)
  {
  }

  lemma CertificateHasShape(s: Skeleton)
    requires Fits(s)
    ensures HasShape(EncodeCertificate(s)) && TbsIn(EncodeCertificate(s)) == TbsOf(s)
  {
    hide Expect, Encode, TbsOf, HeadFits, Encodable;
    var signature := Encode(BIT_STRING, s.signature);
    var algorithm := Encode(SEQUENCE, s.algorithm) + signature;
    ExpectIsTheEncoding(EncodeCertificate(s), SEQUENCE, BodyOf(s), []);
    ExpectIsTheEncoding(BodyOf(s), SEQUENCE, TbsOf(s), algorithm);
    ExpectIsTheEncoding(algorithm, SEQUENCE, s.algorithm, signature);
    ExpectIsTheEncoding(signature, BIT_STRING, s.signature, []);
  }

  /** `is_x509`: accepts exactly the encodings of a certificate's skeleton. */
  method IsX509(der: Bytes) returns (accepted: bool)
    ensures accepted <==> IsCertificate(der)
  {
    hide Expect, HasShape, IsTbs, Fits;
    if IsCertificate(der) {
      var s :| Fits(s) && der == EncodeCertificate(s);
      CertificateHasShape(s);
      SkeletonHasTbs(s);
    }
    ShapeUnfolds(der);
    var whole := Expect(der, SEQUENCE);
    if whole.None? || whole.value.1 != [] {
      return false;
    }
    var tbs := Expect(whole.value.0, SEQUENCE);
    if tbs.None? {
      return false;
    }
    var algorithm := Expect(tbs.value.1, SEQUENCE);
    if algorithm.None? {
      return false;
    }
    var signature := Expect(algorithm.value.1, BIT_STRING);
    if signature.None? || signature.value.1 != [] {
      return false;
    }
    accepted := IsTbsCertificate(tbs.value.0);
    if accepted { ShapeIsCertificate(der); }
  }

  lemma SkeletonHasTbs(s: Skeleton)
    requires Fits(s)
    ensures IsTbs(TbsOf(s))
  {
  }

  lemma ShapeUnfolds(der: Bytes)
    ensures HasShape(der) <==>
      var whole := Expect(der, SEQUENCE);
      && whole.Some? && whole.value.1 == []
      && var tbs := Expect(whole.value.0, SEQUENCE);
      && tbs.Some?
      && var algorithm := Expect(tbs.value.1, SEQUENCE);
      && algorithm.Some?
      && var signature := Expect(algorithm.value.1, BIT_STRING);
      && signature.Some? && signature.value.1 == []
    ensures HasShape(der) ==> TbsIn(der) == Expect(Expect(der, SEQUENCE).value.0, SEQUENCE).value.0
  {
  }

  /** No certificate is the beginning of another, so none is accepted with bytes left over. */
  lemma NoCertificateContinues(one: Bytes, other: Bytes)
    requires IsCertificate(one) && IsCertificate(other) && one <= other
    ensures one == other
  {
    hide Expect, Encode;
    var body := BodyIn(one);
    var same := BodyIn(other);
    var more := other[|one|..];
    assert other == one + more && other == other + [];
    ExpectIsTheEncoding(other, SEQUENCE, body, more);
    ExpectIsTheEncoding(other, SEQUENCE, same, []);
  }

  lemma BodyIn(der: Bytes) returns (body: Bytes)
    requires IsCertificate(der)
    ensures Encodable(SEQUENCE, body) && der == Encode(SEQUENCE, body)
  {
    var s :| Fits(s) && der == EncodeCertificate(s);
    body := BodyOf(s);
  }
}
