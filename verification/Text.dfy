/** Strings as the client cuts them: the handful of `str` operations its address
    rules are written in, with contracts that say what each one finds. */
module Text {

  datatype Option<+T> = None | Some(value: T)

  datatype Result<+T, +E> = Ok(value: T) | Err(error: E)

  function Min(a: nat, b: nat): nat {
    if a <= b then a else b
  }

  /** The position of the first character of `s` in `stops`, or the length of `s`. */
  function IndexOfAny(s: string, stops: set<char>): (i: nat)
    ensures i <= |s|
    ensures forall k :: 0 <= k < i ==> s[k] !in stops
    ensures i < |s| ==> s[i] in stops
  {
    if s == "" || s[0] in stops then 0 else 1 + IndexOfAny(s[1..], stops)
  }

  /** What precedes the first character in `stops`: all of `s` when there is none. */
  function Before(s: string, stops: set<char>): string {
    s[..IndexOfAny(s, stops)]
  }

  /** `split_once` on a character. */
  function SplitOnce(s: string, c: char): Option<(string, string)> {
    var i := IndexOfAny(s, {c});
    if i == |s| then None else Some((s[..i], s[i + 1..]))
  }

  /** The position of the last `c` in `s`. */
  function LastIndexOf(s: string, c: char): (r: Option<nat>)
    ensures r.None? ==> forall k :: 0 <= k < |s| ==> s[k] != c
    ensures r.Some? ==> r.value < |s| && s[r.value] == c && forall k :: r.value < k < |s| ==> s[k] != c
  {
    if s == "" then None
    else
      match LastIndexOf(s[1..], c)
      case Some(i) => Some(i + 1)
      case None => if s[0] == c then Some(0) else None
  }

  /** `rsplit_once` on a character. */
  function RSplitOnce(s: string, c: char): Option<(string, string)> {
    match LastIndexOf(s, c)
    case None => None
    case Some(i) => Some((s[..i], s[i + 1..]))
  }

  predicate OccursAt(s: string, sub: string, i: nat) {
    i + |sub| <= |s| && s[i..i + |sub|] == sub
  }

  /** The position of the first occurrence of `sub` in `s`. */
  function FindSub(s: string, sub: string): (r: Option<nat>)
    ensures r.Some? ==> OccursAt(s, sub, r.value)
    ensures r.Some? ==> forall k: nat :: k < r.value ==> !OccursAt(s, sub, k)
    ensures r.None? ==> forall k: nat :: !OccursAt(s, sub, k)
  {
    if sub <= s then Some(0)
    else if s == "" then None
    else
      var r := FindSub(s[1..], sub);
      assert forall k: nat :: OccursAt(s[1..], sub, k) <==> OccursAt(s, sub, k + 1);
      assert !OccursAt(s, sub, 0);
      assert forall k: nat :: k > 0 && OccursAt(s, sub, k) ==> OccursAt(s[1..], sub, k - 1);
      if r.Some? then Some(r.value + 1) else None
  }

  /** The first occurrence is the only thing `FindSub` can answer. */
  lemma FindSubUnique(s: string, sub: string, i: nat)
    requires OccursAt(s, sub, i)
    requires forall k: nat :: k < i ==> !OccursAt(s, sub, k)
    ensures FindSub(s, sub) == Some(i)
  {
    var r := FindSub(s, sub);
    assert r.Some?;
  }

  /** A character of `sub` that `s` lacks rules `sub` out anywhere in `s`. */
  lemma LacksSub(s: string, sub: string, j: nat)
    requires j < |sub| && sub[j] !in s
    ensures FindSub(s, sub).None?
  {
    forall k: nat ensures OccursAt(s, sub, k) ==> sub[j] in s {
      if k + |sub| <= |s| { assert s[k..k + |sub|][j] == s[k + j]; }
    }
  }

  predicate EndsWith(s: string, suffix: string) {
    |suffix| <= |s| && s[|s| - |suffix|..] == suffix
  }

  predicate IsDigit(c: char) { '0' <= c <= '9' }

  predicate IsAlpha(c: char) { 'a' <= c <= 'z' || 'A' <= c <= 'Z' }

  predicate AllDigits(s: string) {
    forall i :: 0 <= i < |s| ==> IsDigit(s[i])
  }

  function LowerChar(c: char): char {
    if 'A' <= c <= 'Z' then c - 'A' + 'a' else c
  }

  /** `to_ascii_lowercase`. */
  function Lower(s: string): (r: string)
    ensures |r| == |s|
    ensures forall i :: 0 <= i < |s| ==> r[i] == LowerChar(s[i])
  {
    seq(|s|, i requires 0 <= i < |s| => LowerChar(s[i]))
  }

  lemma LowerTwice(s: string)
    ensures Lower(Lower(s)) == Lower(s)
  {
    forall i | 0 <= i < |s| ensures LowerChar(LowerChar(s[i])) == LowerChar(s[i]) {
      assert 'A' <= s[i] <= 'Z' ==> 'a' <= LowerChar(s[i]) <= 'z';
    }
  }

  /** The Unicode `White_Space` property. */
  predicate IsWhitespace(c: char) {
    '\t' <= c <= '\r' || c == ' ' || c == '\U{85}' || c == '\U{A0}' || c == '\U{1680}'
    || '\U{2000}' <= c <= '\U{200A}' || c == '\U{2028}' || c == '\U{2029}' || c == '\U{202F}'
    || c == '\U{205F}' || c == '\U{3000}'
  }

  function TrimStart(s: string): (r: string)
    ensures r != "" ==> !IsWhitespace(r[0])
    ensures |r| <= |s| && r == s[|s| - |r|..]
    ensures s != "" && !IsWhitespace(s[0]) ==> r == s
  {
    hide IsWhitespace;
    if s != "" && IsWhitespace(s[0]) then
      var r := TrimStart(s[1..]);
      assert s[1..][|s| - 1 - |r|..] == s[|s| - |r|..];
      r
    else s
  }

  function TrimEnd(s: string): (r: string)
    ensures r != "" ==> !IsWhitespace(r[|r| - 1])
    ensures r <= s
    ensures s != "" && !IsWhitespace(s[|s| - 1]) ==> r == s
  {
    if s != "" && IsWhitespace(s[|s| - 1]) then TrimEnd(s[..|s| - 1]) else s
  }

  /** `trim`. */
  function Trim(s: string): string {
    TrimEnd(TrimStart(s))
  }

  predicate AllSpace(s: string) {
    forall i :: 0 <= i < |s| ==> IsWhitespace(s[i])
  }

  /** Trimming takes white space off both ends and nothing else. */
  lemma {:induction false} TrimTakesSpace(before: string, s: string, after: string)
    requires AllSpace(before) && AllSpace(after)
    requires s != "" ==> !IsWhitespace(s[0]) && !IsWhitespace(s[|s| - 1])
    ensures Trim(before + s + after) == s
  {
    hide IsWhitespace;
    assert before + s + after == before + (s + after);
    if s == "" {
      assert s + after == after && before + after == before + (after + "");
      assert AllSpace(before + after);
      TrimStartSpace(before + after, "");
      assert (before + after) + "" == before + after;
    } else {
      assert (s + after)[0] == s[0];
      TrimStartSpace(before, s + after);
      TrimEndSpace(s, after);
    }
  }

  lemma {:induction false} TrimStartSpace(before: string, s: string)
    requires AllSpace(before) && (s != "" ==> !IsWhitespace(s[0]))
    ensures TrimStart(before + s) == s
  {
    hide IsWhitespace;
    if before == "" {
      assert before + s == s;
    } else {
      assert (before + s)[1..] == before[1..] + s;
      TrimStartSpace(before[1..], s);
    }
  }

  lemma {:induction false} TrimEndSpace(s: string, after: string)
    requires AllSpace(after) && (s != "" ==> !IsWhitespace(s[|s| - 1]))
    ensures TrimEnd(s + after) == s
  {
    hide IsWhitespace;
    var whole := s + after;
    if after == "" {
      assert whole == s;
    } else {
      assert whole[..|whole| - 1] == s + after[..|after| - 1];
      TrimEndSpace(s, after[..|after| - 1]);
    }
  }

  /** Trimming a string that starts and ends with something else changes nothing. */
  lemma TrimFixes(s: string)
    requires s != "" ==> !IsWhitespace(s[0]) && !IsWhitespace(s[|s| - 1])
    ensures Trim(s) == s
  {}

  /** `parts` with one more character in front of the first. */
  function Glue(x: char, parts: seq<string>): (r: seq<string>)
    requires |parts| >= 1
    ensures |r| == |parts|
  {
    [[x] + parts[0]] + parts[1..]
  }

  /** `split` on a character: always at least one piece. */
  function Split(s: string, c: char): (r: seq<string>)
    ensures |r| >= 1
  {
    if s == "" then [""]
    else
      var rest := Split(s[1..], c);
      if s[0] == c then [""] + rest else Glue(s[0], rest)
  }

  function Join(parts: seq<string>, c: char): string
    requires |parts| >= 1
  {
    if |parts| == 1 then parts[0] else parts[0] + [c] + Join(parts[1..], c)
  }

  lemma {:induction false} JoinSplit(s: string, c: char)
    ensures Join(Split(s, c), c) == s
  {
    if s != "" {
      JoinSplit(s[1..], c);
      var rest := Split(s[1..], c);
      var r := Split(s, c);
      if s[0] == c {
        assert r[1..] == rest;
      } else {
        assert r[1..] == rest[1..];
      }
    }
  }

  lemma {:induction false} JoinConcat(p: seq<string>, q: seq<string>, c: char)
    requires |p| >= 1 && |q| >= 1
    ensures Join(p + q, c) == Join(p, c) + [c] + Join(q, c)
  {
    if |p| == 1 {
      assert (p + q)[1..] == q;
    } else {
      JoinConcat(p[1..], q, c);
      assert (p + q)[1..] == p[1..] + q;
    }
  }

  lemma {:induction false} SplitConcat(a: string, b: string, c: char)
    ensures Split(a + [c] + b, c) == Split(a, c) + Split(b, c)
  {
    var whole := a + [c] + b;
    if a == "" {
      assert whole[1..] == b;
    } else {
      SplitConcat(a[1..], b, c);
      assert whole[1..] == a[1..] + [c] + b && whole[0] == a[0];
      GlueConcat(a[0], Split(a[1..], c), Split(b, c));
    }
  }

  lemma GlueConcat(x: char, p: seq<string>, q: seq<string>)
    requires |p| >= 1
    ensures Glue(x, p + q) == Glue(x, p) + q
    ensures [""] + (p + q) == ([""] + p) + q
  {
    assert (p + q)[0] == p[0] && (p + q)[1..] == p[1..] + q;
  }

  /** A piece never holds the separator, so one without it splits into itself. */
  lemma {:induction false} SplitNone(s: string, c: char)
    ensures c !in s <==> |Split(s, c)| == 1
    ensures c !in s ==> Split(s, c) == [s]
  {
    if s != "" {
      SplitNone(s[1..], c);
      assert s == [s[0]] + s[1..];
    }
  }
}
