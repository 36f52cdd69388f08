/** Reading a response body into memory under a cap, whatever pieces it arrives in. */
module BodyCap {
  import opened Text
  import opened Yson

  const U64_MAX: nat := U64 - 1

  const RESPONSE_LIMIT: nat := 512 * 1024 * 1024

  /** What the decoder does when it is read the k-th time: hand over some bytes, or fail. */
  datatype Offer = Give(bytes: nat) | Fail

  datatype Failure = Broken | BodyExceedsLimit(limit: nat)

  /** The decoder under the cap: a stream, of which `at` bytes have been handed over in `calls`
      reads. */
  class Decoder {
    const stream: Bytes
    const offers: nat -> Offer
    var at: nat
    var calls: nat

    predicate Valid()
      reads this
    {
      at <= |stream|
    }

    constructor (stream: Bytes, offers: nat -> Offer)
      ensures Valid() && this.stream == stream && this.offers == offers && at == 0 && calls == 0
    {
      this.stream, this.offers, at, calls := stream, offers, 0, 0;
    }

    /** `read` into the first `room` bytes: at least one while there are any and room for them,
        and none only at the end. */
    method Read(buf: array<Byte>, room: nat) returns (r: Result<nat, Failure>)
      requires Valid() && room <= buf.Length
      modifies this, buf
      ensures Valid() && calls == old(calls) + 1
      ensures r.Err? ==> r.error == Broken && offers(old(calls)).Fail? && at == old(at)
      ensures r.Ok? ==>
        && offers(old(calls)).Give? && r.value <= room && at == old(at) + r.value
        && buf[..r.value] == stream[old(at)..at]
        && (r.value == 0 <==> room == 0 || old(at) == |stream|)
    {
      var offer := offers(calls);
      calls := calls + 1;
      if offer.Fail? {
        return Err(Broken);
      }
      var wanted := if offer.bytes > 0 then offer.bytes else 1;
      var n := Min(Min(wanted, room), |stream| - at);
      for i := 0 to n
        invariant at == old(at) && calls == old(calls) + 1
        invariant forall j :: 0 <= j < i ==> buf[j] == stream[at + j]
      {
        buf[i] := stream[at + i];
      }
      at := at + n;
      return Ok(n);
    }
  }

  /** `saturating_add` of `u64`. */
  function SaturatingAdd(a: nat, b: nat): nat {
    Min(a + b, U64_MAX)
  }

  class CapReader {
    const reader: Decoder
    const limit: nat
    var left: nat

    /** All that has been let through is what has been spent against the cap. */
    predicate Valid()
      reads this, reader
    {
      && reader.Valid() && limit <= U64_MAX
      && left <= limit && reader.at == limit - left
    }

    constructor (reader: Decoder, limit: nat)
      requires reader.Valid() && reader.at == 0 && limit <= U64_MAX
      ensures Valid() && this.reader == reader && this.limit == limit && left == limit
    {
      this.reader, this.limit, left := reader, limit, limit;
    }

    /** Lets through what the decoder handed over, unless that is more than may be kept: then one
        byte past the cap has been read, and none of it is returned. */
    method Read(buf: array<Byte>) returns (r: Result<nat, Failure>)
      requires Valid()
      modifies this, reader, buf
      ensures reader.calls == old(reader.calls) + 1
      ensures r.Ok? ==>
        && Valid() && r.value <= buf.Length && left == old(left) - r.value
        && buf[..r.value] == reader.stream[old(reader.at)..reader.at]
        && (r.value == 0 <==> buf.Length == 0 || old(reader.at) == |reader.stream|)
      ensures r.Err? ==>
        || (r.error == BodyExceedsLimit(limit) && reader.at == limit + 1 <= |reader.stream|)
        || (r.error == Broken && reader.offers(old(reader.calls)).Fail? && reader.at == old(reader.at))
    {
      var room := Min(SaturatingAdd(left, 1), buf.Length);
      var read := reader.Read(buf, room);
      if read.Err? {
        return read;
      }
      if read.value > left {
        return Err(BodyExceedsLimit(limit));
      }
      left := left - read.value;
      return read;
    }
  }

  predicate BreaksBefore(offers: nat -> Offer, calls: nat) {
    exists k :: 0 <= k < calls && offers(k).Fail?
  }

  /** `read_capped` above the wire: `read_to_end` through the cap, with whatever buffers it
      chooses. A body of exactly `limit` bytes passes, one byte more does not, and nothing past
      the limit is ever kept. */
  method ReadToEnd(decoder: Decoder, limit: nat, sizes: nat -> nat) returns (r: Result<Bytes, Failure>, kept: Bytes)
    requires decoder.Valid() && decoder.at == 0 && decoder.calls == 0 && limit <= U64_MAX
    modifies decoder
    ensures kept <= decoder.stream && |kept| <= limit
    ensures r.Ok? ==> r.value == kept == decoder.stream && |decoder.stream| <= limit
    ensures r == Err(BodyExceedsLimit(limit)) ==> |decoder.stream| > limit
    ensures r.Err? ==> r.error == BodyExceedsLimit(limit) || (r.error == Broken && BreaksBefore(decoder.offers, decoder.calls))
    ensures !BreaksBefore(decoder.offers, decoder.calls) ==> (r.Ok? <==> |decoder.stream| <= limit)
    ensures decoder.at <= limit + 1
  {
    var reader := new CapReader(decoder, limit);
    kept := [];
    while true
      invariant reader.reader == decoder && reader.limit == limit && reader.Valid() && fresh(reader)
      invariant kept == decoder.stream[..decoder.at]
      decreases |decoder.stream| - decoder.at
    {
      var buf := new Byte[sizes(decoder.calls) + 1];
      ghost var was, before := decoder.at, decoder.calls;
      var n := reader.Read(buf);
      if n.Err? {
        assert n.error == Broken ==> decoder.offers(before).Fail?;
        return Err(n.error), kept;
      }
      kept := kept + buf[..n.value];
      assert decoder.stream[..was] + decoder.stream[was..decoder.at] == decoder.stream[..decoder.at];
      if n.value == 0 {
        return Ok(kept), kept;
      }
    }
  }

  // ---------------------------------------------------------------- the wire under the decoder

  /** `wire_budget`. */
  function WireBudget(limit: nat): nat {
    SaturatingAdd(SaturatingAdd(SaturatingAdd(limit, limit / 8), limit / 64), 64)
  }

  function CeilDiv(n: nat, d: nat): nat
    requires d > 0
  {
    (n + d - 1) / d
  }

  /** The most a body of `n` bytes takes on the wire: `deflateBound`, with shifts rounded up, and
      the gzip header and trailer. */
  function WireBound(n: nat): nat {
    n + CeilDiv(n, 8) + CeilDiv(n, 64) + 5 + 18
  }

  /** Saturating at every step is saturating once. */
  lemma BudgetIsOneSum(limit: nat)
    requires limit <= U64_MAX
    ensures WireBudget(limit) == Min(limit + limit / 8 + limit / 64 + 64, U64_MAX)
  {
  }

  /** The guard on the wire is out of the way of every body the cap permits, on every limit a
      64-bit number can give: a body that fits the cap fits the budget, or else the budget is the
      largest 64-bit number. */
  lemma BudgetPermitsTheCap(limit: nat, n: nat)
    requires n <= limit <= U64_MAX
    ensures WireBound(n) < WireBudget(limit) || WireBudget(limit) == U64_MAX
    ensures limit + limit / 8 + limit / 64 + 64 <= U64_MAX ==> WireBound(n) < WireBudget(limit)
  {
    BudgetIsOneSum(limit);
    assert CeilDiv(n, 8) <= n / 8 + 1 <= limit / 8 + 1;
    assert CeilDiv(n, 64) <= n / 64 + 1 <= limit / 64 + 1;
  }

  /** And it is never tight: past the cap there is room for less than a sixth more and 64 bytes,
      so what it bounds stays bounded. */
  lemma BudgetStaysBounded(limit: nat, more: nat)
    requires limit <= more <= U64_MAX
    ensures limit < WireBudget(limit) || limit == U64_MAX
    ensures 6 * WireBudget(limit) <= 7 * limit + 6 * 64
    ensures WireBudget(limit) <= WireBudget(more)
  {
    BudgetIsOneSum(limit);
    BudgetIsOneSum(more);
  }

  lemma BudgetOfTheDefault()
    ensures WireBudget(RESPONSE_LIMIT) == 612_368_448
  {
  }
}
