/** LEB128 integers (section 7.6 of DWARF Version 5), as read and written by
    src/format/leb.rs. */
module Leb {
  import opened Words
  import opened Wrappers
  import opened Wire
  import opened Endian

  const MAXIMUM_BITS: nat := 64
  const I64_LIMIT: nat := 0x8000_0000_0000_0000

  // -------------------------------------------------------------- the encoding

  function UlebBytes(value: nat): (bytes: seq<uint8>)
    ensures |bytes| >= 1
  {
    if value < 128 then [value] else [value % 128 + 128] + UlebBytes(value / 128)
  }

  /** The last byte carries the sign in its bit six. */
  predicate SlebIsLast(value: int) {
    -64 <= value < 64
  }

  function SlebBytes(value: int): (bytes: seq<uint8>)
    ensures |bytes| >= 1
    decreases if value < 0 then -value else value
  {
    if SlebIsLast(value) then [value % 128] else [value % 128 + 128] + SlebBytes(value / 128)
  }

  /** Base-128 digits up to the first byte without a continuation bit, at most
      `limit` bytes in all. */
  function ParseUleb(s: seq<uint8>, limit: nat): (r: Result<Step<nat>>)
    ensures r.Ok? ==> |r.value.rest| < |s|
    decreases limit
  {
    if limit == 0 || s == [] then Err(MalformedLeb)
    else if s[0] < 128 then Ok(Step(s[0], s[1..]))
    else
      var Step(high, rest) :- ParseUleb(s[1..], limit - 1);
      Ok(Step(s[0] - 128 + 128 * high, rest))
  }

  function ParseSleb(s: seq<uint8>, limit: nat): (r: Result<Step<int>>)
    ensures r.Ok? ==> |r.value.rest| < |s|
    decreases limit
  {
    if limit == 0 || s == [] then Err(MalformedLeb)
    else if s[0] < 64 then Ok(Step(s[0], s[1..]))
    else if s[0] < 128 then Ok(Step((s[0] as int) - 128, s[1..]))
    else
      var Step(high, rest) :- ParseSleb(s[1..], limit - 1);
      Ok(Step(s[0] - 128 + 128 * high, rest))
  }

  function CheckedUleb(digits: Result<Step<nat>>, bound: nat): (r: Result<Step<uint64>>)
    requires bound <= U64_LIMIT
  {
    var Step(value, rest) :- digits;
    if value < bound then Ok(Step(value, rest)) else Err(MalformedLeb)
  }

  function CheckedSleb(digits: Result<Step<int>>, bound: nat): (r: Result<Step<int64>>)
    requires bound <= I64_LIMIT
  {
    var Step(value, rest) :- digits;
    if -(bound as int) <= value < bound then Ok(Step(value, rest)) else Err(MalformedLeb)
  }

  function ByteLimit(bits: nat): nat {
    (bits + 6) / 7
  }

  /** The first value too wide for `bits` bits. */
  function UnsignedBound(bits: nat): (bound: nat)
    requires bits <= MAXIMUM_BITS
    ensures bound <= U64_LIMIT
  {
    ExpBits();
    ExpMonotone(2, bits, 64);
    Exp(2, bits)
  }

  function SignedBound(bits: nat): (bound: nat)
    requires 1 <= bits <= MAXIMUM_BITS
    ensures bound <= I64_LIMIT
  {
    ExpBits();
    ExpMonotone(2, bits - 1, 63);
    Exp(2, bits - 1)
  }

  function ReadUlebBits(s: seq<uint8>, bits: nat): (r: Result<Step<uint64>>)
    ensures r.Ok? ==> |r.value.rest| < |s|
    ensures r.Ok? ==> bits <= MAXIMUM_BITS && r.value.value < UnsignedBound(bits)
  {
    if !(1 <= bits <= MAXIMUM_BITS) then Err(OutOfRange)
    else CheckedUleb(ParseUleb(s, ByteLimit(bits)), UnsignedBound(bits))
  }

  function ReadUleb(s: seq<uint8>): (r: Result<Step<uint64>>)
    ensures r.Ok? ==> |r.value.rest| < |s|
  {
    ReadUlebBits(s, MAXIMUM_BITS)
  }

  predicate FitsSigned(value: int, bits: nat)
    requires 1 <= bits <= MAXIMUM_BITS
  {
    -(SignedBound(bits) as int) <= value < SignedBound(bits)
  }

  function ReadSlebBits(s: seq<uint8>, bits: nat): (r: Result<Step<int64>>)
    ensures r.Ok? ==> |r.value.rest| < |s|
    ensures r.Ok? ==> 1 <= bits <= MAXIMUM_BITS && FitsSigned(r.value.value, bits)
  {
    if !(1 <= bits <= MAXIMUM_BITS) then Err(OutOfRange)
    else CheckedSleb(ParseSleb(s, ByteLimit(bits)), SignedBound(bits))
  }

  function ReadSleb(s: seq<uint8>): (r: Result<Step<int64>>)
    ensures r.Ok? ==> |r.value.rest| < |s|
  {
    ReadSlebBits(s, MAXIMUM_BITS)
  }

  // -------------------------------------------------------------- round trips

  lemma {:induction false} ParseUlebBytes(value: nat, limit: nat, rest: seq<uint8>)
    ensures ParseUleb(UlebBytes(value) + rest, limit)
         == if limit > 0 && value < Exp(128, limit) then Ok(Step(value, rest)) else Err(MalformedLeb)
    decreases limit
  {
    var s := UlebBytes(value) + rest;
    if limit > 0 {
      ExpPositive(128, limit - 1);
      if value < 128 {
        assert s[1..] == rest;
      } else {
        assert s[0] == value % 128 + 128 && s[1..] == UlebBytes(value / 128) + rest;
        ParseUlebBytes(value / 128, limit - 1, rest);
        QuotientBound(value, Exp(128, limit - 1));
      }
    }
  }

  lemma QuotientBound(value: int, bound: int)
    ensures value / 128 < bound <==> value < 128 * bound
    ensures bound <= value / 128 <==> 128 * bound <= value
  {
  }

  lemma BitsFitBytes(bits: nat)
    ensures Exp(2, bits) <= Exp(128, ByteLimit(bits))
  {
    ExpSevenBits(ByteLimit(bits));
    ExpMonotone(2, bits, 7 * ByteLimit(bits));
  }

  /** The bounded reader inverts the writer on exactly the values of the
      requested width, and rejects every wider value. */
  lemma UlebRoundTrip(value: nat, bits: nat, rest: seq<uint8>)
    requires 1 <= bits <= MAXIMUM_BITS
    ensures ReadUlebBits(UlebBytes(value) + rest, bits)
         == if value < Exp(2, bits) then Ok(Step(value, rest)) else Err(MalformedLeb)
  {
    ParseUlebBytes(value, ByteLimit(bits), rest);
    BitsFitBytes(bits);
  }

  lemma UlebInverse(value: uint64, rest: seq<uint8>)
    ensures ReadUleb(UlebBytes(value) + rest) == Ok(Step(value, rest))
  {
    ExpBits();
    UlebRoundTrip(value, MAXIMUM_BITS, rest);
  }

  /** A `limit`-byte signed encoding holds `7 * limit` bits. */
  predicate FitsSlebBytes(value: int, limit: nat) {
    limit > 0 && -(64 * Exp(128, limit - 1) as int) <= value < 64 * Exp(128, limit - 1)
  }

  lemma FitsSlebStep(value: int, limit: nat)
    requires limit > 0
    ensures FitsSlebBytes(value, limit + 1) <==> FitsSlebBytes(value / 128, limit)
  {
    var unit := 64 * Exp(128, limit - 1);
    assert 64 * Exp(128, limit) == 128 * unit;
    QuotientBound(value, unit);
    QuotientBound(value, -unit);
  }

  lemma {:induction false} ParseSlebBytes(value: int, limit: nat, rest: seq<uint8>)
    ensures ParseSleb(SlebBytes(value) + rest, limit)
         == if FitsSlebBytes(value, limit) then Ok(Step(value, rest)) else Err(MalformedLeb)
    decreases limit
  {
    var s := SlebBytes(value) + rest;
    if limit > 0 {
      if SlebIsLast(value) {
        ExpPositive(128, limit - 1);
        assert s[0] == value % 128 && s[1..] == rest;
      } else {
        assert s[0] == value % 128 + 128 && s[1..] == SlebBytes(value / 128) + rest;
        ParseSlebBytes(value / 128, limit - 1, rest);
        if limit > 1 {
          FitsSlebStep(value, limit - 1);
        }
      }
    }
  }

  lemma SignedFitsBytes(value: int, bits: nat)
    requires 1 <= bits <= MAXIMUM_BITS && FitsSigned(value, bits)
    ensures FitsSlebBytes(value, ByteLimit(bits))
  {
    var limit := ByteLimit(bits);
    ExpSevenBits(limit - 1);
    ExpAdd(2, 6, 7 * (limit - 1));
    assert Exp(2, 6) == 64 by {
      assert Exp(2, 3) == 8;
    }
    ExpMonotone(2, bits - 1, 6 + 7 * (limit - 1));
  }

  /** The signed counterpart: two's-complement values of the requested width
      come back, all others are rejected. */
  lemma SlebRoundTrip(value: int, bits: nat, rest: seq<uint8>)
    requires 1 <= bits <= MAXIMUM_BITS
    ensures ReadSlebBits(SlebBytes(value) + rest, bits)
         == if FitsSigned(value, bits) then Ok(Step(value, rest)) else Err(MalformedLeb)
  {
    ParseSlebBytes(value, ByteLimit(bits), rest);
    if FitsSigned(value, bits) {
      SignedFitsBytes(value, bits);
    }
  }

  lemma SlebInverse(value: int64, rest: seq<uint8>)
    ensures ReadSleb(SlebBytes(value) + rest) == Ok(Step(value, rest))
  {
    ExpBits();
    SlebRoundTrip(value, MAXIMUM_BITS, rest);
  }

  // ------------------------------------------------------- the writing methods

  method WriteUleb(output: Encoder, value: uint64)
    modifies output
    ensures output.bytes == old(output.bytes) + UlebBytes(value)
  {
    var remaining: nat := value;
    while true
      invariant output.bytes + UlebBytes(remaining) == old(output.bytes) + UlebBytes(value)
      decreases remaining
    {
      var low := remaining % 128;
      var high := remaining / 128;
      if high != 0 {
        low := low + 128;
      }
      output.WriteU8(low);
      if high == 0 {
        break;
      }
      remaining := high;
    }
  }

  method WriteSleb(output: Encoder, value: int64)
    modifies output
    ensures output.bytes == old(output.bytes) + SlebBytes(value)
  {
    var remaining: int := value;
    while true
      invariant output.bytes + SlebBytes(remaining) == old(output.bytes) + SlebBytes(value)
      decreases if remaining < 0 then -remaining else remaining
    {
      var low := remaining % 128;
      var signSet := low >= 64;
      var high := remaining / 128;
      var done := (high == 0 && !signSet) || (high == -1 && signSet);
      assert done <==> SlebIsLast(remaining);
      output.WriteU8(if done then low else low + 128);
      if done {
        break;
      }
      remaining := high;
    }
  }

  // ------------------------------------------- what the reading loops compute

  /** The readers work from the least significant digit: `value` is what the
      bytes so far gave and `unit` is the weight of the next one. */
  function UlebFrom(value: nat, unit: nat, s: seq<uint8>, limit: nat): Result<Step<nat>>
    decreases limit
  {
    if limit == 0 || s == [] then Err(MalformedLeb)
    else
      var sum := value + unit * (s[0] % 128);
      if s[0] < 128 then Ok(Step(sum, s[1..])) else UlebFrom(sum, 128 * unit, s[1..], limit - 1)
  }

  function SlebFrom(value: int, unit: nat, s: seq<uint8>, limit: nat): Result<Step<int>>
    decreases limit
  {
    if limit == 0 || s == [] then Err(MalformedLeb)
    else
      var sum := value + unit * (s[0] % 128);
      if s[0] < 64 then Ok(Step(sum, s[1..]))
      else if s[0] < 128 then Ok(Step(sum - 128 * unit, s[1..]))
      else SlebFrom(sum, 128 * unit, s[1..], limit - 1)
  }

  lemma Distribute(unit: int, low: int, high: int)
    ensures unit * (low + 128 * high) == unit * low + 128 * unit * high
  {
  }

  /** Accumulating digits upwards gives the number they denote. */
  lemma {:induction false} UlebFromParse(value: nat, unit: nat, s: seq<uint8>, limit: nat)
    ensures UlebFrom(value, unit, s, limit)
         == match ParseUleb(s, limit)
            case Ok(Step(high, after)) => Ok(Step(value + unit * high, after))
            case Err(error) => Err(error)
    decreases limit
  {
    if limit > 0 && s != [] && s[0] >= 128 {
      var low := s[0] % 128;
      UlebFromParse(value + unit * low, 128 * unit, s[1..], limit - 1);
      var tail := ParseUleb(s[1..], limit - 1);
      if tail.Ok? {
        Distribute(unit, low, tail.value.value);
      }
    }
  }

  /** Setting every bit above the last payload is the two's-complement reading
      of its sign bit. */
  lemma {:induction false} SlebFromParse(value: int, unit: nat, s: seq<uint8>, limit: nat)
    ensures SlebFrom(value, unit, s, limit)
         == match ParseSleb(s, limit)
            case Ok(Step(high, after)) => Ok(Step(value + unit * high, after))
            case Err(error) => Err(error)
    decreases limit
  {
    if limit > 0 && s != [] {
      var low := s[0] % 128;
      if s[0] < 128 {
        Distribute(unit, low, -1);
      } else {
        SlebFromParse(value + unit * low, 128 * unit, s[1..], limit - 1);
        var tail := ParseSleb(s[1..], limit - 1);
        if tail.Ok? {
          Distribute(unit, low, tail.value.value);
        }
      }
    }
  }

  lemma ProductMonotone(x: nat, y: nat, z: nat)
    requires y <= z
    ensures x * y <= x * z
  {
    assert x * z == x * y + x * (z - y);
  }

  /** Stopping at a digit that leaves the 64-bit word loses nothing: the whole
      value would have been too wide for any accepted width. */
  lemma WideDigitRejected(value: nat, unit: nat, s: seq<uint8>, limit: nat, bound: nat)
    requires limit > 0 && s != [] && bound <= U64_LIMIT
    requires unit * (s[0] % 128) >= U64_LIMIT
    ensures CheckedUleb(UlebFrom(value, unit, s, limit), bound) == Err(MalformedLeb)
  {
    UlebFromParse(value, unit, s, limit);
    ParseUlebError(s, limit);
    var parsed := ParseUleb(s, limit);
    if parsed.Ok? {
      ProductMonotone(unit, s[0] % 128, parsed.value.value);
    }
  }

  lemma {:induction false} ParseUlebError(s: seq<uint8>, limit: nat)
    ensures ParseUleb(s, limit).Err? ==> ParseUleb(s, limit).error == MalformedLeb
    ensures ParseUleb(s, limit).Ok? ==> s != [] && ParseUleb(s, limit).value.value >= s[0] % 128
    decreases limit
  {
    if limit > 0 && s != [] && s[0] >= 128 {
      ParseUlebError(s[1..], limit - 1);
    }
  }

  /** Starting the loop: nothing accumulated, weight one. */
  lemma UlebLoopStart(s: seq<uint8>, limit: nat)
    ensures UlebFrom(0, 1, s, limit) == ParseUleb(s, limit)
  {
    UlebFromParse(0, 1, s, limit);
  }

  lemma SlebLoopStart(s: seq<uint8>, limit: nat)
    ensures SlebFrom(0, 1, s, limit) == ParseSleb(s, limit)
  {
    SlebFromParse(0, 1, s, limit);
  }

  // ------------------------------------------------------- the reading methods

  method CheckUlebWidth(value: nat, bound: nat) returns (r: Result<uint64>)
    requires bound <= U64_LIMIT
    ensures forall rest :: Agrees(r, CheckedUleb(Ok(Step(value, rest)), bound), rest)
  {
    if value >= bound {
      return Err(MalformedLeb);
    }
    return Ok(value);
  }

  /** The bytes of an encoding of at most `limit` bytes whose value must stay
      below `bound`. */
  method ReadUlebDigits(cursor: Cursor, limit: nat, bound: nat) returns (r: Result<uint64>)
    requires cursor.Valid() && bound <= U64_LIMIT
    modifies cursor
    ensures cursor.Valid()
    ensures Agrees(r, CheckedUleb(UlebFrom(0, 1, old(cursor.Rest()), limit), bound), cursor.Rest())
  {
    ghost var outcome := CheckedUleb(UlebFrom(0, 1, cursor.Rest(), limit), bound);
    var value: nat, unit: nat := 0, 1;
    for index := 0 to limit
      invariant cursor.Valid()
      invariant CheckedUleb(UlebFrom(value, unit, cursor.Rest(), limit - index), bound) == outcome
    {
      ghost var before := cursor.Rest();
      var next := cursor.ReadU8();
      if next.Err? {
        return Err(MalformedLeb);
      }
      var shifted := unit * (next.value % 128);
      if shifted >= U64_LIMIT {
        WideDigitRejected(value, unit, before, limit - index, bound);
        return Err(MalformedLeb);
      }
      value := value + shifted;
      if next.value < 128 {
        r := CheckUlebWidth(value, bound);
        return;
      }
      unit := 128 * unit;
    }
    return Err(MalformedLeb);
  }

  method ReadUlebBounded(cursor: Cursor, bits: uint8) returns (r: Result<uint64>)
    requires cursor.Valid()
    modifies cursor
    ensures cursor.Valid()
    ensures Agrees(r, ReadUlebBits(old(cursor.Rest()), bits), cursor.Rest())
  {
    if bits == 0 || bits > MAXIMUM_BITS {
      return Err(OutOfRange);
    }
    UlebLoopStart(cursor.Rest(), ByteLimit(bits));
    r := ReadUlebDigits(cursor, ByteLimit(bits), UnsignedBound(bits));
  }

  method CheckSlebWidth(value: int, bound: nat) returns (r: Result<int64>)
    requires bound <= I64_LIMIT
    ensures forall rest :: Agrees(r, CheckedSleb(Ok(Step(value, rest)), bound), rest)
  {
    if value < -(bound as int) || value > bound - 1 {
      return Err(MalformedLeb);
    }
    return Ok(value);
  }

  method ReadSlebDigits(cursor: Cursor, limit: nat, bound: nat) returns (r: Result<int64>)
    requires cursor.Valid() && bound <= I64_LIMIT
    modifies cursor
    ensures cursor.Valid()
    ensures Agrees(r, CheckedSleb(SlebFrom(0, 1, old(cursor.Rest()), limit), bound), cursor.Rest())
  {
    ghost var outcome := CheckedSleb(SlebFrom(0, 1, cursor.Rest(), limit), bound);
    var value: int, unit: nat := 0, 1;
    for index := 0 to limit
      invariant cursor.Valid()
      invariant CheckedSleb(SlebFrom(value, unit, cursor.Rest(), limit - index), bound) == outcome
    {
      var next := cursor.ReadU8();
      if next.Err? {
        return Err(MalformedLeb);
      }
      value := value + unit * (next.value % 128);
      unit := 128 * unit;
      if next.value < 128 {
        if next.value >= 64 {
          value := value - unit;
        }
        r := CheckSlebWidth(value, bound);
        return;
      }
    }
    return Err(MalformedLeb);
  }

  method ReadSlebBounded(cursor: Cursor, bits: uint8) returns (r: Result<int64>)
    requires cursor.Valid()
    modifies cursor
    ensures cursor.Valid()
    ensures Agrees(r, ReadSlebBits(old(cursor.Rest()), bits), cursor.Rest())
  {
    if bits == 0 || bits > MAXIMUM_BITS {
      return Err(OutOfRange);
    }
    SlebLoopStart(cursor.Rest(), ByteLimit(bits));
    r := ReadSlebDigits(cursor, ByteLimit(bits), SignedBound(bits));
  }
}
