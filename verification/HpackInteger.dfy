/** RFC 7541 section 5.1 prefix integers: parser, printer and the relation between them. */
module HpackInteger {
  import opened Machine

  datatype IntegerError =
    | InvalidPrefixBits(prefixBits: byte)
    | Incomplete(required: nat, available: nat)
    | IntegerOverflow

  /** A parsed integer together with the exact octets that represent it. */
  datatype IntegerView = IntegerView(bytes: seq<byte>, prefixBits: byte, value: u64, highBits: byte)

  datatype Tail = Tail(value: u64, end: nat)

  predicate ValidPrefix(prefixBits: int) {
    1 <= prefixBits <= 8
  }

  /** `(1 << prefixBits) - 1`, the all-ones prefix. */
  function Mask(prefixBits: int): (m: byte)
    requires ValidPrefix(prefixBits)
  {
    match prefixBits
    case 1 => 1
    case 2 => 3
    case 3 => 7
    case 4 => 15
    case 5 => 31
    case 6 => 63
    case 7 => 127
    case _ => 255
  }

  lemma MaskMeaning(prefixBits: int)
    requires ValidPrefix(prefixBits)
    ensures Mask(prefixBits) == Pow2(prefixBits) - 1
  {
    assert Pow2(4) == 2 * Pow2(3) == 4 * Pow2(2);
    assert Pow2(8) == 2 * Pow2(7) == 4 * Pow2(6) == 8 * Pow2(5) == 16 * Pow2(4);
  }

  /** The high bits leave the prefix clear. */
  predicate HighBits(highBits: byte, prefixBits: int)
    requires ValidPrefix(prefixBits)
  {
    highBits % (Mask(prefixBits) + 1) == 0
  }

  // ---- What an encoding means ----

  /** The number carried by continuation octets, least significant group of seven bits first. */
  function Continuation(octets: seq<byte>): nat {
    if octets == [] then 0 else octets[0] % 128 + 128 * Continuation(octets[1..])
  }

  /** Every octet but the last has its top bit set. */
  predicate Terminated(octets: seq<byte>) {
    octets != [] && (if |octets| == 1 then octets[0] < 128 else octets[0] >= 128 && Terminated(octets[1..]))
  }

  /** The first `length` octets of `bytes` are an encoding of `value`, canonical or not. */
  predicate Encodes(bytes: seq<byte>, prefixBits: int, value: int, length: int)
    requires ValidPrefix(prefixBits)
  {
    && 1 <= length <= |bytes|
    && 0 <= value < U64_LIMIT
    && var mask := Mask(prefixBits);
       var prefix := bytes[0] % (mask + 1);
       if prefix < mask then
         length == 1 && value == prefix
       else
         && 2 <= length <= 11
         && Terminated(bytes[1..length])
         && value == mask + Continuation(bytes[1..length])
  }

  // ---- The parser ----

  /** The octets from `index` on, where the integer read so far is `value` and the next group weighs 2^shift. */
  function ParseTail(bytes: seq<byte>, index: nat, shift: nat, value: u64): (r: Result<Tail, IntegerError>)
    decreases |bytes| - index
  {
    if index >= |bytes| then Err(Incomplete(index + 1, |bytes|))
    else if shift >= 64 then Err(IntegerOverflow)
    else
      var contribution := (bytes[index] % 128) * Pow2(shift);
      if contribution >= U64_LIMIT || value + contribution >= U64_LIMIT then Err(IntegerOverflow)
      else if bytes[index] < 128 then Ok(Tail(value + contribution, index + 1))
      else ParseTail(bytes, index + 1, shift + 7, value + contribution)
  }

  lemma {:induction false} ParseTailEnd(bytes: seq<byte>, index: nat, shift: nat, value: u64)
    requires index <= |bytes|
    ensures var r := ParseTail(bytes, index, shift, value);
            r.Ok? ==> index < r.value.end <= |bytes|
    decreases |bytes| - index
  {
    if index < |bytes| && shift < 64 {
      var contribution := (bytes[index] % 128) * Pow2(shift);
      if value + contribution < U64_LIMIT && bytes[index] >= 128 {
        ParseTailEnd(bytes, index + 1, shift + 7, value + contribution);
      }
    }
  }

  function ParseInteger(bytes: seq<byte>, prefixBits: byte): (r: Result<IntegerView, IntegerError>)
    ensures r.Ok? ==> 1 <= |r.value.bytes| <= |bytes| && r.value.bytes == bytes[..|r.value.bytes|]
  {
    if !ValidPrefix(prefixBits) then Err(InvalidPrefixBits(prefixBits))
    else if bytes == [] then Err(Incomplete(1, 0))
    else
      var mask := Mask(prefixBits);
      var prefix := bytes[0] % (mask + 1);
      var high := bytes[0] - prefix;
      if prefix < mask then Ok(IntegerView(bytes[..1], prefixBits, prefix, high))
      else
        ParseTailEnd(bytes, 1, 0, mask);
        match ParseTail(bytes, 1, 0, mask)
        case Err(e) => Err(e)
        case Ok(t) => Ok(IntegerView(bytes[..t.end], prefixBits, t.value, high))
  }

  /** The loop of the parser: it computes exactly `ParseInteger`. */
  method Parse(bytes: seq<byte>, prefixBits: byte) returns (r: Result<IntegerView, IntegerError>)
    ensures r == ParseInteger(bytes, prefixBits)
  {
    if !ValidPrefix(prefixBits) {
      return Err(InvalidPrefixBits(prefixBits));
    }
    var mask: int := Mask(prefixBits);
    if |bytes| == 0 {
      return Err(Incomplete(1, 0));
    }
    var prefix := bytes[0] % (mask + 1);
    var high := bytes[0] - prefix;
    if prefix < mask {
      return Ok(IntegerView(bytes[..1], prefixBits, prefix, high));
    }
    var value: u64 := mask;
    var shift := 0;
    var index := 1;
    while true
      invariant 1 <= index <= |bytes|
      invariant ParseTail(bytes, 1, 0, mask) == ParseTail(bytes, index, shift, value)
      decreases |bytes| - index
    {
      if index >= |bytes| {
        return Err(Incomplete(index + 1, |bytes|));
      }
      var octet := bytes[index];
      if shift >= 64 {
        return Err(IntegerOverflow);
      }
      var contribution := (octet % 128) * Pow2(shift);
      if contribution >= U64_LIMIT {
        return Err(IntegerOverflow);
      }
      if value + contribution >= U64_LIMIT {
        return Err(IntegerOverflow);
      }
      value := value + contribution;
      index := index + 1;
      if octet < 128 {
        return Ok(IntegerView(bytes[..index], prefixBits, value, high));
      }
      shift := shift + 7;
    }
  }

  // ---- The printer ----

  function EncodeTail(remaining: nat): (octets: seq<byte>) {
    if remaining < 128 then [remaining] else [remaining % 128 + 128] + EncodeTail(remaining / 128)
  }

  function EncodeInteger(value: nat, prefixBits: int, highBits: byte): (octets: seq<byte>)
    requires ValidPrefix(prefixBits)
    requires HighBits(highBits, prefixBits)
    ensures |octets| >= 1
  {
    var mask := Mask(prefixBits);
    HighBitsFit(highBits, prefixBits);
    if value < mask then [highBits + value] else [highBits + mask] + EncodeTail(value - mask)
  }

  lemma HighBitsFit(highBits: byte, prefixBits: int)
    requires ValidPrefix(prefixBits) && HighBits(highBits, prefixBits)
    ensures highBits + Mask(prefixBits) < 256
  {
    match prefixBits
    case 1 =>
    case 2 =>
    case 3 =>
    case 4 =>
    case 5 =>
    case 6 =>
    case 7 =>
    case _ =>
  }

  lemma HighBitsSplit(highBits: byte, prefixBits: int, low: int)
    requires ValidPrefix(prefixBits) && HighBits(highBits, prefixBits) && 0 <= low <= Mask(prefixBits)
    ensures (highBits + low) % (Mask(prefixBits) + 1) == low
  {
    var m := Mask(prefixBits) + 1;
    assert highBits == (highBits / m) * m;
    ModUnique(highBits + low, m, highBits / m, low);
  }

  /** A prefix fits under the high bits, and the two can be told apart again. */
  lemma HighBitsRoom(highBits: byte, prefixBits: int, low: int)
    requires ValidPrefix(prefixBits) && HighBits(highBits, prefixBits) && 0 <= low <= Mask(prefixBits)
    ensures highBits + low <= highBits + Mask(prefixBits) < 256
    ensures (highBits + low) % (Mask(prefixBits) + 1) == low
  {
    HighBitsFit(highBits, prefixBits);
    HighBitsSplit(highBits, prefixBits, low);
  }

  /** The high bits do not change the length of an integer. */
  lemma PrefixLength(value: nat, prefixBits: int, highBits: byte)
    requires ValidPrefix(prefixBits) && HighBits(highBits, prefixBits)
    ensures HighBits(0, prefixBits)
            && |EncodeInteger(value, prefixBits, highBits)| == |EncodeInteger(value, prefixBits, 0)|
  {
  }

  /** The number of octets the printer writes, counted by its loop. */
  method EncodedLen(value: u64, prefixBits: int) returns (required: nat)
    requires ValidPrefix(prefixBits)
    ensures required == |EncodeInteger(value, prefixBits, 0)|
  {
    var mask := Mask(prefixBits);
    if value < mask {
      return 1;
    }
    required := 2;
    var remaining := value - mask;
    while remaining >= 128
      invariant remaining >= 0
      invariant required + |EncodeTail(remaining)| == 2 + |EncodeTail(value - mask)|
    {
      required := required + 1;
      remaining := remaining / 128;
    }
  }

  /** The continuation loop of the printer. */
  method WriteTail(target: array<byte>, at: nat, number: nat)
    requires at + |EncodeTail(number)| <= target.Length
    modifies target
    ensures var octets := EncodeTail(number);
            target[..] == Splice(old(target[..]), at, octets)
  {
    var remaining := number;
    var index := at;
    ghost var done: seq<byte> := [];
    ghost var octets, original := EncodeTail(number), target[..];
    while remaining >= 128
      invariant at <= index == at + |done|
      invariant octets == done + EncodeTail(remaining)
      invariant target[..] == Splice(original, at, done)
    {
      var octet := remaining % 128 + 128;
      ghost var rest := EncodeTail(remaining / 128);
      assert octets == (done + [octet]) + rest;
      SplicePut(original, at, done, octet);
      Put(target, index, octet);
      done := done + [octet];
      remaining := remaining / 128;
      index := index + 1;
    }
    SplicePut(original, at, done, remaining);
    Put(target, index, remaining);
  }

  /** Writes the canonical encoding at `at`, and nothing else. */
  method WriteCanonical(target: array<byte>, at: nat, prefixBits: int, highBits: byte, value: u64)
    requires ValidPrefix(prefixBits)
    requires HighBits(highBits, prefixBits)
    requires at + |EncodeInteger(value, prefixBits, highBits)| <= target.Length
    modifies target
    ensures var octets := EncodeInteger(value, prefixBits, highBits);
            target[..] == Splice(old(target[..]), at, octets)
  {
    var mask: int := Mask(prefixBits);
    HighBitsFit(highBits, prefixBits);
    hide HighBits;
    hide Mask;
    hide EncodeTail;
    ghost var original := target[..];
    if value < mask {
      SpliceOne(original, at, highBits + value);
      Put(target, at, highBits + value);
    } else {
      SpliceOne(original, at, highBits + mask);
      SpliceAppend(original, at, [highBits + mask], EncodeTail(value - mask));
      Put(target, at, highBits + mask);
      WriteTail(target, at + 1, value - mask);
    }
  }

  // ---- Acceptance is exact ----

  lemma Pow2Of7()
    ensures Pow2(7) == 128
  {
    assert Pow2(7) == 2 * Pow2(6) == 4 * Pow2(5) == 8 * Pow2(4) == 16 * Pow2(3) == 32 * Pow2(2);
  }

  lemma TailValue(octets: seq<byte>, shift: nat)
    requires octets != []
    ensures Pow2(shift) * Continuation(octets)
            == (octets[0] % 128) * Pow2(shift) + Pow2(shift + 7) * Continuation(octets[1..])
  {
    Pow2Add(shift, 7);
    Pow2Of7();
    var p, rest := Pow2(shift), Continuation(octets[1..]);
    assert Pow2(shift + 7) == p * 128;
    assert p * (128 * rest) == (p * 128) * rest;
    assert p * (octets[0] % 128 + 128 * rest) == p * (octets[0] % 128) + p * (128 * rest);
  }

  lemma {:induction false} ParseTailExact(bytes: seq<byte>, index: nat, shift: nat, value: u64, v: u64, end: nat)
    ensures ParseTail(bytes, index, shift, value) == Ok(Tail(v, end)) <==>
            && index < end <= |bytes|
            && Terminated(bytes[index..end])
            && v == value + Pow2(shift) * Continuation(bytes[index..end])
            && shift + 7 * (end - index - 1) < 64
    decreases |bytes| - index
  {
    if index < |bytes| && index < end <= |bytes| {
      var octets := bytes[index..end];
      var contribution := (bytes[index] % 128) * Pow2(shift);
      TailValue(octets, shift);
      assert octets[1..] == bytes[index + 1..end];
      assert Pow2(shift + 7) * Continuation(octets[1..]) >= 0;
      if shift < 64 && value + contribution < U64_LIMIT && bytes[index] >= 128 {
        ParseTailExact(bytes, index + 1, shift + 7, value + contribution, v, end);
      }
    } else if index < |bytes| && shift < 64 {
      ParseTailEnd(bytes, index, shift, value);
    }
  }

  /**
   * The parser accepts exactly the encodings with at most ten continuation octets and an
   * exact sum below 2^64, and reports their value and length.
   */
  lemma ParseExact(bytes: seq<byte>, prefixBits: byte, value: u64, length: nat)
    requires ValidPrefix(prefixBits)
    ensures var r := ParseInteger(bytes, prefixBits);
            (r.Ok? && r.value.value == value && |r.value.bytes| == length) <==>
              Encodes(bytes, prefixBits, value, length)
  {
    if bytes != [] && bytes[0] % (Mask(prefixBits) + 1) == Mask(prefixBits) {
      ParseTailExact(bytes, 1, 0, Mask(prefixBits), value, length);
      ParseTailEnd(bytes, 1, 0, Mask(prefixBits));
    }
  }

  lemma {:induction false} TailCut(bytes: seq<byte>, index: nat, shift: nat, value: u64, k: nat)
    requires ParseTail(bytes, index, shift, value).Ok?
    requires index <= k < ParseTail(bytes, index, shift, value).value.end <= |bytes|
    ensures ParseTail(bytes[..k], index, shift, value) == Err(Incomplete(k + 1, k))
    decreases |bytes| - index
  {
    if index < k {
      TailCut(bytes, index + 1, shift + 7, value + (bytes[index] % 128) * Pow2(shift), k);
    }
  }

  /** An accepted integer that is cut short anywhere is incomplete by at least one octet. */
  lemma CutIsIncomplete(bytes: seq<byte>, prefixBits: byte, k: nat)
    requires ParseInteger(bytes, prefixBits).Ok? && k < |ParseInteger(bytes, prefixBits).value.bytes|
    ensures ParseInteger(bytes[..k], prefixBits) == Err(Incomplete(k + 1, k))
  {
    hide ParseTail;
    if k > 0 {
      ParseTailEnd(bytes, 1, 0, Mask(prefixBits));
      TailCut(bytes, 1, 0, Mask(prefixBits), k);
    }
  }

  /** "Incomplete" is reported exactly when every octet supplied so far could still be part of an integer. */
  lemma {:induction false} TailIncompleteExact(bytes: seq<byte>, index: nat, shift: nat, value: u64)
    requires index <= |bytes| && shift <= 70 && shift % 7 == 0
    ensures ParseTail(bytes, index, shift, value) == Err(Incomplete(|bytes| + 1, |bytes|)) <==>
            && (forall k :: index <= k < |bytes| ==> bytes[k] >= 128)
            && shift + 7 * (|bytes| - index) <= 70
            && value + Pow2(shift) * Continuation(bytes[index..]) < U64_LIMIT
    decreases |bytes| - index
  {
    hide Pow2;
    if index == |bytes| {
      assert bytes[index..] == [];
    } else {
      var octets := bytes[index..];
      var contribution := (bytes[index] % 128) * Pow2(shift);
      TailValue(octets, shift);
      assert octets[1..] == bytes[index + 1..];
      assert Pow2(shift + 7) * Continuation(octets[1..]) >= 0;
      if shift < 64 && value + contribution < U64_LIMIT && bytes[index] >= 128 {
        TailIncompleteExact(bytes, index + 1, shift + 7, value + contribution);
      }
    }
  }

  /**
   * An input is incomplete exactly when it is empty, or all its octets continue a full prefix
   * with a sum that is still below 2^64; any other rejected input has overflowed.
   */
  lemma IncompleteExact(bytes: seq<byte>, prefixBits: byte)
    requires ValidPrefix(prefixBits)
    ensures ParseInteger(bytes, prefixBits) == Err(Incomplete(|bytes| + 1, |bytes|)) <==>
            bytes == [] ||
            (&& bytes[0] % (Mask(prefixBits) + 1) == Mask(prefixBits)
             && |bytes| <= 11
             && (forall k :: 1 <= k < |bytes| ==> bytes[k] >= 128)
             && Mask(prefixBits) + Continuation(bytes[1..]) < U64_LIMIT)
    ensures var r := ParseInteger(bytes, prefixBits);
            r.Ok? || r == Err(IntegerOverflow) || r == Err(Incomplete(|bytes| + 1, |bytes|))
  {
    if bytes != [] && bytes[0] % (Mask(prefixBits) + 1) == Mask(prefixBits) {
      assert Pow2(0) == 1;
      TailIncompleteExact(bytes, 1, 0, Mask(prefixBits));
      TailErrors(bytes, 1, 0, Mask(prefixBits));
    }
  }

  lemma {:induction false} TailErrors(bytes: seq<byte>, index: nat, shift: nat, value: u64)
    requires index <= |bytes|
    ensures var r := ParseTail(bytes, index, shift, value);
            r.Ok? || r == Err(IntegerOverflow) || r == Err(Incomplete(|bytes| + 1, |bytes|))
    decreases |bytes| - index
  {
    if index < |bytes| && shift < 64 {
      var contribution := (bytes[index] % 128) * Pow2(shift);
      if value + contribution < U64_LIMIT && bytes[index] >= 128 {
        TailErrors(bytes, index + 1, shift + 7, value + contribution);
      }
    }
  }

  // ---- Round trip and minimality ----

  lemma {:induction false} EncodeTailMeaning(remaining: nat, groups: nat)
    requires remaining < Pow2(7 * groups)
    ensures Terminated(EncodeTail(remaining))
    ensures Continuation(EncodeTail(remaining)) == remaining
    ensures |EncodeTail(remaining)| <= Max(1, groups)
    decreases groups
  {
    var octets := EncodeTail(remaining);
    if remaining >= 128 {
      assert groups > 0;
      Pow2Add(7, 7 * (groups - 1));
      Pow2Of7();
      assert Pow2(7 * groups) == 128 * Pow2(7 * (groups - 1));
      EncodeTailMeaning(remaining / 128, groups - 1);
      assert octets[1..] == EncodeTail(remaining / 128);
      assert groups - 1 > 0;
    } else {
      assert octets[1..] == [];
    }
  }

  lemma EncodeIsEncoding(value: u64, prefixBits: byte, highBits: byte, suffix: seq<byte>)
    requires ValidPrefix(prefixBits)
    requires HighBits(highBits, prefixBits)
    ensures var octets := EncodeInteger(value, prefixBits, highBits);
            && Encodes(octets + suffix, prefixBits, value, |octets|)
            && 1 <= |octets| <= 11
  {
    var mask := Mask(prefixBits);
    var octets := EncodeInteger(value, prefixBits, highBits);
    HighBitsRoom(highBits, prefixBits, Min(value, mask));
    assert (octets + suffix)[0] == octets[0];
    if value >= mask {
      Pow2Of64();
      Pow2Add(64, 6);
      EncodeTailMeaning(value - mask, 10);
      assert (octets + suffix)[1..|octets|] == EncodeTail(value - mask);
    }
  }

  /** Parsing what the printer wrote, followed by anything, returns it and stops exactly at its end. */
  lemma RoundTrip(value: u64, prefixBits: byte, highBits: byte, suffix: seq<byte>)
    requires ValidPrefix(prefixBits)
    requires HighBits(highBits, prefixBits)
    ensures var octets := EncodeInteger(value, prefixBits, highBits);
            ParseInteger(octets + suffix, prefixBits) == Ok(IntegerView(octets, prefixBits, value, highBits))
  {
    var mask := Mask(prefixBits);
    var octets := EncodeInteger(value, prefixBits, highBits);
    EncodeIsEncoding(value, prefixBits, highBits, suffix);
    ParseExact(octets + suffix, prefixBits, value, |octets|);
    HighBitsRoom(highBits, prefixBits, Min(value, mask));
    assert (octets + suffix)[0] == octets[0];
    assert (octets + suffix)[..|octets|] == octets;
  }

  lemma {:induction false} TailMinimal(octets: seq<byte>)
    requires Terminated(octets)
    ensures |EncodeTail(Continuation(octets))| <= |octets|
  {
    if |octets| > 1 {
      TailMinimal(octets[1..]);
      assert Continuation(octets) / 128 == Continuation(octets[1..]);
    } else {
      assert octets[1..] == [];
    }
  }

  /** No accepted encoding of a value is shorter than the one the printer writes. */
  lemma Minimal(bytes: seq<byte>, prefixBits: byte, highBits: byte)
    requires ValidPrefix(prefixBits)
    requires HighBits(highBits, prefixBits)
    requires ParseInteger(bytes, prefixBits).Ok?
    ensures var view := ParseInteger(bytes, prefixBits).value;
            |EncodeInteger(view.value, prefixBits, highBits)| <= |view.bytes|
  {
    var view := ParseInteger(bytes, prefixBits).value;
    ParseExact(bytes, prefixBits, view.value, |view.bytes|);
    if |view.bytes| > 1 {
      TailMinimal(bytes[1..|view.bytes|]);
    }
  }

  /** The examples of RFC 7541 appendix C.1. */
  lemma RfcIntegers()
    ensures EncodeInteger(10, 5, 0) == [0x0A]
    ensures EncodeInteger(1337, 5, 0) == [0x1F, 0x9A, 0x0A]
    ensures EncodeInteger(42, 8, 0) == [0x2A]
  {
    assert EncodeTail(10) == [10];
    assert EncodeTail(1306) == [0x9A] + EncodeTail(10);
  }
}
